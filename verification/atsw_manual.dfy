/**
 * atsw_manual: jump to the window class bound to a mark number, cycling
 * through the windows of that class when one of them is already active.
 * The marks file is read with a lenient parser (atoi on the key, only
 * leading whitespace removed from the value, empty values kept).
 */
module AtswManual {
  import opened Common
  import opened CString
  import opened Registry
  import opened Activation
  import opened MarkTable

  // ---------------------------------------------------------------------
  // read_marks_file

  /**
   * One line as read_marks_file reads it: skip leading whitespace; blank
   * lines, '#' comments and lines without '=' are skipped; the key is what
   * precedes the first '=' and atoi of it must be positive; the value is
   * what follows, with leading whitespace skipped.
   */
  function LenientLine(line: string): (r: Option<Mark>)
    ensures r.Some? ==> 0 < r.value.number <= IntMax
    ensures r.Some? ==> |r.value.wmClass| == 0 || !IsSpace(r.value.wmClass[0])
  {
    var p := SkipSpaces(line);
    if |p| == 0 || p[0] == '#' then None
    else match IndexOfChar(p, '=')
      case None => None
      case Some(eq) =>
        var num := Atoi(p[..eq]);
        if num <= 0 then None
        else
          var value := SkipSpaces(p[eq + 1..]);
          assert LeadingSpaceCount(p[eq + 1..]) < |p[eq + 1..]| ==> !IsSpace(value[0]);
          Some(Mark(num, value))
  }

  /** Blank lines, comments and lines without '=' are never marks. */
  lemma LenientSkips(line: string)
    requires |SkipSpaces(line)| == 0 || SkipSpaces(line)[0] == '#' || '=' !in line
    ensures LenientLine(line).None?
  {
    var p := SkipSpaces(line);
    if |p| > 0 && p[0] != '#' {
      assert forall k :: 0 <= k < |p| ==> p[k] == line[LeadingSpaceCount(line) + k];
      assert '=' !in p;
    }
  }

  /** atoi reads the leading digits and ignores what follows. */
  lemma AtoiLeadingDigits()
    ensures Atoi("3x") == 3
  {
    var key := "3x";
    assert LeadingSpaceCount(key) == 0 && key[0..] == key;
    assert SignLength(key) == 0;
    assert LeadingDigitCount(key[1..]) == 0;
    assert LeadingDigitCount(key) == 1;
    assert key[0..1] == "3";
    assert DigitsValue("3") == 3 by {
      assert "3"[..0] == "";
    }
  }

  /** Leading digits are enough: "3x=foo" binds mark 3. */
  lemma LeadingDigitsSuffice()
    ensures LenientLine("3x=foo") == Some(Mark(3, "foo"))
  {
    var line := "3x=foo";
    SkipUnspaced(line);
    assert IndexOfChar(line, '=') == Some(2);
    assert line[..2] == "3x";
    AtoiLeadingDigits();
    assert line[3..] == "foo";
    SkipUnspaced("foo");
  }

  /** A string that starts with a non-space is its own SkipSpaces. */
  lemma SkipUnspaced(s: string)
    requires |s| > 0 && !IsSpace(s[0])
    ensures SkipSpaces(s) == s
  {
    assert LeadingSpaceCount(s) == 0;
    assert s[0..] == s;
  }

  /** An empty value is still recorded: "5=" binds mark 5 to "". */
  lemma EmptyValueKept()
    ensures LenientLine("5=") == Some(Mark(5, ""))
  {
    var line := "5=";
    assert LeadingSpaceCount(line) == 0;
    assert SkipSpaces(line) == line;
    assert IndexOfChar(line, '=') == Some(1);
    var key := line[..1];
    assert key == "5";
    assert LeadingSpaceCount(key) == 0 && key[0..] == key;
    assert SignLength(key) == 0;
    assert LeadingDigitCount(key) == 1;
    assert key[0..1] == "5";
    assert DigitsValue("5") == 5 by {
      assert "5"[..0] == "";
    }
    assert Atoi(key) == 5;
    assert line[2..] == "";
  }

  /** The marks of all lines, in file order. */
  function LenientEntries(lines: seq<string>): (r: seq<Mark>)
    ensures |r| <= |lines|
    ensures forall k :: 0 <= k < |r| ==> 0 < r[k].number <= IntMax
  {
    if |lines| == 0 then []
    else
      var n := |lines| - 1;
      var m := LenientLine(lines[n]);
      LenientEntries(lines[..n]) + (if m.Some? then [m.value] else [])
  }

  lemma {:induction false} LenientEntriesPrefix(lines: seq<string>, i: nat)
    requires i <= |lines|
    ensures LenientEntries(lines[..i]) <= LenientEntries(lines)
    decreases |lines|
  {
    if i < |lines| {
      var n := |lines| - 1;
      assert lines[..n][..i] == lines[..i];
      LenientEntriesPrefix(lines[..n], i);
    } else {
      assert lines[..i] == lines;
    }
  }

  /** The marks read_marks_file stores: none when the file cannot be
      opened, otherwise the first MAX_MARKS entries of the file. */
  function LoadMarks(file: Option<seq<string>>): (marks: seq<Mark>)
    ensures |marks| <= MaxMarks
    ensures forall k :: 0 <= k < |marks| ==> 0 < marks[k].number <= IntMax
  {
    if file.None? then [] else Take(LenientEntries(file.value), MaxMarks)
  }

  /** The loop body of read_marks_file. The key needs no second skip: it
      already starts after the leading whitespace. */
  method ParseMarkLine(line: string) returns (m: Option<Mark>)
    ensures m == LenientLine(line)
  {
    var lo := SkipSpaceIndex(line);
    var p := line[lo..];
    if |p| == 0 || p[0] == '#' {
      return None;
    }
    var eq := IndexOfChar(p, '=');
    if eq.None? {
      return None;
    }
    var numberStr := p[..eq.value];
    var wmClass := p[eq.value + 1..];
    var start := SkipSpaceIndex(wmClass);
    var num := Atoi(numberStr);
    if num <= 0 {
      return None;
    }
    m := Some(Mark(num, wmClass[start..]));
  }

  /** One pass of the read_marks_file loop: the line is parsed and, when it
      is a mark, appended to what the earlier lines gave. */
  method ReadMarkLine(lines: seq<string>, i: nat, marks: seq<Mark>) returns (next: seq<Mark>)
    requires i < |lines| && marks == LenientEntries(lines[..i])
    ensures next == LenientEntries(lines[..i + 1])
    ensures |next| <= |marks| + 1
  {
    assert lines[..i + 1][..i] == lines[..i];
    var m := ParseMarkLine(lines[i]);
    next := marks;
    if m.Some? {
      next := marks + [m.value];
    }
  }

  /** read_marks_file: read lines until the file ends or MAX_MARKS marks
      are stored. */
  method ReadMarksFile(file: Option<seq<string>>) returns (marks: seq<Mark>)
    ensures marks == LoadMarks(file)
  {
    if file.None? {
      return [];
    }
    var lines := file.value;
    marks := [];
    var i := 0;
    while i < |lines| && |marks| < MaxMarks
      invariant 0 <= i <= |lines|
      invariant marks == LenientEntries(lines[..i]) && |marks| <= MaxMarks
    {
      marks := ReadMarkLine(lines, i, marks);
      i := i + 1;
    }
    LenientEntriesPrefix(lines, i);
    if i == |lines| {
      assert lines[..i] == lines;
    }
  }

  /** The count read_marks_file returns is zero exactly when the file
      cannot be opened or has no mark line; then main exits 1. */
  lemma NoMarksIff(file: Option<seq<string>>)
    ensures |LoadMarks(file)| == 0 <==> file.None? || |LenientEntries(file.value)| == 0
  {
  }

  lemma TakePrefix(pre: seq<Mark>, all: seq<Mark>, n: nat)
    requires pre <= all
    ensures Take(all, n) == Take(pre, n) + Take(all, n)[|Take(pre, n)|..]
  {
    var a, b := Take(all, n), Take(pre, n);
    assert forall k :: 0 <= k < |b| ==> b[k] == pre[k] == all[k] == a[k];
  }

  /** Lines added after a line that binds a number never change what the
      number resolves to. */
  lemma FirstBindingWins(lines: seq<string>, more: seq<string>, n: int)
    requires FindClassForMark(LoadMarks(Some(lines)), n).Some?
    ensures FindClassForMark(LoadMarks(Some(lines + more)), n) == FindClassForMark(LoadMarks(Some(lines)), n)
  {
    var all := LenientEntries(lines + more);
    var pre := LenientEntries(lines);
    LenientEntriesPrefix(lines + more, |lines|);
    assert (lines + more)[..|lines|] == lines;
    var a, b := Take(all, MaxMarks), Take(pre, MaxMarks);
    TakePrefix(pre, all, MaxMarks);
    assert LoadMarks(Some(lines)) == b;
    assert LoadMarks(Some(lines + more)) == a;
    LaterMarksIgnored(b, a[|b|..], n);
  }

  // ---------------------------------------------------------------------
  // find_windows_by_class

  /** find_windows_by_class: the windows whose class equals the target
      ignoring case, in discovery order, at most maxIndices of them. */
  method FindWindowsByClass(windows: seq<Window>, target: string, maxIndices: nat)
    returns (indices: seq<nat>)
    ensures indices == Take(Matching(windows, target, false, -1), maxIndices)
  {
    indices := [];
    var i := 0;
    while i < |windows| && |indices| < maxIndices
      invariant 0 <= i <= |windows|
      invariant indices == Matching(windows[..i], target, false, -1)
      invariant |indices| <= maxIndices
    {
      assert windows[..i + 1][..i] == windows[..i];
      if EqualsIgnoreCase(windows[i].wmClass, target) {
        indices := indices + [i];
      }
      i := i + 1;
    }
    MatchingPrefix(windows, i, target, false, -1);
    if i == |windows| {
      assert windows[..i] == windows;
    }
  }

  // ---------------------------------------------------------------------
  // Cycle-next selection

  /** The first position among the matches whose window is the active one. */
  function ActivePosition(ws: seq<Window>, matches: seq<nat>, active: nat): (r: Option<nat>)
    requires forall k :: 0 <= k < |matches| ==> matches[k] < |ws|
    ensures r.None? <==> forall k :: 0 <= k < |matches| ==> ws[matches[k]].id != active
    ensures r.Some? ==> r.value < |matches| && ws[matches[r.value]].id == active
    ensures r.Some? ==> forall k :: 0 <= k < r.value ==> ws[matches[k]].id != active
  {
    if |matches| == 0 then None
    else if ws[matches[0]].id == active then Some(0)
    else
      var r := ActivePosition(ws, matches[1..], active);
      assert forall k :: 1 <= k < |matches| ==> matches[1..][k - 1] == matches[k];
      if r.None? then None else Some(r.value + 1)
  }

  /** The window main activates: the only match; the match after the
      active one, wrapping around; or the first match when the active
      window is not among them. */
  function CycleTarget(ws: seq<Window>, matches: seq<nat>, active: nat): (r: nat)
    requires |matches| > 0 && forall k :: 0 <= k < |matches| ==> matches[k] < |ws|
    ensures r in matches
  {
    if |matches| == 1 then matches[0]
    else match ActivePosition(ws, matches, active)
      case Some(i) => matches[(i + 1) % |matches|]
      case None => matches[0]
  }

  /** The choice in main, with its search loop for the active window. */
  method ChooseTarget(ws: seq<Window>, matches: seq<nat>, active: nat) returns (target: nat)
    requires |matches| > 0 && forall k :: 0 <= k < |matches| ==> matches[k] < |ws|
    ensures target == CycleTarget(ws, matches, active)
  {
    if |matches| == 1 {
      return matches[0];
    }
    var activeIdx := -1;
    var i := 0;
    while i < |matches|
      invariant 0 <= i <= |matches|
      invariant forall k :: 0 <= k < i ==> ws[matches[k]].id != active
    {
      if ws[matches[i]].id == active {
        activeIdx := i;
        break;
      }
      i := i + 1;
    }
    if activeIdx >= 0 {
      assert ActivePosition(ws, matches, active) == Some(activeIdx);
      target := matches[(activeIdx + 1) % |matches|];
    } else {
      target := matches[0];
    }
  }

  /** Distinct windows have distinct ids. */
  predicate DistinctIds(ws: seq<Window>)
  {
    forall i, j :: 0 <= i < j < |ws| ==> ws[i].id != ws[j].id
  }

  /** When the active window is the i-th match, the (i+1)-th (wrapping
      around) is chosen, and with several matches that is another window. */
  lemma CycleAdvances(ws: seq<Window>, matches: seq<nat>, i: nat)
    requires DistinctIds(ws) && StrictlyIncreasing(matches)
    requires forall k :: 0 <= k < |matches| ==> matches[k] < |ws|
    requires i < |matches|
    ensures |matches| > 1 ==> CycleTarget(ws, matches, ws[matches[i]].id) == matches[(i + 1) % |matches|]
    ensures |matches| > 1 ==> ws[CycleTarget(ws, matches, ws[matches[i]].id)].id != ws[matches[i]].id
  {
    if |matches| > 1 {
      var active := ws[matches[i]].id;
      var p := ActivePosition(ws, matches, active);
      assert p.Some?;
      assert ws[matches[p.value]].id == ws[matches[i]].id;
      assert matches[p.value] == matches[i];
      assert p.value == i;
      var j := (i + 1) % |matches|;
      assert j != i;
      if j < i {
        assert matches[j] < matches[i];
      } else {
        assert matches[i] < matches[j];
      }
    }
  }

  // ---------------------------------------------------------------------
  // main

  /** The class bound to the mark, when the arguments and marks allow one. */
  function TargetOf(args: seq<string>, marksFile: Option<seq<string>>): Option<string>
  {
    if |args| != 1 || Atoi(args[0]) <= 0 then None
    else FindClassForMark(LoadMarks(marksFile), Atoi(args[0]))
  }

  /**
   * main of atsw_manual.c. `args` are the arguments after the program
   * name, `active` is _NET_ACTIVE_WINDOW (0 when absent). A bad argument
   * count or mark exits 1 before connecting; no display exits 2; no marks,
   * no binding for the mark, or no window of the class exits 1; no window
   * at all exits 2; otherwise the chosen window is activated and the exit
   * code is 0.
   */
  method AtswManualMain(args: seq<string>, displayOk: bool, marksFile: Option<seq<string>>,
                        clientList: seq<RawWindow>, active: nat)
    returns (exit: Exit, ops: seq<Op>)
    ensures exit.Exited?
    ensures |args| != 1 || Atoi(args[0]) <= 0 ==> exit == Exited(1, None) && ops == []
    ensures |args| == 1 && Atoi(args[0]) > 0 && !displayOk ==> exit == Exited(2, None) && ops == []
    ensures |args| == 1 && Atoi(args[0]) > 0 && displayOk && TargetOf(args, marksFile).None? ==>
      exit == Exited(1, None) && ops == []
    ensures var ws := Discover(clientList);
      displayOk && TargetOf(args, marksFile).Some? && |ws| == 0 ==> exit == Exited(2, None) && ops == []
    ensures var ws, t := Discover(clientList), TargetOf(args, marksFile);
      displayOk && t.Some? && |ws| > 0 ==>
        var m := Take(Matching(ws, t.value, false, -1), MaxWindows);
        if |m| == 0 then exit == Exited(1, None) && ops == []
        else
          var c := CycleTarget(ws, m, active);
          exit == Exited(0, Some(ws[c])) && ops == ActivationOps(ws[c].id, ws[c].desktop)
    ensures exit.Exited? && exit.code == 0 ==> exit.activated.Some? && exit.activated.value in Discover(clientList)
  {
    ops := [];
    if |args| != 1 {
      return Exited(1, None), [];
    }
    var markNum := Atoi(args[0]);
    if markNum <= 0 {
      return Exited(1, None), [];
    }
    if !displayOk {
      return Exited(2, None), [];
    }
    var marks := ReadMarksFile(marksFile);
    if |marks| == 0 {
      return Exited(1, None), [];
    }
    var target := FindClassForMark(marks, markNum);
    if target.None? {
      return Exited(1, None), [];
    }
    var ws := Discover(clientList);
    if |ws| == 0 {
      return Exited(2, None), [];
    }
    var matching := FindWindowsByClass(ws, target.value, MaxWindows);
    if |matching| == 0 {
      return Exited(1, None), [];
    }
    var chosen := ChooseTarget(ws, matching, active);
    exit := Exited(0, Some(ws[chosen]));
    ops := ActivationOps(ws[chosen].id, ws[chosen].desktop);
  }
}
