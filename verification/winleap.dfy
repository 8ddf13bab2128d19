/**
 * winleap: jump to the window a numbered mark is bound to. The mark names a
 * window class; the windows of that class (optionally only those on the
 * current desktop) are the candidates; a single candidate is activated at
 * once, several are told apart by the configured selector keys.
 */
module Winleap {
  import opened Common
  import opened CString
  import opened Registry
  import opened Grab
  import opened Activation
  import opened MarkTable
  import opened WinleapConfig

  // ---------------------------------------------------------------------
  // path_join and build_path_near_executable

  /** path_join: b when a is empty, a when b is empty, otherwise the two
      joined by exactly one '/' (none added when a already ends in one). */
  function PathJoin(a: string, b: string): (r: string)
    ensures |a| == 0 ==> r == b
    ensures |a| > 0 && |b| == 0 ==> r == a
    ensures |a| > 0 && |b| > 0 ==>
      |r| >= |a| + |b| && r[..|a|] == a && r[|r| - |b|..] == b &&
      (r == a + b <==> a[|a| - 1] == '/')
  {
    if |a| == 0 then b
    else if |b| == 0 then a
    else if a[|a| - 1] == '/' then a + b
    else
      var r := a + "/" + b;
      assert r != a + b by {
        assert r[|a|] == '/';
        assert b[0] == (a + b)[|a|];
        if b[0] == '/' {
          assert |r| != |a + b|;
        }
      }
      r
  }

  /** The part after the last '/', or the whole string without one. */
  function BaseName(s: string): string
  {
    match LastIndexOfChar(s, '/')
    case None => s
    case Some(k) => s[k + 1..]
  }

  /** The part before the last '/', if there is one. */
  function DirName(s: string): Option<string>
  {
    match LastIndexOfChar(s, '/')
    case None => None
    case Some(k) => Some(s[..k])
  }

  /** The last '/' of a + sep + b, where b has none, is the last of sep
      or, failing that, of a. */
  lemma LastSlashOfJoin(a: string, sep: string, b: string)
    requires '/' !in b && sep in {"", "/"}
    requires sep == "/" || (|a| > 0 && a[|a| - 1] == '/')
    ensures var r := a + sep + b;
      LastIndexOfChar(r, '/') == Some(|a| + |sep| - 1)
  {
    var r := a + sep + b;
    var p := |a| + |sep| - 1;
    assert r[p] == '/';
    forall j | p < j < |r| ensures r[j] != '/' {
      assert r[j] == b[j - |a| - |sep|];
    }
    var k := LastIndexOfChar(r, '/');
    assert k.Some?;
  }

  /** Joining a file name (no '/') under a non-empty directory puts it in
      that directory: the base name is the file name and the directory is
      a, less the one trailing '/' it may already have. */
  lemma PathJoinSplits(a: string, b: string)
    requires |a| > 0 && |b| > 0 && '/' !in b
    ensures BaseName(PathJoin(a, b)) == b
    ensures DirName(PathJoin(a, b)) ==
      Some(if a[|a| - 1] == '/' then a[..|a| - 1] else a)
  {
    if a[|a| - 1] == '/' {
      LastSlashOfJoin(a, "", b);
      assert a + "" + b == a + b;
      assert (a + b)[..|a| - 1] == a[..|a| - 1];
    } else {
      LastSlashOfJoin(a, "/", b);
      assert (a + "/" + b)[..|a|] == a;
    }
  }

  /** build_path_near_executable: the file name in the directory of argv0,
      or the bare file name when argv0 has no '/'. */
  function BuildPathNearExecutable(argv0: string, filename: string): string
  {
    match LastIndexOfChar(argv0, '/')
    case None => filename
    case Some(k) => argv0[..k] + "/" + filename
  }

  /** The built path names the file in the executable's own directory. */
  lemma NearExecutableSplits(argv0: string, filename: string)
    requires '/' !in filename
    ensures BaseName(BuildPathNearExecutable(argv0, filename)) == filename
    ensures DirName(BuildPathNearExecutable(argv0, filename)) == DirName(argv0)
  {
    var slash := LastIndexOfChar(argv0, '/');
    if slash.Some? {
      var dir := argv0[..slash.value];
      LastSlashOfJoin(dir, "/", filename);
      assert (dir + "/" + filename)[..|dir|] == dir;
    }
  }

  // ---------------------------------------------------------------------
  // find_windows_by_class_and_scope

  /**
   * find_windows_by_class_and_scope: scan the windows in order, keep the
   * index of each whose class equals the target ignoring case and, when
   * scoped, whose desktop is the (known) current one; stop after
   * maxIndices hits.
   */
  method FindWindowsByClassAndScope(windows: seq<Window>, target: string, scoped: bool,
                                    currentDesktop: int, maxIndices: nat)
    returns (indices: seq<nat>)
    ensures indices == Take(Matching(windows, target, scoped, currentDesktop), maxIndices)
  {
    indices := [];
    var i := 0;
    while i < |windows| && |indices| < maxIndices
      invariant 0 <= i <= |windows|
      invariant indices == Matching(windows[..i], target, scoped, currentDesktop)
      invariant |indices| <= maxIndices
    {
      assert windows[..i + 1][..i] == windows[..i];
      var w := windows[i];
      i := i + 1;
      if !EqualsIgnoreCase(w.wmClass, target) {
        continue;
      }
      if scoped {
        if currentDesktop < 0 {
          continue;
        }
        if DesktopNumber(w) != currentDesktop {
          continue;
        }
      }
      indices := indices + [i - 1];
    }
    MatchingPrefix(windows, i, target, scoped, currentDesktop);
    if i == |windows| {
      assert windows[..i] == windows;
    }
  }

  // ---------------------------------------------------------------------
  // select_instance_interactively

  /** How the selection ends: a chosen window index, cancelled by Escape,
      refused (before or at the grab), or still waiting for a key when the
      events run out. */
  datatype Selection = Chosen(index: nat) | Cancelled | Failed | Waiting

  /** A key press that ends the wait: Escape, or a key whose text starts
      with one of the selectors (after lower-casing). */
  predicate Decisive(e: KeyEvent, selectors: string)
  {
    e.KeyPress? && (e.sym == Escape || (|e.text| > 0 && ToLower(e.text[0]) in selectors))
  }

  /** What a decisive key selects: Escape cancels; otherwise the candidate
      paired with the first selector equal to the typed character. */
  function Decision(e: KeyEvent, matching: seq<nat>, selectors: string): (s: Selection)
    requires Decisive(e, selectors) && |selectors| == |matching|
    ensures s.Chosen? ==> s.index in matching
  {
    if e.sym == Escape then Cancelled
    else Chosen(matching[IndexOfChar(selectors, ToLower(e.text[0])).value])
  }

  /** The outcome of reading the events: the decision of the first
      decisive key, or still waiting when there is none. */
  function FirstDecision(events: seq<KeyEvent>, matching: seq<nat>, selectors: string): (s: Selection)
    requires |selectors| == |matching|
    ensures s.Chosen? ==> s.index in matching
    ensures s != Failed
    decreases |events|
  {
    if |events| == 0 then Waiting
    else if Decisive(events[0], selectors) then Decision(events[0], matching, selectors)
    else FirstDecision(events[1..], matching, selectors)
  }

  /** The first decisive key decides, and the wait goes on exactly when no
      key is decisive. */
  lemma {:induction false} FirstDecisionIsFirstDecisive(events: seq<KeyEvent>, matching: seq<nat>, selectors: string)
    requires |selectors| == |matching|
    ensures var s := FirstDecision(events, matching, selectors);
      (s == Waiting <==> forall k :: 0 <= k < |events| ==> !Decisive(events[k], selectors)) &&
      forall k ::
        (0 <= k < |events| && Decisive(events[k], selectors) &&
         forall j :: 0 <= j < k ==> !Decisive(events[j], selectors)) ==>
        s == Decision(events[k], matching, selectors)
    decreases |events|
  {
    if |events| > 0 && !Decisive(events[0], selectors) {
      var rest := events[1..];
      FirstDecisionIsFirstDecisive(rest, matching, selectors);
      assert forall k :: 1 <= k < |events| ==> events[k] == rest[k - 1];
      forall k | 0 <= k < |events| && Decisive(events[k], selectors) &&
                 forall j :: 0 <= j < k ==> !Decisive(events[j], selectors)
        ensures FirstDecision(events, matching, selectors) == Decision(events[k], matching, selectors)
      {
        assert k > 0 && rest[k - 1] == events[k];
        forall j | 0 <= j < k - 1 ensures !Decisive(rest[j], selectors) {
          assert rest[j] == events[j + 1];
        }
      }
      if FirstDecision(events, matching, selectors) != Waiting {
        var k :| 0 <= k < |rest| && Decisive(rest[k], selectors);
        assert events[k + 1] == rest[k];
      }
    }
  }

  /** What select_instance_interactively returns: refused when there is no
      candidate, more candidates than selector keys, or the grab is not
      granted; otherwise the first decisive key decides. */
  ghost function Selected(matching: seq<nat>, instanceKeys: string,
                          replies: seq<GrabStatus>, events: seq<KeyEvent>): (s: Selection)
    ensures s.Chosen? ==> s.index in matching
    ensures s == Failed <==> |matching| == 0 || |matching| > |instanceKeys| || !Granted(replies)
  {
    if |matching| == 0 || |matching| > |instanceKeys| || !Granted(replies) then Failed
    else FirstDecision(events, matching, instanceKeys[..|matching|])
  }

  /**
   * select_instance_interactively: refuse when there are no candidates or
   * more than there are selector keys; otherwise grab the keyboard (refuse
   * if that fails) and read events until the first decisive key: Escape
   * cancels, a selector picks its candidate, anything else is ignored.
   * Also returns the number of grab attempts made (0 when refused first).
   */
  method SelectInstance(matching: seq<nat>, instanceKeys: string,
                        replies: seq<GrabStatus>, events: seq<KeyEvent>)
    returns (s: Selection, attempts: nat)
    requires |replies| >= MaxGrabAttempts
    ensures s == Selected(matching, instanceKeys, replies, events)
    ensures (|matching| == 0 || |matching| > |instanceKeys|) ==> attempts == 0
    ensures 0 < |matching| <= |instanceKeys| ==> 1 <= attempts <= MaxGrabAttempts
  {
    if |matching| == 0 || |matching| > |instanceKeys| {
      return Failed, 0;
    }
    var ok, n, sleeps := GrabKeyboard(replies);
    attempts := n;
    if !ok {
      return Failed, attempts;
    }
    ghost var selectors := instanceKeys[..|matching|];
    var i := 0;
    while i < |events|
      invariant 0 <= i <= |events|
      invariant Selected(matching, instanceKeys, replies, events) ==
        FirstDecision(events[i..], matching, selectors)
    {
      var event := events[i];
      assert events[i..][1..] == events[i + 1..];
      if event.NotKeyPress? {
        i := i + 1;
        continue;
      }
      if event.sym == Escape {
        return Cancelled, attempts;
      }
      if |event.text| == 0 {
        i := i + 1;
        continue;
      }
      var typed := ToLower(event.text[0]);
      var m := 0;
      while m < |matching|
        invariant 0 <= m <= |matching|
        invariant forall q :: 0 <= q < m ==> selectors[q] != typed
      {
        if typed == instanceKeys[m] {
          assert IndexOfChar(selectors, typed) == Some(m);
          return Chosen(matching[m]), attempts;
        }
        m := m + 1;
      }
      assert typed !in selectors;
      i := i + 1;
    }
    assert events[i..] == [];
    s := Waiting;
  }

  // ---------------------------------------------------------------------
  // main, from the mark argument on

  /** The class the mark argument names, if the argument is a positive
      number, the configuration loads and binds it. */
  function TargetClass(markArg: string, configFile: Option<seq<string>>): Option<string>
  {
    var mark := Atoi(markArg);
    if mark <= 0 then None
    else match LoadConfig(configFile)
      case None => None
      case Some(config) => FindClassForMark(config.marks, mark)
  }

  /** The windows discover_windows records (none when _NET_CLIENT_LIST
      cannot be read). */
  function DiscoveredWindows(clientList: Option<seq<RawWindow>>): seq<Window>
  {
    if clientList.None? then [] else Discover(clientList.value)
  }

  /** The candidate windows a match list names. */
  function Picked(windows: seq<Window>, matching: seq<nat>): seq<Window>
    requires forall k :: 0 <= k < |matching| ==> matching[k] < |windows|
  {
    seq(|matching|, k requires 0 <= k < |matching| => windows[matching[k]])
  }

  /** How main ends after a selection: Escape exits 1, a refusal exits 2,
      a chosen candidate is activated and exits 0, and with no decisive key
      main is still waiting. */
  ghost predicate SelectionEnds(exit: Exit, windows: seq<Window>, s: Selection)
  {
    match s
    case Cancelled => exit == Exited(1, None)
    case Failed => exit == Exited(2, None)
    case Waiting => exit == Blocked
    case Chosen(i) => i < |windows| && exit == Exited(0, Some(windows[i]))
  }

  /**
   * The dispatch at the end of main: one candidate is activated at once;
   * with several, the selection decides: cancelled exits 1, refused exits
   * 2, chosen is activated. Activation exits 0 and returns the requests
   * activate_window sends.
   */
  method Dispatch(windows: seq<Window>, matching: seq<nat>, instanceKeys: string,
                  replies: seq<GrabStatus>, events: seq<KeyEvent>)
    returns (exit: Exit, ops: seq<Op>)
    requires |replies| >= MaxGrabAttempts
    requires |matching| > 0
    requires forall k :: 0 <= k < |matching| ==> matching[k] < |windows|
    ensures exit.Exited? ==> exit.code <= 2 && (exit.code == 0 <==> exit.activated.Some?)
    ensures exit.Exited? && exit.activated.Some? ==>
      exit.activated.value in Picked(windows, matching) &&
      ops == ActivationOps(exit.activated.value.id, exit.activated.value.desktop)
    ensures !(exit.Exited? && exit.activated.Some?) ==> ops == []
    ensures |matching| == 1 ==> exit == Exited(0, Some(windows[matching[0]]))
    ensures |matching| >= 2 ==> SelectionEnds(exit, windows, Selected(matching, instanceKeys, replies, events))
    ensures exit == Blocked ==> |matching| >= 2 && Granted(replies)
    ensures |matching| >= 2 && (|matching| > |instanceKeys| || !Granted(replies)) ==>
      exit == Exited(2, None)
  {
    ops := [];
    var targetIdx: nat;
    if |matching| == 1 {
      targetIdx := matching[0];
    } else {
      var selection, _ := SelectInstance(matching, instanceKeys, replies, events);
      match selection {
        case Cancelled =>
          return Exited(1, None), ops;
        case Failed =>
          return Exited(2, None), ops;
        case Waiting =>
          return Blocked, ops;
        case Chosen(index) =>
          targetIdx := index;
      }
    }
    ghost var k :| 0 <= k < |matching| && matching[k] == targetIdx;
    var w := windows[targetIdx];
    assert Picked(windows, matching)[k] == w;
    ops := ActivationOps(w.id, w.desktop);
    exit := Exited(0, Some(w));
  }

  /** The first steps of main: atoi of the mark (rejected unless
      positive), read_config_file, and find_wmclass_for_mark. */
  method ResolveMark(markArg: string, configFile: Option<seq<string>>)
    returns (config: Option<Config>, target: Option<string>)
    ensures target == TargetClass(markArg, configFile)
    ensures target.Some? ==> config == LoadConfig(configFile) && config.Some?
  {
    var markNum := Atoi(markArg);
    if markNum <= 0 {
      return None, None;
    }
    config := ReadConfigFile(configFile);
    if config.None? {
      return None, None;
    }
    target := FindClassForMark(config.value.marks, markNum);
  }

  /**
   * main once the mark names a class: open the display, discover the
   * windows, find the candidates and dispatch. Exit 2 for no display or no
   * windows, 1 for no candidate.
   */
  method JumpToClass(target: string, instanceKeys: string, displayOk: bool,
                     clientList: Option<seq<RawWindow>>, scoped: bool, currentDesktop: int,
                     replies: seq<GrabStatus>, events: seq<KeyEvent>)
    returns (exit: Exit, ops: seq<Op>)
    requires |replies| >= MaxGrabAttempts
    ensures !displayOk ==> exit == Exited(2, None)
    ensures displayOk && |DiscoveredWindows(clientList)| == 0 ==> exit == Exited(2, None)
    ensures exit.Exited? ==> exit.code <= 2 && (exit.code == 0 <==> exit.activated.Some?)
    ensures exit.Exited? && exit.activated.Some? ==>
      var w := exit.activated.value;
      displayOk && w in DiscoveredWindows(clientList) && InScope(w, target, scoped, currentDesktop) &&
      ops == ActivationOps(w.id, w.desktop)
    ensures !(exit.Exited? && exit.activated.Some?) ==> ops == []
    ensures displayOk ==>
      var ws := DiscoveredWindows(clientList);
      var m := Matching(ws, target, scoped, currentDesktop);
      (|ws| > 0 && |m| == 0 ==> exit == Exited(1, None)) &&
      (|m| == 1 ==> exit == Exited(0, Some(ws[m[0]]))) &&
      (|m| >= 2 ==> SelectionEnds(exit, ws, Selected(m, instanceKeys, replies, events))) &&
      (exit == Blocked ==> |m| >= 2 && Granted(replies)) &&
      (|m| >= 2 && (|m| > |instanceKeys| || !Granted(replies)) ==> exit == Exited(2, None))
  {
    ops := [];
    if !displayOk {
      return Exited(2, None), ops;
    }
    var windows := DiscoveredWindows(clientList);
    if |windows| == 0 {
      return Exited(2, None), ops;
    }
    var matching := FindWindowsByClassAndScope(windows, target, scoped, currentDesktop, MaxWindows);
    assert matching == Matching(windows, target, scoped, currentDesktop);
    if |matching| == 0 {
      return Exited(1, None), ops;
    }
    exit, ops := Dispatch(windows, matching, instanceKeys, replies, events);
    if exit.Exited? && exit.activated.Some? {
      var k :| 0 <= k < |matching| && Picked(windows, matching)[k] == exit.activated.value;
      MatchedInScope(windows, target, scoped, currentDesktop, k);
    }
  }

  /** A window the match list names passes the filter. */
  lemma MatchedInScope(ws: seq<Window>, target: string, scoped: bool, currentDesktop: int, k: nat)
    requires k < |Matching(ws, target, scoped, currentDesktop)|
    ensures var i := Matching(ws, target, scoped, currentDesktop)[k];
      i < |ws| && ws[i] in ws && InScope(ws[i], target, scoped, currentDesktop)
  {
    MatchingExact(ws, target, scoped, currentDesktop);
    var m := Matching(ws, target, scoped, currentDesktop);
    assert m[k] in m;
  }

  /**
   * main after flag parsing: resolve the mark to a class (exit 1 when the
   * mark is not a positive number, the configuration does not load or the
   * mark is unbound), then jump to a window of that class.
   */
  method WinleapMain(markArg: string, configFile: Option<seq<string>>, displayOk: bool,
                     clientList: Option<seq<RawWindow>>, scoped: bool, currentDesktop: int,
                     replies: seq<GrabStatus>, events: seq<KeyEvent>)
    returns (exit: Exit, ops: seq<Op>)
    requires |replies| >= MaxGrabAttempts
    ensures Atoi(markArg) <= 0 ==> exit == Exited(1, None)
    ensures Atoi(markArg) > 0 && LoadConfig(configFile).None? ==> exit == Exited(1, None)
    ensures TargetClass(markArg, configFile).None? ==> exit == Exited(1, None)
    ensures TargetClass(markArg, configFile).Some? && !displayOk ==> exit == Exited(2, None)
    ensures exit.Exited? ==> exit.code <= 2 && (exit.code == 0 <==> exit.activated.Some?)
    ensures exit.Exited? && exit.activated.Some? ==>
      var w := exit.activated.value;
      TargetClass(markArg, configFile).Some? && displayOk &&
      w in DiscoveredWindows(clientList) &&
      InScope(w, TargetClass(markArg, configFile).value, scoped, currentDesktop) &&
      ops == ActivationOps(w.id, w.desktop)
    ensures !(exit.Exited? && exit.activated.Some?) ==> ops == []
    ensures TargetClass(markArg, configFile).Some? && displayOk ==>
      var ws := DiscoveredWindows(clientList);
      var m := Matching(ws, TargetClass(markArg, configFile).value, scoped, currentDesktop);
      var keys := LoadConfig(configFile).value.instanceKeys;
      (|ws| == 0 ==> exit == Exited(2, None)) &&
      (|ws| > 0 && |m| == 0 ==> exit == Exited(1, None)) &&
      (|m| == 1 ==> exit == Exited(0, Some(ws[m[0]]))) &&
      (|m| >= 2 ==> SelectionEnds(exit, ws, Selected(m, keys, replies, events))) &&
      (|m| >= 2 && (|keys| < |m| || !Granted(replies)) ==> exit == Exited(2, None))
  {
    var config, target := ResolveMark(markArg, configFile);
    if target.None? {
      return Exited(1, None), [];
    }
    exit, ops := JumpToClass(target.value, config.value.instanceKeys, displayOk, clientList,
                             scoped, currentDesktop, replies, events);
  }
}
