/**
 * atsw's incremental matcher: find_match over the prefix table, the key
 * loop that grows and shrinks a bounded, lower-cased buffer, and the
 * start-up sequence of main (display, keyboard grab, discovery).
 */
module Matcher {
  import opened Common
  import opened CString
  import opened Registry
  import opened Grab
  import opened Activation
  import opened PrefixIndex

  const MaxBufferLen: nat := 64

  // ---------------------------------------------------------------------
  // find_match

  /** The windows whose prefix agrees with the buffer on its whole length
      (strncasecmp(prefix, buffer, strlen(buffer)) == 0), in table order. */
  function Candidates(prefixes: seq<string>, buf: string): (r: seq<nat>)
    ensures StrictlyIncreasing(r)
    ensures forall k :: 0 <= k < |r| ==> r[k] < |prefixes|
    ensures forall i :: 0 <= i < |prefixes| ==> (i in r <==> StrNCaseEq(prefixes[i], buf, |buf|))
  {
    if |prefixes| == 0 then []
    else
      var n := |prefixes| - 1;
      var r := Candidates(prefixes[..n], buf);
      assert forall i :: 0 <= i < n ==> prefixes[..n][i] == prefixes[i];
      r + (if StrNCaseEq(prefixes[n], buf, |buf|) then [n] else [])
  }

  /** Lower-casing commutes with taking a prefix. */
  lemma LowerPrefix(s: string, k: nat)
    requires k <= |s|
    ensures Lower(s[..k]) == Lower(s)[..k]
  {
  }

  /** A prefix is a candidate for a buffer exactly when it is at least as
      long and starts with the buffer, ignoring case. */
  lemma CandidateIff(p: string, buf: string)
    ensures StrNCaseEq(p, buf, |buf|) <==> |buf| <= |p| && Lower(p[..|buf|]) == Lower(buf)
  {
    StrNCaseEqIff(p, buf, |buf|);
    assert buf[..|buf|] == buf;
  }

  /** Monotonic narrowing: typing more never adds a candidate. */
  lemma Narrowing(prefixes: seq<string>, buf: string, more: string, i: nat)
    requires i < |prefixes| && i in Candidates(prefixes, buf + more)
    ensures i in Candidates(prefixes, buf)
  {
    var p := prefixes[i];
    var b2 := buf + more;
    CandidateIff(p, b2);
    CandidateIff(p, buf);
    LowerPrefix(p, |b2|);
    LowerPrefix(p, |buf|);
    LowerPrefix(b2, |buf|);
    assert b2[..|buf|] == buf;
    assert p[..|b2|][..|buf|] == p[..|buf|];
  }

  /** A window left without a group (only possible once MAX_APPS groups
      exist) keeps the empty prefix and never matches a non-empty buffer. */
  lemma UngroupedNeverMatches(cs: seq<string>, v: nat, buf: string)
    requires v < |cs| && GroupOf(cs, v).None? && |buf| > 0
    ensures |GroupsOf(cs)| == MaxApps
    ensures v !in Candidates(PrefixTable(cs), buf)
  {
    UngroupedOnlyWhenFull(cs, v);
    assert PrefixTable(cs)[v] == "";
  }

  /**
   * A window whose prefix starts another window's prefix (ignoring case)
   * is never the only candidate: whenever it matches the buffer, so does
   * the other window.
   */
  lemma ShadowedNeverUnique(prefixes: seq<string>, i: nat, j: nat, buf: string)
    requires i < |prefixes| && j < |prefixes| && i != j
    requires |prefixes[i]| <= |prefixes[j]| && Lower(prefixes[i]) == Lower(prefixes[j][..|prefixes[i]|])
    ensures Candidates(prefixes, buf) != [i]
  {
    var p, q := prefixes[i], prefixes[j];
    if i in Candidates(prefixes, buf) {
      CandidateIff(p, buf);
      CandidateIff(q, buf);
      LowerPrefix(p, |buf|);
      LowerPrefix(q[..|p|], |buf|);
      assert q[..|p|][..|buf|] == q[..|buf|];
      assert j in Candidates(prefixes, buf);
    }
  }

  /**
   * find_match: with an empty buffer every window is a candidate and the
   * answer is -2; otherwise the index of the only candidate, -1 when there
   * is none, -2 when there are several. `count` is the candidate count.
   */
  method FindMatch(prefixes: seq<string>, buffer: string) returns (r: int, count: nat)
    ensures -2 <= r < |prefixes|
    ensures |buffer| == 0 ==> r == -2 && count == |prefixes|
    ensures |buffer| > 0 ==> count == |Candidates(prefixes, buffer)|
    ensures |buffer| > 0 ==> (r >= 0 <==> count == 1) && (r == -1 <==> count == 0) && (r == -2 <==> count >= 2)
    ensures r >= 0 ==> Candidates(prefixes, buffer) == [r]
  {
    if |buffer| == 0 {
      return -2, |prefixes|;
    }
    var matches: seq<nat> := [];
    for i := 0 to |prefixes|
      invariant matches == Candidates(prefixes[..i], buffer)
    {
      assert prefixes[..i + 1][..i] == prefixes[..i];
      if StrNCaseEq(prefixes[i], buffer, |buffer|) {
        matches := matches + [i];
      }
    }
    assert prefixes[..|prefixes|] == prefixes;
    count := |matches|;
    if count == 1 {
      r := matches[0];
    } else if count == 0 {
      r := -1;
    } else {
      r := -2;
    }
  }

  // ---------------------------------------------------------------------
  // The key loop

  /** A buffer the loop can hold: at most MAX_BUFFER_LEN - 1 characters,
      all lower-case. */
  predicate BufferOk(buf: string)
  {
    |buf| < MaxBufferLen && HasNoUpper(buf)
  }

  /** The window is the only candidate for a non-empty buffer. */
  predicate UniqueFor(prefixes: seq<string>, buf: string, i: nat)
  {
    |buf| > 0 && Candidates(prefixes, buf) == [i]
  }

  /** What one key press does: keep waiting with a new buffer, activate a
      window, or cancel. */
  datatype Step = Continue(buffer: string) | Activate(index: nat) | Cancel

  /** The buffer after a printable key: its text lower-cased, appended while
      there is room. */
  function Extend(buffer: string, text: string): (r: string)
    requires |buffer| < MaxBufferLen - 1
    ensures |r| == |buffer| + Min(|text|, MaxBufferLen - 1 - |buffer|)
    ensures r[..|buffer|] == buffer
  {
    buffer + Lower(text[..Min(|text|, MaxBufferLen - 1 - |buffer|)])
  }

  /**
   * One event of the loop in atsw.c main: anything but a key press is
   * ignored; Escape cancels; BackSpace drops the last character; Return and
   * KP_Enter activate only the only candidate of a non-empty buffer; any
   * other key with text extends the buffer while it has room and activates
   * a window as soon as it is the only candidate.
   */
  function KeyStep(prefixes: seq<string>, buffer: string, e: KeyEvent): (r: Step)
    ensures r.Cancel? <==> e.KeyPress? && e.sym == Escape
    ensures r.Activate? ==> r.index < |prefixes|
    ensures r.Activate? ==> (UniqueFor(prefixes, buffer, r.index) ||
      (e.KeyPress? && |buffer| < MaxBufferLen - 1 && UniqueFor(prefixes, Extend(buffer, e.text), r.index)))
    ensures r.Continue? && BufferOk(buffer) ==> BufferOk(r.buffer)
  {
    match e
    case NotKeyPress => Continue(buffer)
    case KeyPress(sym, text) =>
      if sym == Escape then Cancel
      else if sym == BackSpace then
        Continue(if |buffer| > 0 then buffer[..|buffer| - 1] else buffer)
      else if sym == Return || sym == KpEnter then
        if |buffer| > 0 && |Candidates(prefixes, buffer)| == 1
        then Activate(Candidates(prefixes, buffer)[0])
        else Continue(buffer)
      else if |text| > 0 && |buffer| < MaxBufferLen - 1 then
        var extended := Extend(buffer, text);
        LowerIdempotent(text[..Min(|text|, MaxBufferLen - 1 - |buffer|)]);
        if |Candidates(prefixes, extended)| == 1
        then Activate(Candidates(prefixes, extended)[0])
        else Continue(extended)
      else Continue(buffer)
  }

  /** A printable key with room in the buffer activates a window exactly
      when that window is the only candidate of the extended buffer;
      otherwise the loop goes on with the extended buffer. */
  lemma PrintableKeyActivatesIffUnique(prefixes: seq<string>, buffer: string, text: string, i: nat)
    requires |text| > 0 && |buffer| < MaxBufferLen - 1
    ensures var r := KeyStep(prefixes, buffer, KeyPress(OtherSym, text));
      (r == Activate(i) <==> UniqueFor(prefixes, Extend(buffer, text), i)) &&
      (!r.Activate? ==> r == Continue(Extend(buffer, text)))
  {
    var c := Candidates(prefixes, Extend(buffer, text));
    if |c| == 1 {
      assert c == [c[0]];
    }
  }

  /** A key without text, or any key once the buffer is full, changes
      nothing. */
  lemma BlankOrOverflowKeyIgnored(prefixes: seq<string>, buffer: string, text: string)
    requires |text| == 0 || |buffer| >= MaxBufferLen - 1
    ensures KeyStep(prefixes, buffer, KeyPress(OtherSym, text)) == Continue(buffer)
  {
  }

  /** Return and KP_Enter activate a window exactly when it is the only
      candidate of the non-empty buffer, and otherwise change nothing. */
  lemma EnterActivatesIffUnique(prefixes: seq<string>, buffer: string, sym: KeySym, text: string, i: nat)
    requires sym == Return || sym == KpEnter
    ensures var r := KeyStep(prefixes, buffer, KeyPress(sym, text));
      (r == Activate(i) <==> UniqueFor(prefixes, buffer, i)) &&
      (!r.Activate? ==> r == Continue(buffer))
  {
    var c := Candidates(prefixes, buffer);
    if |c| == 1 {
      assert c == [c[0]];
    }
  }

  /** Events other than key presses change nothing. */
  lemma OtherEventsIgnored(prefixes: seq<string>, buffer: string)
    ensures KeyStep(prefixes, buffer, NotKeyPress) == Continue(buffer)
  {
  }

  /** How the loop ends: a window activated, cancelled by Escape, or still
      waiting with a buffer when the events run out. */
  datatype Outcome = Activated(index: nat) | Cancelled | Waiting(buffer: string)

  /** The loop over a finite event stream. */
  function Run(prefixes: seq<string>, buffer: string, events: seq<KeyEvent>): Outcome
    decreases |events|
  {
    if |events| == 0 then Waiting(buffer)
    else match KeyStep(prefixes, buffer, events[0])
      case Continue(b) => Run(prefixes, b, events[1..])
      case Activate(i) => Activated(i)
      case Cancel => Cancelled
  }

  /** The buffer in force after the events, when none of them ended the
      loop. */
  function Reached(prefixes: seq<string>, buffer: string, events: seq<KeyEvent>): Option<string>
    decreases |events|
  {
    if |events| == 0 then Some(buffer)
    else match KeyStep(prefixes, buffer, events[0])
      case Continue(b) => Reached(prefixes, b, events[1..])
      case _ => None
  }

  /** Reached over the first k events, split after the first one. */
  lemma ReachedFirst(prefixes: seq<string>, buffer: string, events: seq<KeyEvent>, k: nat)
    requires 0 < k <= |events|
    ensures Reached(prefixes, buffer, events[..k]) ==
      match KeyStep(prefixes, buffer, events[0])
      case Continue(b) => Reached(prefixes, b, events[1..][..k - 1])
      case _ => None
  {
    assert events[..k][0] == events[0];
    assert events[..k][1..] == events[1..][..k - 1];
  }

  /**
   * The loop ends with the key that first stops it: when the buffer in
   * force before event k is b and event k does not continue from b, the
   * loop's outcome is what that key does.
   */
  lemma {:induction false} RunDecidedAt(prefixes: seq<string>, buffer: string, events: seq<KeyEvent>, k: nat)
    requires k < |events| && Reached(prefixes, buffer, events[..k]).Some?
    requires !KeyStep(prefixes, Reached(prefixes, buffer, events[..k]).value, events[k]).Continue?
    ensures var r := KeyStep(prefixes, Reached(prefixes, buffer, events[..k]).value, events[k]);
      Run(prefixes, buffer, events) == if r.Activate? then Activated(r.index) else Cancelled
    decreases k
  {
    if k == 0 {
      assert events[..0] == [];
    } else {
      ReachedFirst(prefixes, buffer, events, k);
      var b := KeyStep(prefixes, buffer, events[0]).buffer;
      assert events[1..][k - 1] == events[k];
      RunDecidedAt(prefixes, b, events[1..], k - 1);
    }
  }

  /** The loop is still waiting exactly when no event stopped it, and then
      with the buffer the events reached. */
  lemma {:induction false} RunWaitsIffReached(prefixes: seq<string>, buffer: string, events: seq<KeyEvent>)
    ensures Run(prefixes, buffer, events).Waiting? <==> Reached(prefixes, buffer, events).Some?
    ensures Run(prefixes, buffer, events).Waiting? ==>
      Run(prefixes, buffer, events).buffer == Reached(prefixes, buffer, events).value
    decreases |events|
  {
    if |events| > 0 {
      var s := KeyStep(prefixes, buffer, events[0]);
      if s.Continue? {
        RunWaitsIffReached(prefixes, s.buffer, events[1..]);
      }
    }
  }

  /**
   * The loop activates only a window the key then pressed activates from
   * the buffer in force before it, keeps its buffer well-formed, and
   * cancels only on an Escape reached before any other ending.
   */
  lemma {:induction false} RunProperties(prefixes: seq<string>, buffer: string, events: seq<KeyEvent>)
    requires BufferOk(buffer)
    ensures var o := Run(prefixes, buffer, events);
      (o.Activated? ==>
        o.index < |prefixes| &&
        exists k :: 0 <= k < |events| && Reached(prefixes, buffer, events[..k]).Some? &&
          KeyStep(prefixes, Reached(prefixes, buffer, events[..k]).value, events[k]) == Activate(o.index)) &&
      (o.Waiting? ==> BufferOk(o.buffer)) &&
      (o.Cancelled? ==>
        exists k :: 0 <= k < |events| && Reached(prefixes, buffer, events[..k]).Some? &&
          events[k].KeyPress? && events[k].sym == Escape)
    decreases |events|
  {
    if |events| > 0 {
      var s := KeyStep(prefixes, buffer, events[0]);
      var o := Run(prefixes, buffer, events);
      if s.Continue? {
        var rest := events[1..];
        RunProperties(prefixes, s.buffer, rest);
        if o.Activated? {
          var k :| 0 <= k < |rest| && Reached(prefixes, s.buffer, rest[..k]).Some? &&
            KeyStep(prefixes, Reached(prefixes, s.buffer, rest[..k]).value, rest[k]) == Activate(o.index);
          ReachedFirst(prefixes, buffer, events, k + 1);
          assert events[k + 1] == rest[k];
        }
        if o.Cancelled? {
          var k :| 0 <= k < |rest| && Reached(prefixes, s.buffer, rest[..k]).Some? &&
            rest[k].KeyPress? && rest[k].sym == Escape;
          ReachedFirst(prefixes, buffer, events, k + 1);
          assert events[k + 1] == rest[k];
        }
      } else {
        assert events[..0] == [];
      }
    }
  }

  /** Typing a key that leaves a single candidate activates it: when the
      events before it reached buffer b and the key's text, appended to b,
      matches window i alone, the loop ends with window i activated. */
  lemma TypedUniqueActivates(prefixes: seq<string>, buffer: string, events: seq<KeyEvent>,
                             k: nat, i: nat)
    requires k < |events| && Reached(prefixes, buffer, events[..k]).Some?
    requires var b := Reached(prefixes, buffer, events[..k]).value;
      events[k].KeyPress? && events[k].sym == OtherSym && |events[k].text| > 0 &&
      |b| < MaxBufferLen - 1 && UniqueFor(prefixes, Extend(b, events[k].text), i)
    ensures Run(prefixes, buffer, events) == Activated(i)
  {
    var b := Reached(prefixes, buffer, events[..k]).value;
    PrintableKeyActivatesIffUnique(prefixes, b, events[k].text, i);
    RunDecidedAt(prefixes, buffer, events, k);
  }

  /** Typing a key whose text leaves no candidate keeps the extended buffer:
      the loop goes on waiting and does not undo the key. */
  lemma NoMatchKeepsKey(prefixes: seq<string>, buffer: string, text: string)
    requires |text| > 0 && |buffer| < MaxBufferLen - 1
    requires |Candidates(prefixes, Extend(buffer, text))| == 0
    ensures KeyStep(prefixes, buffer, KeyPress(OtherSym, text)) == Continue(Extend(buffer, text))
  {
  }

  /** BackSpace drops the last character of a non-empty buffer, leaves an
      empty one alone, and never activates, even when the shorter buffer
      has a single candidate. */
  lemma BackSpaceDropsLast(prefixes: seq<string>, buffer: string, text: string)
    ensures var r := KeyStep(prefixes, buffer, KeyPress(BackSpace, text));
      r.Continue? &&
      (|buffer| == 0 ==> r.buffer == buffer) &&
      (|buffer| > 0 ==> r.buffer + [buffer[|buffer| - 1]] == buffer)
  {
  }

  /** The printable branch: append the key's text, lower-cased, while the
      buffer has room, and terminate the string. */
  method AppendText(buffer: array<char>, bufPos: nat, text: string) returns (newPos: nat)
    requires buffer.Length == MaxBufferLen && bufPos < MaxBufferLen - 1
    modifies buffer
    ensures newPos < MaxBufferLen
    ensures buffer[..newPos] == Extend(old(buffer[..bufPos]), text)
  {
    ghost var before := buffer[..bufPos];
    newPos := bufPos;
    var k := 0;
    while k < |text| && newPos < MaxBufferLen - 1
      invariant 0 <= k <= |text|
      invariant newPos == |before| + k < MaxBufferLen
      invariant buffer[..newPos] == before + Lower(text[..k])
    {
      buffer[newPos] := ToLower(text[k]);
      assert Lower(text[..k + 1]) == Lower(text[..k]) + [ToLower(text[k])];
      newPos := newPos + 1;
      k := k + 1;
    }
    assert k == Min(|text|, MaxBufferLen - 1 - |before|);
    buffer[newPos] := '\0';
  }

  /** One pass of the loop body on the fixed-size buffer. */
  method HandleKey(prefixes: seq<string>, buffer: array<char>, bufPos: nat, e: KeyEvent)
    returns (newPos: nat, s: Step)
    requires buffer.Length == MaxBufferLen && bufPos < MaxBufferLen
    modifies buffer
    ensures s == KeyStep(prefixes, old(buffer[..bufPos]), e)
    ensures newPos < MaxBufferLen
    ensures s.Continue? ==> buffer[..newPos] == s.buffer
  {
    var before := buffer[..bufPos];
    newPos := bufPos;
    s := Continue(before);
    if !e.KeyPress? {
      return;
    }
    if e.sym == Escape {
      return newPos, Cancel;
    }
    if e.sym == BackSpace {
      if bufPos > 0 {
        newPos := bufPos - 1;
        buffer[newPos] := '\0';
        s := Continue(before[..newPos]);
      }
      return;
    }
    if e.sym == Return || e.sym == KpEnter {
      if bufPos > 0 {
        var m, count := FindMatch(prefixes, buffer[..bufPos]);
        if m >= 0 {
          s := Activate(m);
        }
      }
      return;
    }
    if |e.text| > 0 && bufPos < MaxBufferLen - 1 {
      newPos := AppendText(buffer, bufPos, e.text);
      var m, count := FindMatch(prefixes, buffer[..newPos]);
      if m >= 0 {
        s := Activate(m);
      } else {
        s := Continue(buffer[..newPos]);
      }
    }
  }

  /** The key loop of atsw.c main over the fixed-size buffer. */
  method RunMatcher(prefixes: seq<string>, events: seq<KeyEvent>) returns (o: Outcome)
    ensures o == Run(prefixes, "", events)
  {
    var buffer := new char[MaxBufferLen](_ => '\0');
    var bufPos: nat := 0;
    var i := 0;
    while i < |events|
      invariant 0 <= i <= |events|
      invariant bufPos < MaxBufferLen
      invariant Run(prefixes, "", events) == Run(prefixes, buffer[..bufPos], events[i..])
    {
      assert events[i..][1..] == events[i + 1..];
      var s;
      bufPos, s := HandleKey(prefixes, buffer, bufPos, events[i]);
      i := i + 1;
      match s
      case Activate(m) => return Activated(m);
      case Cancel => return Cancelled;
      case Continue(_) =>
    }
    o := Waiting(buffer[..bufPos]);
  }

  // ---------------------------------------------------------------------
  // main

  /** The lower-cased classes of the discovered windows. */
  function ClassesLower(ws: seq<Window>): (r: seq<string>)
    ensures |r| == |ws| && forall k :: 0 <= k < |ws| ==> r[k] == ws[k].classLower
  {
    seq(|ws|, k requires 0 <= k < |ws| => ws[k].classLower)
  }

  /** The loop's outcome for a snapshot of the windows and an event stream. */
  function Session(ws: seq<Window>, events: seq<KeyEvent>): Outcome
  {
    Run(PrefixTable(ClassesLower(ws)), "", events)
  }

  /**
   * main of atsw.c: open the display, grab the keyboard, then discover the
   * windows and compute the prefixes, then run the key loop. Any failure of
   * the first three exits 2; Escape exits 1; an activation exits 0.
   */
  method AtswMain(displayOk: bool, replies: seq<GrabStatus>, clientList: seq<RawWindow>, events: seq<KeyEvent>)
    returns (exit: Exit, ops: seq<Op>)
    requires |replies| >= MaxGrabAttempts
    ensures !displayOk || !Granted(replies) ==> exit == Exited(2, None) && ops == []
    ensures displayOk && Granted(replies) && |Discover(clientList)| == 0 ==> exit == Exited(2, None) && ops == []
    ensures var ws := Discover(clientList);
      displayOk && Granted(replies) && |ws| > 0 ==>
        match Session(ws, events)
        case Activated(i) =>
          i < |ws| && exit == Exited(0, Some(ws[i])) && ops == ActivationOps(ws[i].id, ws[i].desktop)
        case Cancelled => exit == Exited(1, None) && ops == []
        case Waiting(_) => exit == Blocked && ops == []
  {
    ops := [];
    if !displayOk {
      return Exited(2, None), [];
    }
    var granted, attempts, sleeps := GrabKeyboard(replies);
    if !granted {
      return Exited(2, None), [];
    }
    var ws := Discover(clientList);
    if |ws| == 0 {
      return Exited(2, None), [];
    }
    var prefixes := ComputePrefixes(ClassesLower(ws));
    var o := RunMatcher(prefixes, events);
    match o
    case Activated(i) =>
      RunProperties(prefixes, "", events);
      exit := Exited(0, Some(ws[i]));
      ops := ActivationOps(ws[i].id, ws[i].desktop);
    case Cancelled =>
      exit := Exited(1, None);
    case Waiting(_) =>
      exit := Blocked;
  }

  /** With the classes "ab" and "abc", the "ab" window can never be reached
      by typing: every buffer it matches also matches "abc". */
  lemma ProperPrefixClassUnreachable(buf: string)
    ensures Candidates(PrefixTable(["ab", "abc"]), buf) != [0]
  {
    WholeClassFallback();
    var p := PrefixTable(["ab", "abc"]);
    assert p[1][..|p[0]|] == "ab";
    ShadowedNeverUnique(p, 0, 1, buf);
  }

  /** With two "d" windows and one "d1" window, the first "d" window and the
      "d1" window share the prefix "d1", so neither is ever reached alone. */
  lemma CollidingSuffixUnreachable(buf: string)
    ensures Candidates(PrefixTable(["d", "d", "d1"]), buf) != [0]
    ensures Candidates(PrefixTable(["d", "d", "d1"]), buf) != [2]
  {
    InstanceSuffixCollides();
    var p := PrefixTable(["d", "d", "d1"]);
    assert p[2][..|p[0]|] == "d1" && p[0][..|p[2]|] == "d1";
    ShadowedNeverUnique(p, 0, 2, buf);
    ShadowedNeverUnique(p, 2, 0, buf);
  }
}
