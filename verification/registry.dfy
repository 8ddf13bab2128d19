/**
 * The window snapshot the three programs share: what the windowing system
 * reports, the discovery filter applied to it, the key events the programs
 * read, their exit results, and the case-insensitive class filter used by
 * the mark-based programs.
 */
module Registry {
  import opened Common
  import opened CString

  const MaxWindows: nat := 256

  /** One entry of _NET_CLIENT_LIST as the windowing system reports it:
      the window id, the class part of WM_CLASS when it could be read, and
      _NET_WM_DESKTOP when the property exists. */
  datatype RawWindow = RawWindow(id: nat, wmClass: Option<string>, desktop: Option<nat>)

  /** A discovered window: raw class, its lower-cased copy (atsw.c keeps
      both) and its desktop. */
  datatype Window = Window(id: nat, wmClass: string, classLower: string, desktop: Option<nat>)

  /** get_wm_class succeeds only with a non-empty class. */
  predicate HasClass(x: RawWindow)
  {
    x.wmClass.Some? && |x.wmClass.value| > 0
  }

  function FromRaw(x: RawWindow): Window
    requires HasClass(x)
  {
    Window(x.id, x.wmClass.value, Lower(x.wmClass.value), x.desktop)
  }

  predicate WellFormed(w: Window)
  {
    |w.wmClass| > 0 && w.classLower == Lower(w.wmClass)
  }

  /** The window records filled in by discover_windows: entries without a
      class are skipped, order is kept, and at most `room` are stored. */
  function DiscoverInto(raws: seq<RawWindow>, room: nat): (r: seq<Window>)
    ensures |r| <= room
    ensures forall k :: 0 <= k < |r| ==> WellFormed(r[k])
  {
    if |raws| == 0 || room == 0 then []
    else if HasClass(raws[0]) then [FromRaw(raws[0])] + DiscoverInto(raws[1..], room - 1)
    else DiscoverInto(raws[1..], room)
  }

  /** discover_windows, capped at MAX_WINDOWS. */
  function Discover(raws: seq<RawWindow>): seq<Window>
  {
    DiscoverInto(raws, MaxWindows)
  }

  /** Every discovered window comes from an entry with a class, and below
      the cap no entry with a class is dropped. */
  lemma {:induction false} DiscoverIntoExact(raws: seq<RawWindow>, room: nat)
    ensures forall w :: w in DiscoverInto(raws, room) ==>
      exists x :: x in raws && HasClass(x) && w == FromRaw(x)
    ensures |raws| <= room ==>
      forall x :: x in raws && HasClass(x) ==> FromRaw(x) in DiscoverInto(raws, room)
  {
    if |raws| > 0 && room > 0 {
      DiscoverIntoExact(raws[1..], if HasClass(raws[0]) then room - 1 else room);
      forall w | w in DiscoverInto(raws, room)
        ensures exists x :: x in raws && HasClass(x) && w == FromRaw(x)
      {
        if HasClass(raws[0]) && w == FromRaw(raws[0]) {
          assert raws[0] in raws;
        } else {
          var x :| x in raws[1..] && HasClass(x) && w == FromRaw(x);
          assert x in raws;
        }
      }
      if |raws| <= room {
        forall x | x in raws && HasClass(x) ensures FromRaw(x) in DiscoverInto(raws, room) {
          if x != raws[0] {
            assert x in raws[1..];
          }
        }
      }
    }
  }

  /** The key symbols the event loops distinguish. */
  datatype KeySym = Escape | BackSpace | Return | KpEnter | OtherSym

  /** An X event as the loops see it: anything but a key press, or a key
      press with its keysym and the text XLookupString produced for it. */
  datatype KeyEvent = NotKeyPress | KeyPress(sym: KeySym, text: string)

  /** How a run ends: an exit code and the window it activated, or still
      blocked in XNextEvent when the modelled event stream runs out. */
  datatype Exit = Exited(code: nat, activated: Option<Window>) | Blocked

  /** _NET_WM_DESKTOP as winleap.c stores it: -1 when absent. */
  function DesktopNumber(w: Window): int
  {
    if w.desktop.Some? then w.desktop.value else -1
  }

  /** The filter of find_windows_by_class_and_scope (and, unscoped, of
      atsw_manual.c's find_windows_by_class). */
  predicate InScope(w: Window, target: string, scoped: bool, currentDesktop: int)
  {
    EqualsIgnoreCase(w.wmClass, target) &&
    (scoped ==> currentDesktop >= 0 && DesktopNumber(w) == currentDesktop)
  }

  /** Indices, in discovery order, of the windows passing the filter. */
  function Matching(ws: seq<Window>, target: string, scoped: bool, currentDesktop: int): (m: seq<nat>)
    ensures |m| <= |ws|
    ensures forall k :: 0 <= k < |m| ==> m[k] < |ws|
  {
    if |ws| == 0 then []
    else
      var last := if InScope(ws[|ws| - 1], target, scoped, currentDesktop) then [|ws| - 1] else [];
      Matching(ws[..|ws| - 1], target, scoped, currentDesktop) + last
  }

  predicate StrictlyIncreasing(s: seq<nat>)
  {
    forall i, j :: 0 <= i < j < |s| ==> s[i] < s[j]
  }

  /** Matching holds exactly the in-scope indices, each once and in order. */
  lemma {:induction false} MatchingExact(ws: seq<Window>, target: string, scoped: bool, currentDesktop: int)
    ensures var m := Matching(ws, target, scoped, currentDesktop);
      StrictlyIncreasing(m) &&
      (forall i :: 0 <= i < |ws| ==> (i in m <==> InScope(ws[i], target, scoped, currentDesktop)))
  {
    if |ws| > 0 {
      var ws' := ws[..|ws| - 1];
      MatchingExact(ws', target, scoped, currentDesktop);
      forall i | 0 <= i < |ws| - 1 ensures ws'[i] == ws[i] { }
    }
  }

  /** Matching over a prefix of the windows is a prefix of the whole
      match list: a scan that stops early has found the first matches. */
  lemma {:induction false} MatchingPrefix(ws: seq<Window>, i: nat, target: string, scoped: bool, currentDesktop: int)
    requires i <= |ws|
    ensures var pre, all := Matching(ws[..i], target, scoped, currentDesktop), Matching(ws, target, scoped, currentDesktop);
      |pre| <= |all| && all[..|pre|] == pre
    decreases |ws|
  {
    if i < |ws| {
      var ws' := ws[..|ws| - 1];
      assert ws'[..i] == ws[..i];
      MatchingPrefix(ws', i, target, scoped, currentDesktop);
    } else {
      assert ws[..i] == ws;
    }
  }

  /** Scoped to the current desktop, an unknown desktop matches nothing. */
  lemma {:induction false} MatchingUnknownDesktop(ws: seq<Window>, target: string, currentDesktop: int)
    requires currentDesktop < 0
    ensures Matching(ws, target, true, currentDesktop) == []
  {
    if |ws| > 0 {
      MatchingUnknownDesktop(ws[..|ws| - 1], target, currentDesktop);
    }
  }

  /** The first n entries of s (a loop that stops at a capacity). */
  function Take<T>(s: seq<T>, n: nat): (r: seq<T>)
    ensures |r| == Min(n, |s|)
  {
    s[..Min(n, |s|)]
  }
}
