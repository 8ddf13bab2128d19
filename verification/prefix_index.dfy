/**
 * atsw's prefix index (compute_prefixes). The windows are grouped by their
 * lower-cased class in order of first appearance (at most MAX_APPS groups);
 * each group gets the shortest prefix of its class that no other group's
 * class shares; a window alone in its group is named by that prefix, the
 * windows of a larger group by the prefix followed by their 1-based
 * position in the group. The input is the lower-cased class of each
 * discovered window, in discovery order.
 */
module PrefixIndex {
  import opened Common
  import opened CString
  import opened Registry

  const MaxApps: nat := 128

  /** An AppGroup: a lower-cased class and the indices of its windows. */
  datatype AppGroup = AppGroup(cls: string, members: seq<nat>)

  // ---------------------------------------------------------------------
  // Grouping

  /** The first group whose class is exactly c (strcmp). */
  function FindGroup(gs: seq<AppGroup>, c: string): (r: Option<nat>)
    ensures r.None? <==> forall j :: 0 <= j < |gs| ==> gs[j].cls != c
    ensures r.Some? ==> r.value < |gs| && gs[r.value].cls == c
    ensures r.Some? ==> forall j :: 0 <= j < r.value ==> gs[j].cls != c
  {
    if |gs| == 0 then None
    else if gs[0].cls == c then Some(0)
    else
      var r := FindGroup(gs[1..], c);
      assert forall j :: 1 <= j < |gs| ==> gs[j] == gs[1..][j - 1];
      if r.None? then None else Some(r.value + 1)
  }

  /** One iteration of the grouping loop: window i joins the group of its
      class, or opens a new group while there is room, or is left out. */
  function AddWindow(gs: seq<AppGroup>, c: string, i: nat): seq<AppGroup>
  {
    match FindGroup(gs, c)
    case Some(j) => gs[j := gs[j].(members := gs[j].members + [i])]
    case None => if |gs| < MaxApps then gs + [AppGroup(c, [i])] else gs
  }

  /** The groups after the grouping loop has seen all windows. */
  function GroupsOf(cs: seq<string>): seq<AppGroup>
  {
    if |cs| == 0 then [] else AddWindow(GroupsOf(cs[..|cs| - 1]), cs[|cs| - 1], |cs| - 1)
  }

  /** The classes of the groups, in group order. */
  function Classes(gs: seq<AppGroup>): (r: seq<string>)
    ensures |r| == |gs| && forall a :: 0 <= a < |gs| ==> r[a] == gs[a].cls
  {
    seq(|gs|, a requires 0 <= a < |gs| => gs[a].cls)
  }

  /** Group shape: at most MAX_APPS groups with pairwise different classes,
      each with a non-empty, strictly increasing member list, the groups in
      order of their first member. */
  ghost predicate Shaped(gs: seq<AppGroup>)
  {
    |gs| <= MaxApps &&
    (forall a, b :: 0 <= a < b < |gs| ==> gs[a].cls != gs[b].cls) &&
    (forall a :: 0 <= a < |gs| ==> |gs[a].members| > 0 && StrictlyIncreasing(gs[a].members)) &&
    (forall a, b :: 0 <= a < b < |gs| ==> gs[a].members[0] < gs[b].members[0])
  }

  /** Every member of a group is a window of that group's class. */
  ghost predicate Sound(gs: seq<AppGroup>, cs: seq<string>)
  {
    forall a, k :: 0 <= a < |gs| && 0 <= k < |gs[a].members| ==>
      gs[a].members[k] < |cs| && cs[gs[a].members[k]] == gs[a].cls
  }

  /** Every window of a group's class is a member of that group. */
  ghost predicate Complete(gs: seq<AppGroup>, cs: seq<string>)
  {
    forall a, i :: 0 <= a < |gs| && 0 <= i < |cs| && cs[i] == gs[a].cls ==> i in gs[a].members
  }

  /** While there is room for another group, every window's class has one. */
  ghost predicate Covered(gs: seq<AppGroup>, cs: seq<string>)
  {
    |gs| < MaxApps ==> forall i :: 0 <= i < |cs| ==> cs[i] in Classes(gs)
  }

  /** What the grouping guarantees. */
  ghost predicate Grouped(gs: seq<AppGroup>, cs: seq<string>)
  {
    Shaped(gs) && Sound(gs, cs) && Complete(gs, cs) && Covered(gs, cs)
  }

  lemma JoinShaped(gs: seq<AppGroup>, cs: seq<string>, j: nat)
    requires Shaped(gs) && Sound(gs, cs) && j < |gs|
    ensures Shaped(gs[j := gs[j].(members := gs[j].members + [|cs|])])
  {
    var n := |cs|;
    var gs2 := gs[j := gs[j].(members := gs[j].members + [n])];
    var m := gs[j].members;
    assert forall k :: 0 <= k < |m| ==> m[k] < n;
    assert gs2[j].members[0] == m[0];
    assert StrictlyIncreasing(gs2[j].members);
  }

  lemma JoinSound(gs: seq<AppGroup>, cs: seq<string>, c: string, j: nat)
    requires Sound(gs, cs) && j < |gs| && gs[j].cls == c
    ensures Sound(gs[j := gs[j].(members := gs[j].members + [|cs|])], cs + [c])
  {
    var n := |cs|;
    var cs2 := cs + [c];
    var gs2 := gs[j := gs[j].(members := gs[j].members + [n])];
    forall a, k | 0 <= a < |gs2| && 0 <= k < |gs2[a].members|
      ensures gs2[a].members[k] < |cs2| && cs2[gs2[a].members[k]] == gs2[a].cls
    {
      if a != j || k < |gs[j].members| {
        assert gs2[a].members[k] == gs[a].members[k];
      }
    }
  }

  lemma JoinComplete(gs: seq<AppGroup>, cs: seq<string>, c: string, j: nat)
    requires Shaped(gs) && Complete(gs, cs) && j < |gs| && gs[j].cls == c
    ensures Complete(gs[j := gs[j].(members := gs[j].members + [|cs|])], cs + [c])
  {
    var n := |cs|;
    var cs2 := cs + [c];
    var gs2 := gs[j := gs[j].(members := gs[j].members + [n])];
    forall a, i | 0 <= a < |gs2| && 0 <= i < |cs2| && cs2[i] == gs2[a].cls
      ensures i in gs2[a].members
    {
      if i < n {
        assert cs2[i] == cs[i];
        assert i in gs[a].members;
      }
    }
  }

  lemma JoinCovered(gs: seq<AppGroup>, cs: seq<string>, c: string, j: nat)
    requires Covered(gs, cs) && j < |gs| && gs[j].cls == c
    ensures Covered(gs[j := gs[j].(members := gs[j].members + [|cs|])], cs + [c])
  {
    var gs2 := gs[j := gs[j].(members := gs[j].members + [|cs|])];
    assert Classes(gs2) == Classes(gs);
    if |gs| < MaxApps {
      var cs2 := cs + [c];
      forall i | 0 <= i < |cs2| ensures cs2[i] in Classes(gs) {
        if i < |cs| {
          assert cs2[i] == cs[i];
        } else {
          assert Classes(gs)[j] == c;
        }
      }
    }
  }

  lemma AddToExistingGroup(gs: seq<AppGroup>, cs: seq<string>, c: string)
    requires Grouped(gs, cs) && FindGroup(gs, c).Some?
    ensures Grouped(AddWindow(gs, c, |cs|), cs + [c])
  {
    var j := FindGroup(gs, c).value;
    assert AddWindow(gs, c, |cs|) == gs[j := gs[j].(members := gs[j].members + [|cs|])];
    JoinShaped(gs, cs, j);
    JoinSound(gs, cs, c, j);
    JoinComplete(gs, cs, c, j);
    JoinCovered(gs, cs, c, j);
  }

  lemma OpenShaped(gs: seq<AppGroup>, cs: seq<string>, c: string)
    requires Shaped(gs) && Sound(gs, cs) && |gs| < MaxApps
    requires forall a :: 0 <= a < |gs| ==> gs[a].cls != c
    ensures Shaped(gs + [AppGroup(c, [|cs|])])
  {
    var gs2 := gs + [AppGroup(c, [|cs|])];
    forall a | 0 <= a < |gs| ensures gs2[a] == gs[a] && gs[a].members[0] < |cs| {
    }
  }

  lemma OpenSound(gs: seq<AppGroup>, cs: seq<string>, c: string)
    requires Sound(gs, cs)
    ensures Sound(gs + [AppGroup(c, [|cs|])], cs + [c])
  {
    var cs2 := cs + [c];
    var gs2 := gs + [AppGroup(c, [|cs|])];
    forall a, k | 0 <= a < |gs2| && 0 <= k < |gs2[a].members|
      ensures gs2[a].members[k] < |cs2| && cs2[gs2[a].members[k]] == gs2[a].cls
    {
      if a < |gs| {
        assert gs2[a] == gs[a];
      }
    }
  }

  lemma OpenComplete(gs: seq<AppGroup>, cs: seq<string>, c: string)
    requires Complete(gs, cs) && Covered(gs, cs) && |gs| < MaxApps
    requires forall a :: 0 <= a < |gs| ==> gs[a].cls != c
    ensures Complete(gs + [AppGroup(c, [|cs|])], cs + [c])
  {
    var n := |cs|;
    var cs2 := cs + [c];
    var gs2 := gs + [AppGroup(c, [n])];
    forall i | 0 <= i < n ensures cs[i] != c {
      assert cs[i] in Classes(gs);
    }
    forall a, i | 0 <= a < |gs2| && 0 <= i < |cs2| && cs2[i] == gs2[a].cls
      ensures i in gs2[a].members
    {
      if a < |gs| {
        assert gs2[a] == gs[a];
        assert i < n;
        assert cs2[i] == cs[i];
      }
    }
  }

  lemma OpenCovered(gs: seq<AppGroup>, cs: seq<string>, c: string)
    requires Covered(gs, cs) && |gs| < MaxApps
    ensures Covered(gs + [AppGroup(c, [|cs|])], cs + [c])
  {
    var cs2 := cs + [c];
    var gs2 := gs + [AppGroup(c, [|cs|])];
    assert Classes(gs2) == Classes(gs) + [c];
    forall i | 0 <= i < |cs2| ensures cs2[i] in Classes(gs2) {
      if i < |cs| {
        assert cs2[i] == cs[i];
        assert cs[i] in Classes(gs);
      }
    }
  }

  lemma OpenNewGroup(gs: seq<AppGroup>, cs: seq<string>, c: string)
    requires Grouped(gs, cs) && FindGroup(gs, c).None? && |gs| < MaxApps
    ensures Grouped(AddWindow(gs, c, |cs|), cs + [c])
  {
    assert AddWindow(gs, c, |cs|) == gs + [AppGroup(c, [|cs|])];
    OpenShaped(gs, cs, c);
    OpenSound(gs, cs, c);
    OpenComplete(gs, cs, c);
    OpenCovered(gs, cs, c);
  }

  lemma NoRoomForGroup(gs: seq<AppGroup>, cs: seq<string>, c: string)
    requires Grouped(gs, cs) && FindGroup(gs, c).None? && |gs| >= MaxApps
    ensures Grouped(AddWindow(gs, c, |cs|), cs + [c])
  {
    var cs2 := cs + [c];
    assert AddWindow(gs, c, |cs|) == gs;
    forall a, k | 0 <= a < |gs| && 0 <= k < |gs[a].members|
      ensures cs2[gs[a].members[k]] == gs[a].cls
    {
    }
    forall a, i | 0 <= a < |gs| && 0 <= i < |cs2| && cs2[i] == gs[a].cls
      ensures i in gs[a].members
    {
      assert i < |cs|;
      assert cs2[i] == cs[i];
    }
  }

  /** One window of the grouping loop keeps Grouped. */
  lemma AddWindowGrouped(gs: seq<AppGroup>, cs: seq<string>, c: string)
    requires Grouped(gs, cs)
    ensures Grouped(AddWindow(gs, c, |cs|), cs + [c])
  {
    if FindGroup(gs, c).Some? {
      AddToExistingGroup(gs, cs, c);
    } else if |gs| < MaxApps {
      OpenNewGroup(gs, cs, c);
    } else {
      NoRoomForGroup(gs, cs, c);
    }
  }

  /** The grouping loop establishes Grouped. */
  lemma {:induction false} GroupsOfGrouped(cs: seq<string>)
    ensures Grouped(GroupsOf(cs), cs)
  {
    if |cs| > 0 {
      var cs' := cs[..|cs| - 1];
      var c := cs[|cs| - 1];
      GroupsOfGrouped(cs');
      assert cs == cs' + [c];
      assert GroupsOf(cs) == AddWindow(GroupsOf(cs'), c, |cs'|);
      AddWindowGrouped(GroupsOf(cs'), cs', c);
    }
  }

  /** The grouping loop of compute_prefixes, over a sequence of groups. */
  method GroupByClass(cs: seq<string>) returns (apps: seq<AppGroup>)
    ensures apps == GroupsOf(cs)
  {
    apps := [];
    for i := 0 to |cs|
      invariant apps == GroupsOf(cs[..i])
    {
      var found := -1;
      var j := 0;
      while j < |apps|
        invariant 0 <= j <= |apps|
        invariant forall k :: 0 <= k < j ==> apps[k].cls != cs[i]
      {
        if apps[j].cls == cs[i] {
          found := j;
          break;
        }
        j := j + 1;
      }
      assert found >= 0 ==> FindGroup(apps, cs[i]) == Some(found);
      assert found < 0 ==> FindGroup(apps, cs[i]).None?;
      if found >= 0 {
        apps := apps[found := apps[found].(members := apps[found].members + [i])];
      } else if |apps| < MaxApps {
        apps := apps + [AppGroup(cs[i], [i])];
      }
      assert cs[..i + 1][..i] == cs[..i];
    }
    assert cs[..|cs|] == cs;
  }

  // ---------------------------------------------------------------------
  // Shortest unique prefix length

  /** No other group's class agrees with group a's class on the first L
      characters, as strncasecmp compares them. */
  predicate UniqueAt(gs: seq<AppGroup>, a: nat, L: nat)
    requires a < |gs|
  {
    forall o :: 0 <= o < |gs| && o != a ==> !StrNCaseEq(gs[a].cls, gs[o].cls, L)
  }

  /** The prefix-length loop started at L: the first unique length up to
      the class length, or one past the class length when there is none. */
  function SearchFrom(gs: seq<AppGroup>, a: nat, L: nat): (r: nat)
    requires a < |gs| && 1 <= L
    ensures L <= r && (r <= |gs[a].cls| + 1 || r == L)
    ensures r <= |gs[a].cls| ==> UniqueAt(gs, a, r)
    ensures forall k :: L <= k < r ==> !UniqueAt(gs, a, k)
    decreases |gs[a].cls| + 1 - L
  {
    if L > |gs[a].cls| || UniqueAt(gs, a, L) then L else SearchFrom(gs, a, L + 1)
  }

  /** The prefix length compute_prefixes picks for group a: the least L in
      1..|class| that no other group shares, or |class| + 1 when none is,
      which makes the whole class the prefix. */
  function PrefixLen(gs: seq<AppGroup>, a: nat): (r: nat)
    requires a < |gs|
    ensures 1 <= r <= |gs[a].cls| + 1
    ensures r <= |gs[a].cls| ==> UniqueAt(gs, a, r)
    ensures forall k :: 1 <= k < r ==> !UniqueAt(gs, a, k)
  {
    SearchFrom(gs, a, 1)
  }

  /** The nested prefix-length loops for group a. */
  method ShortestUniqueLen(gs: seq<AppGroup>, a: nat) returns (len: nat)
    requires a < |gs|
    ensures len == PrefixLen(gs, a)
  {
    var cls := gs[a].cls;
    len := 1;
    while len <= |cls|
      invariant 1 <= len <= |cls| + 1 || len == 1
      invariant SearchFrom(gs, a, len) == PrefixLen(gs, a)
      decreases |cls| + 1 - len
    {
      var unique := true;
      var other := 0;
      while other < |gs|
        invariant 0 <= other <= |gs|
        invariant unique
        invariant forall o :: 0 <= o < other && o != a ==> !StrNCaseEq(cls, gs[o].cls, len)
      {
        if other != a && StrNCaseEq(cls, gs[other].cls, len) {
          unique := false;
          break;
        }
        other := other + 1;
      }
      if unique {
        assert UniqueAt(gs, a, len);
        return;
      }
      assert !UniqueAt(gs, a, len);
      len := len + 1;
    }
  }

  // ---------------------------------------------------------------------
  // Prefix assignment

  /** The first PrefixLen characters of group a's class (strncpy / "%.*s"). */
  function Stem(gs: seq<AppGroup>, a: nat): (r: string)
    requires a < |gs|
    ensures r <= gs[a].cls
  {
    gs[a].cls[..Min(PrefixLen(gs, a), |gs[a].cls|)]
  }

  /** The position of x in s, or |s| when x is absent. */
  function IndexIn(s: seq<nat>, x: nat): (r: nat)
    ensures r <= |s|
    ensures r < |s| <==> x in s
    ensures r < |s| ==> s[r] == x && x !in s[..r]
  {
    if |s| == 0 then 0
    else if s[0] == x then 0
    else
      var r := IndexIn(s[1..], x);
      assert s[1..][..r] == s[1..r + 1];
      assert s[..r + 1] == [s[0]] + s[1..r + 1];
      r + 1
  }

  /** The prefix of the w-th window (0-based) of group a: the stem alone in
      a single-window group, otherwise the stem followed by "%d" of w + 1. */
  function GroupPrefix(gs: seq<AppGroup>, a: nat, w: nat): string
    requires a < |gs|
  {
    if |gs[a].members| == 1 then Stem(gs, a) else Stem(gs, a) + Decimal(w + 1)
  }

  /** The group window v belongs to, if any. */
  function GroupOf(cs: seq<string>, v: nat): Option<nat>
    requires v < |cs|
  {
    FindGroup(GroupsOf(cs), cs[v])
  }

  /** The prefix compute_prefixes leaves for window v; a window whose class
      got no group keeps the empty prefix set at discovery. */
  function PrefixOf(cs: seq<string>, v: nat): string
    requires v < |cs|
  {
    match GroupOf(cs, v)
    case None => ""
    case Some(a) =>
      var gs := GroupsOf(cs);
      GroupPrefix(gs, a, IndexIn(gs[a].members, v))
  }

  /** The prefix table after compute_prefixes. */
  function PrefixTable(cs: seq<string>): (r: seq<string>)
    ensures |r| == |cs|
  {
    seq(|cs|, v requires 0 <= v < |cs| => PrefixOf(cs, v))
  }

  /** A window belongs to the group found for its class exactly when it is
      one of that group's members. */
  lemma MemberOfGroup(cs: seq<string>, v: nat, a: nat)
    requires v < |cs| && a < |GroupsOf(cs)|
    ensures GroupOf(cs, v) == Some(a) <==> v in GroupsOf(cs)[a].members
  {
    var gs := GroupsOf(cs);
    GroupsOfGrouped(cs);
    if v in gs[a].members {
      var k :| 0 <= k < |gs[a].members| && gs[a].members[k] == v;
      assert cs[v] == gs[a].cls;
    }
  }

  /** The assignment step for group a: each member gets its GroupPrefix,
      every other entry of the table is left alone. */
  method AssignGroup(gs: seq<AppGroup>, a: nat, len: nat, table: array<string>)
    requires a < |gs| && len == PrefixLen(gs, a)
    requires StrictlyIncreasing(gs[a].members)
    requires forall k :: 0 <= k < |gs[a].members| ==> gs[a].members[k] < table.Length
    modifies table
    ensures forall v :: 0 <= v < table.Length && v in gs[a].members ==>
      table[v] == GroupPrefix(gs, a, IndexIn(gs[a].members, v))
    ensures forall v :: 0 <= v < table.Length && v !in gs[a].members ==> table[v] == old(table[v])
  {
    var members := gs[a].members;
    var cls := gs[a].cls;
    var stem := cls[..Min(len, |cls|)];
    assert stem == Stem(gs, a);
    if |members| == 1 {
      table[members[0]] := stem;
      assert IndexIn(members, members[0]) == 0;
    } else {
      for w := 0 to |members|
        invariant forall k :: 0 <= k < w ==> table[members[k]] == stem + Decimal(k + 1)
        invariant forall v :: 0 <= v < table.Length && v !in members[..w] ==> table[v] == old(table[v])
      {
        table[members[w]] := stem + Decimal(w + 1);
        assert members[..w + 1] == members[..w] + [members[w]];
      }
      assert members[..|members|] == members;
      forall v | 0 <= v < table.Length && v in members
        ensures table[v] == GroupPrefix(gs, a, IndexIn(members, v))
      {
        var k := IndexIn(members, v);
        assert table[members[k]] == stem + Decimal(k + 1);
      }
    }
  }

  /**
   * compute_prefixes: group the windows, then give every group its prefix
   * length and write its members' prefixes into the table, which discovery
   * left empty.
   */
  method ComputePrefixes(cs: seq<string>) returns (prefixes: seq<string>)
    ensures prefixes == PrefixTable(cs)
  {
    var apps := GroupByClass(cs);
    GroupsOfGrouped(cs);
    var table := new string[|cs|](_ => "");
    for a := 0 to |apps|
      invariant forall v :: 0 <= v < |cs| ==>
        table[v] == (if GroupOf(cs, v).Some? && GroupOf(cs, v).value < a then PrefixOf(cs, v) else "")
    {
      assert forall k :: 0 <= k < |apps[a].members| ==> apps[a].members[k] < |cs|;
      var len := ShortestUniqueLen(apps, a);
      AssignGroup(apps, a, len, table);
      forall v | 0 <= v < |cs|
        ensures table[v] == (if GroupOf(cs, v).Some? && GroupOf(cs, v).value < a + 1 then PrefixOf(cs, v) else "")
      {
        MemberOfGroup(cs, v, a);
      }
    }
    forall v | 0 <= v < |cs| ensures table[v] == PrefixOf(cs, v) {
    }
    prefixes := table[..];
  }

  // ---------------------------------------------------------------------
  // Properties of the table

  /** A unique length really separates group a from group b: b's stem
      cannot equal a's stem when a's stem is shorter than its class. */
  lemma UniqueStemDiffers(gs: seq<AppGroup>, a: nat, b: nat)
    requires a < |gs| && b < |gs| && a != b
    requires PrefixLen(gs, a) <= |gs[a].cls|
    ensures Stem(gs, a) != Stem(gs, b)
  {
    var L := PrefixLen(gs, a);
    var x, y := gs[a].cls, gs[b].cls;
    assert !StrNCaseEq(x, y, L);
    if Min(PrefixLen(gs, b), |y|) == L {
      StrNCaseEqIff(x, y, L);
      assert Lower(x[..L]) != Lower(y[..L]);
    }
  }

  /** Different groups never share a stem: either one of them has a unique
      length, or both fall back to their whole, different, classes. */
  lemma StemsDiffer(gs: seq<AppGroup>, a: nat, b: nat)
    requires Shaped(gs) && a < |gs| && b < |gs| && a != b
    ensures Stem(gs, a) != Stem(gs, b)
  {
    if PrefixLen(gs, a) <= |gs[a].cls| {
      UniqueStemDiffers(gs, a, b);
    } else if PrefixLen(gs, b) <= |gs[b].cls| {
      UniqueStemDiffers(gs, b, a);
    } else {
      assert Stem(gs, a) == gs[a].cls[..|gs[a].cls|];
      assert Stem(gs, b) == gs[b].cls[..|gs[b].cls|];
    }
  }

  /** Windows that are alone in their groups get different prefixes. */
  lemma SingleWindowPrefixesDistinct(cs: seq<string>, v: nat, w: nat)
    requires v < |cs| && w < |cs| && v != w
    requires GroupOf(cs, v).Some? && |GroupsOf(cs)[GroupOf(cs, v).value].members| == 1
    requires GroupOf(cs, w).Some? && |GroupsOf(cs)[GroupOf(cs, w).value].members| == 1
    ensures PrefixOf(cs, v) != PrefixOf(cs, w)
  {
    var gs := GroupsOf(cs);
    var a, b := GroupOf(cs, v).value, GroupOf(cs, w).value;
    GroupsOfGrouped(cs);
    MemberOfGroup(cs, v, a);
    MemberOfGroup(cs, w, b);
    assert gs[a].members[0] == v && gs[b].members[0] == w;
    StemsDiffer(gs, a, b);
  }

  /** A window without a group keeps the empty prefix, which happens only
      once MAX_APPS groups exist. */
  lemma UngroupedOnlyWhenFull(cs: seq<string>, v: nat)
    requires v < |cs| && GroupOf(cs, v).None?
    ensures PrefixOf(cs, v) == "" && |GroupsOf(cs)| == MaxApps
  {
    GroupsOfGrouped(cs);
  }

  /** The windows of class c, in discovery order. */
  function Occurrences(cs: seq<string>, c: string): (r: seq<nat>)
    ensures StrictlyIncreasing(r)
    ensures forall k :: 0 <= k < |r| ==> r[k] < |cs| && cs[r[k]] == c
    ensures forall i :: 0 <= i < |cs| && cs[i] == c ==> i in r
  {
    if |cs| == 0 then []
    else
      var n := |cs| - 1;
      var r := Occurrences(cs[..n], c);
      assert forall i :: 0 <= i < n ==> cs[..n][i] == cs[i];
      r + (if cs[n] == c then [n] else [])
  }

  lemma {:induction false} OccurrencesPrefix(cs: seq<string>, v: nat, c: string)
    requires v <= |cs|
    ensures Occurrences(cs[..v], c) <= Occurrences(cs, c)
    decreases |cs|
  {
    if v < |cs| {
      var n := |cs| - 1;
      assert cs[..n][..v] == cs[..v];
      OccurrencesPrefix(cs[..n], v, c);
    } else {
      assert cs[..v] == cs;
    }
  }

  lemma {:induction false} OccurrencesAbsent(cs: seq<string>, c: string)
    requires forall i :: 0 <= i < |cs| ==> cs[i] != c
    ensures Occurrences(cs, c) == []
  {
    if |cs| > 0 {
      OccurrencesAbsent(cs[..|cs| - 1], c);
    }
  }

  /** Each group lists exactly the windows of its class, in discovery order. */
  lemma {:induction false} MembersAreOccurrences(cs: seq<string>)
    ensures forall a :: 0 <= a < |GroupsOf(cs)| ==>
      GroupsOf(cs)[a].members == Occurrences(cs, GroupsOf(cs)[a].cls)
  {
    if |cs| > 0 {
      var n := |cs| - 1;
      var cs', c := cs[..n], cs[n];
      MembersAreOccurrences(cs');
      GroupsOfGrouped(cs');
      var gs', gs := GroupsOf(cs'), GroupsOf(cs);
      forall a | 0 <= a < |gs| ensures gs[a].members == Occurrences(cs, gs[a].cls) {
        if a < |gs'| && gs'[a].cls != c {
          assert gs[a] == gs'[a];
        } else if a < |gs'| {
          assert FindGroup(gs', c) == Some(a);
        } else {
          assert FindGroup(gs', c).None? && |gs'| < MaxApps;
          assert c !in Classes(gs');
          assert forall i :: 0 <= i < n ==> cs'[i] in Classes(gs') && cs'[i] != c;
          OccurrencesAbsent(cs', c);
        }
      }
    }
  }

  /**
   * The prefix of a grouped window: its group's stem, followed, when the
   * class has several windows, by the window's 1-based position among the
   * windows of its class in discovery order.
   */
  lemma PrefixOfGroupedWindow(cs: seq<string>, v: nat)
    requires v < |cs| && GroupOf(cs, v).Some?
    ensures var gs, a := GroupsOf(cs), GroupOf(cs, v).value;
      var earlier := |Occurrences(cs[..v], cs[v])|;
      |gs[a].members| == |Occurrences(cs, cs[v])| &&
      PrefixOf(cs, v) ==
        (if |gs[a].members| == 1 then Stem(gs, a) else Stem(gs, a) + Decimal(earlier + 1))
  {
    var gs, a := GroupsOf(cs), GroupOf(cs, v).value;
    var c := cs[v];
    MembersAreOccurrences(cs);
    var m := gs[a].members;
    assert m == Occurrences(cs, c);
    var before := Occurrences(cs[..v], c);
    var upTo := Occurrences(cs[..v + 1], c);
    assert cs[..v + 1][..v] == cs[..v];
    assert upTo == before + [v];
    OccurrencesPrefix(cs, v + 1, c);
    var k := |before|;
    assert m[k] == v;
    assert v !in m[..k] by {
      assert m[..k] == before;
    }
    assert IndexIn(m, v) == k;
  }

  /** The instance suffix is never checked against other groups: two "d"
      windows and one "d1" window end up with "d1", "d2" and "d1". */
  lemma InstanceSuffixCollides()
    ensures PrefixTable(["d", "d", "d1"]) == ["d1", "d2", "d1"]
  {
    CollidingTable(["d", "d", "d1"]);
  }

  /** The table for "d", "d", "d1", reasoned about element by element. */
  lemma CollidingTable(cs: seq<string>)
    requires |cs| == 3 && cs[0] == "d" && cs[1] == "d" && cs[2] == "d1"
    ensures PrefixTable(cs) == ["d1", "d2", "d1"]
  {
    CollidingFirst(cs);
    CollidingSecond(cs);
    CollidingThird(cs);
    var t := PrefixTable(cs);
    assert t[0] == "d1" && t[1] == "d2" && t[2] == "d1";
  }

  /** The first "d" window: stem "d", instance 1. */
  lemma CollidingFirst(cs: seq<string>)
    requires |cs| == 3 && cs[0] == "d" && cs[1] == "d" && cs[2] == "d1"
    ensures PrefixOf(cs, 0) == "d1"
  {
    CollidingGroups(cs);
    var gs := GroupsOf(cs);
    CollidingLookups(gs);
    CollidingPrefixes(gs);
  }

  /** The second "d" window: stem "d", instance 2. */
  lemma CollidingSecond(cs: seq<string>)
    requires |cs| == 3 && cs[0] == "d" && cs[1] == "d" && cs[2] == "d1"
    ensures PrefixOf(cs, 1) == "d2"
  {
    CollidingGroups(cs);
    var gs := GroupsOf(cs);
    CollidingLookups(gs);
    CollidingPrefixes(gs);
  }

  /** The "d1" window: alone in its group, stem "d1". */
  lemma CollidingThird(cs: seq<string>)
    requires |cs| == 3 && cs[0] == "d" && cs[1] == "d" && cs[2] == "d1"
    ensures PrefixOf(cs, 2) == "d1"
  {
    CollidingGroups(cs);
    var gs := GroupsOf(cs);
    CollidingLookups(gs);
    CollidingPrefixes(gs);
  }

  /** The groups of "d", "d", "d1". */
  lemma CollidingGroups(cs: seq<string>)
    requires |cs| == 3 && cs[0] == "d" && cs[1] == "d" && cs[2] == "d1"
    ensures GroupsOf(cs) == [AppGroup("d", [0, 1]), AppGroup("d1", [2])]
  {
    var one, two := [AppGroup("d", [0])], [AppGroup("d", [0, 1])];
    assert |cs[..1][..0]| == 0;
    assert GroupsOf(cs[..1]) == one;
    assert cs[..2][..1] == cs[..1];
    assert FindGroup(one, "d") == Some(0);
    assert [0] + [1] == [0, 1];
    assert GroupsOf(cs[..2]) == two;
    assert FindGroup(two, "d1").None?;
  }

  /** Where each window of "d", "d", "d1" sits in the groups. */
  lemma CollidingLookups(gs: seq<AppGroup>)
    requires gs == [AppGroup("d", [0, 1]), AppGroup("d1", [2])]
    ensures FindGroup(gs, "d") == Some(0) && FindGroup(gs, "d1") == Some(1)
    ensures IndexIn(gs[0].members, 0) == 0 && IndexIn(gs[0].members, 1) == 1
    ensures IndexIn(gs[1].members, 2) == 0
  {
    assert gs[0].members[1..] == [1];
  }

  /** The group prefixes of "d", "d", "d1": the stem plus the instance
      number in the two-window group, the bare stem in the other. */
  lemma CollidingPrefixes(gs: seq<AppGroup>)
    requires gs == [AppGroup("d", [0, 1]), AppGroup("d1", [2])]
    ensures GroupPrefix(gs, 0, 0) == "d1" && GroupPrefix(gs, 0, 1) == "d2"
    ensures GroupPrefix(gs, 1, 0) == "d1"
  {
    CollidingStems();
    assert Decimal(1) == "1" && Decimal(2) == "2";
  }

  /** Both groups of "d", "d", "d1" need two characters: "d" and "d1". */
  lemma CollidingStems()
    ensures Stem([AppGroup("d", [0, 1]), AppGroup("d1", [2])], 0) == "d"
    ensures Stem([AppGroup("d", [0, 1]), AppGroup("d1", [2])], 1) == "d1"
  {
    var gs := [AppGroup("d", [0, 1]), AppGroup("d1", [2])];
    assert gs[0].cls == "d" && gs[1].cls == "d1";
    assert StrNCaseEq(gs[0].cls, gs[1].cls, 1);
    assert !UniqueAt(gs, 0, 1);
    assert StrNCaseEq(gs[1].cls, gs[0].cls, 1);
    assert !UniqueAt(gs, 1, 1);
    assert !StrNCaseEq(gs[1].cls, gs[0].cls, 2);
    assert UniqueAt(gs, 1, 2);
    assert PrefixLen(gs, 0) == 2 && PrefixLen(gs, 1) == 2;
  }

  /** A class that is a proper prefix of another class has no unique
      length and falls back to itself: "ab" beside "abc" gets "ab". */
  lemma WholeClassFallback()
    ensures PrefixTable(["ab", "abc"]) == ["ab", "abc"]
  {
    var cs := ["ab", "abc"];
    assert cs[..1] == ["ab"];
    var gs := [AppGroup("ab", [0]), AppGroup("abc", [1])];
    assert GroupsOf(["ab"]) == [AppGroup("ab", [0])];
    assert GroupsOf(cs) == gs;
    assert StrNCaseEq("ab", "abc", 1) && StrNCaseEq("ab", "abc", 2) && !StrNCaseEq("abc", "ab", 3);
    assert !UniqueAt(gs, 0, 1) && !UniqueAt(gs, 0, 2) && !UniqueAt(gs, 1, 1) && !UniqueAt(gs, 1, 2);
    assert PrefixLen(gs, 0) == 3 && PrefixLen(gs, 1) == 3;
    assert PrefixOf(cs, 0) == "ab";
    assert PrefixOf(cs, 1) == "abc";
  }
}
