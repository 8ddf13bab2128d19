/**
 * The C library string behaviour the three programs rely on, in the "C"
 * locale: <ctype.h> classification, tolower, strcasecmp and strncasecmp,
 * the in-place trim helper, strtol/atoi and the "%d" rendering of a
 * number. A `char` stands for one byte of a C string; strings hold no NUL.
 */
module CString {
  import opened Common

  const IntMax: int := 0x7fff_ffff
  const LongMax: int := 0x7fff_ffff_ffff_ffff
  const LongMin: int := -0x8000_0000_0000_0000

  /** isspace: ' ', '\t', '\n', '\v', '\f', '\r'. */
  predicate IsSpace(c: char) { c == ' ' || 9 <= c as int <= 13 }

  /** isprint: the printable ASCII range, space included. */
  predicate IsPrint(c: char) { ' ' <= c <= '~' }

  predicate IsDigit(c: char) { '0' <= c <= '9' }

  predicate IsUpper(c: char) { 'A' <= c <= 'Z' }

  /** tolower: only 'A'..'Z' change. */
  function ToLower(c: char): (r: char)
    ensures !IsUpper(r)
    ensures IsUpper(c) ==> 'a' <= r <= 'z'
    ensures !IsUpper(c) ==> r == c
  {
    if IsUpper(c) then (c as int + 32) as char else c
  }

  /** The string with every character passed through tolower. */
  function Lower(s: string): (r: string)
  {
    seq(|s|, i requires 0 <= i < |s| => ToLower(s[i]))
  }

  predicate HasNoUpper(s: string)
  {
    forall i :: 0 <= i < |s| ==> !IsUpper(s[i])
  }

  /** Lower-casing twice is lower-casing once. */
  lemma LowerIdempotent(s: string)
    ensures Lower(Lower(s)) == Lower(s)
    ensures HasNoUpper(Lower(s))
  {
  }

  /** strcasecmp(a, b) == 0 */
  predicate EqualsIgnoreCase(a: string, b: string)
  {
    Lower(a) == Lower(b)
  }

  /**
   * strncasecmp(x, y, n) == 0: compare at most n characters after
   * tolower, stopping early (as equal) when both strings end together.
   */
  predicate StrNCaseEq(x: string, y: string, n: nat)
    decreases n
  {
    if n == 0 then true
    else if |x| == 0 || |y| == 0 then |x| == 0 && |y| == 0
    else ToLower(x[0]) == ToLower(y[0]) && StrNCaseEq(x[1..], y[1..], n - 1)
  }

  function Min(a: nat, b: nat): nat { if a <= b then a else b }

  /** strncasecmp agrees exactly when the first n characters (or the whole
      strings, when shorter) agree after lower-casing. */
  lemma {:induction false} StrNCaseEqIff(x: string, y: string, n: nat)
    ensures StrNCaseEq(x, y, n) <==> Lower(x[..Min(n, |x|)]) == Lower(y[..Min(n, |y|)])
    decreases n
  {
    if n == 0 {
    } else if |x| == 0 || |y| == 0 {
      if |x| == 0 && |y| != 0 {
        assert |Lower(y[..Min(n, |y|)])| > 0;
      }
      if |y| == 0 && |x| != 0 {
        assert |Lower(x[..Min(n, |x|)])| > 0;
      }
    } else {
      StrNCaseEqIff(x[1..], y[1..], n - 1);
      LowerHead(x, n);
      LowerHead(y, n);
      var a, b := Lower(x[..Min(n, |x|)]), Lower(y[..Min(n, |y|)]);
      if a == b {
        assert a[0] == b[0] && a[1..] == b[1..];
      }
    }
  }

  /** The lower-cased first n characters of a non-empty string: its first
      character lower-cased, then the first n - 1 of the rest. */
  lemma LowerHead(x: string, n: nat)
    requires |x| > 0 && n > 0
    ensures var a := Lower(x[..Min(n, |x|)]);
      |a| > 0 && a[0] == ToLower(x[0]) && a[1..] == Lower(x[1..][..Min(n - 1, |x| - 1)])
  {
    assert x[..Min(n, |x|)][1..] == x[1..][..Min(n - 1, |x| - 1)];
  }

  /** strchr: the first position of c in s. */
  function IndexOfChar(s: string, c: char): (r: Option<nat>)
    ensures r.None? <==> c !in s
    ensures r.Some? ==> r.value < |s| && s[r.value] == c && forall j :: 0 <= j < r.value ==> s[j] != c
  {
    if |s| == 0 then None
    else if s[0] == c then Some(0)
    else
      var r := IndexOfChar(s[1..], c);
      assert c in s[1..] ==> c in s;
      assert c in s && s[0] != c ==> c in s[1..];
      if r.None? then None else Some(r.value + 1)
  }

  /** strrchr: the last position of c in s. */
  function LastIndexOfChar(s: string, c: char): (r: Option<nat>)
    ensures r.None? <==> c !in s
    ensures r.Some? ==> r.value < |s| && s[r.value] == c && forall j :: r.value < j < |s| ==> s[j] != c
  {
    if |s| == 0 then None
    else if s[|s| - 1] == c then Some(|s| - 1)
    else
      var r := LastIndexOfChar(s[..|s| - 1], c);
      assert c in s[..|s| - 1] ==> c in s;
      assert c in s && s[|s| - 1] != c ==> c in s[..|s| - 1];
      r
  }

  /** Number of leading isspace characters. */
  function LeadingSpaceCount(s: string): (r: nat)
    ensures r <= |s|
    ensures forall i :: 0 <= i < r ==> IsSpace(s[i])
    ensures r < |s| ==> !IsSpace(s[r])
  {
    if |s| > 0 && IsSpace(s[0]) then 1 + LeadingSpaceCount(s[1..]) else 0
  }

  /** Number of trailing isspace characters. */
  function TrailingSpaceCount(s: string): (r: nat)
    ensures r <= |s|
    ensures forall i :: |s| - r <= i < |s| ==> IsSpace(s[i])
    ensures r < |s| ==> !IsSpace(s[|s| - 1 - r])
  {
    if |s| > 0 && IsSpace(s[|s| - 1]) then 1 + TrailingSpaceCount(s[..|s| - 1]) else 0
  }

  /** The string with leading whitespace skipped (the `while (isspace(*p)) p++` idiom). */
  function SkipSpaces(s: string): string
  {
    s[LeadingSpaceCount(s)..]
  }

  /** What winleap.c's trim leaves: leading and trailing whitespace removed. */
  function Trim(s: string): string
  {
    var t := SkipSpaces(s);
    t[..|t| - TrailingSpaceCount(t)]
  }

  /** Trim removes only whitespace, from both ends, and leaves a string
      that starts and ends with a non-space character. */
  lemma TrimShape(s: string)
    ensures var lo, t := LeadingSpaceCount(s), Trim(s);
      lo + |t| <= |s| && t == s[lo..lo + |t|] &&
      (forall i :: 0 <= i < lo ==> IsSpace(s[i])) &&
      (forall i :: lo + |t| <= i < |s| ==> IsSpace(s[i])) &&
      (|t| > 0 ==> !IsSpace(t[0]) && !IsSpace(t[|t| - 1]))
  {
    TrimIsMiddle(s);
    TrimTailSpaces(s);
    TrimEnds(s);
  }

  lemma TrimIsMiddle(s: string)
    ensures var lo, t := LeadingSpaceCount(s), Trim(s);
      lo + |t| <= |s| && t == s[lo..lo + |t|]
  {
    var lo := LeadingSpaceCount(s);
    var u := s[lo..];
    var tr := TrailingSpaceCount(u);
    assert SkipSpaces(s) == u;
    assert Trim(s) == u[..|u| - tr];
    assert u[..|u| - tr] == s[lo..|s| - tr];
  }

  lemma TrimTailSpaces(s: string)
    ensures var lo, t := LeadingSpaceCount(s), Trim(s);
      forall i :: lo + |t| <= i < |s| ==> IsSpace(s[i])
  {
    var lo := LeadingSpaceCount(s);
    var u := s[lo..];
    var tr := TrailingSpaceCount(u);
    assert |Trim(s)| == |u| - tr;
    forall i | lo + |u| - tr <= i < |s| ensures IsSpace(s[i]) {
      assert s[i] == u[i - lo];
    }
  }

  lemma TrimEnds(s: string)
    ensures var t := Trim(s);
      |t| > 0 ==> !IsSpace(t[0]) && !IsSpace(t[|t| - 1])
  {
    var lo := LeadingSpaceCount(s);
    var u := s[lo..];
    var tr := TrailingSpaceCount(u);
    var t := Trim(s);
    assert t == u[..|u| - tr];
    if |t| > 0 {
      assert t[0] == u[0] == s[lo];
      assert t[|t| - 1] == u[|u| - 1 - tr];
    }
  }

  /** Trimming twice is trimming once. */
  lemma TrimIdempotent(s: string)
    ensures Trim(Trim(s)) == Trim(s)
  {
    TrimShape(s);
    var t := Trim(s);
    assert LeadingSpaceCount(t) == 0;
    assert SkipSpaces(t) == t;
    assert TrailingSpaceCount(t) == 0;
  }

  /**
   * winleap.c's trim: skip leading whitespace, then overwrite trailing
   * whitespace (never the first remaining character) with NUL. The start
   * pointer and the new terminator are returned as the span [lo, hi).
   */
  method TrimSpan(s: string) returns (lo: nat, hi: nat)
    ensures lo <= hi <= |s|
    ensures s[lo..hi] == Trim(s)
  {
    lo := SkipSpaceIndex(s);
    hi := |s|;
    if lo == |s| {
      return;
    }
    while hi - 1 > lo && IsSpace(s[hi - 1])
      invariant lo < hi <= |s|
      invariant forall i :: hi <= i < |s| ==> IsSpace(s[i])
    {
      hi := hi - 1;
    }
    var u := s[lo..];
    assert !IsSpace(u[hi - 1 - lo]);
    assert forall i :: hi - lo <= i < |u| ==> IsSpace(u[i]) by {
      forall i | hi - lo <= i < |u| ensures IsSpace(u[i]) {
        assert u[i] == s[lo + i];
      }
    }
    TrailingSpaceCountIs(u, |s| - hi);
    assert SkipSpaces(s) == u;
    assert Trim(s) == u[..hi - lo] == s[lo..hi];
  }

  /** The trailing space count is the one length whose tail is all spaces
      and is preceded by a non-space. */
  lemma TrailingSpaceCountIs(u: string, k: nat)
    requires k <= |u| && (forall i :: |u| - k <= i < |u| ==> IsSpace(u[i]))
    requires k < |u| ==> !IsSpace(u[|u| - 1 - k])
    ensures TrailingSpaceCount(u) == k
  {
  }

  /** Index of the first non-space character (the `isspace` skipping loop). */
  method SkipSpaceIndex(s: string) returns (k: nat)
    ensures k == LeadingSpaceCount(s)
  {
    k := 0;
    while k < |s| && IsSpace(s[k])
      invariant k <= |s|
      invariant forall i :: 0 <= i < k ==> IsSpace(s[i])
    {
      k := k + 1;
    }
    LeadingSpaceCountIs(s, k);
  }

  lemma {:induction false} LeadingSpaceCountIs(s: string, k: nat)
    requires k <= |s| && (forall i :: 0 <= i < k ==> IsSpace(s[i])) && (k < |s| ==> !IsSpace(s[k]))
    ensures LeadingSpaceCount(s) == k
  {
    if k > 0 {
      LeadingSpaceCountIs(s[1..], k - 1);
    }
  }

  /** Length of the run of decimal digits at the start of s. */
  function LeadingDigitCount(s: string): (r: nat)
    ensures r <= |s|
    ensures forall i :: 0 <= i < r ==> IsDigit(s[i])
    ensures r < |s| ==> !IsDigit(s[r])
  {
    if |s| > 0 && IsDigit(s[0]) then 1 + LeadingDigitCount(s[1..]) else 0
  }

  predicate AllDigits(s: string)
  {
    forall i :: 0 <= i < |s| ==> IsDigit(s[i])
  }

  lemma LeadingDigitsAll(s: string)
    ensures AllDigits(s[..LeadingDigitCount(s)])
  {
    var ds := s[..LeadingDigitCount(s)];
    assert forall i :: 0 <= i < |ds| ==> ds[i] == s[i];
  }

  /** Value of a string of decimal digits. */
  function DigitsValue(ds: string): nat
    requires AllDigits(ds)
  {
    if |ds| == 0 then 0
    else DigitsValue(ds[..|ds| - 1]) * 10 + (ds[|ds| - 1] as int - '0' as int)
  }

  function Clamp(v: int, lo: int, hi: int): int
    requires lo <= hi
  {
    if v < lo then lo else if v > hi then hi else v
  }

  /** strtol(s, &end, 10) on a 64-bit long: the value (clamped on overflow)
      and the offset of `end` (0, that is `end == s`, when no digit is read). */
  datatype Conversion = Conversion(value: int, end: nat)

  function SignLength(t: string): nat
  {
    if |t| > 0 && (t[0] == '+' || t[0] == '-') then 1 else 0
  }

  function Strtol(s: string): (r: Conversion)
    ensures r.end <= |s|
    ensures LongMin <= r.value <= LongMax
    ensures r.end == 0 ==> r.value == 0
  {
    var lead := LeadingSpaceCount(s);
    var t := s[lead..];
    var sign := SignLength(t);
    var u := t[sign..];
    var nd := LeadingDigitCount(u);
    if nd == 0 then Conversion(0, 0)
    else
      LeadingDigitsAll(u);
      var mag: int := DigitsValue(u[..nd]);
      var v: int := if sign == 1 && t[0] == '-' then -mag else mag;
      Conversion(Clamp(v, LongMin, LongMax), lead + sign + nd)
  }

  /** The conversion of a long to a 32-bit int: wrap modulo 2^32. */
  function WrapInt32(v: int): (r: int)
    ensures -IntMax - 1 <= r <= IntMax
    ensures -IntMax - 1 <= v <= IntMax ==> r == v
  {
    (v + 0x8000_0000) % 0x1_0000_0000 - 0x8000_0000
  }

  /** atoi as glibc implements it: (int) strtol(s, NULL, 10). */
  function Atoi(s: string): int
  {
    WrapInt32(Strtol(s).value)
  }

  function DigitChar(d: nat): (c: char)
    requires d < 10
    ensures IsDigit(c) && c as int - '0' as int == d
  {
    ('0' as int + d) as char
  }

  /** printf's "%d" of a non-negative number. */
  function Decimal(n: nat): (r: string)
    ensures |r| > 0
    decreases n
  {
    if n < 10 then [DigitChar(n)] else Decimal(n / 10) + [DigitChar(n % 10)]
  }

  /** "%d" writes only digits, and reading them back gives the number. */
  lemma {:induction false} DecimalDigits(n: nat)
    ensures AllDigits(Decimal(n))
    ensures DigitsValue(Decimal(n)) == n
    decreases n
  {
    if n >= 10 {
      DecimalDigits(n / 10);
      var d := Decimal(n);
      assert d[..|d| - 1] == Decimal(n / 10);
    }
  }

  /** strtol reads back every number that "%d" writes, consuming all of it. */
  lemma StrtolDecimal(n: nat)
    requires n <= LongMax
    ensures Strtol(Decimal(n)) == Conversion(n, |Decimal(n)|)
  {
    var d := Decimal(n);
    DecimalDigits(n);
    assert LeadingSpaceCount(d) == 0;
    assert d[0..] == d;
    assert SignLength(d) == 0;
    assert LeadingDigitCount(d) == |d|;
    assert d[0..|d|] == d;
  }

  /** atoi reads back every int-sized number that "%d" writes. */
  lemma AtoiDecimal(n: nat)
    requires n <= IntMax
    ensures Atoi(Decimal(n)) == n
  {
    StrtolDecimal(n);
  }
}
