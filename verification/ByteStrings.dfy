/**
 Byte strings and the ASCII helpers the parsers rest on: white space trimming,
 case folding, and the search for the first byte with a given property.
 */
module ByteStrings {
  import opened Wrappers

  newtype byte = x: int | 0 <= x < 256
  type bytes = seq<byte>

  const TAB: byte := 9
  const LF: byte := 10
  const FF: byte := 12
  const CR: byte := 13
  const SP: byte := 32
  const COLON: byte := 58
  const CRLF: bytes := [CR, LF]

  /** The largest values of the machine integers the code uses. */
  const U64_MAX: nat := 0xFFFF_FFFF_FFFF_FFFF
  const I64_MAX: nat := 0x7FFF_FFFF_FFFF_FFFF

  function Min(a: nat, b: nat): nat { if a < b then a else b }

  /** The bytes of an ASCII literal. */
  function Ascii(s: string): (r: bytes)
    requires forall i :: 0 <= i < |s| ==> (s[i] as int) < 128
    ensures |r| == |s|
    ensures forall i :: 0 <= i < |s| ==> r[i] as int == s[i] as int
  {
    seq(|s|, i requires 0 <= i < |s| => s[i] as int as byte)
  }

  // ------------------------------------------------------------------
  // White space
  // ------------------------------------------------------------------

  /** ASCII white space as the trimming functions understand it: no vertical tab. */
  predicate IsSpace(b: byte) {
    b == SP || b == TAB || b == LF || b == FF || b == CR
  }

  predicate AllSpace(s: bytes) {
    forall i :: 0 <= i < |s| ==> IsSpace(s[i])
  }

  /** No white space at either end. */
  predicate Trimmed(s: bytes) {
    s != [] ==> !IsSpace(s[0]) && !IsSpace(s[|s| - 1])
  }

  function TrimEnd(s: bytes): (r: bytes)
    ensures |r| <= |s|
  {
    if s != [] && IsSpace(s[|s| - 1]) then TrimEnd(s[..|s| - 1]) else s
  }

  function TrimStart(s: bytes): (r: bytes)
    ensures |r| <= |s|
  {
    if s != [] && IsSpace(s[0]) then TrimStart(s[1..]) else s
  }

  function Trim(s: bytes): (r: bytes)
    ensures |r| <= |s|
  {
    TrimStart(TrimEnd(s))
  }

  lemma {:induction false} TrimEndCuts(s: bytes)
    ensures var n := |TrimEnd(s)|; TrimEnd(s) == s[..n] && AllSpace(s[n..]) && (n > 0 ==> !IsSpace(s[n - 1]))
  {
    if s != [] && IsSpace(s[|s| - 1]) {
      var t := s[..|s| - 1];
      TrimEndCuts(t);
      var n := |TrimEnd(t)|;
      assert t[..n] == s[..n];
      assert forall i :: n <= i < |t| ==> s[i] == t[n..][i - n];
    }
  }

  lemma {:induction false} TrimStartCuts(s: bytes)
    ensures var n := |s| - |TrimStart(s)|; TrimStart(s) == s[n..] && AllSpace(s[..n]) && (n < |s| ==> !IsSpace(s[n]))
  {
    if s != [] && IsSpace(s[0]) {
      var t := s[1..];
      TrimStartCuts(t);
      var n := |t| - |TrimStart(t)|;
      assert t[n..] == s[n + 1..];
      assert forall i :: 1 <= i < n + 1 ==> s[i] == t[..n][i - 1];
    }
  }

  /** Every byte string is white space, its trimmed part, and white space. */
  lemma TrimSplit(s: bytes) returns (a: bytes, b: bytes)
    ensures AllSpace(a) && AllSpace(b) && Trimmed(Trim(s)) && s == a + Trim(s) + b
  {
    var e := TrimEnd(s);
    TrimEndCuts(s);
    TrimStartCuts(e);
    a, b := e[..|e| - |Trim(s)|], s[|e|..];
  }

  /** The offsets of the trimmed part, so that no copy is made. */
  function TrimOffsets(value: bytes): (r: (nat, nat))
    ensures r.0 <= r.1 <= |value|
    ensures value[r.0..r.1] == Trim(value)
  {
    var end := |TrimEnd(value)|;
    TrimEndCuts(value);
    TrimStartCuts(value[..end]);
    (end - |TrimStart(value[..end])|, end)
  }

  /** Trimming finds the one middle part between two runs of white space. */
  lemma TrimMiddle(a: bytes, m: bytes, b: bytes)
    requires AllSpace(a) && AllSpace(b) && Trimmed(m)
    ensures Trim(a + m + b) == m
  {
    var s := a + m + b;
    var e := TrimEnd(s);
    TrimEndCuts(s);
    TrimStartCuts(e);
    var hi := |a| + |m|;
    assert forall i :: |e| <= i < |s| ==> s[i] == s[|e|..][i - |e|];
    if m != [] {
      assert s[hi - 1] == m[|m| - 1];
      assert e == a + m;
      assert e[|a|] == m[0];
      var t := TrimStart(e);
      assert forall i :: 0 <= i < |e| - |t| ==> e[i] == e[..|e| - |t|][i];
      assert t == m;
    }
  }

  lemma TrimEndEmpty(s: bytes)
    ensures TrimEnd(s) == [] <==> AllSpace(s)
  {
    var e := TrimEnd(s);
    TrimEndCuts(s);
    assert forall i :: |e| <= i < |s| ==> s[i] == s[|e|..][i - |e|];
  }

  /** Exactly blank, tab, line feed, form feed and carriage return are white space. */
  lemma SpacesAre(b: byte)
    ensures IsSpace(b) <==> b in Ascii(" \t\n\r\U{0C}")
  {
    var all := Ascii(" \t\n\r\U{0C}");
    assert all[0] == SP && all[1] == TAB && all[2] == LF && all[3] == CR && all[4] == FF;
  }

  // ------------------------------------------------------------------
  // Case folding
  // ------------------------------------------------------------------

  function LowerByte(b: byte): byte {
    if 65 <= b <= 90 then b + 32 else b
  }

  function Lower(s: bytes): (r: bytes)
    ensures |r| == |s|
  {
    seq(|s|, i requires 0 <= i < |s| => LowerByte(s[i]))
  }

  predicate EqIgnoreCase(a: bytes, b: bytes) {
    Lower(a) == Lower(b)
  }

  /** The capital letters, and the small ones in the same order. */
  const CAPITALS: bytes := Ascii("ABCDEFGHIJKLMNOPQRSTUVWXYZ")
  const SMALLS: bytes := Ascii("abcdefghijklmnopqrstuvwxyz")

  lemma LetterAt(i: nat)
    requires i < 26
    ensures |CAPITALS| == |SMALLS| == 26
    ensures CAPITALS[i] as int == 65 + i && SMALLS[i] as int == 97 + i
  {
  }

  /** The same letter, once capital and once small. */
  predicate CasesOf(a: byte, b: byte) {
    exists i: nat :: i < |CAPITALS| && i < |SMALLS| && CAPITALS[i] == a && SMALLS[i] == b
  }

  lemma SameLetterIff(a: byte, b: byte)
    ensures LowerByte(a) == LowerByte(b) <==> a == b || CasesOf(a, b) || CasesOf(b, a)
  {
    hide CAPITALS, SMALLS;
    forall i: nat | i < 26
      ensures |CAPITALS| == |SMALLS| == 26 && CAPITALS[i] as int == 65 + i && SMALLS[i] as int == 97 + i
    {
      LetterAt(i);
    }
    LetterAt(0);
    if 65 <= a <= 90 && b == a + 32 {
      assert CAPITALS[a as int - 65] == a && SMALLS[a as int - 65] == b;
    }
    if 65 <= b <= 90 && a == b + 32 {
      assert CAPITALS[b as int - 65] == b && SMALLS[b as int - 65] == a;
    }
  }

  /** Strings are equal without case exactly when they differ in the case of letters only. */
  lemma EqualWithoutCaseIff(a: bytes, b: bytes)
    ensures EqIgnoreCase(a, b) <==>
            |a| == |b| && forall i :: 0 <= i < |a| ==> a[i] == b[i] || CasesOf(a[i], b[i]) || CasesOf(b[i], a[i])
  {
    hide CasesOf, LowerByte;
    forall i | 0 <= i < |a| && i < |b|
      ensures LowerByte(a[i]) == LowerByte(b[i]) <==> a[i] == b[i] || CasesOf(a[i], b[i]) || CasesOf(b[i], a[i])
    {
      SameLetterIff(a[i], b[i]);
    }
    if EqIgnoreCase(a, b) {
      assert |a| == |Lower(a)| == |Lower(b)| == |b|;
      assert forall i :: 0 <= i < |a| ==> LowerByte(a[i]) == Lower(a)[i] == Lower(b)[i] == LowerByte(b[i]);
    }
  }

  // ------------------------------------------------------------------
  // Searching
  // ------------------------------------------------------------------

  /** Position of the first byte `b`: the `memchr` of the source. */
  function IndexOf(s: bytes, b: byte): (r: Option<nat>)
    ensures r.Some? ==> r.value < |s|
  {
    if s == [] then None
    else if s[0] == b then Some(0)
    else
      match IndexOf(s[1..], b)
      case None => None
      case Some(i) => Some(i + 1)
  }

  lemma {:induction false} IndexOfFirst(s: bytes, b: byte)
    ensures match IndexOf(s, b)
            case Some(i) => s[i] == b && forall j :: 0 <= j < i ==> s[j] != b
            case None => forall j :: 0 <= j < |s| ==> s[j] != b
  {
    if s != [] && s[0] != b {
      IndexOfFirst(s[1..], b);
      assert forall j :: 1 <= j < |s| ==> s[j] == s[1..][j - 1];
    }
  }

  // ------------------------------------------------------------------
  // Slices
  // ------------------------------------------------------------------

  lemma SliceOfSlice(s: bytes, a: nat, b: nat, c: nat, d: nat)
    requires a <= b <= |s| && c <= d <= b - a
    ensures s[a..b][c..d] == s[a + c..a + d]
  {
    assert forall i :: 0 <= i < d - c ==> s[a..b][c..d][i] == s[a + c..a + d][i];
  }

  /** The text from `a` to `b`; nothing when `a` is not before `b`. */
  function Text(s: bytes, a: nat, b: nat): (r: bytes)
    ensures a < b <= |s| ==> |r| == b - a
    ensures a >= b ==> |r| == 0
  {
    if a < b <= |s| then s[a..b] else []
  }

  lemma WholeText(s: bytes)
    ensures Text(s, 0, |s|) == s
  {
  }

  lemma TextFirst(s: bytes, p: nat, q: nat)
    requires p < q <= |s|
    ensures |Text(s, p, q)| == q - p && Text(s, p, q)[0] == s[p]
  {
  }

  lemma TextExtend(s: bytes, a: nat, p: nat, q: nat)
    requires a <= p <= q && (a < q ==> q <= |s|)
    ensures Text(s, a, p) + Text(s, p, q) == Text(s, a, q)
  {
    if a < p < q {
      assert s[a..p] + s[p..q] == s[a..q];
    }
  }

  lemma TextSlice(s: bytes, p: nat, q: nat, a: nat, b: nat)
    requires p <= q && (p < q ==> q <= |s|) && a <= b <= q - p
    ensures |Text(s, p, q)| == q - p
    ensures Text(s, p, q)[a..b] == Text(s, p + a, p + b)
  {
    if a < b {
      SliceOfSlice(s, p, q, a, b);
    }
  }

  lemma TextDrop(s: bytes, p: nat, q: nat, a: nat)
    requires p <= q && (p < q ==> q <= |s|) && a <= q - p
    ensures |Text(s, p, q)| == q - p
    ensures Text(s, p, q)[a..] == Text(s, p + a, q)
  {
    TextSlice(s, p, q, a, q - p);
    assert Text(s, p, q)[a..] == Text(s, p, q)[a..q - p];
  }

  lemma TextAppend(seed: bytes, s: bytes, a: nat, p: nat, q: nat)
    requires a <= p <= q && (a < q ==> q <= |s|)
    ensures seed + Text(s, a, p) + Text(s, p, q) == seed + Text(s, a, q)
  {
    TextExtend(s, a, p, q);
    assert seed + Text(s, a, p) + Text(s, p, q) == seed + (Text(s, a, p) + Text(s, p, q));
  }

  lemma TextBehind(seed: bytes, s: bytes, a: nat, l: nat, p: nat)
    requires a <= l <= p && (a < p ==> p <= |s|)
    ensures |seed + Text(s, a, p)| == |seed| + (p - a)
    ensures (seed + Text(s, a, p))[|seed| + l - a..] == Text(s, l, p)
  {
    var t := seed + Text(s, a, p);
    if a < p {
      assert t[|seed| + l - a..] == s[l..p];
    }
  }
}
