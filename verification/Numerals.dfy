/**
 Decimal and hexadecimal numbers as the standard library of the source language
 prints and parses them: no sign and no leading zero when printing; an optional
 plus sign, either case and a range check when parsing.
 */
module Numerals {
  import opened Wrappers
  import opened ByteStrings

  datatype Radix = Dec | Hex

  const PLUS: byte := 43
  const MINUS: byte := 45

  function Base(r: Radix): nat { if r == Dec then 10 else 16 }

  function DigitByte(d: nat): byte
    requires d < 16
  {
    if d < 10 then 48 + d as byte else 87 + d as byte
  }

  function DigitValue(b: byte): (r: Option<nat>)
    ensures r.Some? ==> r.value < 16
  {
    if 48 <= b <= 57 then Some((b - 48) as nat)
    else if 97 <= b <= 102 then Some((b - 87) as nat)
    else if 65 <= b <= 70 then Some((b - 55) as nat)
    else None
  }

  function Print(n: nat, r: Radix): (s: bytes)
    ensures s != []
  {
    if n < Base(r) then [DigitByte(n)]
    else Print(n / Base(r), r) + [DigitByte(n % Base(r))]
  }

  /** The value of a digit string, however large. */
  function DigitsValue(s: bytes, r: Radix): (v: Option<nat>) {
    if s == [] then Some(0)
    else
      match (DigitsValue(s[..|s| - 1], r), DigitValue(s[|s| - 1]))
      case (Some(v), Some(d)) => if d < Base(r) then Some(v * Base(r) + d) else None
      case _ => None
  }

  /** Parsing into an unsigned 64-bit integer. */
  function ParseUnsigned(s: bytes, r: Radix): (v: Option<nat>)
    ensures v.Some? ==> v.value <= U64_MAX
  {
    if s == [] || s == [PLUS] || s == [MINUS] then None
    else
      var digits := if s[0] == PLUS then s[1..] else s;
      match DigitsValue(digits, r)
      case Some(v) => if v <= U64_MAX then Some(v) else None
      case None => None
  }

  lemma DigitRoundTrip(d: nat)
    requires d < 16
    ensures DigitValue(DigitByte(d)) == Some(d) && !IsSpace(DigitByte(d)) && DigitByte(d) != PLUS && DigitByte(d) != MINUS
  {
  }

  lemma {:induction false} PrintParses(n: nat, r: Radix)
    ensures DigitsValue(Print(n, r), r) == Some(n)
    ensures Print(n, r)[0] != PLUS && Print(n, r)[0] != MINUS
    ensures forall i :: 0 <= i < |Print(n, r)| ==> !IsSpace(Print(n, r)[i])
  {
    if n < Base(r) {
      DigitRoundTrip(n);
      assert [DigitByte(n)][..0] == [];
    } else {
      var q, d := n / Base(r), n % Base(r);
      PrintParses(q, r);
      DigitRoundTrip(d);
      assert (Print(q, r) + [DigitByte(d)])[..|Print(q, r)|] == Print(q, r);
    }
  }

  /** What is printed is parsed back. */
  lemma PrintRoundTrip(n: nat, r: Radix)
    requires n <= U64_MAX
    ensures ParseUnsigned(Print(n, r), r) == Some(n)
    ensures Trim(Print(n, r) + CRLF) == Print(n, r) && LF !in Print(n, r)
  {
    PrintParses(n, r);
    var s := Print(n, r);
    TrimMiddle([], s, CRLF);
    assert [] + s + CRLF == s + CRLF;
  }

  // ------------------------------------------------------------------
  // All spellings of a number
  // ------------------------------------------------------------------

  const DIGITS: bytes := Ascii("0123456789abcdef")

  /** The digits are those of the decimal and of the hexadecimal system, ten is written 10, and sixteen 10. */
  lemma DigitsPrinted(d: nat)
    requires d < 16
    ensures Print(d, Hex) == [DIGITS[d]] && (d < 10 ==> Print(d, Dec) == [DIGITS[d]])
    ensures Print(10, Dec) == Ascii("10") && Print(16, Hex) == Ascii("10") && Print(255, Hex) == Ascii("ff")
  {
    assert Print(1, Dec) == Print(1, Hex) == [49] && Print(15, Hex) == [102];
  }

  lemma {:induction false} PrintStarts(n: nat, r: Radix)
    requires n > 0
    ensures Print(n, r)[0] != 48
  {
    if n >= Base(r) {
      PrintStarts(n / Base(r), r);
    }
  }

  lemma {:induction false} PrintIsLower(n: nat, r: Radix)
    ensures Lower(Print(n, r)) == Print(n, r)
  {
    if n >= Base(r) {
      PrintIsLower(n / Base(r), r);
      LowerJoins(Print(n / Base(r), r), [DigitByte(n % Base(r))]);
    }
  }

  lemma LowerJoins(a: bytes, b: bytes)
    ensures Lower(a + b) == Lower(a) + Lower(b)
  {
  }

  lemma {:induction false} DigitsIgnoreCase(s: bytes, r: Radix)
    ensures DigitsValue(Lower(s), r) == DigitsValue(s, r)
  {
    if s != [] {
      var t := s[..|s| - 1];
      DigitsIgnoreCase(t, r);
      assert Lower(s)[..|s| - 1] == Lower(t);
      assert DigitValue(LowerByte(s[|s| - 1])) == DigitValue(s[|s| - 1]);
    }
  }

  function Zeros(k: nat): (r: bytes)
    ensures |r| == k
  {
    seq(k, i => 48)
  }

  lemma {:induction false} LeadingZero(s: bytes, r: Radix)
    ensures DigitsValue([48] + s, r) == DigitsValue(s, r)
  {
    var t := [48] + s;
    if s == [] {
      assert t[..0] == [] && t[0] == 48;
    } else {
      LeadingZero(s[..|s| - 1], r);
      assert t[..|t| - 1] == [48] + s[..|s| - 1];
    }
  }

  lemma {:induction false} LeadingZeros(k: nat, s: bytes, r: Radix)
    ensures DigitsValue(Zeros(k) + s, r) == DigitsValue(s, r)
  {
    if k == 0 {
      assert Zeros(0) + s == s;
    } else {
      LeadingZeros(k - 1, s, r);
      LeadingZero(Zeros(k - 1) + s, r);
      assert Zeros(k) + s == [48] + (Zeros(k - 1) + s);
    }
  }

  /** Any number of zeros, and the digits as they are printed, in upper or lower case. */
  predicate DigitsOf(s: bytes, n: nat, r: Radix) {
    exists k: nat :: k <= |s| && s[..k] == Zeros(k) && EqIgnoreCase(s[k..], Print(n, r))
  }

  /** The same behind an optional plus sign. */
  predicate Spells(s: bytes, n: nat, r: Radix) {
    DigitsOf(if s != [] && s[0] == PLUS then s[1..] else s, n, r)
  }

  lemma DigitsOfValue(s: bytes, n: nat, r: Radix)
    requires DigitsOf(s, n, r)
    ensures s != [] && DigitsValue(s, r) == Some(n)
  {
    hide Print, DigitsValue;
    var k: nat :| k <= |s| && s[..k] == Zeros(k) && EqIgnoreCase(s[k..], Print(n, r));
    assert s == Zeros(k) + s[k..];
    LeadingZeros(k, s[k..], r);
    DigitsIgnoreCase(s[k..], r);
    PrintIsLower(n, r);
    PrintParses(n, r);
    assert |Lower(s[k..])| > 0;
  }

  lemma LowerDigit(b: byte)
    requires DigitValue(b).Some?
    ensures Lower([b]) == [DigitByte(DigitValue(b).value)]
  {
  }

  lemma PrintOneMore(v: nat, d: nat, r: Radix)
    requires d < Base(r)
    ensures Print(v * Base(r) + d, r) == if v == 0 then [DigitByte(d)] else Print(v, r) + [DigitByte(d)]
  {
    var n := v * Base(r) + d;
    if v > 0 {
      if r == Dec {
        assert n / 10 == v && n % 10 == d;
      } else {
        assert n / 16 == v && n % 16 == d;
      }
    }
  }

  /** A digit behind a spelled number. */
  lemma SpelledOneMore(t: bytes, b: byte, v: nat, r: Radix)
    requires DigitsOf(t, v, r) && DigitValue(b).Some? && DigitValue(b).value < Base(r)
    ensures DigitsOf(t + [b], v * Base(r) + DigitValue(b).value, r)
  {
    hide Lower, Print, DigitValue, Base;
    var k: nat :| k <= |t| && t[..k] == Zeros(k) && EqIgnoreCase(t[k..], Print(v, r));
    var s, n := t + [b], v * Base(r) + DigitValue(b).value;
    LowerDigit(b);
    PrintOneMore(v, DigitValue(b).value, r);
    PrintIsLower(v, r);
    PrintIsLower(n, r);
    LowerJoins(t[k..], [b]);
    if v == 0 {
      ZeroIsSpelled(t[k..], r);
      assert t == t[..k] + t[k..] && Zeros(k) + [48] == Zeros(k + 1);
      assert s[..k + 1] == Zeros(k + 1) && s[k + 1..] == [b];
    } else {
      assert s[..k] == t[..k] && s[k..] == t[k..] + [b];
    }
  }

  lemma ZeroIsSpelled(s: bytes, r: Radix)
    requires EqIgnoreCase(s, Print(0, r))
    ensures s == [48]
  {
    assert Lower(s) == [48];
    assert LowerByte(s[0]) == Lower(s)[0];
  }

  lemma {:induction false} ValueIsSpelled(s: bytes, r: Radix)
    requires s != [] && DigitsValue(s, r).Some?
    ensures DigitsOf(s, DigitsValue(s, r).value, r)
  {
    hide Lower, Print, DigitsOf;
    var t, b := s[..|s| - 1], s[|s| - 1];
    assert s == t + [b];
    if t == [] {
      OneDigitIsSpelled(b, r);
      assert s == [b];
    } else {
      ValueIsSpelled(t, r);
      SpelledOneMore(t, b, DigitsValue(t, r).value, r);
    }
  }

  lemma OneDigitIsSpelled(b: byte, r: Radix)
    requires DigitValue(b).Some? && DigitValue(b).value < Base(r)
    ensures DigitsOf([b], DigitValue(b).value, r)
  {
    hide Lower, Print, DigitValue, Base;
    LowerDigit(b);
    PrintOneMore(0, DigitValue(b).value, r);
    PrintIsLower(DigitValue(b).value, r);
    assert 0 * Base(r) + DigitValue(b).value == DigitValue(b).value;
    assert [b][..0] == Zeros(0) && [b][0..] == [b];
  }

  /** A number in range is parsed from its spellings, and nothing is parsed from anything else. */
  lemma ParseIff(s: bytes, n: nat, r: Radix)
    ensures ParseUnsigned(s, r) == Some(n) <==> n <= U64_MAX && Spells(s, n, r)
  {
    hide DigitsOf, DigitsValue, Print;
    var t := if s != [] && s[0] == PLUS then s[1..] else s;
    if DigitsOf(t, n, r) {
      DigitsOfValue(t, n, r);
      MinusIsNoDigit(r);
    }
    if t != [] && DigitsValue(t, r).Some? {
      ValueIsSpelled(t, r);
    }
  }

  lemma MinusIsNoDigit(r: Radix)
    ensures DigitsValue([MINUS], r) == None
  {
  }
}
