/**
 * ASCII decimal text, as read by Rust's `str::parse::<usize>()` and
 * `str::parse::<i64>()` (radix 10): an optional sign (`+` for both, `-` only
 * for signed types), then one or more ASCII digits, leading zeros allowed,
 * and a value in the type's range. Also the minimal decimal text of a number,
 * used by the reference encoder.
 */
module Decimal {
  import opened Common

  /** usize on a 64-bit target. */
  const USIZE_MAX: int := 0xFFFF_FFFF_FFFF_FFFF
  const I64_MIN: int := -0x8000_0000_0000_0000
  const I64_MAX: int := 0x7FFF_FFFF_FFFF_FFFF

  const PLUS: byte := 0x2B
  const MINUS: byte := 0x2D

  predicate IsDigit(b: byte) { 0x30 <= b <= 0x39 }

  predicate AllDigits(d: seq<byte>)
  {
    forall i :: 0 <= i < |d| ==> IsDigit(d[i])
  }

  /** The number a run of decimal digits denotes, most significant first. */
  function DigitsValue(d: seq<byte>): nat
    requires AllDigits(d)
  {
    if |d| == 0 then 0 else DigitsValue(d[..|d| - 1]) * 10 + (d[|d| - 1] - 0x30) as int
  }

  /**
   * Rust's sign handling: empty text and a lone sign are rejected; a leading
   * `+` is dropped, a leading `-` is taken only by a signed type, and
   * anything else is left to the digit check.
   */
  function SignAndDigits(t: seq<byte>, signed: bool): (r: Option<(bool, seq<byte>)>)
    ensures r.None? <==> |t| == 0 || (|t| == 1 && (t[0] == PLUS || t[0] == MINUS))
    ensures r.Some? ==> 0 < |r.value.1| && |t| - 1 <= |r.value.1| <= |t| && r.value.1 == t[|t| - |r.value.1|..]
    ensures r.Some? ==> (r.value.0 <==> signed && t[0] == MINUS)
    ensures r.Some? ==> (|r.value.1| < |t| <==> t[0] == PLUS || (signed && t[0] == MINUS))
  {
    if |t| == 0 then None
    else if |t| == 1 && (t[0] == PLUS || t[0] == MINUS) then None
    else if t[0] == PLUS then Some((false, t[1..]))
    else if t[0] == MINUS && signed then Some((true, t[1..]))
    else Some((false, t))
  }

  /** A non-empty run of digits, with a leading `+` allowed. */
  predicate UnsignedText(t: seq<byte>)
  {
    (|t| > 0 && AllDigits(t)) || (|t| > 1 && t[0] == PLUS && AllDigits(t[1..]))
  }

  /** A non-empty run of digits, with a leading `+` or `-` allowed. */
  predicate SignedText(t: seq<byte>)
  {
    UnsignedText(t) || (|t| > 1 && t[0] == MINUS && AllDigits(t[1..]))
  }

  /**
   * `str::parse::<usize>()`: the value of the digits, after an optional `+`,
   * when it fits; any other text (empty, a lone `+`, a `-`, a non-digit, or
   * a value over the maximum) fails.
   */
  function ParseUsize(t: seq<byte>): (r: Option<nat>)
    ensures r.Some? ==> r.value <= USIZE_MAX
    ensures !UnsignedText(t) ==> r.None?
    ensures |t| > 0 && AllDigits(t) ==> r == if DigitsValue(t) <= USIZE_MAX then Some(DigitsValue(t)) else None
    ensures |t| > 1 && t[0] == PLUS && AllDigits(t[1..]) ==>
              r == if DigitsValue(t[1..]) <= USIZE_MAX then Some(DigitsValue(t[1..])) else None
  {
    match SignAndDigits(t, false)
    case None => None
    case Some((_, d)) =>
      if AllDigits(d) && DigitsValue(d) <= USIZE_MAX then Some(DigitsValue(d)) else None
  }

  /**
   * `str::parse::<i64>()`: the value of the digits, negated after a `-`,
   * when it lies in the i64 range; any other text (empty, a lone sign, a
   * non-digit after the optional sign, or a value out of range) fails.
   */
  function ParseI64(t: seq<byte>): (r: Option<int>)
    ensures r.Some? ==> I64_MIN <= r.value <= I64_MAX
    ensures !SignedText(t) ==> r.None?
    ensures |t| > 0 && AllDigits(t) ==> r == if DigitsValue(t) <= I64_MAX then Some(DigitsValue(t)) else None
    ensures |t| > 1 && t[0] == PLUS && AllDigits(t[1..]) ==>
              r == if DigitsValue(t[1..]) <= I64_MAX then Some(DigitsValue(t[1..])) else None
    ensures |t| > 1 && t[0] == MINUS && AllDigits(t[1..]) ==>
              r == if DigitsValue(t[1..]) <= -I64_MIN then Some(-(DigitsValue(t[1..]) as int)) else None
  {
    match SignAndDigits(t, true)
    case None => None
    case Some((negative, d)) =>
      if !AllDigits(d) then None
      else
        var m: int := DigitsValue(d);
        var v := if negative then -m else m;
        if I64_MIN <= v <= I64_MAX then Some(v) else None
  }

  /** The minimal decimal text of `n` (no sign, no leading zeros). */
  function NatText(n: nat): seq<byte>
  {
    if n < 10 then [(0x30 + n) as byte] else NatText(n / 10) + [(0x30 + n % 10) as byte]
  }

  /** The minimal decimal text of `n`, with `-` before a negative number. */
  function IntText(n: int): seq<byte>
  {
    if n < 0 then [MINUS] + NatText(-n) else NatText(n)
  }

  /** `NatText` is a non-empty run of digits that denotes `n`. */
  lemma {:induction false} NatTextDenotes(n: nat)
    ensures |NatText(n)| > 0 && AllDigits(NatText(n))
    ensures DigitsValue(NatText(n)) == n
  {
    if n >= 10 {
      NatTextDenotes(n / 10);
      var t := NatText(n);
      assert t[..|t| - 1] == NatText(n / 10);
    }
  }

  /** Reading back the text of a usize gives the number. */
  lemma ParseUsizeNatText(n: nat)
    requires n <= USIZE_MAX
    ensures ParseUsize(NatText(n)) == Some(n)
  {
    NatTextDenotes(n);
  }

  /** Reading back the text of an i64 gives the number. */
  lemma ParseI64IntText(n: int)
    requires I64_MIN <= n <= I64_MAX
    ensures ParseI64(IntText(n)) == Some(n)
    ensures forall i :: 0 <= i < |IntText(n)| ==> IntText(n)[i] == MINUS || IsDigit(IntText(n)[i])
  {
    NatTextDenotes(if n < 0 then -n else n);
    if n < 0 {
      assert IntText(n)[1..] == NatText(-n);
    }
  }

  /**
   * Signs and leading zeros: `+7`, `-0` and `007` denote 7, 0 and 7, while
   * `-`, `5x` and `-+1` are no i64.
   */
  lemma ParseI64Examples()
    ensures ParseI64([PLUS, 0x37]) == Some(7)
    ensures ParseI64([MINUS, 0x30]) == Some(0)
    ensures ParseI64([0x30, 0x30, 0x37]) == Some(7)
    ensures ParseI64([MINUS]) == None
    ensures ParseI64([0x35, 0x78]) == None
    ensures ParseI64([MINUS, PLUS, 0x31]) == None
  {
    assert DigitsValue([0x37]) == 7 by { assert [0x37 as byte][..0] == []; }
    assert DigitsValue([0x30]) == 0 by { assert [0x30 as byte][..0] == []; }
    assert [PLUS, 0x37][1..] == [0x37];
    assert [MINUS, 0x30][1..] == [0x30];
    var z: seq<byte> := [0x30, 0x30, 0x37];
    assert z[..2][..1] == [0x30] && z[..2] == [0x30, 0x30];
    assert DigitsValue(z) == 7;
    var x: seq<byte> := [0x35, 0x78];
    assert !AllDigits(x) by { assert !IsDigit(x[1]); }
    var ps: seq<byte> := [PLUS, 0x31];
    assert !AllDigits(ps) by { assert !IsDigit(ps[0]); }
    assert [MINUS, PLUS, 0x31][1..] == [PLUS, 0x31];
  }
}
