/**
 * UTF-8 well-formedness, as checked by Rust's `std::str::from_utf8` and
 * `String::from_utf8`: the well-formed byte sequences of table 3-7 of the
 * Unicode Standard (no overlong forms, no surrogates, nothing above U+10FFFF).
 */
module Utf8 {
  import opened Common

  predicate IsAscii(b: byte) { b < 0x80 }

  predicate IsContinuation(b: byte) { 0x80 <= b <= 0xBF }

  /**
   * Length of the well-formed sequence that starts at `s[i]`, or 0 when the
   * bytes from `i` do not begin one.
   */
  function SequenceLength(s: seq<byte>, i: nat): (n: nat)
    requires i < |s|
    ensures n <= |s| - i
    ensures n == 1 <==> IsAscii(s[i])
  {
    var b := s[i];
    if IsAscii(b) then 1
    else if 0xC2 <= b <= 0xDF then
      if i + 1 < |s| && IsContinuation(s[i + 1]) then 2 else 0
    else if 0xE0 <= b <= 0xEF then
      var lo: byte := if b == 0xE0 then 0xA0 else 0x80;
      var hi: byte := if b == 0xED then 0x9F else 0xBF;
      if i + 2 < |s| && lo <= s[i + 1] <= hi && IsContinuation(s[i + 2]) then 3 else 0
    else if 0xF0 <= b <= 0xF4 then
      var lo: byte := if b == 0xF0 then 0x90 else 0x80;
      var hi: byte := if b == 0xF4 then 0x8F else 0xBF;
      if i + 3 < |s| && lo <= s[i + 1] <= hi && IsContinuation(s[i + 2]) && IsContinuation(s[i + 3])
      then 4 else 0
    else 0
  }

  /** The bytes `s[i..]` are a concatenation of well-formed sequences. */
  predicate ValidFrom(s: seq<byte>, i: nat)
    requires i <= |s|
    decreases |s| - i, 1
  {
    i == |s| || ValidSequenceAt(s, i)
  }

  /** A well-formed sequence starts at `s[i]` and the bytes after it are valid too. */
  predicate ValidSequenceAt(s: seq<byte>, i: nat)
    requires i < |s|
    decreases |s| - i, 0
  {
    SequenceLength(s, i) > 0 && ValidFrom(s, i + SequenceLength(s, i))
  }

  /**
   * `from_utf8` succeeds: the bytes are a concatenation of well-formed
   * sequences, so valid text never starts with a continuation byte, with one
   * of the never-used bytes 0xC0, 0xC1 and 0xF5..0xFF, or with a sequence
   * cut short by the end of the input.
   */
  predicate ValidUtf8(s: seq<byte>): (v: bool)
    ensures v && |s| > 0 ==> IsAscii(s[0]) || 0xC2 <= s[0] <= 0xF4
    ensures v && |s| > 0 && 0xC2 <= s[0] <= 0xDF ==> |s| >= 2 && IsContinuation(s[1])
    ensures v && |s| > 0 && 0xE0 <= s[0] <= 0xEF ==> |s| >= 3
    ensures v && |s| > 0 && 0xF0 <= s[0] ==> |s| >= 4
  {
    |s| == 0 || ValidSequenceAt(s, 0)
  }

  /** A Rust `String` or `&str`: bytes that are valid UTF-8. */
  type Text = s: seq<byte> | ValidUtf8(s) witness []

  /** A Unicode scalar value: a code point that is not a surrogate. */
  predicate IsScalar(c: int)
  {
    0 <= c <= 0x10FFFF && !(0xD800 <= c <= 0xDFFF)
  }

  /** The UTF-8 encoding of one scalar value, as `char::encode_utf8` writes it. */
  function EncodeScalar(c: int): (e: seq<byte>)
    requires IsScalar(c)
    ensures 1 <= |e| <= 4
    ensures |e| == 1 <==> c < 0x80
  {
    if c < 0x80 then [c as byte]
    else if c < 0x800 then [(0xC0 + c / 64) as byte, (0x80 + c % 64) as byte]
    else if c < 0x1_0000 then
      [(0xE0 + c / 4096) as byte, (0x80 + c / 64 % 64) as byte, (0x80 + c % 64) as byte]
    else
      [(0xF0 + c / 0x4_0000) as byte, (0x80 + c / 4096 % 64) as byte,
       (0x80 + c / 64 % 64) as byte, (0x80 + c % 64) as byte]
  }

  /**
   * Wherever the encoding of a scalar value occurs, the table reads exactly
   * that encoding as one well-formed sequence: overlong forms and surrogates
   * never arise from an encoder.
   */
  lemma ScalarSequenceAt(c: int, s: seq<byte>, i: nat)
    requires IsScalar(c) && IsPrefixAt(EncodeScalar(c), s, i)
    ensures i < |s| && SequenceLength(s, i) == |EncodeScalar(c)|
  {
    var e := EncodeScalar(c);
    forall j | 0 <= j < |e| ensures s[i + j] == e[j] {
      assert s[i + j] == s[i..i + |e|][j];
    }
    EncodingBytes(c);
  }

  /** The lead byte and the continuation bytes an encoding is made of. */
  lemma EncodingBytes(c: int)
    requires IsScalar(c)
    ensures var e := EncodeScalar(c);
      && (|e| == 2 ==> 0xC2 <= e[0] <= 0xDF && IsContinuation(e[1]))
      && (|e| == 3 ==> && 0xE0 <= e[0] <= 0xEF && IsContinuation(e[1]) && IsContinuation(e[2])
                       && (e[0] == 0xE0 ==> 0xA0 <= e[1]) && (e[0] == 0xED ==> e[1] <= 0x9F))
      && (|e| == 4 ==> && 0xF0 <= e[0] <= 0xF4 && IsContinuation(e[1])
                       && IsContinuation(e[2]) && IsContinuation(e[3])
                       && (e[0] == 0xF0 ==> 0x90 <= e[1]) && (e[0] == 0xF4 ==> e[1] <= 0x8F))
  {
    if c < 0x80 {
    } else if c < 0x800 {
      assert 2 <= c / 64 <= 31;
    } else if c < 0x1_0000 {
      assert 0x800 <= c < 0x1000 ==> c / 64 % 64 == c / 64 >= 32;
      assert 0xD000 <= c < 0xD800 ==> c / 64 % 64 < 32;
      assert c / 4096 <= 15;
    } else {
      assert c < 0x4_0000 ==> c / 4096 % 64 == c / 4096 >= 16;
      assert 0x10_0000 <= c ==> c / 4096 % 64 == c / 4096 - 256 <= 15;
      assert c / 0x4_0000 <= 4;
    }
  }

  /** The encoding of a string of scalar values: their encodings one after another. */
  function EncodeText(cs: seq<int>): seq<byte>
    requires forall k :: 0 <= k < |cs| ==> IsScalar(cs[k])
  {
    if cs == [] then [] else EncodeScalar(cs[0]) + EncodeText(cs[1..])
  }

  /** Completeness of the table: every encoded string is valid UTF-8. */
  lemma EncodedTextIsValid(cs: seq<int>)
    requires forall k :: 0 <= k < |cs| ==> IsScalar(cs[k])
    ensures ValidUtf8(EncodeText(cs))
  {
    var s := EncodeText(cs);
    assert s[0..] == s;
    EncodedTextFrom(cs, s, 0);
  }

  /** An encoded string at the end of `s`, from `i` on, is valid from `i`. */
  lemma {:induction false} EncodedTextFrom(cs: seq<int>, s: seq<byte>, i: nat)
    requires forall k :: 0 <= k < |cs| ==> IsScalar(cs[k])
    requires i <= |s| && s[i..] == EncodeText(cs)
    ensures ValidFrom(s, i)
    decreases |cs|
  {
    if cs != [] {
      var e := EncodeScalar(cs[0]);
      var rest := EncodeText(cs[1..]);
      assert s[i..] == e + rest;
      assert s[i..i + |e|] == e;
      ScalarSequenceAt(cs[0], s, i);
      assert s[i + |e|..] == rest;
      EncodedTextFrom(cs[1..], s, i + |e|);
    }
  }

  /** The scalar value that the `n` bytes from `s[i]` encode, read back from their payload bits. */
  function ScalarOf(s: seq<byte>, i: nat, n: nat): int
    requires 1 <= n <= 4 && i + n <= |s|
  {
    if n == 1 then s[i] as int
    else if n == 2 then (s[i] as int - 0xC0) * 64 + (s[i + 1] as int - 0x80)
    else if n == 3 then
      (s[i] as int - 0xE0) * 4096 + (s[i + 1] as int - 0x80) * 64 + (s[i + 2] as int - 0x80)
    else
      (s[i] as int - 0xF0) * 0x4_0000 + (s[i + 1] as int - 0x80) * 4096
      + (s[i + 2] as int - 0x80) * 64 + (s[i + 3] as int - 0x80)
  }

  /**
   * Soundness of the table: a sequence it accepts is the encoding of a
   * scalar value, so no overlong form, surrogate or value above U+10FFFF
   * gets through.
   */
  lemma SequenceIsScalar(s: seq<byte>, i: nat)
    requires i < |s| && SequenceLength(s, i) > 0
    ensures var n := SequenceLength(s, i);
      IsScalar(ScalarOf(s, i, n)) && EncodeScalar(ScalarOf(s, i, n)) == s[i..i + n]
  {
    var n := SequenceLength(s, i);
    if n == 1 {
      assert s[i..i + 1] == [s[i]];
    } else if n == 2 {
      TwoByteScalar(s, i);
    } else if n == 3 {
      ThreeByteScalar(s, i);
    } else {
      FourByteScalar(s, i);
    }
  }

  lemma TwoByteScalar(s: seq<byte>, i: nat)
    requires i + 1 < |s| && 0xC2 <= s[i] <= 0xDF && IsContinuation(s[i + 1])
    ensures IsScalar(ScalarOf(s, i, 2)) && EncodeScalar(ScalarOf(s, i, 2)) == s[i..i + 2]
  {
    var c := ScalarOf(s, i, 2);
    var a, x := s[i] as int - 0xC0, s[i + 1] as int - 0x80;
    assert c == a * 64 + x;
    assert c / 64 == a && c % 64 == x;
  }

  lemma ThreeByteScalar(s: seq<byte>, i: nat)
    requires i + 2 < |s| && 0xE0 <= s[i] <= 0xEF && IsContinuation(s[i + 1]) && IsContinuation(s[i + 2])
    requires s[i] == 0xE0 ==> 0xA0 <= s[i + 1]
    requires s[i] == 0xED ==> s[i + 1] <= 0x9F
    ensures IsScalar(ScalarOf(s, i, 3)) && EncodeScalar(ScalarOf(s, i, 3)) == s[i..i + 3]
  {
    var c := ScalarOf(s, i, 3);
    var a, x, y := s[i] as int - 0xE0, s[i + 1] as int - 0x80, s[i + 2] as int - 0x80;
    var q := a * 64 + x;
    assert c == q * 64 + y;
    assert c / 64 == q && c % 64 == y;
    assert q / 64 == a && q % 64 == x;
    assert c / 4096 == a;
  }

  lemma FourByteScalar(s: seq<byte>, i: nat)
    requires i + 3 < |s| && 0xF0 <= s[i] <= 0xF4 && IsContinuation(s[i + 1])
    requires IsContinuation(s[i + 2]) && IsContinuation(s[i + 3])
    requires s[i] == 0xF0 ==> 0x90 <= s[i + 1]
    requires s[i] == 0xF4 ==> s[i + 1] <= 0x8F
    ensures IsScalar(ScalarOf(s, i, 4)) && EncodeScalar(ScalarOf(s, i, 4)) == s[i..i + 4]
  {
    var c := ScalarOf(s, i, 4);
    var a, x := s[i] as int - 0xF0, s[i + 1] as int - 0x80;
    var y, z := s[i + 2] as int - 0x80, s[i + 3] as int - 0x80;
    var q := a * 64 + x;
    var r := q * 64 + y;
    assert c == r * 64 + z;
    assert c / 64 == r && c % 64 == z;
    assert r / 64 == q && r % 64 == y;
    assert q / 64 == a && q % 64 == x;
    assert c / 4096 == q;
    assert c / 0x4_0000 == a;
  }

  /**
   * What `from_utf8` refuses: a lone continuation byte, the overlong form
   * 0xC0 0x80 of NUL, the encoded surrogate 0xED 0xA0 0x80, and a lead byte
   * cut short by the end of the input.
   */
  lemma RejectedExamples()
    ensures !ValidUtf8([0x80])
    ensures !ValidUtf8([0xC0, 0x80])
    ensures !ValidUtf8([0xED, 0xA0, 0x80])
    ensures !ValidUtf8([0xE2, 0x82])
  {
  }

  predicate AllAscii(s: seq<byte>)
  {
    forall i :: 0 <= i < |s| ==> IsAscii(s[i])
  }

  /** Plain ASCII text is valid UTF-8. */
  lemma {:induction false} AsciiIsValid(s: seq<byte>)
    requires AllAscii(s)
    ensures ValidUtf8(s)
  {
    var i := |s|;
    while i > 0
      invariant 0 <= i <= |s|
      invariant ValidFrom(s, i)
    {
      i := i - 1;
      assert SequenceLength(s, i) == 1;
      assert ValidSequenceAt(s, i);
    }
  }
}
