/**
 * The recursive-descent bencode decoder `decode_bencoded_value`
 * (src/main.rs), reading one value from a byte reader.
 *
 * The specification functions `DecodeAt`, `DecodeListAt` and `DecodeDictAt`
 * give, for an input and a cursor position, the decoded value or the failure
 * together with the position where the reader is left; failures carry that
 * position too, because the list and dictionary loops go on reading from
 * wherever a failed element decode stopped. The method `DecodeValue` is the
 * imperative decoder over a `Reader` and is proved to agree with `DecodeAt`.
 */
module Bencode {
  import opened Common
  import opened Utf8
  import opened Decimal

  const COLON: byte := 0x3A
  const TAG_INT: byte := 0x69
  const TAG_LIST: byte := 0x6C
  const TAG_DICT: byte := 0x64
  const END: byte := 0x65

  /**
   * A decoded value. A string whose payload is valid UTF-8 becomes `Text`
   * (holding the UTF-8 bytes of the text), any other string becomes `Bytes`
   * (in the JSON value of the source: an array of the byte values).
   * Dictionary keys are texts, held as their UTF-8 bytes.
   */
  datatype Value =
    | Text(text: seq<byte>)
    | Bytes(bytes: seq<byte>)
    | Int(n: int)
    | List(items: seq<Value>)
    | Dict(entries: map<seq<byte>, Value>)

  /** The failures of the decoder, one per error context of the source. */
  datatype DecodeError =
    | SizeNotUtf8      // the length prefix is not valid UTF-8
    | SizeNotNumber    // the length prefix is not a usize
    | StringTooShort   // fewer payload bytes remain than the length says
    | IntegerMissing   // the input ends right after `i` (the source panics there)
    | IntegerNotUtf8   // the integer text is not valid UTF-8
    | NotAnInteger     // the integer text is not an i64
    | NotBencode       // any other leading byte, or no leading byte at all

  /** The outcome of one decode call and the reader position it leaves behind. */
  datatype Decoded = Decoded(result: Result<Value, DecodeError>, end: nat)

  /** The first index at or after `from` holding `d`, or `|s|` when there is none. */
  function IndexFrom(s: seq<byte>, from: nat, d: byte): (i: nat)
    requires from <= |s|
    ensures from <= i <= |s|
    ensures i < |s| ==> s[i] == d
    decreases |s| - from
  {
    if from == |s| || s[from] == d then from else IndexFrom(s, from + 1, d)
  }

  /** No byte before the index found holds the delimiter. */
  lemma {:induction false} IndexFromIsFirst(s: seq<byte>, from: nat, d: byte, j: nat)
    requires from <= |s| && from <= j < IndexFrom(s, from, d)
    ensures s[j] != d
    decreases j - from
  {
    if j > from {
      IndexFromIsFirst(s, from + 1, d, j);
    }
  }

  /**
   * `BufRead::read_until` on a reader positioned at `p`: the bytes up to and
   * including the first `d`, or up to the end of input when there is no `d`;
   * and the position after them.
   */
  function ReadUntilAt(s: seq<byte>, p: nat, d: byte): (r: (seq<byte>, nat))
    requires p <= |s|
    ensures p <= r.1 <= |s| && r.0 == s[p..r.1]
  {
    var i := IndexFrom(s, p, d);
    if i < |s| then (s[p..i + 1], i + 1) else (s[p..], |s|)
  }

  /**
   * What `read_until` returns: either the bytes up to the first `d`, that
   * `d` included, or all remaining bytes when none of them is `d`.
   */
  lemma ReadUntilAtStops(s: seq<byte>, p: nat, d: byte)
    requires p <= |s|
    ensures var (line, q) := ReadUntilAt(s, p, d);
      || (p < q && s[q - 1] == d && forall j :: p <= j < q - 1 ==> s[j] != d)
      || (q == |s| && forall j :: p <= j < |s| ==> s[j] != d)
  {
    forall j | p <= j < IndexFrom(s, p, d) ensures s[j] != d {
      IndexFromIsFirst(s, p, d, j);
    }
  }

  /** A string payload as a value: text when it is valid UTF-8, its bytes otherwise. */
  function StringValue(payload: seq<byte>): (v: Value)
    ensures v.Text? <==> ValidUtf8(payload)
    ensures v == Text(payload) || v == Bytes(payload)
  {
    if ValidUtf8(payload) then Text(payload) else Bytes(payload)
  }

  /**
   * One call of the decoder on a reader positioned at `pos`. The header byte
   * stays 0 when no byte is left, and 0 falls into the catch-all failure.
   */
  function DecodeAt(s: seq<byte>, pos: nat): (r: Decoded)
    requires pos <= |s|
    ensures pos <= r.end <= |s|
    ensures r.result.Ok? ==> pos < r.end
    decreases |s| - pos, 0
  {
    var header: byte := if pos < |s| then s[pos] else 0;
    var after := if pos < |s| then pos + 1 else pos;
    if IsDigit(header) then DecodeStringAt(s, after, header)
    else if header == TAG_INT then DecodeIntegerAt(s, after)
    else if header == TAG_LIST then DecodeListAt(s, after, [])
    else if header == TAG_DICT then DecodeDictAt(s, after, map[])
    else Decoded(Err(NotBencode), after)
  }

  /**
   * A string after its first length digit `first`: the length text runs up
   * to the first `:`; when there is no `:` the last byte read is dropped
   * instead, as the source always drops the last byte of what it read.
   */
  function DecodeStringAt(s: seq<byte>, p: nat, first: byte): (r: Decoded)
    requires p <= |s|
    ensures p <= ReadUntilAt(s, p, COLON).1 <= r.end <= |s|
  {
    var read := ReadUntilAt(s, p, COLON);
    var buf := [first] + read.0;
    SizedString(s, read.1, buf[..|buf| - 1])
  }

  /** The rest of the string branch, with the reader at `q` after the length text. */
  function SizedString(s: seq<byte>, q: nat, sizeText: seq<byte>): (r: Decoded)
    requires q <= |s|
    ensures q <= r.end <= |s|
  {
    if !ValidUtf8(sizeText) then Decoded(Err(SizeNotUtf8), q)
    else match ParseUsize(sizeText)
      case None => Decoded(Err(SizeNotNumber), q)
      case Some(size) => Payload(s, q, size)
  }

  /**
   * The `size` bytes after `q` as a string value, or a failure that drains
   * the reader when fewer remain.
   */
  function Payload(s: seq<byte>, q: nat, size: nat): (r: Decoded)
    requires q <= |s|
    ensures q <= r.end <= |s|
    ensures r.result.Ok? <==> q + size <= |s|
    ensures r.result.Ok? ==> r == Decoded(Ok(StringValue(s[q..q + size])), q + size)
    ensures r.result.Err? ==> r == Decoded(Err(StringTooShort), |s|)
  {
    if q + size <= |s| then Decoded(Ok(StringValue(s[q..q + size])), q + size)
    else Decoded(Err(StringTooShort), |s|)
  }

  /** An integer after its `i`: the text up to the first `e`, read as an i64. */
  function DecodeIntegerAt(s: seq<byte>, p: nat): (r: Decoded)
    requires p <= |s|
    ensures p <= r.end <= |s|
  {
    var read := ReadUntilAt(s, p, END);
    if |read.0| == 0 then Decoded(Err(IntegerMissing), read.1)
    else IntegerText(read.0[..|read.0| - 1], read.1)
  }

  /** The rest of the integer branch, with the reader at `q` after the `e`. */
  function IntegerText(text: seq<byte>, q: nat): (r: Decoded)
    ensures r.end == q
  {
    if !ValidUtf8(text) then Decoded(Err(IntegerNotUtf8), q)
    else match ParseI64(text)
      case None => Decoded(Err(NotAnInteger), q)
      case Some(n) => Decoded(Ok(Int(n)), q)
  }

  /**
   * The list loop, with `items` decoded so far: decode elements until one
   * fails, then the list is complete and the reader stays where the failed
   * call left it.
   */
  function DecodeListAt(s: seq<byte>, p: nat, items: seq<Value>): (r: Decoded)
    requires p <= |s|
    ensures p <= r.end <= |s|
    ensures r.result.Ok? && r.result.value.List?
    decreases |s| - p, 1
  {
    var element := DecodeAt(s, p);
    if element.result.Err? then Decoded(Ok(List(items)), element.end)
    else DecodeListAt(s, element.end, items + [element.result.value])
  }

  /**
   * The dictionary loop, with the `entries` inserted so far: while a key
   * decodes to text, decode its value (a failure there is the dictionary's
   * failure) and insert it, replacing an earlier value of the same key.
   */
  function DecodeDictAt(s: seq<byte>, p: nat, entries: map<seq<byte>, Value>): (r: Decoded)
    requires p <= |s|
    ensures p <= r.end <= |s|
    ensures r.result.Ok? ==> r.result.value.Dict?
    decreases |s| - p, 1
  {
    var key := DecodeAt(s, p);
    if !(key.result.Ok? && key.result.value.Text?) then Decoded(Ok(Dict(entries)), key.end)
    else
      var value := DecodeAt(s, key.end);
      if value.result.Err? then value
      else DecodeDictAt(s, value.end, entries[key.result.value.text := value.result.value])
  }

  /** Decoding from the start of the input, as the `decode` command does. */
  function Decode(s: seq<byte>): (r: Decoded)
    ensures r.end <= |s|
    ensures r.result.Ok? ==> 0 < r.end
  {
    DecodeAt(s, 0)
  }

  /**
   * Inserting `(key, value)` pairs in order into a map; a later pair wins.
   * A key that no pair names keeps its earlier value.
   */
  function InsertAll(m: map<seq<byte>, Value>, pairs: seq<(seq<byte>, Value)>): (r: map<seq<byte>, Value>)
    ensures forall k :: k in m && (forall j :: 0 <= j < |pairs| ==> pairs[j].0 != k) ==> k in r && r[k] == m[k]
  {
    if pairs == [] then m
    else InsertAll(m, pairs[..|pairs| - 1])[pairs[|pairs| - 1].0 := pairs[|pairs| - 1].1]
  }

  /** A byte reader over an in-memory input, as the `BufReader` over the argument bytes. */
  class Reader {
    const data: seq<byte>
    var pos: nat

    ghost predicate Valid()
      reads this
    {
      pos <= |data|
    }

    constructor (input: seq<byte>)
      ensures Valid() && data == input && pos == 0
    {
      data := input;
      pos := 0;
    }

    /**
     * `Read::read_exact` into a buffer of `n` bytes. When fewer than `n`
     * bytes remain it fails, and the reader is left drained.
     */
    method ReadExact(n: nat) returns (ok: bool, buf: seq<byte>)
      requires Valid()
      modifies this
      ensures Valid()
      ensures ok == (old(pos) + n <= |data|)
      ensures ok ==> pos == old(pos) + n && buf == data[old(pos)..pos]
      ensures !ok ==> pos == |data|
    {
      if pos + n <= |data| {
        buf := data[pos..pos + n];
        pos := pos + n;
        ok := true;
      } else {
        buf := data[pos..];
        pos := |data|;
        ok := false;
      }
    }

    /** `BufRead::read_until`: the bytes up to and including `d`, or to the end. */
    method ReadUntil(d: byte) returns (line: seq<byte>)
      requires Valid()
      modifies this
      ensures Valid()
      ensures (line, pos) == ReadUntilAt(data, old(pos), d)
    {
      line := [];
      var found := false;
      while !found && pos < |data|
        invariant old(pos) <= pos <= |data|
        invariant line == data[old(pos)..pos]
        invariant found ==> pos > old(pos) && data[pos - 1] == d
        invariant forall j :: old(pos) <= j < (if found then pos - 1 else pos) ==> data[j] != d
      {
        var b := data[pos];
        line := line + [b];
        pos := pos + 1;
        found := b == d;
      }
      ghost var i := IndexFrom(data, old(pos), d);
      if found && pos - 1 < i {
        IndexFromIsFirst(data, old(pos), d, pos - 1);
      }
      assert found ==> i == pos - 1;
      assert !found ==> i == |data|;
    }
  }

  /** The decoder, advancing the shared reader `r`; it agrees with `DecodeAt`. */
  method DecodeValue(r: Reader) returns (res: Result<Value, DecodeError>)
    requires r.Valid()
    modifies r
    ensures r.Valid()
    ensures Decoded(res, r.pos) == DecodeAt(r.data, old(r.pos))
    decreases |r.data| - r.pos, 0
  {
    var header: byte := 0;
    var ok, got := r.ReadExact(1);
    if ok {
      header := got[0];
    }
    if IsDigit(header) {
      res := DecodeString(r, header);
    } else if header == TAG_INT {
      res := DecodeInteger(r);
    } else if header == TAG_LIST {
      res := DecodeList(r);
    } else if header == TAG_DICT {
      res := DecodeDict(r);
    } else {
      res := Err(NotBencode);
    }
  }

  /** The string branch, after the first length digit `first` has been read. */
  method DecodeString(r: Reader, first: byte) returns (res: Result<Value, DecodeError>)
    requires r.Valid()
    modifies r
    ensures r.Valid()
    ensures Decoded(res, r.pos) == DecodeStringAt(r.data, old(r.pos), first)
  {
    var line := r.ReadUntil(COLON);
    var buf := [first] + line;
    var sizeText := buf[..|buf| - 1];
    assert DecodeStringAt(r.data, old(r.pos), first) == SizedString(r.data, r.pos, sizeText);
    if !ValidUtf8(sizeText) {
      return Err(SizeNotUtf8);
    }
    var size := ParseUsize(sizeText);
    if size.None? {
      return Err(SizeNotNumber);
    }
    var read, payload := r.ReadExact(size.value);
    if !read {
      return Err(StringTooShort);
    }
    res := Ok(StringValue(payload));
  }

  /** The integer branch, after the `i` has been read. */
  method DecodeInteger(r: Reader) returns (res: Result<Value, DecodeError>)
    requires r.Valid()
    modifies r
    ensures r.Valid()
    ensures Decoded(res, r.pos) == DecodeIntegerAt(r.data, old(r.pos))
  {
    var line := r.ReadUntil(END);
    if |line| == 0 {
      return Err(IntegerMissing);
    }
    var text := line[..|line| - 1];
    if !ValidUtf8(text) {
      return Err(IntegerNotUtf8);
    }
    var n := ParseI64(text);
    if n.None? {
      return Err(NotAnInteger);
    }
    res := Ok(Int(n.value));
  }

  /** The list branch, after the `l` has been read: push elements until a decode fails. */
  method DecodeList(r: Reader) returns (res: Result<Value, DecodeError>)
    requires r.Valid()
    modifies r
    ensures r.Valid()
    ensures Decoded(res, r.pos) == DecodeListAt(r.data, old(r.pos), [])
    decreases |r.data| - r.pos, 1
  {
    var list: seq<Value> := [];
    while true
      invariant r.Valid() && old(r.pos) <= r.pos
      invariant DecodeListAt(r.data, old(r.pos), []) == DecodeListAt(r.data, r.pos, list)
      decreases |r.data| - r.pos
    {
      ghost var here := r.pos;
      var element := DecodeValue(r);
      if element.Err? {
        assert DecodeListAt(r.data, here, list) == Decoded(Ok(List(list)), r.pos);
        break;
      }
      list := list + [element.value];
    }
    res := Ok(List(list));
  }

  /**
   * The dictionary branch, after the `d` has been read: insert pairs while
   * the key decodes to text; a failing value decode is returned as is.
   */
  method DecodeDict(r: Reader) returns (res: Result<Value, DecodeError>)
    requires r.Valid()
    modifies r
    ensures r.Valid()
    ensures Decoded(res, r.pos) == DecodeDictAt(r.data, old(r.pos), map[])
    decreases |r.data| - r.pos, 1
  {
    var dict: map<seq<byte>, Value> := map[];
    while true
      invariant r.Valid() && old(r.pos) <= r.pos
      invariant DecodeDictAt(r.data, old(r.pos), map[]) == DecodeDictAt(r.data, r.pos, dict)
      decreases |r.data| - r.pos
    {
      ghost var here := r.pos;
      var key := DecodeValue(r);
      if !(key.Ok? && key.value.Text?) {
        assert DecodeDictAt(r.data, here, dict) == Decoded(Ok(Dict(dict)), r.pos);
        break;
      }
      var value := DecodeValue(r);
      if value.Err? {
        assert DecodeDictAt(r.data, here, dict) == Decoded(value, r.pos);
        return value;
      }
      dict := dict[key.value.text := value.value];
    }
    res := Ok(Dict(dict));
  }

  /** One step of the list loop: a successful element is appended and decoding goes on after it. */
  lemma ListStep(s: seq<byte>, p: nat, items: seq<Value>, v: Value, q: nat)
    requires p <= |s| && DecodeAt(s, p) == Decoded(Ok(v), q)
    ensures q <= |s| && DecodeListAt(s, p, items) == DecodeListAt(s, q, items + [v])
  {
  }

  /** The last step of the list loop: a failed element decode completes the list. */
  lemma ListEnd(s: seq<byte>, p: nat, items: seq<Value>)
    requires p <= |s| && DecodeAt(s, p).result.Err?
    ensures DecodeListAt(s, p, items) == Decoded(Ok(List(items)), DecodeAt(s, p).end)
  {
  }

  /** One step of the dictionary loop: a text key and a decoded value are inserted. */
  lemma DictStep(s: seq<byte>, p: nat, m: map<seq<byte>, Value>, k: seq<byte>, q: nat, v: Value, q': nat)
    requires p <= |s| && DecodeAt(s, p) == Decoded(Ok(Text(k)), q)
    requires q <= |s| && DecodeAt(s, q) == Decoded(Ok(v), q')
    ensures q' <= |s| && DecodeDictAt(s, p, m) == DecodeDictAt(s, q', m[k := v])
  {
  }

  /** The last step of the dictionary loop: a key that is not text completes the dictionary. */
  lemma DictEnd(s: seq<byte>, p: nat, m: map<seq<byte>, Value>)
    requires p <= |s| && !(DecodeAt(s, p).result.Ok? && DecodeAt(s, p).result.value.Text?)
    ensures DecodeDictAt(s, p, m) == Decoded(Ok(Dict(m)), DecodeAt(s, p).end)
  {
  }

  /** A text key whose value fails to decode makes the dictionary fail with that failure. */
  lemma DictFail(s: seq<byte>, p: nat, m: map<seq<byte>, Value>, k: seq<byte>, q: nat)
    requires p <= |s| && DecodeAt(s, p) == Decoded(Ok(Text(k)), q)
    requires q <= |s| && DecodeAt(s, q).result.Err?
    ensures DecodeDictAt(s, p, m) == DecodeAt(s, q)
  {
  }

  /** The leading byte selects the branch, which reads on from the next byte. */
  lemma Dispatch(s: seq<byte>, pos: nat)
    requires pos < |s|
    ensures IsDigit(s[pos]) ==> DecodeAt(s, pos) == DecodeStringAt(s, pos + 1, s[pos])
    ensures s[pos] == TAG_INT ==> DecodeAt(s, pos) == DecodeIntegerAt(s, pos + 1)
    ensures s[pos] == TAG_LIST ==> DecodeAt(s, pos) == DecodeListAt(s, pos + 1, [])
    ensures s[pos] == TAG_DICT ==> DecodeAt(s, pos) == DecodeDictAt(s, pos + 1, map[])
  {
  }

  /** Reading up to a delimiter that ends a known run of other bytes. */
  lemma ReadUntilStops(s: seq<byte>, p: nat, run: seq<byte>, d: byte)
    requires IsPrefixAt(run + [d], s, p)
    requires forall k :: 0 <= k < |run| ==> run[k] != d
    ensures ReadUntilAt(s, p, d) == (run + [d], p + |run| + 1)
  {
    PrefixSplit(run, [d], s, p);
    assert forall j :: p <= j < p + |run| ==> s[j] == run[j - p];
    var i := IndexFrom(s, p, d);
    assert s[p + |run|] == d;
    if i > p + |run| {
      IndexFromIsFirst(s, p, d, p + |run|);
    }
    assert i == p + |run|;
  }

  /** A length text of digits selects that many payload bytes. */
  lemma SizedDigits(s: seq<byte>, q: nat, digits: seq<byte>)
    requires q <= |s|
    requires |digits| > 0 && AllDigits(digits) && DigitsValue(digits) <= USIZE_MAX
    ensures SizedString(s, q, digits) == Payload(s, q, DigitsValue(digits))
  {
    AsciiIsValid(digits);
  }

  /** Once the length text is read, the string branch goes on from after the `:`. */
  lemma StringAfterRead(s: seq<byte>, p: nat, sizeText: seq<byte>)
    requires p <= |s| && |sizeText| > 0
    requires ReadUntilAt(s, p, COLON) == (sizeText[1..] + [COLON], p + |sizeText|)
    ensures DecodeStringAt(s, p, sizeText[0]) == SizedString(s, p + |sizeText|, sizeText)
  {
    var read := ReadUntilAt(s, p, COLON);
    var buf := [sizeText[0]] + read.0;
    assert buf == sizeText + [COLON];
    assert buf[..|buf| - 1] == sizeText;
  }

  /** A length prefix of digits followed by `:`: the first digit, then a read up to the `:`. */
  lemma LengthRead(s: seq<byte>, pos: nat, digits: seq<byte>)
    requires |digits| > 0 && AllDigits(digits)
    requires IsPrefixAt(digits + [COLON], s, pos)
    ensures pos < |s| && s[pos] == digits[0]
    ensures ReadUntilAt(s, pos + 1, COLON) == (digits[1..] + [COLON], pos + |digits| + 1)
  {
    var run := digits[1..];
    assert digits + [COLON] == [digits[0]] + (run + [COLON]);
    PrefixSplit([digits[0]], run + [COLON], s, pos);
    forall k | 0 <= k < |run| ensures run[k] != COLON {
      assert run[k] == digits[k + 1];
    }
    ReadUntilStops(s, pos + 1, run, COLON);
  }

  /**
   * A length-prefixed string: the digits up to `:` give the length n; the
   * next n bytes are the payload, returned as text when valid UTF-8 and as
   * bytes otherwise, and |digits| + 1 + n bytes are consumed, the first
   * digit being the header byte; when fewer
   * than n bytes remain the decode fails and drains the reader.
   */
  lemma DecodesString(s: seq<byte>, pos: nat, digits: seq<byte>)
    requires |digits| > 0 && AllDigits(digits) && DigitsValue(digits) <= USIZE_MAX
    requires IsPrefixAt(digits + [COLON], s, pos)
    ensures DecodeAt(s, pos) == Payload(s, pos + |digits| + 1, DigitsValue(digits))
  {
    LengthRead(s, pos, digits);
    StringAfterRead(s, pos + 1, digits);
    SizedDigits(s, pos + |digits| + 1, digits);
    Dispatch(s, pos);
    assert DecodeAt(s, pos) == DecodeStringAt(s, pos + 1, digits[0]);
  }

  /**
   * A length prefix holding a byte other than a digit before its `:` fails,
   * leaving the reader just after the `:`.
   */
  lemma LengthNotDecimal(s: seq<byte>, pos: nat, bad: nat, colon: nat)
    requires pos < bad < colon < |s| && s[colon] == COLON
    requires IsDigit(s[pos]) && !IsDigit(s[bad])
    requires forall k :: pos < k < colon ==> s[k] != COLON
    ensures DecodeAt(s, pos).result in {Err(SizeNotUtf8), Err(SizeNotNumber)}
    ensures DecodeAt(s, pos).end == colon + 1
  {
    var run := s[pos + 1..colon];
    assert run + [COLON] == s[pos + 1..colon + 1];
    ReadUntilStops(s, pos + 1, run, COLON);
    var sizeText := [s[pos]] + run;
    assert sizeText[1..] == run;
    StringAfterRead(s, pos + 1, sizeText);
    assert sizeText[bad - pos] == s[bad];
    SizedNotDigits(s, colon + 1, sizeText, bad - pos);
    Dispatch(s, pos);
    assert DecodeAt(s, pos) == SizedString(s, colon + 1, sizeText);
  }

  /** A length text that starts with a digit but holds a non-digit is not a usize. */
  lemma SizedNotDigits(s: seq<byte>, q: nat, sizeText: seq<byte>, bad: nat)
    requires q <= |s| && bad < |sizeText|
    requires IsDigit(sizeText[0]) && !IsDigit(sizeText[bad])
    ensures SizedString(s, q, sizeText).result in {Err(SizeNotUtf8), Err(SizeNotNumber)}
    ensures SizedString(s, q, sizeText).end == q
  {
    assert SignAndDigits(sizeText, false) == Some((false, sizeText));
    assert !AllDigits(sizeText);
  }

  /** Any text of an i64 is pure ASCII. */
  lemma ParsedIntegerIsAscii(text: seq<byte>)
    requires ParseI64(text).Some?
    ensures AllAscii(text)
  {
    var d := SignAndDigits(text, true).value.1;
    assert forall k :: |text| - |d| <= k < |text| ==> text[k] == d[k - (|text| - |d|)];
  }

  /**
   * `i<text>e` consumes through the first `e` and decodes to the i64 that
   * `text` denotes; it fails exactly when `text` is not an i64.
   */
  lemma DecodesInteger(s: seq<byte>, pos: nat, text: seq<byte>)
    requires IsPrefixAt([TAG_INT] + text + [END], s, pos)
    requires forall k :: 0 <= k < |text| ==> text[k] != END
    ensures DecodeAt(s, pos).end == pos + |text| + 2
    ensures DecodeAt(s, pos).result.Ok? <==> ParseI64(text).Some?
    ensures ParseI64(text).Some? ==> DecodeAt(s, pos).result == Ok(Int(ParseI64(text).value))
  {
    assert [TAG_INT] + text + [END] == [TAG_INT] + (text + [END]);
    PrefixSplit([TAG_INT], text + [END], s, pos);
    ReadUntilStops(s, pos + 1, text, END);
    IntegerAfterRead(s, pos + 1, text);
    IntegerTextParses(text, pos + |text| + 2);
    Dispatch(s, pos);
  }

  /** Once the integer text is read, the integer branch goes on from after the `e`. */
  lemma IntegerAfterRead(s: seq<byte>, p: nat, text: seq<byte>)
    requires p <= |s|
    requires ReadUntilAt(s, p, END) == (text + [END], p + |text| + 1)
    ensures DecodeIntegerAt(s, p) == IntegerText(text, p + |text| + 1)
  {
    assert (text + [END])[..|text|] == text;
  }

  /** The integer text succeeds exactly when it is an i64, and then denotes it. */
  lemma IntegerTextParses(text: seq<byte>, q: nat)
    ensures IntegerText(text, q).result.Ok? <==> ParseI64(text).Some?
    ensures ParseI64(text).Some? ==> IntegerText(text, q).result == Ok(Int(ParseI64(text).value))
  {
    if ParseI64(text).Some? {
      ParsedIntegerIsAscii(text);
      AsciiIsValid(text);
    }
  }

  /** `i52e` decodes to 52. */
  lemma IntegerExample()
    ensures Decode([0x69, 0x35, 0x32, 0x65]) == Decoded(Ok(Int(52)), 4)
  {
    var s: seq<byte> := [0x69, 0x35, 0x32, 0x65];
    var text: seq<byte> := [0x35, 0x32];
    assert s == [TAG_INT] + text + [END];
    assert DigitsValue(text) == 52 by {
      assert text[..1] == [0x35];
      assert DigitsValue([0x35]) == 5 by { assert [0x35 as byte][..0] == []; }
    }
    DecodesInteger(s, 0, text);
  }

  /**
   * With no `e` after `i`, the source still drops the last byte it read:
   * `i52` at the end of input decodes to 5.
   */
  lemma UnterminatedIntegerExample()
    ensures Decode([0x69, 0x35, 0x32]) == Decoded(Ok(Int(5)), 3)
  {
    var s: seq<byte> := [0x69, 0x35, 0x32];
    assert IndexFrom(s, 1, END) == 3;
    assert ReadUntilAt(s, 1, END) == ([0x35, 0x32], 3);
    var text: seq<byte> := [0x35];
    assert [0x35 as byte, 0x32][..1] == text;
    assert DigitsValue(text) == 5 by { assert text[..0] == []; }
    assert ParseI64(text) == Some(5);
    AsciiIsValid(text);
    assert DecodeIntegerAt(s, 1) == Decoded(Ok(Int(5)), 3);
    assert Decode(s) == DecodeIntegerAt(s, 1);
  }

  /** `i5xe` reads its text through the `e` and then fails: `5x` is no i64. */
  lemma NotAnIntegerExample()
    ensures Decode([0x69, 0x35, 0x78, 0x65]) == Decoded(Err(NotAnInteger), 4)
  {
    var s: seq<byte> := [0x69, 0x35, 0x78, 0x65];
    assert IndexFrom(s, 1, END) == 3;
    var text: seq<byte> := [0x35, 0x78];
    assert s[1..4] == text + [END];
    assert ReadUntilAt(s, 1, END) == (text + [END], 4);
    IntegerAfterRead(s, 1, text);
    assert !AllDigits(text) by { assert !IsDigit(text[1]); }
    assert ParseI64(text) == None;
    AsciiIsValid(text);
    assert Decode(s) == DecodeIntegerAt(s, 1);
  }

  /**
   * Any leading byte other than a digit, `i`, `l` or `d` fails with the
   * catch-all error after consuming it; with no byte left it fails without
   * consuming anything.
   */
  lemma UnknownTagFails(s: seq<byte>, pos: nat)
    requires pos <= |s|
    requires pos == |s| || !(IsDigit(s[pos]) || s[pos] in {TAG_INT, TAG_LIST, TAG_DICT})
    ensures DecodeAt(s, pos) == Decoded(Err(NotBencode), if pos < |s| then pos + 1 else pos)
  {
  }

  /**
   * A list holds the values of its successful element decodes, in input
   * order, and ends at the first element decode that fails; the list itself
   * still succeeds, and the reader stays where the failed call left it.
   */
  lemma ListStopsAtFirstFailure(s: seq<byte>, pos: nat, items: seq<Value>, ends: seq<nat>)
    requires pos < |s| && s[pos] == TAG_LIST
    requires |ends| == |items| + 1 && ends[0] == pos + 1
    requires forall k :: 0 <= k < |ends| ==> ends[k] <= |s|
    requires forall k {:trigger items[k]} :: 0 <= k < |items| ==> DecodeAt(s, ends[k]) == Decoded(Ok(items[k]), ends[k + 1])
    requires DecodeAt(s, ends[|items|]).result.Err?
    ensures DecodeAt(s, pos) == Decoded(Ok(List(items)), DecodeAt(s, ends[|items|]).end)
  {
    ListLoop(s, items, ends);
    ListEnd(s, ends[|items|], items);
    Dispatch(s, pos);
  }

  /** The list loop over the given elements appends them in order. */
  lemma ListLoop(s: seq<byte>, items: seq<Value>, ends: seq<nat>)
    requires |ends| == |items| + 1
    requires forall k :: 0 <= k < |ends| ==> ends[k] <= |s|
    requires forall k {:trigger items[k]} :: 0 <= k < |items| ==> DecodeAt(s, ends[k]) == Decoded(Ok(items[k]), ends[k + 1])
    ensures DecodeListAt(s, ends[0], []) == DecodeListAt(s, ends[|items|], items)
  {
    ListFrom(s, items, ends, 0);
    assert items[..0] == [];
  }

  /** From the `k`-th element on, the list loop appends the remaining elements in order. */
  lemma {:induction false} ListFrom(s: seq<byte>, items: seq<Value>, ends: seq<nat>, k: nat)
    requires k <= |items| && |ends| == |items| + 1
    requires forall j :: 0 <= j < |ends| ==> ends[j] <= |s|
    requires forall j {:trigger items[j]} :: 0 <= j < |items| ==> DecodeAt(s, ends[j]) == Decoded(Ok(items[j]), ends[j + 1])
    ensures DecodeListAt(s, ends[k], items[..k]) == DecodeListAt(s, ends[|items|], items)
    decreases |items| - k
  {
    if k == |items| {
      assert items[..k] == items;
    } else {
      ListStep(s, ends[k], items[..k], items[k], ends[k + 1]);
      assert items[..k] + [items[k]] == items[..k + 1];
      ListFrom(s, items, ends, k + 1);
    }
  }

  /** After the pairs of a dictionary have been inserted, a key maps to the value of its last pair. */
  lemma {:induction false} InsertAllLastWins(m: map<seq<byte>, Value>, pairs: seq<(seq<byte>, Value)>, i: nat)
    requires i < |pairs|
    requires forall j :: i < j < |pairs| ==> pairs[j].0 != pairs[i].0
    ensures pairs[i].0 in InsertAll(m, pairs) && InsertAll(m, pairs)[pairs[i].0] == pairs[i].1
  {
    if i < |pairs| - 1 {
      InsertAllLastWins(m, pairs[..|pairs| - 1], i);
    }
  }

  /** The keys after inserting the pairs are the earlier keys and the pairs' keys. */
  lemma {:induction false} InsertAllKeys(m: map<seq<byte>, Value>, pairs: seq<(seq<byte>, Value)>)
    ensures InsertAll(m, pairs).Keys == m.Keys + set j | 0 <= j < |pairs| :: pairs[j].0
  {
    if pairs != [] {
      var init := pairs[..|pairs| - 1];
      InsertAllKeys(m, init);
      assert (set j | 0 <= j < |pairs| :: pairs[j].0)
          == (set j | 0 <= j < |init| :: init[j].0) + {pairs[|pairs| - 1].0};
    }
  }

  /**
   * A dictionary reads key/value pairs while the key decodes to text and
   * inserts them in order (a repeated key keeps the last value). A key that
   * does not decode to text ends the dictionary successfully; a value that
   * fails to decode makes the dictionary fail with that failure.
   */
  lemma {:induction false} DictReadsPairs(s: seq<byte>, pos: nat, pairs: seq<(seq<byte>, Value)>, keys: seq<nat>, values: seq<nat>)
    requires pos < |s| && s[pos] == TAG_DICT
    requires |keys| == |pairs| + 1 && |values| == |pairs| && keys[0] == pos + 1
    requires forall k :: 0 <= k < |keys| ==> keys[k] <= |s|
    requires forall k :: 0 <= k < |values| ==> values[k] <= |s|
    requires forall k {:trigger pairs[k]} :: 0 <= k < |pairs| ==> DecodeAt(s, keys[k]) == Decoded(Ok(Text(pairs[k].0)), values[k])
    requires forall k {:trigger pairs[k]} :: 0 <= k < |pairs| ==> DecodeAt(s, values[k]) == Decoded(Ok(pairs[k].1), keys[k + 1])
    ensures var key := DecodeAt(s, keys[|pairs|]);
      && (!(key.result.Ok? && key.result.value.Text?) ==>
            DecodeAt(s, pos) == Decoded(Ok(Dict(InsertAll(map[], pairs))), key.end))
      && (key.result.Ok? && key.result.value.Text? && DecodeAt(s, key.end).result.Err? ==>
            DecodeAt(s, pos) == DecodeAt(s, key.end))
  {
    DictLoop(s, pairs, keys, values);
    Dispatch(s, pos);
    var p, key := keys[|pairs|], DecodeAt(s, keys[|pairs|]);
    if !(key.result.Ok? && key.result.value.Text?) {
      DictEnd(s, p, InsertAll(map[], pairs));
    } else if DecodeAt(s, key.end).result.Err? {
      DictFail(s, p, InsertAll(map[], pairs), key.result.value.text, key.end);
    }
  }

  /** The dictionary loop over the given pairs inserts them in order. */
  lemma {:induction false} DictLoop(s: seq<byte>, pairs: seq<(seq<byte>, Value)>, keys: seq<nat>, values: seq<nat>)
    requires |keys| == |pairs| + 1 && |values| == |pairs|
    requires forall k :: 0 <= k < |keys| ==> keys[k] <= |s|
    requires forall k :: 0 <= k < |values| ==> values[k] <= |s|
    requires forall k {:trigger pairs[k]} :: 0 <= k < |pairs| ==> DecodeAt(s, keys[k]) == Decoded(Ok(Text(pairs[k].0)), values[k])
    requires forall k {:trigger pairs[k]} :: 0 <= k < |pairs| ==> DecodeAt(s, values[k]) == Decoded(Ok(pairs[k].1), keys[k + 1])
    ensures DecodeDictAt(s, keys[0], map[]) == DecodeDictAt(s, keys[|pairs|], InsertAll(map[], pairs))
  {
    var k := |pairs|;
    assert pairs[..k] == pairs;
    while k > 0
      invariant 0 <= k <= |pairs|
      invariant DecodeDictAt(s, keys[k], InsertAll(map[], pairs[..k]))
             == DecodeDictAt(s, keys[|pairs|], InsertAll(map[], pairs))
    {
      k := k - 1;
      var m := InsertAll(map[], pairs[..k]);
      assert pairs[..k + 1][..k] == pairs[..k];
      assert InsertAll(map[], pairs[..k + 1]) == m[pairs[k].0 := pairs[k].1];
      DictStep(s, keys[k], m, pairs[k].0, values[k], pairs[k].1, keys[k + 1]);
    }
    assert InsertAll(map[], pairs[..0]) == map[];
  }
}
