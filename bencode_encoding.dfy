/**
 * A reference encoder for bencode, against which the decoder of `Bencode` is
 * checked: a `Term` is bencode syntax (strings, integers, lists, and
 * dictionaries as the key/value pairs in the order they are written),
 * `Encode` writes it with minimal decimal lengths and integers, and
 * `Interpret` says what the decoder should make of it. The round trip
 * `DecodeEncoded` holds for every well-formed term.
 */
module BencodeEncoding {
  import opened Common
  import opened Utf8
  import opened Decimal
  import opened Bencode

  datatype Term =
    | Str(bytes: seq<byte>)
    | Num(n: int)
    | Items(items: seq<Term>)
    | Pairs(pairs: seq<Pair>)

  datatype Pair = Pair(key: seq<byte>, val: Term)

  /**
   * Terms the decoder reads back as written: lengths fit a usize, integers
   * fit an i64, and dictionary keys are texts (a key that is not valid UTF-8
   * would end the dictionary early).
   */
  predicate WellFormed(t: Term)
  {
    match t
    case Str(b) => |b| <= USIZE_MAX
    case Num(n) => I64_MIN <= n <= I64_MAX
    case Items(items) => forall i :: 0 <= i < |items| ==> WellFormed(items[i])
    case Pairs(ps) => forall i :: 0 <= i < |ps| ==> WellFormedPair(ps[i])
  }

  predicate WellFormedPair(p: Pair)
  {
    ValidUtf8(p.key) && |p.key| <= USIZE_MAX && WellFormed(p.val)
  }

  function EncodeString(b: seq<byte>): seq<byte>
  {
    NatText(|b|) + [COLON] + b
  }

  function Encode(t: Term): seq<byte>
  {
    match t
    case Str(b) => EncodeString(b)
    case Num(n) => [TAG_INT] + IntText(n) + [END]
    case Items(items) => [TAG_LIST] + EncodeItems(items) + [END]
    case Pairs(ps) => [TAG_DICT] + EncodePairs(ps) + [END]
  }

  function EncodeItems(items: seq<Term>): seq<byte>
  {
    if items == [] then [] else Encode(items[0]) + EncodeItems(items[1..])
  }

  function EncodePairs(ps: seq<Pair>): seq<byte>
  {
    if ps == [] then [] else EncodePair(ps[0]) + EncodePairs(ps[1..])
  }

  /** The value the decoder is meant to produce for a term. */
  function Interpret(t: Term): Value
  {
    match t
    case Str(b) => StringValue(b)
    case Num(n) => Int(n)
    case Items(items) => List(InterpretItems(items))
    case Pairs(ps) => Dict(InsertAll(map[], InterpretPairs(ps)))
  }

  function InterpretItems(items: seq<Term>): seq<Value>
  {
    if items == [] then [] else [Interpret(items[0])] + InterpretItems(items[1..])
  }

  function InterpretPairs(ps: seq<Pair>): seq<(seq<byte>, Value)>
  {
    if ps == [] then [] else [(ps[0].key, Interpret(ps[0].val))] + InterpretPairs(ps[1..])
  }

  /** The values of the elements, in order. */
  lemma {:induction false} InterpretItemsAt(items: seq<Term>)
    ensures |InterpretItems(items)| == |items|
    ensures forall k {:trigger items[k]} :: 0 <= k < |items| ==> InterpretItems(items)[k] == Interpret(items[k])
  {
    if items != [] {
      InterpretItemsAt(items[1..]);
      forall k | 0 < k < |items| ensures InterpretItems(items)[k] == Interpret(items[k]) {
        assert items[1..][k - 1] == items[k];
      }
    }
  }

  /** The key/value pairs of a dictionary term, in order. */
  lemma {:induction false} InterpretPairsAt(ps: seq<Pair>)
    ensures |InterpretPairs(ps)| == |ps|
    ensures forall k {:trigger ps[k]} :: 0 <= k < |ps| ==> InterpretPairs(ps)[k] == (ps[k].key, Interpret(ps[k].val))
  {
    if ps != [] {
      InterpretPairsAt(ps[1..]);
      forall k | 0 < k < |ps| ensures InterpretPairs(ps)[k] == (ps[k].key, Interpret(ps[k].val)) {
        assert ps[1..][k - 1] == ps[k];
      }
    }
  }

  /** The chunks laid end to end. */
  function Concat(cs: seq<seq<byte>>): seq<byte>
  {
    if cs == [] then [] else cs[0] + Concat(cs[1..])
  }

  /** Where each chunk starts, from `p` on; the last entry is just past them all. */
  function Offsets(p: nat, cs: seq<seq<byte>>): (o: seq<nat>)
    ensures |o| == |cs| + 1 && o[0] == p
    ensures o[|cs|] == p + |Concat(cs)|
    decreases cs
  {
    if cs == [] then [p] else [p] + Offsets(p + |cs[0]|, cs[1..])
  }

  /** Chunks followed by an `e` sit at their offsets, and the `e` after them. */
  lemma {:induction false} ChunksLaidOut(cs: seq<seq<byte>>, s: seq<byte>, p: nat)
    requires IsPrefixAt(Concat(cs) + [END], s, p)
    ensures var o := Offsets(p, cs);
      && (forall k {:trigger cs[k]} :: 0 <= k < |cs| ==> IsPrefixAt(cs[k], s, o[k]) && o[k + 1] == o[k] + |cs[k]|)
      && o[|cs|] < |s| && s[o[|cs|]] == END
  {
    var o := Offsets(p, cs);
    if cs == [] {
      assert Concat(cs) + [END] == [END];
    } else {
      assert Concat(cs) + [END] == cs[0] + (Concat(cs[1..]) + [END]);
      PrefixSplit(cs[0], Concat(cs[1..]) + [END], s, p);
      var rest := Offsets(p + |cs[0]|, cs[1..]);
      ChunksLaidOut(cs[1..], s, p + |cs[0]|);
      assert o == [p] + rest;
      forall k | 0 <= k < |cs|
        ensures IsPrefixAt(cs[k], s, o[k]) && o[k + 1] == o[k] + |cs[k]|
      {
        if k > 0 {
          assert cs[1..][k - 1] == cs[k];
          assert o[k] == rest[k - 1] && o[k + 1] == rest[k];
        }
      }
      assert o[|cs|] == rest[|cs| - 1];
    }
  }

  /** The encoding of one dictionary entry: its key, then its value. */
  function EncodePair(pr: Pair): seq<byte>
  {
    EncodeString(pr.key) + Encode(pr.val)
  }

  /** The list elements' encodings, one chunk each, in order. */
  function ItemChunks(items: seq<Term>): (cs: seq<seq<byte>>)
    ensures |cs| == |items|
  {
    seq(|items|, k requires 0 <= k < |items| => Encode(items[k]))
  }

  /** The dictionary entries' encodings, one chunk each, in order. */
  function PairChunks(ps: seq<Pair>): (cs: seq<seq<byte>>)
    ensures |cs| == |ps|
  {
    seq(|ps|, k requires 0 <= k < |ps| => EncodePair(ps[k]))
  }

  /** A list's body is its elements' encodings laid end to end. */
  lemma {:induction false} EncodeItemsChunks(items: seq<Term>)
    ensures EncodeItems(items) == Concat(ItemChunks(items))
  {
    if items != [] {
      EncodeItemsChunks(items[1..]);
      assert ItemChunks(items)[1..] == ItemChunks(items[1..]);
    }
  }

  /** A dictionary's body is its entries' encodings laid end to end. */
  lemma {:induction false} EncodePairsChunks(ps: seq<Pair>)
    ensures EncodePairs(ps) == Concat(PairChunks(ps))
  {
    if ps != [] {
      EncodePairsChunks(ps[1..]);
      assert PairChunks(ps)[1..] == PairChunks(ps[1..]);
    }
  }

  /** An encoded string decodes to its payload, as text exactly when it is valid UTF-8. */
  lemma DecodeEncodedString(b: seq<byte>, s: seq<byte>, pos: nat)
    requires |b| <= USIZE_MAX && IsPrefixAt(EncodeString(b), s, pos)
    ensures DecodeAt(s, pos) == Decoded(Ok(StringValue(b)), pos + |EncodeString(b)|)
  {
    NatTextDenotes(|b|);
    var digits := NatText(|b|);
    assert EncodeString(b) == (digits + [COLON]) + b;
    PrefixSplit(digits + [COLON], b, s, pos);
    var q := pos + |digits| + 1;
    assert q + |b| <= |s| && s[q..q + |b|] == b;
    DecodesString(s, pos, digits);
    assert DecodeAt(s, pos) == Payload(s, q, |b|);
  }

  /** An encoded i64 decodes to itself. */
  lemma DecodeEncodedInteger(n: int, s: seq<byte>, pos: nat)
    requires I64_MIN <= n <= I64_MAX && IsPrefixAt([TAG_INT] + IntText(n) + [END], s, pos)
    ensures DecodeAt(s, pos) == Decoded(Ok(Int(n)), pos + |IntText(n)| + 2)
  {
    ParseI64IntText(n);
    var text := IntText(n);
    forall k | 0 <= k < |text| ensures text[k] != END {
      assert text[k] == MINUS || IsDigit(text[k]);
    }
    DecodesInteger(s, pos, text);
  }

  /** Decoding the encoding of a well-formed term at any position gives its value and consumes exactly it. */
  lemma {:induction false} DecodeEncodedAt(t: Term, s: seq<byte>, pos: nat)
    requires WellFormed(t) && IsPrefixAt(Encode(t), s, pos)
    ensures DecodeAt(s, pos) == Decoded(Ok(Interpret(t)), pos + |Encode(t)|)
    decreases t
  {
    match t
    case Str(b) =>
      DecodeEncodedString(b, s, pos);
    case Num(n) =>
      DecodeEncodedInteger(n, s, pos);
    case Items(items) =>
      DecodeEncodedList(items, s, pos);
    case Pairs(ps) =>
      DecodeEncodedDict(ps, s, pos);
  }

  /** The elements of an encoded list body decode one after another, each to its value, up to the `e`. */
  lemma {:induction false} ItemsDecode(items: seq<Term>, s: seq<byte>, p: nat)
    requires forall k :: 0 <= k < |items| ==> WellFormed(items[k])
    requires IsPrefixAt(EncodeItems(items) + [END], s, p)
    ensures var ends := Offsets(p, ItemChunks(items));
      && (forall k :: 0 <= k <= |items| ==> ends[k] <= |s|)
      && (forall k {:trigger items[k]} :: 0 <= k < |items| ==>
            DecodeAt(s, ends[k]) == Decoded(Ok(Interpret(items[k])), ends[k + 1]))
      && ends[|items|] < |s| && s[ends[|items|]] == END
    decreases items, 0
  {
    var chunks := ItemChunks(items);
    EncodeItemsChunks(items);
    var ends := Offsets(p, chunks);
    ChunksLaidOut(chunks, s, p);
    forall k | 0 <= k <= |items| ensures ends[k] <= |s| {
      if k < |items| {
        assert IsPrefixAt(chunks[k], s, ends[k]);
      }
    }
    forall k | 0 <= k < |items| ensures DecodeAt(s, ends[k]) == Decoded(Ok(Interpret(items[k])), ends[k + 1]) {
      assert IsPrefixAt(chunks[k], s, ends[k]) && ends[k + 1] == ends[k] + |chunks[k]|;
      DecodeEncodedAt(items[k], s, ends[k]);
    }
  }

  /** An encoded list decodes to the values of its elements, in order. */
  lemma {:induction false} DecodeEncodedList(items: seq<Term>, s: seq<byte>, pos: nat)
    requires WellFormed(Items(items)) && IsPrefixAt(Encode(Items(items)), s, pos)
    ensures DecodeAt(s, pos) == Decoded(Ok(List(InterpretItems(items))), pos + |Encode(Items(items))|)
    decreases items, 1
  {
    assert Encode(Items(items)) == [TAG_LIST] + (EncodeItems(items) + [END]);
    PrefixSplit([TAG_LIST], EncodeItems(items) + [END], s, pos);
    assert s[pos] == s[pos..pos + 1][0] == TAG_LIST;
    EncodeItemsChunks(items);
    var ends := Offsets(pos + 1, ItemChunks(items));
    var values := InterpretItems(items);
    ItemsDecode(items, s, pos + 1);
    InterpretItemsAt(items);
    forall k | 0 <= k < |values| ensures DecodeAt(s, ends[k]) == Decoded(Ok(values[k]), ends[k + 1]) {
      assert values[k] == Interpret(items[k]);
    }
    UnknownTagFails(s, ends[|items|]);
    ListStopsAtFirstFailure(s, pos, values, ends);
  }

  /** Where each value's encoding starts, given where each entry's starts. */
  function ValueOffsets(keys: seq<nat>, ps: seq<Pair>): (values: seq<nat>)
    requires |keys| == |ps| + 1
    ensures |values| == |ps|
  {
    seq(|ps|, k requires 0 <= k < |ps| => keys[k] + |EncodeString(ps[k].key)|)
  }

  /** The entries of an encoded dictionary body decode one after another, key then value, up to the `e`. */
  lemma {:induction false} PairsDecode(ps: seq<Pair>, s: seq<byte>, p: nat)
    requires forall k :: 0 <= k < |ps| ==> WellFormedPair(ps[k])
    requires IsPrefixAt(EncodePairs(ps) + [END], s, p)
    ensures var keys := Offsets(p, PairChunks(ps));
      var values := ValueOffsets(keys, ps);
      && (forall k :: 0 <= k <= |ps| ==> keys[k] <= |s|)
      && (forall k :: 0 <= k < |ps| ==> values[k] <= |s|)
      && (forall k {:trigger ps[k]} :: 0 <= k < |ps| ==>
            && DecodeAt(s, keys[k]) == Decoded(Ok(Text(ps[k].key)), values[k])
            && DecodeAt(s, values[k]) == Decoded(Ok(Interpret(ps[k].val)), keys[k + 1]))
      && keys[|ps|] < |s| && s[keys[|ps|]] == END
    decreases ps, 0
  {
    var chunks := PairChunks(ps);
    EncodePairsChunks(ps);
    var keys := Offsets(p, chunks);
    var values := ValueOffsets(keys, ps);
    ChunksLaidOut(chunks, s, p);
    forall k | 0 <= k <= |ps| ensures keys[k] <= |s| {
      if k < |ps| {
        assert IsPrefixAt(chunks[k], s, keys[k]);
      }
    }
    forall k | 0 <= k < |ps|
      ensures values[k] <= |s|
      ensures DecodeAt(s, keys[k]) == Decoded(Ok(Text(ps[k].key)), values[k])
      ensures DecodeAt(s, values[k]) == Decoded(Ok(Interpret(ps[k].val)), keys[k + 1])
    {
      assert IsPrefixAt(chunks[k], s, keys[k]) && keys[k + 1] == keys[k] + |chunks[k]|;
      DecodeEncodedEntry(ps[k], chunks[k], s, keys[k], values[k], keys[k + 1]);
    }
  }

  /** An encoded dictionary decodes to the map of its pairs inserted in order. */
  lemma {:induction false} DecodeEncodedDict(ps: seq<Pair>, s: seq<byte>, pos: nat)
    requires WellFormed(Pairs(ps)) && IsPrefixAt(Encode(Pairs(ps)), s, pos)
    ensures DecodeAt(s, pos) == Decoded(Ok(Dict(InsertAll(map[], InterpretPairs(ps)))), pos + |Encode(Pairs(ps))|)
    decreases ps, 1
  {
    assert Encode(Pairs(ps)) == [TAG_DICT] + (EncodePairs(ps) + [END]);
    PrefixSplit([TAG_DICT], EncodePairs(ps) + [END], s, pos);
    assert s[pos] == s[pos..pos + 1][0] == TAG_DICT;
    EncodePairsChunks(ps);
    var keys := Offsets(pos + 1, PairChunks(ps));
    var values := ValueOffsets(keys, ps);
    var pairs := InterpretPairs(ps);
    PairsDecode(ps, s, pos + 1);
    InterpretPairsAt(ps);
    forall k | 0 <= k < |pairs|
      ensures DecodeAt(s, keys[k]) == Decoded(Ok(Text(pairs[k].0)), values[k])
      ensures DecodeAt(s, values[k]) == Decoded(Ok(pairs[k].1), keys[k + 1])
    {
      assert pairs[k] == (ps[k].key, Interpret(ps[k].val));
    }
    UnknownTagFails(s, keys[|ps|]);
    DictReadsPairs(s, pos, pairs, keys, values);
  }

  /**
   * An encoded dictionary entry at `key` decodes to its key, as text, ending
   * at `value`, and then to its value, ending at `next`.
   */
  lemma DecodeEncodedEntry(pr: Pair, chunk: seq<byte>, s: seq<byte>, key: nat, value: nat, next: nat)
    requires WellFormedPair(pr) && chunk == EncodePair(pr) && IsPrefixAt(chunk, s, key)
    requires value == key + |EncodeString(pr.key)| && next == key + |chunk|
    ensures value <= |s|
    ensures DecodeAt(s, key) == Decoded(Ok(Text(pr.key)), value)
    ensures DecodeAt(s, value) == Decoded(Ok(Interpret(pr.val)), next)
  {
    var k := EncodeString(pr.key);
    var v := Encode(pr.val);
    assert chunk == k + v;
    PrefixSplit(k, v, s, key);
    DecodeEncodedKey(pr.key, s, key);
    DecodeEncodedAt(pr.val, s, value);
  }

  /** An encoded dictionary key, being valid UTF-8, decodes to text. */
  lemma DecodeEncodedKey(key: seq<byte>, s: seq<byte>, q: nat)
    requires ValidUtf8(key) && |key| <= USIZE_MAX && IsPrefixAt(EncodeString(key), s, q)
    ensures DecodeAt(s, q) == Decoded(Ok(Text(key)), q + |EncodeString(key)|)
  {
    DecodeEncodedString(key, s, q);
  }

  /** Round trip: decoding the encoding of a well-formed term gives its value, consuming all of it. */
  lemma DecodeEncoded(t: Term)
    requires WellFormed(t)
    ensures Decode(Encode(t)) == Decoded(Ok(Interpret(t)), |Encode(t)|)
  {
    var s := Encode(t);
    assert s[0..|s|] == s;
    DecodeEncodedAt(t, s, 0);
  }

  /** `d1:ai1e1:ai2ee`: the repeated key `a` keeps the last value, 2. */
  lemma RepeatedKeyExample()
    ensures Decode([0x64, 0x31, 0x3A, 0x61, 0x69, 0x31, 0x65, 0x31, 0x3A, 0x61, 0x69, 0x32, 0x65, 0x65])
         == Decoded(Ok(Dict(map[[0x61] := Int(2)])), 14)
  {
    var a: seq<byte> := [0x61];
    var second := [Pair(a, Num(2))];
    var ps := [Pair(a, Num(1))] + second;
    assert NatText(1) == [0x31] && NatText(2) == [0x32];
    assert EncodeString(a) == [0x31, 0x3A, 0x61];
    assert Encode(Num(1)) == [0x69, 0x31, 0x65];
    assert Encode(Num(2)) == [0x69, 0x32, 0x65];
    assert ps[1..] == second && second[1..] == [];
    assert EncodePairs(second) == [0x31, 0x3A, 0x61, 0x69, 0x32, 0x65];
    assert EncodePairs(ps) == [0x31, 0x3A, 0x61, 0x69, 0x31, 0x65] + EncodePairs(second);
    assert Encode(Pairs(ps))
        == [0x64, 0x31, 0x3A, 0x61, 0x69, 0x31, 0x65, 0x31, 0x3A, 0x61, 0x69, 0x32, 0x65, 0x65];
    AsciiIsValid(a);
    assert WellFormedPair(ps[0]) && WellFormedPair(ps[1]);
    DecodeEncoded(Pairs(ps));
    assert StringValue(a) == Text(a);
    assert InterpretPairs(second) == [(a, Int(2))];
    var pairs := [(a, Int(1)), (a, Int(2))];
    assert InterpretPairs(ps) == pairs;
    assert pairs[..1] == [(a, Int(1))] && pairs[..1][..0] == [];
    assert InsertAll(map[], pairs[..1]) == map[a := Int(1)];
    assert InsertAll(map[], pairs) == map[a := Int(2)];
  }
}
