/**
 * The metainfo file's records and the codec of its `pieces` field: the byte
 * string of concatenated 20-byte SHA-1 digests, one per piece, that
 * `PiecesVisitor::visit_bytes` splits into `[u8; 20]` arrays and
 * `Serialize for Pieces` joins back together.
 */
module TorrentFile {
  import opened Common
  import opened Utf8

  /** The width of one SHA-1 digest. */
  const HASH_LEN: nat := 20

  /** The piece table: one digest per piece, in piece order. */
  datatype Pieces = Pieces(hashes: seq<Bytes20>)

  /** The `info` dictionary of a metainfo file; the sizes are unbounded naturals. */
  datatype Info = Info(length: nat, name: Text, pieceLength: nat, pieces: Pieces)

  /** A metainfo file: the tracker's announce URL and the `info` dictionary. */
  datatype TorrentFile = TorrentFile(announce: Text, info: Info)

  /** The one way decoding a piece table fails. */
  datatype PiecesError = NotMultipleOfHashLen

  /** `chunks_exact(20)` over a byte string whose length is a multiple of 20. */
  function Chunks(v: seq<byte>): (hs: seq<Bytes20>)
    requires |v| % HASH_LEN == 0
    ensures |hs| == |v| / HASH_LEN
    ensures forall k :: 0 <= k < |hs| ==> hs[k] == v[HASH_LEN * k..HASH_LEN * k + HASH_LEN]
    decreases |v|
  {
    if |v| == 0 then []
    else
      var rest := Chunks(v[HASH_LEN..]);
      assert forall k :: 0 < k < |rest| + 1 ==> rest[k - 1] == v[HASH_LEN * k..HASH_LEN * k + HASH_LEN];
      [v[..HASH_LEN]] + rest
  }

  /**
   * What `visit_bytes` yields: the digests in order, exactly when the length
   * is a multiple of 20.
   */
  function DecodePieces(v: seq<byte>): (r: Result<Pieces, PiecesError>)
    ensures r.Ok? <==> |v| % HASH_LEN == 0
    ensures r.Ok? ==> |r.value.hashes| == |v| / HASH_LEN
    ensures r.Ok? ==> forall k :: 0 <= k < |r.value.hashes| ==>
              r.value.hashes[k] == v[HASH_LEN * k..HASH_LEN * k + HASH_LEN]
  {
    if |v| % HASH_LEN != 0 then Err(NotMultipleOfHashLen) else Ok(Pieces(Chunks(v)))
  }

  /** The digests laid end to end. */
  function Concat(hs: seq<Bytes20>): (b: seq<byte>)
    ensures |b| == HASH_LEN * |hs|
    ensures forall k :: 0 <= k < |hs| ==> b[HASH_LEN * k..HASH_LEN * k + HASH_LEN] == hs[k]
  {
    if hs == [] then []
    else
      var rest := Concat(hs[1..]);
      var b := hs[0] + rest;
      assert forall k :: 0 < k < |hs| ==> b[HASH_LEN * k..HASH_LEN * k + HASH_LEN] == rest[HASH_LEN * (k - 1)..HASH_LEN * (k - 1) + HASH_LEN];
      b
  }

  /** `Serialize for Pieces`: the byte string it hands to the serializer. */
  function SerializePieces(p: Pieces): (b: seq<byte>)
    ensures |b| == HASH_LEN * |p.hashes|
    ensures forall k :: 0 <= k < |p.hashes| ==> b[HASH_LEN * k..HASH_LEN * k + HASH_LEN] == p.hashes[k]
  {
    Concat(p.hashes)
  }

  /** The closure of `visit_bytes`: copies one chunk, index by index, into a zeroed `[u8; 20]`. */
  method CopyHash(chunk: seq<byte>) returns (hash: Bytes20)
    requires |chunk| == HASH_LEN
    ensures hash == chunk
  {
    var buf := new byte[HASH_LEN](_ => 0);
    for idx := 0 to HASH_LEN
      invariant buf[..idx] == chunk[..idx]
    {
      buf[idx] := chunk[idx];
    }
    assert buf[..] == buf[..HASH_LEN];
    hash := buf[..];
  }

  /** `PiecesVisitor::visit_bytes`: the length check, then the copied chunks collected in order. */
  method VisitBytes(v: seq<byte>) returns (r: Result<Pieces, PiecesError>)
    ensures r == DecodePieces(v)
  {
    if |v| % HASH_LEN != 0 {
      return Err(NotMultipleOfHashLen);
    }
    var hashes: seq<Bytes20> := [];
    var i := 0;
    while i < |v| / HASH_LEN
      invariant 0 <= i <= |v| / HASH_LEN
      invariant hashes == Chunks(v)[..i]
    {
      var hash := CopyHash(v[HASH_LEN * i..HASH_LEN * i + HASH_LEN]);
      hashes := hashes + [hash];
      i := i + 1;
    }
    assert hashes == Chunks(v);
    return Ok(Pieces(hashes));
  }

  /** Decoding what was serialized gives the same piece table back. */
  lemma DecodeSerialize(p: Pieces)
    ensures DecodePieces(SerializePieces(p)) == Ok(p)
  {
    var b := SerializePieces(p);
    assert |b| % HASH_LEN == 0;
    var hs := DecodePieces(b).value.hashes;
    assert |hs| == |p.hashes|;
    forall k | 0 <= k < |hs| ensures hs[k] == p.hashes[k] {
      assert hs[k] == b[HASH_LEN * k..HASH_LEN * k + HASH_LEN];
    }
    assert hs == p.hashes;
  }

  /** Serializing a decoded piece table gives the original byte string back. */
  lemma SerializeDecode(v: seq<byte>)
    requires |v| % HASH_LEN == 0
    ensures DecodePieces(v).Ok? && SerializePieces(DecodePieces(v).value) == v
  {
    var p := DecodePieces(v).value;
    var b := SerializePieces(p);
    assert |b| == |v|;
    forall i | 0 <= i < |v| ensures b[i] == v[i] {
      var k := i / HASH_LEN;
      assert HASH_LEN * k <= i < HASH_LEN * k + HASH_LEN;
      assert b[HASH_LEN * k..HASH_LEN * k + HASH_LEN] == p.hashes[k] == v[HASH_LEN * k..HASH_LEN * k + HASH_LEN];
      assert b[i] == b[HASH_LEN * k..HASH_LEN * k + HASH_LEN][i - HASH_LEN * k];
      assert v[i] == v[HASH_LEN * k..HASH_LEN * k + HASH_LEN][i - HASH_LEN * k];
    }
  }

  /** Two digests: 40 bytes decode to the first 20 and the last 20. */
  lemma TwoPiecesExample(v: seq<byte>)
    requires |v| == 40
    ensures DecodePieces(v) == Ok(Pieces([v[..20], v[20..]]))
  {
    var hs := DecodePieces(v).value.hashes;
    assert hs[0] == v[0..20] && hs[1] == v[20..40];
    assert v[0..20] == v[..20] && v[20..40] == v[20..];
    assert hs == [v[..20], v[20..]];
  }
}
