/**
 * The peer handshake of the peer protocol of BEP 3: a length byte, the
 * protocol name, 8 reserved bytes, the 20-byte info hash and the 20-byte
 * peer id. `From<Handshake> for Vec<u8>` writes it and
 * `TryInto<Handshake> for Vec<u8>` reads it back.
 */
module Handshake {
  import opened Common
  import opened Utf8
  import opened Tracker

  datatype Handshake = Handshake(name: Text, infoHash: InfoHash, peerId: Bytes20)

  /** Why a buffer is not a handshake. */
  datatype HandshakeError =
    | InvalidBuffer  // the length is not the name length byte plus 49
    | ExpectedUtf8   // the name is not valid UTF-8

  const RESERVED_LEN: nat := 8
  const ID_LEN: nat := 20

  /** The bytes of a handshake other than the name: length byte, reserved bytes, info hash, peer id. */
  const FIXED_LEN: nat := 1 + RESERVED_LEN + ID_LEN + ID_LEN

  function Zeros(n: nat): (z: seq<byte>)
    ensures |z| == n && forall i :: 0 <= i < n ==> z[i] == 0
  {
    seq(n, _ => 0)
  }

  /**
   * The layout of an encoded handshake: the name length truncated to a byte,
   * the name, 8 zero bytes, the info hash, and the peer id last.
   */
  function Wire(h: Handshake): (w: seq<byte>)
    ensures |w| == |h.name| + FIXED_LEN
    ensures w[0] as int == |h.name| % 256
    ensures w[1..1 + |h.name|] == h.name
    ensures w[1 + |h.name|..1 + |h.name| + RESERVED_LEN] == Zeros(RESERVED_LEN)
    ensures w[1 + |h.name| + RESERVED_LEN..|w| - ID_LEN] == AsBytes(h.infoHash)
    ensures w[|w| - ID_LEN..] == h.peerId
  {
    var n := |h.name|;
    var w := [(n % 256) as byte] + h.name + Zeros(RESERVED_LEN) + AsBytes(h.infoHash) + h.peerId;
    assert w[1..1 + n] == h.name;
    assert w[1 + n..1 + n + RESERVED_LEN] == Zeros(RESERVED_LEN);
    assert w[1 + n + RESERVED_LEN..|w| - ID_LEN] == AsBytes(h.infoHash);
    w
  }

  /** `From<Handshake> for Vec<u8>`: the buffer grown by successive `extend` calls. */
  method IntoBytes(h: Handshake) returns (buf: seq<byte>)
    ensures buf == Wire(h)
  {
    var capacity := 1 + |h.name| + RESERVED_LEN + Len(h.infoHash) + |h.peerId|;
    buf := [];
    buf := buf + [(|h.name| % 256) as byte];
    buf := buf + h.name;
    buf := buf + Zeros(RESERVED_LEN);
    buf := buf + AsBytes(h.infoHash);
    buf := buf + h.peerId;
    assert |buf| == capacity;
  }

  /**
   * What `try_into` makes of a non-empty buffer: a handshake exactly when the
   * length is the first byte plus 49 and the name is valid UTF-8; the length
   * check comes first.
   */
  function ParseHandshake(buf: seq<byte>): (r: Result<Handshake, HandshakeError>)
    requires |buf| > 0
    ensures r.Ok? <==> |buf| == buf[0] as int + FIXED_LEN && ValidUtf8(buf[1..buf[0] as int + 1])
    ensures r == Err(InvalidBuffer) <==> |buf| != buf[0] as int + FIXED_LEN
  {
    var len := buf[0] as int;
    if |buf| != len + FIXED_LEN then Err(InvalidBuffer)
    else
      var name := buf[1..len + 1];
      if !ValidUtf8(name) then Err(ExpectedUtf8)
      else
        var offset := len + 1 + RESERVED_LEN;
        Ok(Handshake(name, InfoHash(buf[offset..offset + ID_LEN]), buf[offset + ID_LEN..offset + 2 * ID_LEN]))
  }

  /** `TryInto<Handshake> for Vec<u8>`: slices the fields off with an offset advanced past each. */
  method TryInto(buf: seq<byte>) returns (r: Result<Handshake, HandshakeError>)
    requires |buf| > 0
    ensures r == ParseHandshake(buf)
  {
    var len := buf[0] as int;
    if |buf| != len + FIXED_LEN {
      return Err(InvalidBuffer);
    }
    var nameEnd := len + 1;
    var name := buf[1..nameEnd];
    if !ValidUtf8(name) {
      return Err(ExpectedUtf8);
    }
    var offset := nameEnd + RESERVED_LEN;
    var infoHash := InfoHash(buf[offset..offset + ID_LEN]);
    offset := offset + ID_LEN;
    var peerId := buf[offset..offset + ID_LEN];
    return Ok(Handshake(name, infoHash, peerId));
  }

  /** Round trip: a handshake whose name fits the length byte decodes from its encoding. */
  lemma ParseWire(h: Handshake)
    requires |h.name| <= 255
    ensures ParseHandshake(Wire(h)) == Ok(h)
  {
    var w := Wire(h);
    var n := |h.name|;
    assert w[0] as int == n;
    var r := ParseHandshake(w);
    assert r.Ok?;
    assert r.value.name == h.name;
    assert r.value.infoHash.bytes == h.infoHash.bytes;
    assert r.value.peerId == h.peerId;
  }

  /** A name longer than 255 bytes makes an encoding the decoder rejects: its length byte wraps. */
  lemma LongNameRejected(h: Handshake)
    requires |h.name| > 255
    ensures ParseHandshake(Wire(h)) == Err(InvalidBuffer)
  {
    var w := Wire(h);
    assert w[0] as int < |h.name|;
  }

  /** A decoded handshake re-encodes to the buffer it came from, with the reserved bytes zeroed. */
  lemma ParseReencodes(buf: seq<byte>)
    requires |buf| > 0 && ParseHandshake(buf).Ok?
    ensures var n := buf[0] as int;
      Wire(ParseHandshake(buf).value) == buf[..1 + n] + Zeros(RESERVED_LEN) + buf[1 + n + RESERVED_LEN..]
  {
    var n := buf[0] as int;
    var h := ParseHandshake(buf).value;
    assert h.name == buf[1..1 + n];
    var w := Wire(h);
    var head := buf[..1 + n];
    var tail := buf[1 + n + RESERVED_LEN..];
    var e := head + Zeros(RESERVED_LEN) + tail;
    assert |w| == |e| == |buf|;
    forall i | 0 <= i < |w| ensures w[i] == e[i] {
      if i == 0 {
        assert e[i] == head[0] == buf[0];
      } else if i < 1 + n {
        assert e[i] == head[i] == buf[i];
        assert w[i] == w[1..1 + n][i - 1] == h.name[i - 1];
      } else if i < 1 + n + RESERVED_LEN {
        assert e[i] == Zeros(RESERVED_LEN)[i - 1 - n];
        assert w[i] == w[1 + n..1 + n + RESERVED_LEN][i - 1 - n];
      } else if i < |w| - ID_LEN {
        assert e[i] == tail[i - 1 - n - RESERVED_LEN] == buf[i];
        assert w[i] == w[1 + n + RESERVED_LEN..|w| - ID_LEN][i - 1 - n - RESERVED_LEN];
      } else {
        assert e[i] == tail[i - 1 - n - RESERVED_LEN] == buf[i];
        assert w[i] == w[|w| - ID_LEN..][i - (|w| - ID_LEN)];
      }
    }
  }

  /** The name of the protocol, `BitTorrent protocol`. */
  const PROTOCOL_NAME: seq<byte> :=
    [0x42, 0x69, 0x74, 0x54, 0x6F, 0x72, 0x72, 0x65, 0x6E, 0x74,
     0x20, 0x70, 0x72, 0x6F, 0x74, 0x6F, 0x63, 0x6F, 0x6C]

  /** With the standard name the handshake is 68 bytes long and starts with 19. */
  lemma ProtocolExample(infoHash: InfoHash, peerId: Bytes20)
    ensures ValidUtf8(PROTOCOL_NAME)
    ensures var w := Wire(Handshake(PROTOCOL_NAME, infoHash, peerId));
      |w| == 68 && w[0] == 19 && ParseHandshake(w) == Ok(Handshake(PROTOCOL_NAME, infoHash, peerId))
  {
    var name := PROTOCOL_NAME;
    assert |name| == 19;
    forall i | 0 <= i < |name| ensures IsAscii(name[i]) {
      assert name[i] <= 0x74;
    }
    AsciiIsValid(name);
    ParseWire(Handshake(PROTOCOL_NAME, infoHash, peerId));
  }
}
