/**
 * The tracker side of the client: the info hash wrapper and the decoder of
 * the compact peer list of BEP 23, in which each peer takes six bytes, a
 * 4-byte IPv4 address followed by a big-endian 2-byte port.
 */
module Tracker {
  import opened Common
  import opened Utf8

  /** The SHA-1 digest of a torrent's `info` dictionary. */
  datatype InfoHash = InfoHash(bytes: Bytes20)

  /** `InfoHash::len`. */
  function Len(h: InfoHash): (n: nat)
    ensures n == 20
  {
    |h.bytes|
  }

  /** `InfoHash::as_bytes`: a view of the wrapped digest. */
  function AsBytes(h: InfoHash): (b: seq<byte>)
    ensures |b| == Len(h)
    ensures forall i :: 0 <= i < |b| ==> b[i] == h.bytes[i]
  {
    h.bytes
  }

  /** `From<[u8; 20]> for InfoHash`. */
  function FromBytes(b: Bytes20): (h: InfoHash)
    ensures AsBytes(h) == b
  {
    InfoHash(b)
  }

  /** Wrapping and viewing are inverse. */
  lemma FromAsBytes(h: InfoHash)
    ensures FromBytes(AsBytes(h)) == h
  {
  }

  /** A TCP port, Rust's `u16`. */
  newtype u16 = x: int | 0 <= x < 0x1_0000

  /** `Ipv4Addr::new(a, b, c, d)`: the four octets in dotted order. */
  datatype Ipv4Addr = Ipv4Addr(a: byte, b: byte, c: byte, d: byte)

  /** `SocketAddrV4`: an IPv4 address and a port. */
  datatype SocketAddrV4 = SocketAddrV4(ip: Ipv4Addr, port: u16)

  /** The query of an announce request; its URL encoding is left to a library. */
  datatype Tracker = Tracker(
    infoHash: InfoHash, peerId: Text, port: u16,
    uploaded: nat, downloaded: nat, left: nat, compact: nat)

  /** The part of the tracker's reply the client reads. */
  datatype TrackerResponse = TrackerResponse(peers: seq<SocketAddrV4>)

  /** The one way decoding a compact peer list fails. */
  datatype PeersError = NotMultipleOfPeerLen

  /** The width of one compact peer entry. */
  const PEER_LEN: nat := 6

  /** `u16::from_be_bytes([hi, lo])`. */
  function FromBeBytes(hi: byte, lo: byte): (p: u16)
    ensures p as int / 256 == hi as int && p as int % 256 == lo as int
  {
    (hi as int * 256 + lo as int) as u16
  }

  /** `u16::to_be_bytes`, the inverse of `FromBeBytes`. */
  function ToBeBytes(p: u16): (b: seq<byte>)
    ensures |b| == 2 && FromBeBytes(b[0], b[1]) == p
  {
    [(p as int / 256) as byte, (p as int % 256) as byte]
  }

  /** The peer one 6-byte chunk describes. */
  function PeerOf(chunk: seq<byte>): (peer: SocketAddrV4)
    requires |chunk| == PEER_LEN
    ensures peer.ip == Ipv4Addr(chunk[0], chunk[1], chunk[2], chunk[3])
    ensures peer.port as int == 256 * chunk[4] as int + chunk[5] as int
  {
    SocketAddrV4(Ipv4Addr(chunk[0], chunk[1], chunk[2], chunk[3]), FromBeBytes(chunk[4], chunk[5]))
  }

  /** `chunks_exact(6)` mapped through `PeerOf`. */
  function CompactPeers(v: seq<byte>): (peers: seq<SocketAddrV4>)
    requires |v| % PEER_LEN == 0
    ensures |peers| == |v| / PEER_LEN
    ensures forall k :: 0 <= k < |peers| ==> peers[k] == PeerOf(v[PEER_LEN * k..PEER_LEN * k + PEER_LEN])
    decreases |v|
  {
    if |v| == 0 then []
    else
      var rest := CompactPeers(v[PEER_LEN..]);
      assert forall k :: 0 < k < |rest| + 1 ==>
        v[PEER_LEN..][PEER_LEN * (k - 1)..PEER_LEN * (k - 1) + PEER_LEN] == v[PEER_LEN * k..PEER_LEN * k + PEER_LEN];
      [PeerOf(v[..PEER_LEN])] + rest
  }

  /**
   * `PeersVisitor::visit_bytes`: the peers in chunk order, exactly when the
   * length is a multiple of 6; peer `k`'s address is bytes `6k..6k+4` and
   * its port the big-endian pair after them.
   */
  function DecodePeers(v: seq<byte>): (r: Result<seq<SocketAddrV4>, PeersError>)
    ensures r.Ok? <==> |v| % PEER_LEN == 0
    ensures r.Ok? ==> |r.value| == |v| / PEER_LEN
    ensures r.Ok? ==> forall k :: 0 <= k < |r.value| ==>
              && r.value[k].ip == Ipv4Addr(v[PEER_LEN * k], v[PEER_LEN * k + 1], v[PEER_LEN * k + 2], v[PEER_LEN * k + 3])
              && r.value[k].port as int == 256 * v[PEER_LEN * k + 4] as int + v[PEER_LEN * k + 5] as int
  {
    if |v| % PEER_LEN != 0 then Err(NotMultipleOfPeerLen)
    else
      var peers := CompactPeers(v);
      assert forall k :: 0 <= k < |peers| ==>
        var c := v[PEER_LEN * k..PEER_LEN * k + PEER_LEN];
        c[0] == v[PEER_LEN * k] && c[1] == v[PEER_LEN * k + 1] && c[2] == v[PEER_LEN * k + 2]
        && c[3] == v[PEER_LEN * k + 3] && c[4] == v[PEER_LEN * k + 4] && c[5] == v[PEER_LEN * k + 5];
      Ok(peers)
  }

  /** The compact encoding of one peer. */
  function PeerBytes(peer: SocketAddrV4): (c: seq<byte>)
    ensures |c| == PEER_LEN && PeerOf(c) == peer
  {
    [peer.ip.a, peer.ip.b, peer.ip.c, peer.ip.d] + ToBeBytes(peer.port)
  }

  /** The compact encoding of a peer list, the inverse of `DecodePeers`. */
  function EncodePeers(peers: seq<SocketAddrV4>): (v: seq<byte>)
    ensures |v| == PEER_LEN * |peers|
    ensures forall k :: 0 <= k < |peers| ==> v[PEER_LEN * k..PEER_LEN * k + PEER_LEN] == PeerBytes(peers[k])
  {
    if peers == [] then []
    else
      var rest := EncodePeers(peers[1..]);
      var v := PeerBytes(peers[0]) + rest;
      assert forall k :: 0 < k < |peers| ==>
        v[PEER_LEN * k..PEER_LEN * k + PEER_LEN] == rest[PEER_LEN * (k - 1)..PEER_LEN * (k - 1) + PEER_LEN];
      v
  }

  /** Re-encoding the peer a chunk describes gives the chunk back. */
  lemma PeerBytesOf(c: seq<byte>)
    requires |c| == PEER_LEN
    ensures PeerBytes(PeerOf(c)) == c
  {
    var port := PeerOf(c).port;
    assert ToBeBytes(port) == [c[4], c[5]];
  }

  /** Decoding an encoded peer list gives the list back. */
  lemma DecodeEncodePeers(peers: seq<SocketAddrV4>)
    ensures DecodePeers(EncodePeers(peers)) == Ok(peers)
  {
    var v := EncodePeers(peers);
    assert |v| % PEER_LEN == 0;
    var decoded := CompactPeers(v);
    forall k | 0 <= k < |peers| ensures decoded[k] == peers[k] {
      assert v[PEER_LEN * k..PEER_LEN * k + PEER_LEN] == PeerBytes(peers[k]);
    }
    assert decoded == peers;
  }

  /** Encoding a decoded peer list gives the original bytes back. */
  lemma EncodeDecodePeers(v: seq<byte>)
    requires |v| % PEER_LEN == 0
    ensures DecodePeers(v).Ok? && EncodePeers(DecodePeers(v).value) == v
  {
    var peers := DecodePeers(v).value;
    var e := EncodePeers(peers);
    assert |e| == |v|;
    forall i | 0 <= i < |v| ensures e[i] == v[i] {
      var k := i / PEER_LEN;
      assert PEER_LEN * k <= i < PEER_LEN * k + PEER_LEN;
      var c := v[PEER_LEN * k..PEER_LEN * k + PEER_LEN];
      assert peers[k] == PeerOf(c);
      PeerBytesOf(c);
      assert e[i] == e[PEER_LEN * k..PEER_LEN * k + PEER_LEN][i - PEER_LEN * k];
      assert v[i] == c[i - PEER_LEN * k];
    }
  }

  /** `[127, 0, 0, 1, 0x1A, 0xE1]` is the peer 127.0.0.1:6881. */
  lemma LoopbackPeerExample()
    ensures DecodePeers([127, 0, 0, 1, 0x1A, 0xE1]) == Ok([SocketAddrV4(Ipv4Addr(127, 0, 0, 1), 6881)])
  {
    var peers := DecodePeers([127, 0, 0, 1, 0x1A, 0xE1]).value;
    assert |peers| == 1;
    assert peers[0].ip == Ipv4Addr(127, 0, 0, 1);
    assert peers[0].port as int == 256 * 0x1A + 0xE1 == 6881;
    assert peers == [SocketAddrV4(Ipv4Addr(127, 0, 0, 1), 6881)];
  }
}
