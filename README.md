# A verified model of the byte codecs of a small BitTorrent client

This project models, in Dafny, the byte-level core of a command-line
BitTorrent client written in Rust:

- **the bencode decoder** `decode_bencoded_value` (`bencode.dfy`). It reads
  one value from a byte reader: a length-prefixed string, an `i…e` integer,
  an `l…` list or a `d…` dictionary. It produces a JSON-like value in which a
  string is text when its payload is valid UTF-8 and an array of byte values
  otherwise.
  - It is modelled twice. `DecodeAt`, `DecodeListAt` and `DecodeDictAt` are
    specification functions over an input and a cursor position. They return
    the value, or the failure, together with the position where the reader is
    left.
  - `DecodeValue` and its branch methods are the imperative decoder. They
    advance a `Reader` object (the `BufReader` over the argument bytes) with
    `read_exact` and `read_until`, push into a list and insert into a map, as
    the Rust code does. Each is proved to leave the reader exactly where the
    specification functions say, with the same result.
  - Failures carry a position because the list and dictionary loops go on
    from wherever a failed element decode left the reader.
  - The string branch relies on `decimal.dfy`, which models Rust's
    `str::parse::<usize>` and `str::parse::<i64>`.
  - The UTF-8 check relies on `utf8.dfy`, which models `str::from_utf8`.
    It is the well-formedness of table 3-7 of the Unicode Standard.
- **a reference bencode encoder** (`bencode_encoding.dfy`). The client has no
  encoder of its own, so `Encode` writes a bencode term with minimal decimal
  lengths and integers. The round trip `DecodeEncoded` is proved for every
  well-formed term: decoding the encoding yields the term's value and consumes
  exactly its bytes.
- **the piece table** of a metainfo file (`torrent_file.dfy`).
  `PiecesVisitor::visit_bytes` splits the `pieces` byte string into 20-byte
  SHA-1 digests, copying each into a `[u8; 20]` with an indexed loop.
  `Serialize for Pieces` concatenates them back.
- **the compact peer list** of BEP 23 and the `InfoHash` wrapper
  (`tracker.dfy`). Each peer is 6 bytes: an IPv4 address, then a big-endian
  port.
- **the peer handshake** of BEP 3 (`handshake.dfy`). Its layout is a length
  byte, the protocol name, 8 reserved zero bytes, the info hash and the peer
  id. It is written by successive `extend` calls and read back by slicing with
  an advancing offset.

Bytes are `Common.byte`, an integer newtype in `0..255`. Rust's `[u8; 20]` is
`Common.Bytes20`. A Rust `String` field (the announce URL, the torrent name,
the tracker's peer id, the handshake's protocol name) is `Utf8.Text`: a byte
sequence that is valid UTF-8. A decoded bencode text value and a dictionary
key hold the UTF-8 bytes of the string.

## Behaviour the model keeps

The model follows the code, including where it departs from bencode as BEP 3
defines it:

- **Empty input.** An empty input, or a list or dictionary whose input runs
  out, meets the catch-all failure. `read_exact` failing leaves the header
  byte 0, and 0 is no tag.
- **How a list ends.** BEP 3 ends a list at its `e`. This code ends a list at
  the first element decode that fails, and the list itself succeeds. The
  closing `e` is consumed by that failing call. Any failing element, not only
  `e`, ends the list.
- **How a dictionary ends.** BEP 3 makes every key a byte string. This code
  ends the dictionary successfully at the first key that does not decode to
  text, whatever it is. A failing value decode is the dictionary's failure. A
  repeated key keeps the last value.
- **The last byte read is always dropped.** The length text and the integer
  text are what `read_until` returned, minus its last byte. When no
  delimiter follows, the dropped byte is whatever the last input byte is:
  `i52` at the end of input decodes to 5 (`UnterminatedIntegerExample`), and
  `i5x` reads the integer text `5`.
- **A failed `read_exact` drains the reader.** A string whose declared length
  exceeds what remains fails with the reader at the end of input. That is how
  `BufReader` over a byte slice behaves.
- **Long handshake names wrap.** The handshake length byte is the name length
  truncated to 8 bits. A name over 255 bytes therefore encodes to a buffer the
  decoder rejects (`LongNameRejected`).

## Model

| member | source | states |
|---|---|---|
| Decimal.SignAndDigits | src/main.rs:70-73 | empty text and a lone sign are refused; a leading `+` is dropped, a leading `-` is taken (and marks the number negative) only for a signed type, and other text is passed on whole |
| Decimal.ParseUsize | src/main.rs:70-73 | a usize parse succeeds only within 0..2^64-1; digits after an optional `+` give their decimal value when it fits; any other text (empty, a lone `+`, a `-`, a non-digit, an overflow) fails |
| Decimal.ParseI64 | src/main.rs:100-103 | an i64 parse succeeds only within -2^63..2^63-1; digits after an optional `+` give their value, after a `-` its negation, when in range; any other text (empty, a lone sign, a non-digit after the sign, out of range) fails |
| Decimal.ParseI64Examples | src/main.rs:100-103 | `+7`, `-0` and `007` denote 7, 0 and 7; `-`, `5x` and `-+1` fail |
| Decimal.ParseUsizeNatText | src/main.rs:70-73 | the usize parse reads back the minimal decimal text of every usize |
| Decimal.ParseI64IntText | src/main.rs:100-103 | the i64 parse reads back the minimal decimal text of every i64, and that text is ASCII |
| Utf8.SequenceLength | src/main.rs:83 | the length of the well-formed sequence starting at an index is bounded by the input, and 1 exactly for an ASCII byte |
| Utf8.SequenceIsScalar | src/main.rs:83 | soundness: every sequence the table accepts is the encoding of a Unicode scalar value, so no overlong form, surrogate or value above U+10FFFF is accepted |
| Utf8.ValidUtf8 | src/handshake.rs:46 | valid text starts with an ASCII byte or a lead byte 0xC2..0xF4, and a lead byte is followed by as many bytes as its sequence needs |
| Utf8.ScalarSequenceAt | src/main.rs:83 | wherever the encoding of a scalar value occurs, the table reads it as one well-formed sequence of its own length |
| Utf8.EncodedTextIsValid | src/main.rs:83 | completeness: the encoding of every string of scalar values is valid UTF-8 |
| Utf8.RejectedExamples | src/main.rs:83 | a lone continuation byte, an overlong form, an encoded surrogate and a truncated sequence are refused |
| Utf8.AsciiIsValid | src/main.rs:70-71 | ASCII text, such as a decimal length or integer, is valid UTF-8 |
| Bencode.Reader.constructor | src/main.rs:194 | a new reader holds the input bytes with its position at the start |
| Bencode.ReadUntilAt | src/main.rs:64-66 | `read_until` returns exactly the input bytes between the old and new positions, and never moves past the end |
| Bencode.ReadUntilAtStops | src/main.rs:96-98 | `read_until` stops just after the first delimiter, or at the end of input when there is none |
| Bencode.StringValue | src/main.rs:83-91 | a payload becomes text exactly when it is valid UTF-8, and otherwise its bytes unchanged |
| Bencode.DecodeAt | src/main.rs:57-129 | one decode never moves the reader backwards or past the end, and a success consumes at least one byte |
| Bencode.Decode | src/main.rs:57-129 | decoding from the start ends within the input, and a success consumes at least one byte |
| Bencode.DecodeStringAt | src/main.rs:62-73 | the string branch ends within the input, at or after the end of the length text and its `:` |
| Bencode.SizedString | src/main.rs:70-81 | after the length text the reader only moves forward, within the input |
| Bencode.Payload | src/main.rs:75-91 | reading n payload bytes succeeds exactly when n bytes remain; it then yields the string value of exactly those bytes and ends after them, and otherwise fails with the reader drained |
| Bencode.DecodeIntegerAt | src/main.rs:93-100 | the integer branch ends within the input |
| Bencode.IntegerText | src/main.rs:100-105 | converting the integer text never moves the reader |
| Bencode.DecodeListAt | src/main.rs:107-115 | the list loop always yields a list, within the input |
| Bencode.DecodeDictAt | src/main.rs:116-124 | the dictionary loop ends within the input, and a success is a dictionary |
| Bencode.Reader.ReadExact | src/main.rs:58-59 | `read_exact` succeeds exactly when n bytes remain, returns them and advances by n; otherwise it drains the reader |
| Bencode.Reader.ReadUntil | src/main.rs:64-66 | the byte-by-byte `read_until` returns the line and position of `ReadUntilAt` |
| Bencode.DecodeValue | src/main.rs:57-129 | the imperative decoder returns what `DecodeAt` says and leaves the reader where `DecodeAt` ends |
| Bencode.DecodeString | src/main.rs:62-92 | the string branch agrees with `DecodeStringAt` in result and reader position |
| Bencode.DecodeInteger | src/main.rs:93-106 | the integer branch agrees with `DecodeIntegerAt` in result and reader position |
| Bencode.DecodeList | src/main.rs:107-115 | the push loop agrees with `DecodeListAt` from an empty list |
| Bencode.DecodeDict | src/main.rs:116-124 | the insert loop agrees with `DecodeDictAt` from an empty map, including a failing value returned as is |
| Bencode.DictStep | src/main.rs:119-120 | a text key and a decoded value are inserted, replacing an earlier value, and the loop goes on |
| Bencode.DecodesString | src/main.rs:62-91 | digits then `:` then n bytes decode to the payload's value and consume |digits| + 1 + n bytes, the first digit being the header byte; fewer than n remaining bytes fail |
| Bencode.LengthNotDecimal | src/main.rs:70-73 | a non-digit before the `:` fails with a size error, leaving the reader after the `:` |
| Bencode.DecodesInteger | src/main.rs:93-105 | `i<text>e` ends after the `e` and succeeds exactly when the text is an i64, which it then decodes to |
| Bencode.IntegerExample | src/main.rs:93-105 | `i52e` decodes to 52, consuming 4 bytes |
| Bencode.NotAnIntegerExample | src/main.rs:96-103 | `i5xe` reads through its `e` and fails, because `5x` is no i64 |
| Bencode.UnterminatedIntegerExample | src/main.rs:96-100 | `i52` with no `e` decodes to 5, because the last byte read is dropped |
| Bencode.UnknownTagFails | src/main.rs:125-127 | any other leading byte fails after consuming it, and no byte left fails without consuming |
| Bencode.ListStopsAtFirstFailure | src/main.rs:107-115 | a list holds the decoded elements in input order, ends at the first failing element decode, and still succeeds |
| Bencode.DictReadsPairs | src/main.rs:116-124 | a dictionary inserts its pairs in order while keys are text; a non-text key ends it successfully; a failing value is its failure |
| Bencode.InsertAll | src/main.rs:119-120 | inserting the pairs leaves every key that no pair names with its earlier value |
| Bencode.InsertAllLastWins | src/main.rs:120 | after the inserts, a key maps to the value of its last pair |
| Bencode.InsertAllKeys | src/main.rs:120 | the keys after the inserts are exactly the earlier keys and the pairs' keys |
| BencodeEncoding.DecodeEncoded | src/main.rs:57-129 | decoding the encoding of any well-formed term yields its value and consumes all of it |
| BencodeEncoding.DecodeEncodedAt | src/main.rs:57-129 | the same at any position of a larger input: the decode ends exactly after the encoding |
| BencodeEncoding.DecodeEncodedString | src/main.rs:62-91 | an encoded byte string decodes to its payload, as text exactly when valid UTF-8 |
| BencodeEncoding.DecodeEncodedInteger | src/main.rs:93-105 | an encoded i64 decodes to itself |
| BencodeEncoding.DecodeEncodedList | src/main.rs:107-115 | an encoded list decodes to its elements' values in order |
| BencodeEncoding.DecodeEncodedDict | src/main.rs:116-124 | an encoded dictionary decodes to its pairs inserted in order |
| BencodeEncoding.RepeatedKeyExample | src/main.rs:116-124 | `d1:ai1e1:ai2ee` decodes to the single entry `a` ↦ 2 |
| TorrentFile.Chunks | src/torrent_file.rs:74-85 | splitting yields len/20 digests, digest k being bytes 20k..20k+20 |
| TorrentFile.DecodePieces | src/torrent_file.rs:66-88 | decoding succeeds exactly when the length is a multiple of 20, giving len/20 digests, digest k being bytes 20k..20k+20 |
| TorrentFile.Concat | src/torrent_file.rs:96 | concatenation has length 20 × count and holds digest k at bytes 20k..20k+20 |
| TorrentFile.SerializePieces | src/torrent_file.rs:91-98 | serializing yields 20 × count bytes, digest k at bytes 20k..20k+20 |
| TorrentFile.CopyHash | src/torrent_file.rs:76-84 | the indexed copy loop fills the 20-byte buffer with exactly the chunk |
| TorrentFile.VisitBytes | src/torrent_file.rs:66-88 | the length check and the collect loop over copied chunks yield exactly `DecodePieces` |
| TorrentFile.DecodeSerialize | src/torrent_file.rs:70-97 | decoding a serialized piece table gives it back |
| TorrentFile.SerializeDecode | src/torrent_file.rs:70-97 | any byte string whose length is a multiple of 20 decodes, and serializes back to itself |
| TorrentFile.TwoPiecesExample | src/torrent_file.rs:70-85 | 40 bytes decode to their first and last 20 bytes |
| Tracker.Len | src/tracker.rs:22-24 | an info hash is always 20 bytes long |
| Tracker.AsBytes | src/tracker.rs:26-28 | the view has the hash's length and its bytes unchanged |
| Tracker.FromBytes | src/tracker.rs:31-35 | wrapping 20 bytes and viewing them gives them back |
| Tracker.FromAsBytes | src/tracker.rs:26-35 | viewing and re-wrapping gives the same info hash |
| Tracker.FromBeBytes | src/tracker.rs:86 | the port's high byte is the first byte and its low byte the second |
| Tracker.ToBeBytes | src/tracker.rs:86 | reference inverse (the client writes no ports): a port written as two big-endian bytes reads back as the port |
| Tracker.PeerOf | src/tracker.rs:84-87 | a chunk's first four bytes are the address octets in order and the port is 256 × byte 4 + byte 5 |
| Tracker.CompactPeers | src/tracker.rs:81-89 | splitting yields len/6 peers, peer k read from bytes 6k..6k+6 |
| Tracker.DecodePeers | src/tracker.rs:73-92 | decoding succeeds exactly when the length is a multiple of 6, giving len/6 peers in chunk order; peer k's octets are bytes 6k..6k+3 and its port is 256 × byte 6k+4 + byte 6k+5 |
| Tracker.PeerBytes | src/tracker.rs:84-87 | reference inverse (the client has no peer encoder): a peer's 6-byte encoding reads back as that peer |
| Tracker.EncodePeers | src/tracker.rs:81-89 | reference inverse (the client has no peer encoder): a peer list encodes to 6 bytes per peer, peer k at bytes 6k..6k+6 |
| Tracker.PeerBytesOf | src/tracker.rs:84-87 | re-encoding the peer a chunk describes gives the chunk back |
| Tracker.DecodeEncodePeers | src/tracker.rs:73-92 | decoding an encoded peer list gives the list back |
| Tracker.EncodeDecodePeers | src/tracker.rs:73-92 | every byte string of a length divisible by 6 decodes, and re-encodes to itself |
| Tracker.LoopbackPeerExample | src/tracker.rs:84-86 | `[127, 0, 0, 1, 0x1A, 0xE1]` is the single peer 127.0.0.1:6881 |
| Handshake.Wire | src/handshake.rs:17-31 | the encoding is 1 + name + 8 + 20 + 20 bytes: name length mod 256, the name, 8 zero bytes, the info hash, and the peer id last |
| Handshake.IntoBytes | src/handshake.rs:17-31 | the successive `extend` calls build exactly `Wire`, and the length assertion holds |
| Handshake.ParseHandshake | src/handshake.rs:34-61 | decoding succeeds exactly when the length is byte 0 + 49 and the name is valid UTF-8; a wrong length is `InvalidBuffer` |
| Handshake.TryInto | src/handshake.rs:34-61 | slicing with the advancing offset yields exactly `ParseHandshake` |
| Handshake.ParseWire | src/handshake.rs:17-61 | a handshake whose name is at most 255 bytes decodes from its encoding |
| Handshake.LongNameRejected | src/handshake.rs:22 | a name over 255 bytes encodes to a buffer the decoder rejects as `InvalidBuffer` |
| Handshake.ParseReencodes | src/handshake.rs:34-61 | a decoded handshake re-encodes to its buffer with the reserved bytes zeroed |
| Handshake.ProtocolExample | src/handshake.rs:17-61 | with the name `BitTorrent protocol` the encoding is 68 bytes, byte 0 is 19, and it decodes back |

## Left out

- I/O and the command line are not modelled: `main`, the HTTP tracker request `get_tracker_response`, the async TCP `handshake`, file reads and printing. A reader over the command-line argument is the `Reader` object.
- `TorrentFile::info_hash` is not modelled. It applies SHA-1, a foreign function, to serde_bencode's encoding. The model keeps only the record shapes `TorrentFile`, `Info` and `InfoHash`.
- `TorrentFile::try_from` is not modelled. It is a file read followed by serde_bencode's decoding, which is foreign code.
- `Serialize for InfoHash` is not modelled. It reinterprets arbitrary bytes as a string without checking them. The URL query serialization of `Tracker` is done by a library and is not modelled either.
- `Handshake::peer_id_string` is not modelled. It is a call into the `hex` crate.
- src/message.rs is not modelled. It declares a message enum and struct and has no behaviour.
- Bencode.DecodeIntegerAt: input that ends right after `i` makes the Rust code panic on `buf.len() - 1`. The model gives the failure `IntegerMissing` instead.
- Bencode.DecodeAt: the decoder recurses once per nesting level of lists and dictionaries, so deeply nested input overflows the Rust stack. The model has no depth limit.
- Bencode.Payload: the Rust code allocates `size` bytes before reading, so an enormous size can abort on allocation. The model has no allocation limit: such a string fails as `StringTooShort`.
- Bencode.DecodeAt: the value is not the serde_json value itself. A byte string is `Bytes` rather than a JSON array of numbers. A dictionary is a map with no key order, rather than serde_json's ordered map.
- Decimal.ParseUsize: usize is taken to be 64 bits wide.
- BencodeEncoding.DecodeEncoded: only decoding after encoding is stated. Re-encoding a decoded value is not stated, because a decoded dictionary has lost its key order and its repeated keys.
- Handshake.ParseHandshake: it requires a non-empty buffer. The Rust code reads `self[0]` unconditionally and panics on an empty buffer.
- Handshake.IntoBytes: `Vec::with_capacity` and `extend` are modelled as a sequence that grows by concatenation. Capacity plays no part.
- TorrentFile.Info: `length` and `piece_length` are unbounded naturals, not usize values. The same holds for the `uploaded`, `downloaded`, `left` and `compact` fields of `Tracker.Tracker`.
