/** Shared vocabulary: bytes, fixed 20-byte arrays, Option and Result. */
module Common {

  /** One octet, as Rust's `u8`. */
  newtype byte = x: int | 0 <= x < 0x100

  /** A Rust `[u8; 20]`: a SHA-1 digest, an info hash or a peer id. */
  type Bytes20 = s: seq<byte> | |s| == 20 witness seq(20, _ => 0 as byte)

  datatype Option<+T> = None | Some(value: T)

  datatype Result<+T, +E> = Ok(value: T) | Err(error: E)

  /** `e` occurs in `s` starting at index `p`. */
  predicate IsPrefixAt(e: seq<byte>, s: seq<byte>, p: nat)
  {
    p + |e| <= |s| && s[p..p + |e|] == e
  }

  /** Splitting an occurrence of `a + b` into an occurrence of `a` followed by one of `b`. */
  lemma PrefixSplit(a: seq<byte>, b: seq<byte>, s: seq<byte>, p: nat)
    requires IsPrefixAt(a + b, s, p)
    ensures IsPrefixAt(a, s, p) && IsPrefixAt(b, s, p + |a|)
  {
    assert s[p..p + |a|] == s[p..p + |a + b|][..|a|];
    assert s[p + |a|..p + |a| + |b|] == s[p..p + |a + b|][|a|..];
  }
}
