/** Vocabulary shared by every module: bytes, 64-bit unsigned integers and
    ASCII text, the way the Rust code uses `u8`, `u64` and `&str` literals. */
module Bytes {

  /** Rust `u8`. */
  type Byte = bv8

  /** 2^64, the modulus of Rust's wrapping `u64` arithmetic. */
  const U64_MODULUS: int := 0x1_0000_0000_0000_0000

  /** Rust `u64`, as an unbounded integer kept in range. */
  type U64 = n: int | 0 <= n < U64_MODULUS

  datatype Option<T> = None | Some(value: T)

  const LF: Byte := 0x0A
  const CR: Byte := 0x0D

  /** The text a byte string spells, one character per byte. */
  function Text(b: seq<Byte>): (s: string)
    ensures |s| == |b|
  {
    seq(|b|, i requires 0 <= i < |b| => b[i] as int as char)
  }

  /** Regrouping a concatenation, for the traces the loops build. */
  lemma AppendAssoc<T>(a: seq<T>, b: seq<T>, c: seq<T>)
    ensures a + b + c == a + (b + c)
  {
  }

  /** `s` holds no line feed byte. */
  predicate NoLineFeed(s: seq<Byte>)
  {
    forall i :: 0 <= i < |s| ==> s[i] != LF
  }

  lemma NoLineFeedAppend(a: seq<Byte>, b: seq<Byte>)
    ensures NoLineFeed(a + b) <==> NoLineFeed(a) && NoLineFeed(b)
  {
    if NoLineFeed(a) && NoLineFeed(b) {
      forall i | 0 <= i < |a + b|
        ensures (a + b)[i] != LF
      {
        if i >= |a| {
          assert (a + b)[i] == b[i - |a|];
        }
      }
    }
    if NoLineFeed(a + b) {
      assert forall i :: 0 <= i < |a| ==> (a + b)[i] == a[i];
      assert forall i :: 0 <= i < |b| ==> (a + b)[|a| + i] == b[i];
    }
  }
}
