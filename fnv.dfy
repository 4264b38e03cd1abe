/** 64-bit FNV-1a, the hash the responders compute over a payload
    (`hash_incoming` in the video server and the backend's per-request hash).
    Constants and the per-octet step follow section 2 of the IETF
    Internet-Draft draft-eastlake-fnv ("The FNV Non-Cryptographic Hash
    Algorithm"): XOR the octet into the low bits, then multiply by the FNV
    prime modulo 2^64. `bv64` multiplication wraps, which is exactly that. */
module Fnv {
  import opened Bytes

  const OFFSET_BASIS: bv64 := 0xcbf29ce484222325   // 14695981039346656037
  const PRIME: bv64 := 0x100000001b3               // 1099511628211

  /** One octet of FNV-1a. */
  function Step(h: bv64, b: Byte): bv64
  {
    (h ^ (b as bv64)) * PRIME
  }

  /** Feeds `bytes` into a hasher whose state is `h`, first octet first. */
  function Fold(h: bv64, bytes: seq<Byte>): bv64
    decreases |bytes|
  {
    if bytes == [] then h else Fold(Step(h, bytes[0]), bytes[1..])
  }

  /** FNV-1a 64 of `bytes`. */
  function Fnv1a(bytes: seq<Byte>): bv64
  {
    Fold(OFFSET_BASIS, bytes)
  }

  /** Hashing a concatenation resumes from the hash of the first part. */
  lemma {:induction false} FoldAppend(h: bv64, a: seq<Byte>, b: seq<Byte>)
    ensures Fold(h, a + b) == Fold(Fold(h, a), b)
    decreases |a|
  {
    if a == [] {
      assert a + b == b;
    } else {
      assert (a + b)[1..] == a[1..] + b;
      FoldAppend(Step(h, a[0]), a[1..], b);
    }
  }

  /** Appending one octet applies one more step: the loop form of the
      algorithm in the Internet-Draft. */
  lemma FoldSnoc(h: bv64, a: seq<Byte>, b: Byte)
    ensures Fold(h, a + [b]) == Step(Fold(h, a), b)
  {
    FoldAppend(h, a, [b]);
  }

  /** `Fnv1a(a + b)` equals continuing from `Fnv1a(a)` over `b`. */
  lemma Fnv1aAppend(a: seq<Byte>, b: seq<Byte>)
    ensures Fnv1a(a + b) == Fold(Fnv1a(a), b)
  {
    FoldAppend(OFFSET_BASIS, a, b);
  }

  /** The empty input hashes to the offset basis. */
  lemma Fnv1aEmpty()
    ensures Fnv1a([]) == 0xcbf29ce484222325
  {
  }

  /** Published FNV-1a 64 test vector: "a" hashes to 0xaf63dc4c8601ec8c. */
  lemma Fnv1aOfA()
    ensures Fnv1a([0x61]) == 0xaf63dc4c8601ec8c
  {
  }

  /** The `fnv` crate's `FnvHasher`: `default()`, `write(bytes)`, `finish()`. */
  class FnvHasher {
    var state: bv64

    constructor Default()
      ensures state == OFFSET_BASIS
    {
      state := OFFSET_BASIS;
    }

    method Write(bytes: seq<Byte>)
      modifies this
      ensures state == Fold(old(state), bytes)
    {
      ghost var start := state;
      var i := 0;
      while i < |bytes|
        invariant 0 <= i <= |bytes|
        invariant state == Fold(start, bytes[..i])
      {
        FoldSnoc(start, bytes[..i], bytes[i]);
        assert bytes[..i + 1] == bytes[..i] + [bytes[i]];
        state := Step(state, bytes[i]);
        i := i + 1;
      }
      assert bytes[..i] == bytes;
    }

    function Finish(): bv64
      reads this
    {
      state
    }
  }

  /** `hash_incoming`: a fresh hasher, one write of the whole body, finish. */
  method HashIncoming(body: seq<Byte>) returns (h: bv64)
    ensures h == Fnv1a(body)
  {
    var hasher := new FnvHasher.Default();
    hasher.Write(body);
    h := hasher.Finish();
  }
}
