/**
 * Little-endian field access into the topology buffer.
 *
 * The Go code reinterprets the buffer's memory as structs (amd64 layout, native
 * little-endian byte order). Here every field is read explicitly: a uint16,
 * uint32 or uint64 at a byte offset. The encoders are the inverse direction,
 * used to state that reading back what was written gives the value back.
 */
module Bytes {
  import opened Mask

  type uint8 = x: int | 0 <= x < 0x100
  type uint16 = x: int | 0 <= x < 0x1_0000
  type uint32 = x: int | 0 <= x < 0x1_0000_0000

  function U16(b: seq<uint8>, at: nat): (r: uint16)
    requires at + 2 <= |b|
  {
    b[at] as int + 0x100 * (b[at + 1] as int)
  }

  function U32(b: seq<uint8>, at: nat): (r: uint32)
    requires at + 4 <= |b|
  {
    U16(b, at) + 0x1_0000 * U16(b, at + 2)
  }

  function U64(b: seq<uint8>, at: nat): (r: uint64)
    requires at + 8 <= |b|
  {
    U32(b, at) + 0x1_0000_0000 * U32(b, at + 4)
  }

  function EncodeU16(x: uint16): (r: seq<uint8>)
    ensures |r| == 2
  {
    [x % 0x100, x / 0x100]
  }

  function EncodeU32(x: uint32): (r: seq<uint8>)
    ensures |r| == 4
  {
    EncodeU16(x % 0x1_0000) + EncodeU16(x / 0x1_0000)
  }

  function EncodeU64(x: uint64): (r: seq<uint8>)
    ensures |r| == 8
  {
    EncodeU32(x % 0x1_0000_0000) + EncodeU32(x / 0x1_0000_0000)
  }

  function Zeros(n: nat): (r: seq<uint8>)
    ensures |r| == n && forall i :: 0 <= i < n ==> r[i] == 0
  {
    seq(n, _ => 0)
  }

  /**
   * `e` lies in `b` starting at byte `at`. Stated byte by byte through
   * recursion, so that the verifier learns the bytes only through the lemmas
   * below.
   */
  ghost predicate Occurs(e: seq<uint8>, b: seq<uint8>, at: nat)
    decreases |e|
  {
    at + |e| <= |b| && (e == [] || (b[at] == e[0] && Occurs(e[1..], b, at + 1)))
  }

  lemma {:induction false} OccursIff(e: seq<uint8>, b: seq<uint8>, at: nat)
    ensures Occurs(e, b, at) <==> at + |e| <= |b| && forall k :: 0 <= k < |e| ==> b[at + k] == e[k]
    decreases |e|
  {
    if e != [] {
      OccursIff(e[1..], b, at + 1);
      if at + |e| <= |b| && forall k :: 0 <= k < |e| ==> b[at + k] == e[k] {
        forall k | 0 <= k < |e| - 1
          ensures b[at + 1 + k] == e[1..][k]
        {
          assert b[at + (k + 1)] == e[k + 1];
        }
      }
      if Occurs(e, b, at) {
        forall k | 0 <= k < |e|
          ensures b[at + k] == e[k]
        {
          if k > 0 {
            assert b[at + 1 + (k - 1)] == e[1..][k - 1];
          }
        }
      }
    }
  }

  lemma OccursInPrefix(x: seq<uint8>, y: seq<uint8>)
    ensures Occurs(x, x + y, 0)
  {
    OccursIff(x, x + y, 0);
  }

  lemma OccursInSuffix(x: seq<uint8>, y: seq<uint8>)
    ensures Occurs(y, x + y, |x|)
  {
    OccursIff(y, x + y, |x|);
  }

  lemma OccursTrans(e: seq<uint8>, m: seq<uint8>, b: seq<uint8>, i: nat, at: nat)
    requires Occurs(e, m, i) && Occurs(m, b, at)
    ensures Occurs(e, b, at + i)
  {
    OccursIff(e, m, i);
    OccursIff(m, b, at);
    OccursIff(e, b, at + i);
    forall k | 0 <= k < |e|
      ensures b[at + i + k] == e[k]
    {
      assert b[at + (i + k)] == m[i + k];
    }
  }

  lemma OccursWhole(x: seq<uint8>)
    ensures Occurs(x, x, 0)
  {
    OccursIff(x, x, 0);
  }

  /** Both halves of a concatenation lie where the whole does, one after the other. */
  lemma OccursSplit(x: seq<uint8>, y: seq<uint8>, b: seq<uint8>, at: nat)
    requires Occurs(x + y, b, at)
    ensures Occurs(x, b, at) && Occurs(y, b, at + |x|)
  {
    OccursInPrefix(x, y);
    OccursInSuffix(x, y);
    OccursTrans(x, x + y, b, 0, at);
    OccursTrans(y, x + y, b, |x|, at);
  }

  /** The three parts of a concatenation lie where the whole does, one after the other. */
  lemma OccursParts3(x: seq<uint8>, y: seq<uint8>, z: seq<uint8>, b: seq<uint8>, at: nat)
    requires Occurs(x + y + z, b, at)
    ensures Occurs(x, b, at) && Occurs(y, b, at + |x|) && Occurs(z, b, at + |x| + |y|)
  {
    OccursSplit(x + y, z, b, at);
    OccursSplit(x, y, b, at);
  }

  /** The four parts of a concatenation lie where the whole does, one after the other. */
  lemma OccursParts4(w: seq<uint8>, x: seq<uint8>, y: seq<uint8>, z: seq<uint8>, b: seq<uint8>, at: nat)
    requires Occurs(w + x + y + z, b, at)
    ensures Occurs(w, b, at) && Occurs(x, b, at + |w|)
    ensures Occurs(y, b, at + |w| + |x|) && Occurs(z, b, at + |w| + |x| + |y|)
  {
    OccursSplit(w + x + y, z, b, at);
    OccursParts3(w, x, y, b, at);
  }

  /** The chunks written one after the other. */
  function Concat(chunks: seq<seq<uint8>>): (r: seq<uint8>) {
    if chunks == [] then [] else chunks[0] + Concat(chunks[1..])
  }

  /** Chunk i lies after the chunks before it. */
  lemma {:induction false} ChunkInConcat(chunks: seq<seq<uint8>>, i: nat)
    requires i < |chunks|
    ensures Occurs(chunks[i], Concat(chunks), |Concat(chunks[..i])|)
  {
    var x, y := chunks[0], Concat(chunks[1..]);
    if i == 0 {
      assert chunks[..0] == [];
      OccursInPrefix(x, y);
    } else {
      ChunkInConcat(chunks[1..], i - 1);
      assert chunks[..i][1..] == chunks[1..][..i - 1];
      assert Concat(chunks[..i]) == x + Concat(chunks[1..][..i - 1]);
      OccursInSuffix(x, y);
      OccursTrans(chunks[i], y, x + y, |Concat(chunks[1..][..i - 1])|, |x|);
    }
  }

  /** Reading a field depends only on the bytes the field occupies. */
  lemma ReadsWithin(e: seq<uint8>, b: seq<uint8>, at: nat, k: nat)
    requires Occurs(e, b, at)
    ensures k + 2 <= |e| ==> U16(b, at + k) == U16(e, k)
    ensures k + 4 <= |e| ==> U32(b, at + k) == U32(e, k)
    ensures k + 8 <= |e| ==> U64(b, at + k) == U64(e, k)
    ensures k < |e| ==> b[at + k] == e[k]
  {
    OccursIff(e, b, at);
    if k + 8 <= |e| {
      assert b[at + k + 4] == e[k + 4] && b[at + k + 5] == e[k + 5];
      assert b[at + k + 6] == e[k + 6] && b[at + k + 7] == e[k + 7];
    }
    if k + 4 <= |e| {
      assert b[at + k + 2] == e[k + 2] && b[at + k + 3] == e[k + 3];
    }
    if k + 2 <= |e| {
      assert b[at + k] == e[k] && b[at + k + 1] == e[k + 1];
    }
  }

  lemma U16RoundTrip(x: uint16)
    ensures U16(EncodeU16(x), 0) == x
  {
  }

  lemma U32RoundTrip(x: uint32)
    ensures U32(EncodeU32(x), 0) == x
  {
    var lo, hi := EncodeU16(x % 0x1_0000), EncodeU16(x / 0x1_0000);
    OccursInPrefix(lo, hi);
    OccursInSuffix(lo, hi);
    ReadsWithin(lo, lo + hi, 0, 0);
    ReadsWithin(hi, lo + hi, 2, 0);
  }

  /** Writing a 64-bit mask and reading it back at the same offset gives the mask. */
  lemma U64RoundTrip(x: uint64)
    ensures U64(EncodeU64(x), 0) == x
  {
    var lo, hi := EncodeU32(x % 0x1_0000_0000), EncodeU32(x / 0x1_0000_0000);
    OccursInPrefix(lo, hi);
    OccursInSuffix(lo, hi);
    ReadsWithin(lo, lo + hi, 0, 0);
    ReadsWithin(hi, lo + hi, 4, 0);
    U32RoundTrip(x % 0x1_0000_0000);
    U32RoundTrip(x / 0x1_0000_0000);
  }

  /** A uint16 written anywhere in a buffer reads back as itself. */
  lemma U16ReadBack(x: uint16, b: seq<uint8>, at: nat)
    requires Occurs(EncodeU16(x), b, at)
    ensures at + 2 <= |b| && U16(b, at) == x
  {
    ReadsWithin(EncodeU16(x), b, at, 0);
    U16RoundTrip(x);
  }

  /** A uint32 written anywhere in a buffer reads back as itself. */
  lemma U32ReadBack(x: uint32, b: seq<uint8>, at: nat)
    requires Occurs(EncodeU32(x), b, at)
    ensures at + 4 <= |b| && U32(b, at) == x
  {
    ReadsWithin(EncodeU32(x), b, at, 0);
    U32RoundTrip(x);
  }

  /** A uint64 written anywhere in a buffer reads back as itself. */
  lemma U64ReadBack(x: uint64, b: seq<uint8>, at: nat)
    requires Occurs(EncodeU64(x), b, at)
    ensures at + 8 <= |b| && U64(b, at) == x
  {
    ReadsWithin(EncodeU64(x), b, at, 0);
    U64RoundTrip(x);
  }
}
