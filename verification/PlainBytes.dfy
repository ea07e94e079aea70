/** Numbers in a buffer, byte by byte: the low byte first. */
module PlainBytes {
  import opened Words
  import opened Wire

  function Two(b: Bytes, off: nat): nat
    requires off + 2 <= |b|
  {
    b[off] as int + 256 * b[off + 1] as int
  }

  function Four(b: Bytes, off: nat): nat
    requires off + 4 <= |b|
  {
    b[off] as int + 256 * b[off + 1] as int + 65536 * b[off + 2] as int + 16777216 * b[off + 3] as int
  }

  /** In two's complement: the top bit counts negative. */
  function SignedTwo(b: Bytes, off: nat): int
    requires off + 2 <= |b|
  {
    Two(b, off) - if b[off + 1] >= 128 then 65536 else 0
  }

  function SignedFour(b: Bytes, off: nat): int
    requires off + 4 <= |b|
  {
    Four(b, off) - if b[off + 3] >= 128 then 4294967296 else 0
  }

  lemma ReadsTwo(b: Bytes, off: nat)
    requires off + 2 <= |b|
    ensures LeU16(b, off) == Two(b, off) && LeI16(b, off) == SignedTwo(b, off)
  {
  }

  lemma ReadsFour(b: Bytes, off: nat)
    requires off + 4 <= |b|
    ensures LeU32(b, off) == Four(b, off) && LeI32(b, off) == SignedFour(b, off)
  {
    ReadsTwo(b, off);
    ReadsTwo(b, off + 2);
  }

  /** What is written is what those bytes hold. */
  lemma WritesFour(n: uint32, m: int32)
    ensures |U32(n)| == |I32(m)| == 4 && Four(U32(n), 0) == n as int && SignedFour(I32(m), 0) == m as int
  {
    SliceU32(U32(n), 0);
    SliceI32(I32(m), 0);
    assert U32(n)[..4] == U32(n) && U32(n)[..0] + U32(LeU32(U32(n), 0)) == U32(LeU32(U32(n), 0));
    assert I32(m)[..4] == I32(m) && I32(m)[..0] + I32(LeI32(I32(m), 0)) == I32(LeI32(I32(m), 0));
    U32Injective(n, LeU32(U32(n), 0));
    I32Injective(m, LeI32(I32(m), 0));
    ReadsFour(U32(n), 0);
    ReadsFour(I32(m), 0);
  }
}
