/** The CPU hash of a CapStash header, computed by the streaming context, against the GPU's two-block
    hash with its hard-coded padding. */
module CapHash {
  import opened Words
  import opened WhirlpoolCore
  import opened Whirlpool
  import MerkleDamgard

  function Bits(m: seq<byte>): (b: seq<bv8>)
    ensures |b| == |m|
  {
    seq(|m|, i requires 0 <= i < |m| => m[i] as bv8)
  }

  /** The block function of the streaming context; it is only ever given 64-byte blocks. */
  function BlockFunction(o: Ops<bv64>): (seq<byte>, Words8<bv64>) -> Words8<bv64> {
    (b, s) => if |b| == 64 then Compress(o, BlockWords(Bits(b)), s) else s
  }

  /** cap_pow_hash_header80: the streaming digest, serialized and folded. */
  function CpuHash(o: Ops<bv64>, k: Codec<bv64, bv8>, m: seq<byte>): (r: seq<bv8>)
    requires |m| == 80
  {
    FoldedBytes(k, MerkleDamgard.Digest(BlockFunction(o), Zero8(o), m))
  }

  lemma BitsConcat(a: seq<byte>, b: seq<byte>)
    ensures Bits(a + b) == Bits(a) + Bits(b)
  {
  }

  lemma BitsSlice(m: seq<byte>, lo: nat, hi: nat)
    requires lo <= hi <= |m|
    ensures Bits(m[lo..hi]) == Bits(m)[lo..hi]
  {
  }

  lemma PaddingBits()
    ensures Bits([0x80]) == [0x80] && Bits([2, 0x80]) == [2, 0x80]
  {
  }

  lemma ZeroBits(n: nat)
    ensures Bits(Zeros(n)) == seq(n, i => 0)
  {
  }

  lemma PadGroups()
    ensures PAD_BIT + PAD_ZERO + PAD_ZERO + PAD_ZERO + PAD_ZERO + PAD_LENGTH == [0x80] + seq(45, i => 0) + [2, 0x80]
  {
  }

  /** The padding bytes the streaming context appends are the ones the GPU code writes out. */
  lemma TailsAgree(m: seq<byte>)
    requires |m| == 80
    ensures Bits(MerkleDamgard.EightyByteTail(m)) == PaddedTail(Bits(m))
  {
    var pad, zeros := [0x80], Zeros(45);
    BitsConcat(m[64..] + pad + zeros, [2, 0x80]);
    BitsConcat(m[64..] + pad, zeros);
    BitsConcat(m[64..], pad);
    PaddingBits();
    ZeroBits(45);
    PadGroups();
    BitsSlice(m, 64, 80);
    var h := Bits(m);
    assert m[64..80] == m[64..] && h[64..80] == h[64..72] + h[72..80];
  }

  lemma OnTwoBlocks(o: Ops<bv64>, b0: seq<byte>, b1: seq<byte>)
    requires |b0| == |b1| == 64
    ensures BlockFunction(o)(b1, BlockFunction(o)(b0, Zero8(o))) == TwoBlocks(o, Bits(b0), Bits(b1))
  {
  }

  lemma SameState(o: Ops<bv64>, m: seq<byte>)
    requires |m| == 80
    ensures FullState(o, Bits(m)) == MerkleDamgard.Digest(BlockFunction(o), Zero8(o), m)
  {
    var head, tail := m[..64], MerkleDamgard.EightyByteTail(m);
    MerkleDamgard.EightyByteDigest(BlockFunction(o), Zero8(o), m);
    OnTwoBlocks(o, head, tail);
    BitsSlice(m, 0, 64);
    assert Bits(m)[0..64] == Bits(m)[..64] && m[0..64] == head;
    TailsAgree(m);
  }

  /** The GPU's full hash and the CPU's streaming hash agree on every header. */
  lemma GpuHashIsCpuHash(o: Ops<bv64>, k: Codec<bv64, bv8>, m: seq<byte>)
    requires |m| == 80
    ensures CapWhirlpool80(o, k, Bits(m)) == CpuHash(o, k, m)
  {
    SameState(o, m);
  }

  /** What the startup self-check compares, for any nonce instead of 0: the device's single-nonce hash
      of a prepared job is the CPU's hash of the header that carries this nonce. */
  method CheckNonce(o: Ops<bv64>, k: Codec<bv64, bv8>, m: seq<byte>, t: seq<bv8>, nonce: bv32) returns (gpu: seq<bv8>)
    requires |m| == 80 && |t| == 32 && IsMachine(o, k) && Bits(m) == WithNonce(Bits(m), nonce)
    ensures gpu == CpuHash(o, k, m)
  {
    var job := SetupJob(o, Bits(m), t);
    gpu := HashNonce(o, k, Bits(m), t, job, nonce);
    GpuHashIsCpuHash(o, k, m);
  }
}
