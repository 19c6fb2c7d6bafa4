/** CapStash's 80-byte share hash: the two-block reference and the midstate path of the kernel,
    byte for byte. */
module Whirlpool {
  import opened WhirlpoolCore

  // ---- Byte order ----

  function Dec64(p: seq<bv8>): bv64
    requires |p| == 8
  {
    Join(p[0], p[1], p[2], p[3], p[4], p[5], p[6], p[7])
  }

  function Join(a: bv8, b: bv8, c: bv8, d: bv8, e: bv8, f: bv8, g: bv8, h: bv8): bv64 {
    (a as bv64) | ((b as bv64) << 8) | ((c as bv64) << 16) | ((d as bv64) << 24)
      | ((e as bv64) << 32) | ((f as bv64) << 40) | ((g as bv64) << 48) | ((h as bv64) << 56)
  }

  function BlockWords(b: seq<bv8>): Words8<bv64>
    requires |b| == 64
  {
    W(Dec64(b[0..8]), Dec64(b[8..16]), Dec64(b[16..24]), Dec64(b[24..32]),
      Dec64(b[32..40]), Dec64(b[40..48]), Dec64(b[48..56]), Dec64(b[56..64]))
  }

  // ---- The 80-byte share hash ----

  const PAD_BIT: seq<bv8> := [0x80, 0, 0, 0, 0, 0, 0, 0]
  const PAD_ZERO: seq<bv8> := [0, 0, 0, 0, 0, 0, 0, 0]
  const PAD_LENGTH: seq<bv8> := [0, 0, 0, 0, 0, 0, 0x02, 0x80]

  function Xor64(a: bv64, b: bv64): bv64 { a ^ b }

  function LowByte(a: bv64): bv8 { (a & 0xff) as bv8 }

  function ShiftByte(a: bv64): bv64 { a >> 8 }

  function XorByte(a: bv8, b: bv8): bv8 { a ^ b }

  /** The machine's 64-bit words and bytes, with any tables and round constants. */
  ghost predicate IsMachine(o: Ops<bv64>, k: Codec<bv64, bv8>) {
    && o.zero == 0 && o.xor == Xor64
    && k.low == LowByte && k.shift == ShiftByte && k.xorByte == XorByte
  }

  lemma XorBits(a: bv64, b: bv64, c: bv64)
    ensures a ^ (b ^ c) == (a ^ b) ^ c
  {
  }

  lemma XorRight(a: bv64, b: bv64, c: bv64)
    ensures Xor64(a, Xor64(b, c)) == a ^ (b ^ c)
  {
  }

  lemma XorLeft(a: bv64, b: bv64, c: bv64)
    ensures Xor64(Xor64(a, b), c) == (a ^ b) ^ c
  {
  }

  lemma XorAssociates(a: bv64, b: bv64, c: bv64)
    ensures Xor64(a, Xor64(b, c)) == Xor64(Xor64(a, b), c)
  {
    XorBits(a, b, c);
    XorRight(a, b, c);
    XorLeft(a, b, c);
  }

  lemma XorZero(a: bv64)
    ensures Xor64(a, 0) == a
  {
  }

  lemma LowOfXor(a: bv64, b: bv64)
    ensures LowByte(Xor64(a, b)) == XorByte(LowByte(a), LowByte(b))
  {
  }

  lemma ShiftOfXor(a: bv64, b: bv64)
    ensures ShiftByte(Xor64(a, b)) == Xor64(ShiftByte(a), ShiftByte(b))
  {
  }

  /** The machine satisfies every law the generic development assumes. */
  lemma MachineXorLaws(o: Ops<bv64>, k: Codec<bv64, bv8>)
    requires IsMachine(o, k)
    ensures XorLaws(o)
  {
    forall a: bv64, b: bv64, c: bv64 ensures o.xor(a, o.xor(b, c)) == o.xor(o.xor(a, b), c) { XorAssociates(a, b, c); }
    forall a: bv64 ensures o.xor(a, o.zero) == a { XorZero(a); }
  }

  lemma MachineByteLaws(o: Ops<bv64>, k: Codec<bv64, bv8>)
    requires IsMachine(o, k)
    ensures ByteLaws(o, k)
  {
    forall a: bv64, b: bv64 ensures k.low(o.xor(a, b)) == k.xorByte(k.low(a), k.low(b)) { LowOfXor(a, b); }
    forall a: bv64, b: bv64 ensures k.shift(o.xor(a, b)) == o.xor(k.shift(a), k.shift(b)) { ShiftOfXor(a, b); }
  }

  function Zero8(o: Ops<bv64>): Words8<bv64> { W(o.zero, o.zero, o.zero, o.zero, o.zero, o.zero, o.zero, o.zero) }

  /** Second block: the last 16 header bytes, the padding bit, zeros, and the bit length 640. */
  function PaddedTail(h: seq<bv8>): (b: seq<bv8>)
    requires |h| == 80
    ensures |b| == 64
  {
    h[64..72] + h[72..80] + PAD_BIT + PAD_ZERO + PAD_ZERO + PAD_ZERO + PAD_ZERO + PAD_LENGTH
  }

  function TwoBlocks(o: Ops<bv64>, b0: seq<bv8>, b1: seq<bv8>): Words8<bv64>
    requires |b0| == |b1| == 64
  {
    Compress(o, BlockWords(b1), Compress(o, BlockWords(b0), Zero8(o)))
  }

  function FullState(o: Ops<bv64>, h: seq<bv8>): Words8<bv64>
    requires |h| == 80
  {
    TwoBlocks(o, h[..64], PaddedTail(h))
  }

  /** cap_whirlpool80_cuda: hash both blocks of the header, serialize and fold. */
  function CapWhirlpool80(o: Ops<bv64>, k: Codec<bv64, bv8>, h: seq<bv8>): (r: seq<bv8>)
    requires |h| == 80
    ensures |r| == 32
  {
    FoldedBytes(k, FullState(o, h))
  }

  function NonceBytes(nonce: bv32): (b: seq<bv8>)
    ensures |b| == 4
  {
    [(nonce & 0xff) as bv8, ((nonce >> 8) & 0xff) as bv8, ((nonce >> 16) & 0xff) as bv8, ((nonce >> 24) & 0xff) as bv8]
  }

  /** The header with `nonce` written little-endian into bytes 76..79. */
  function WithNonce(h: seq<bv8>, nonce: bv32): (r: seq<bv8>)
    requires |h| == 80
    ensures |r| == 80
  {
    h[..76] + NonceBytes(nonce)
  }

  /** What cuda_setup_job uploads: midstate, round keys, the nonce-free words of the second block, and the
      target as four little-endian words. */
  datatype Job = Job(mid: Words8<bv64>, rk: seq<Words8<bv64>>, w0: bv64, nbits: bv32, target: seq<bv64>)

  function TargetWords(t: seq<bv8>): (w: seq<bv64>)
    requires |t| == 32
    ensures |w| == 4
  {
    [Dec64(t[0..8]), Dec64(t[8..16]), Dec64(t[16..24]), Dec64(t[24..32])]
  }

  function LowHalf(x: bv64): bv32 { (x & 0xffff_ffff) as bv32 }

  ghost predicate Ready(o: Ops<bv64>, h: seq<bv8>, t: seq<bv8>, job: Job) {
    && |h| == 80 && |t| == 32
    && job.mid == Compress(o, BlockWords(h[..64]), Zero8(o))
    && IsKeySchedule(o, job.mid, job.rk)
    && job.w0 == Dec64(h[64..72])
    && job.nbits == LowHalf(Dec64(h[72..80]))
    && job.target == TargetWords(t)
  }

  method SetupJob(o: Ops<bv64>, h: seq<bv8>, t: seq<bv8>) returns (job: Job)
    requires |h| == 80 && |t| == 32
    ensures Ready(o, h, t, job)
  {
    var mid := CompressInterleaved(o, BlockWords(h[..64]), Zero8(o));
    var rk := RoundKeys(o, mid);
    job := Job(mid, rk, Dec64(h[64..72]), LowHalf(Dec64(h[72..80])), TargetWords(t));
  }

  function NonceWord(nbits: bv32, nonce: bv32): bv64 { (nbits as bv64) | ((nonce as bv64) << 32) }

  /** The hard-coded words of the second block around the nonce. */
  function SecondBlock(o: Ops<bv64>, job: Job, nonce: bv32): Words8<bv64> {
    W(job.w0, NonceWord(job.nbits, nonce), 0x80, o.zero, o.zero, o.zero, o.zero, 0x8002_0000_0000_0000)
  }

  // ---- The optimisation is exact ----

  lemma ConstantWords()
    ensures Dec64(PAD_BIT) == 0x80 && Dec64(PAD_ZERO) == 0 && Dec64(PAD_LENGTH) == 0x8002_0000_0000_0000
  {
  }

  /** Splitting the last header word into nbits and nonce is the little-endian load of its eight bytes. */
  lemma NonceWordLoads(p: seq<bv8>, nonce: bv32)
    requires |p| == 8
    ensures NonceWord(LowHalf(Dec64(p)), nonce) == Dec64(p[..4] + NonceBytes(nonce))
  {
    NonceWordBits(p[0], p[1], p[2], p[3], p[4], p[5], p[6], p[7], nonce);
  }

  lemma NonceWordBits(a: bv8, b: bv8, c: bv8, d: bv8, e: bv8, f: bv8, g: bv8, h: bv8, nonce: bv32)
    ensures NonceWord(LowHalf(Join(a, b, c, d, e, f, g, h)), nonce)
         == Join(a, b, c, d, (nonce & 0xff) as bv8, ((nonce >> 8) & 0xff) as bv8,
                 ((nonce >> 16) & 0xff) as bv8, ((nonce >> 24) & 0xff) as bv8)
  {
  }

  lemma EightGroups<T>(a: seq<T>, b: seq<T>, c: seq<T>, d: seq<T>, e: seq<T>, f: seq<T>, g: seq<T>, h: seq<T>)
    requires |a| == |b| == |c| == |d| == |e| == |f| == |g| == |h| == 8
    ensures var s := a + b + c + d + e + f + g + h;
            && s[0..8] == a && s[8..16] == b && s[16..24] == c && s[24..32] == d
            && s[32..40] == e && s[40..48] == f && s[48..56] == g && s[56..64] == h
  {
  }

  lemma TailGroups<T>(h: seq<T>, n: seq<T>)
    requires |h| == 80 && |n| == 4
    ensures var h' := h[..76] + n;
            h'[..64] == h[..64] && h'[64..72] == h[64..72] && h'[72..80] == h[72..80][..4] + n
  {
  }

  /** The words the kernel hard-codes are those of the padded second block of the header with the nonce. */
  lemma SecondBlockWords(o: Ops<bv64>, h: seq<bv8>, t: seq<bv8>, job: Job, nonce: bv32)
    requires Ready(o, h, t, job) && o.zero == 0
    ensures BlockWords(PaddedTail(WithNonce(h, nonce))) == SecondBlock(o, job, nonce)
  {
    var h' := WithNonce(h, nonce);
    ConstantWords();
    TailGroups(h, NonceBytes(nonce));
    NonceWordLoads(h[72..80], nonce);
    EightGroups(h'[64..72], h'[72..80], PAD_BIT, PAD_ZERO, PAD_ZERO, PAD_ZERO, PAD_ZERO, PAD_LENGTH);
  }

  lemma SameHash(o: Ops<bv64>, h: seq<bv8>, t: seq<bv8>, job: Job, nonce: bv32)
    requires Ready(o, h, t, job) && o.zero == 0
    ensures FullState(o, WithNonce(h, nonce)) == Compress(o, SecondBlock(o, job, nonce), job.mid)
  {
    SecondBlockWords(o, h, t, job, nonce);
    TailGroups(h, NonceBytes(nonce));
  }

  /** Four words as the kernel stores them. */
  function Stored(k: Codec<bv64, bv8>, w0: bv64, w1: bv64, w2: bv64, w3: bv64): (b: seq<bv8>)
    ensures |b| == 32
  {
    Enc(k, w0) + Enc(k, w1) + Enc(k, w2) + Enc(k, w3)
  }

  /** The four folded words of one nonce are those of the full two-block hash of the header carrying it. */
  method FoldNonce(o: Ops<bv64>, k: Codec<bv64, bv8>, h: seq<bv8>, t: seq<bv8>, job: Job, nonce: bv32)
    returns (ow0: bv64, ow1: bv64, ow2: bv64, ow3: bv64)
    requires Ready(o, h, t, job) && IsMachine(o, k)
    ensures Stored(k, ow0, ow1, ow2, ow3) == CapWhirlpool80(o, k, WithNonce(h, nonce))
  {
    MachineXorLaws(o, k);
    MachineByteLaws(o, k);
    SameHash(o, h, t, job, nonce);
    FoldThenSerialize(o, k, FullState(o, WithNonce(h, nonce)));
    ow0, ow1, ow2, ow3 := Block1Fold(o, job.mid, job.rk, SecondBlock(o, job, nonce));
  }

  /** cuda_hash_one_nonce: for every header and nonce, the midstate path yields the folded digest of the
      full two-block hash of the header carrying that nonce. */
  method HashNonce(o: Ops<bv64>, k: Codec<bv64, bv8>, h: seq<bv8>, t: seq<bv8>, job: Job, nonce: bv32)
    returns (out: seq<bv8>)
    requires Ready(o, h, t, job) && IsMachine(o, k)
    ensures out == CapWhirlpool80(o, k, WithNonce(h, nonce))
  {
    var ow0, ow1, ow2, ow3 := FoldNonce(o, k, h, t, job, nonce);
    out := Stored(k, ow0, ow1, ow2, ow3);
  }
}
