/** The two-level warp-shuffle reduction of per-thread deficits. */
module DeficitReduction {
  import opened Words

  /** One `d += __shfl_down_sync(full mask, d, off)` executed by all 32 lanes: a lane whose
      source lies past the warp reads its own value back, so the upper lanes fill with junk. */
  function ShuffleDownAdd(lanes: seq<u32>, off: nat): (r: seq<u32>)
    requires |lanes| == 32
    ensures |r| == 32
  {
    seq(32, i requires 0 <= i < 32 =>
      (lanes[i] + (if i + off < 32 then lanes[i + off] else lanes[i])) % TWO32)
  }

  /** The halving loop `for(off = top; off > 0; off >>= 1)`. */
  function ShuffleLoop(lanes: seq<u32>, off: nat): (r: seq<u32>)
    requires |lanes| == 32
    ensures |r| == 32
    decreases |lanes|, off
  {
    if off == 0 then lanes else ShuffleLoop(ShuffleDownAdd(lanes, off), off / 2)
  }

  predicate HalvingStart(off: nat) { off in {0, 1, 2, 4, 8, 16} }

  lemma SumSplitHalves(s: seq<int>, off: nat)
    requires |s| == 2 * off
    ensures Sum(s) == Sum(s[..off]) + Sum(s[off..])
  {
    SumConcat(s[..off], s[off..]);
    assert s == s[..off] + s[off..];
  }

  lemma ModAdd(x: int, y: int, a: int, b: int)
    requires x == y % TWO32 && a % TWO32 == b % TWO32
    ensures (x + a) % TWO32 == (y + b) % TWO32
  {
  }

  /** Folding the upper half of the live window onto the lower half keeps the sum modulo 2^32. */
  lemma {:induction false} FoldHalf(lo: seq<int>, hi: seq<int>, r: seq<int>)
    requires |lo| == |hi| == |r|
    requires forall i :: 0 <= i < |lo| ==> r[i] == (lo[i] + hi[i]) % TWO32
    ensures Sum(r) % TWO32 == (Sum(lo) + Sum(hi)) % TWO32
  {
    if lo != [] {
      FoldHalf(lo[1..], hi[1..], r[1..]);
      ModAdd(r[0], lo[0] + hi[0], Sum(r[1..]), Sum(lo[1..]) + Sum(hi[1..]));
    }
  }

  lemma ShuffleStepKeepsSum(lanes: seq<u32>, off: nat)
    requires |lanes| == 32 && 0 < off <= 16
    ensures Sum(ShuffleDownAdd(lanes, off)[..off]) % TWO32 == Sum(lanes[..2 * off]) % TWO32
  {
    var w := lanes[..2 * off];
    SumSplitHalves(w, off);
    FoldHalf(w[..off], w[off..], ShuffleDownAdd(lanes, off)[..off]);
  }

  /** Whatever junk the upper lanes hold, lane 0 ends with the sum of the window, modulo 2^32. */
  lemma {:induction false} ShuffleLoopSum(lanes: seq<u32>, off: nat)
    requires |lanes| == 32 && HalvingStart(off)
    ensures ShuffleLoop(lanes, off)[0] == Sum(lanes[..if off == 0 then 1 else 2 * off]) % TWO32
    decreases |lanes|, off
  {
    if off == 0 {
      assert lanes[..1] == [lanes[0]];
      assert Sum(lanes[..1]) == lanes[0];
    } else {
      ShuffleStepKeepsSum(lanes, off);
      ShuffleLoopSum(ShuffleDownAdd(lanes, off), off / 2);
    }
  }

  /** The shuffle loop as the kernel runs it. */
  method WarpReduce(start: seq<u32>, top: nat) returns (lanes: seq<u32>)
    requires |start| == 32 && HalvingStart(top) && top > 0
    ensures |lanes| == 32
    ensures lanes == ShuffleLoop(start, top)
    ensures lanes[0] == Sum(start[..2 * top]) % TWO32
  {
    lanes := start;
    var off := top;
    while off > 0
      invariant |lanes| == 32 && HalvingStart(off)
      invariant ShuffleLoop(start, top) == ShuffleLoop(lanes, off)
    {
      lanes := ShuffleDownAdd(lanes, off);
      off := off / 2;
    }
    ShuffleLoopSum(start, top);
  }

  predicate BlockShape(n: nat) { 32 <= n <= 512 && n % 32 == 0 }

  /** warp_deficit[w]: what lane 0 of warp w stores in shared memory. */
  function WarpLeaders(deficits: seq<u32>): (r: seq<u32>)
    requires BlockShape(|deficits|)
    ensures |r| == |deficits| / 32
  {
    seq(|deficits| / 32, w requires 0 <= w < |deficits| / 32 =>
      ShuffleLoop(deficits[32 * w..32 * w + 32], 16)[0])
  }

  /** Warp 0 after loading: the shared sums in the first lanes, zero in the others. */
  function SecondStage(leaders: seq<u32>): (r: seq<u32>)
    requires |leaders| <= 16
    ensures |r| == 32
  {
    seq(32, lane requires 0 <= lane < 32 => if lane < |leaders| then leaders[lane] else 0)
  }

  /** The value lane 0 of warp 0 hands to the single atomicAdd of the block. */
  function BlockDeficit(deficits: seq<u32>): u32
    requires BlockShape(|deficits|)
  {
    ShuffleLoop(SecondStage(WarpLeaders(deficits)), 8)[0]
  }

  lemma {:induction false} SumModCongruence(a: seq<int>, b: seq<int>)
    requires |a| == |b| && forall i :: 0 <= i < |a| ==> a[i] == b[i] % TWO32
    ensures Sum(a) % TWO32 == Sum(b) % TWO32
  {
    if a != [] {
      SumModCongruence(a[1..], b[1..]);
      ModAdd(a[0], b[0], Sum(a[1..]), Sum(b[1..]));
    }
  }

  lemma WarpLeader(deficits: seq<u32>, w: nat)
    requires BlockShape(|deficits|) && w < |deficits| / 32
    ensures Offset(w, 32) + 32 <= |deficits|
    ensures WarpLeaders(deficits)[w] == Sum(Block(deficits, 32, w)) % TWO32
  {
    OffsetIsProduct(w, 32);
    var warp: seq<u32> := deficits[32 * w..32 * w + 32];
    ShuffleLoopSum(warp, 16);
    assert warp[..2 * 16] == warp == Block(deficits, 32, w);
  }

  lemma WarpLeadersSum(deficits: seq<u32>)
    requires BlockShape(|deficits|)
    ensures Sum(WarpLeaders(deficits)) % TWO32 == Sum(deficits) % TWO32
  {
    var n := |deficits| / 32;
    OffsetIsProduct(n, 32);
    var blocks := BlockSums(deficits, 32, n);
    forall w | 0 <= w < n ensures WarpLeaders(deficits)[w] == blocks[w] % TWO32 {
      WarpLeader(deficits, w);
      BlockSumsAt(deficits, 32, n, w);
    }
    SumModCongruence(WarpLeaders(deficits), blocks);
    SumOfBlocks(deficits, 32, n);
    assert deficits[..n * 32] == deficits;
  }

  lemma SecondStageSum(leaders: seq<u32>)
    requires |leaders| <= 16
    ensures ShuffleLoop(SecondStage(leaders), 8)[0] == Sum(leaders) % TWO32
  {
    var lanes := SecondStage(leaders);
    ShuffleLoopSum(lanes, 8);
    assert lanes[..2 * 8] == leaders + lanes[|leaders|..16];
    SumConcat(leaders, lanes[|leaders|..16]);
    SumZero(lanes[|leaders|..16]);
  }

  /** For every legal block size the reduction delivers the exact sum of the block's deficits as
      long as that sum fits 32 bits; in general it delivers it modulo 2^32. */
  lemma BlockDeficitIsSum(deficits: seq<u32>)
    requires BlockShape(|deficits|)
    ensures BlockDeficit(deficits) == Sum(deficits) % TWO32
    ensures Sum(deficits) < TWO32 ==> BlockDeficit(deficits) == Sum(deficits)
  {
    WarpLeadersSum(deficits);
    SecondStageSum(WarpLeaders(deficits));
    SumBounds(deficits);
    if Sum(deficits) < TWO32 { SmallMod(Sum(deficits)); }
  }
}
