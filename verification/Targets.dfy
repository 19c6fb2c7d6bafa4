/** 256-bit target arithmetic of alphanumeric_runner.cpp on 32-bit limbs, and the share target of a job
    under mining.set_difficulty. The difficulty arrives as the integer denominator the code derives from it. */
module Targets {
  import opened Words
  import opened Radix
  import opened Blake3Reference
  import opened AlphaShare

  /** The number written with n one bits. */
  function Ones(n: nat): nat {
    PowPositive(2, n);
    Pow(2, n) - 1
  }

  /** The largest 256-bit integer. */
  function MaxTarget(): nat { Ones(256) }

  lemma {:induction false} PowOfBytes(n: nat)
    ensures Pow(256, n) == Pow(2, 8 * n)
  {
    if n > 0 {
      PowOfBytes(n - 1);
      PowAdd(2, 8 * (n - 1), 8);
      SmallPowers();
    }
  }

  lemma SmallPowers()
    ensures Pow(2, 0) == 1 && Pow(2, 1) == 2 && Pow(2, 2) == 4 && Pow(2, 3) == 8 && Pow(2, 4) == 16
    ensures Pow(2, 5) == 32 && Pow(2, 6) == 64 && Pow(2, 7) == 128 && Pow(2, 8) == 256
  {
    assert Pow(2, 1) == Pow(2, 0) * 2;
    assert Pow(2, 3) == Pow(2, 2) * 2;
    assert Pow(2, 5) == Pow(2, 4) * 2;
    assert Pow(2, 7) == Pow(2, 6) * 2;
  }

  lemma TargetRange(t: Bytes32)
    ensures Value(256, t) <= MaxTarget()
  {
    ValueBound(256, t);
    PowOfBytes(|t|);
  }

  // ---- Schoolbook multiplication ----

  lemma MultiplyStep(lx: nat, lw: nat, p: nat, x: nat, num: nat, carry: nat, w: nat, carry': nat, b: nat)
    requires lw + carry * p == lx * num && x * num + carry == carry' * b + w
    ensures (lw + w * p) + carry' * (p * b) == (lx + x * p) * num
  {
    calc {
      (lx + x * p) * num;
      lx * num + x * num * p;
      lw + (x * num + carry) * p;
      lw + (carry' * b + w) * p;
      (lw + w * p) + carry' * (p * b);
    }
  }

  lemma LimbProduct(x: u32, num: u32, carry: u32)
    ensures x * num + carry < TWO64 && (x * num + carry) / TWO32 < TWO32
  {
    MulMono(x, TWO32 - 1, num);
  }

  /** Extending a product by one limb. */
  lemma MultiplyOne(b: nat, xs: seq<nat>, ws: seq<nat>, x: nat, num: nat, carry: nat, lo: nat, hi: nat)
    requires |xs| == |ws| && Little(b, ws) + carry * Pow(b, |ws|) == Little(b, xs) * num
    requires x * num + carry == hi * b + lo
    ensures Little(b, ws + [lo]) + hi * Pow(b, |ws| + 1) == Little(b, xs + [x]) * num
  {
    LittleAppend(b, xs, x);
    LittleAppend(b, ws, lo);
    var p, p' := Pow(b, |ws|), Pow(b, |ws| + 1);
    assert p' == p * b;
    MultiplyStep(Little(b, xs), Little(b, ws), p, x, num, carry, lo, hi, b);
  }

  /** Eight limbs times a word, into nine: no product leaves 64 bits and no carry is lost. */
  method MultiplyLimbs(x: array<u32>, num: u32) returns (wide: array<u32>)
    requires x.Length == 8
    ensures fresh(wide) && wide.Length == 9
    ensures Little(TWO32, wide[..]) == Little(TWO32, x[..]) * num
  {
    wide := new u32[9];
    var carry: u32 := 0;
    for i := 0 to 8
      invariant Little(TWO32, wide[..i]) + carry * Pow(TWO32, i) == Little(TWO32, x[..i]) * num
    {
      LimbProduct(x[i], num, carry);
      var product: u64 := x[i] * num + carry;
      MultiplyOne(TWO32, x[..i], wide[..i], x[i], num, carry, product % TWO32, product / TWO32);
      wide[i] := product % TWO32;
      carry := product / TWO32;
      assert x[..i + 1] == x[..i] + [x[i]] && wide[..i + 1] == wide[..i] + [wide[i]];
    }
    LittleAppend(TWO32, wide[..8], carry);
    wide[8] := carry;
    assert wide[..] == wide[..8] + [carry];
    assert x[..8] == x[..];
  }

  // ---- Schoolbook division ----

  lemma DivideStep(lu: nat, lq: nat, den: nat, rem: nat, u: nat, b: nat)
    requires lu == lq * den + rem && rem < den && u < b
    ensures (rem * b + u) / den < b
    ensures u + lu * b == ((rem * b + u) / den + lq * b) * den + (rem * b + u) % den
  {
    var cur := rem * b + u;
    MulMono(rem + 1, den, b);
    assert cur < den * b;
    assert cur == cur / den * den + cur % den;
    if cur / den >= b { MulMono(b, cur / den, den); }
    calc {
      u + lu * b;
      u + (lq * den + rem) * b;
      lq * b * den + cur;
      (cur / den + lq * b) * den + cur % den;
    }
  }

  /** Nine limbs divided from the top by a word: the quotient is exact and its digits need no truncation. */
  method DivideLimbs(wide: array<u32>, den: u32) returns (quotient: array<u32>)
    requires wide.Length == 9 && den > 0
    ensures fresh(quotient) && quotient.Length == 9
    ensures Little(TWO32, quotient[..]) == Little(TWO32, wide[..]) / den
  {
    quotient := new u32[9];
    var remainder: u64 := 0;
    for i := 9 downto 0
      invariant remainder < den
      invariant Little(TWO32, wide[i..]) == Little(TWO32, quotient[i..]) * den + remainder
    {
      var cur: u64 := remainder * TWO32 + wide[i];
      DivideStep(Little(TWO32, wide[i + 1..]), Little(TWO32, quotient[i + 1..]), den, remainder, wide[i], TWO32);
      ghost var above := quotient[i + 1..];
      quotient[i] := cur / den;
      assert quotient[i..][1..] == above && wide[i..][1..] == wide[i + 1..];
      remainder := cur % den;
    }
    assert wide[0..] == wide[..] && quotient[0..] == quotient[..];
    DivModUnique(Little(TWO32, wide[..]), den, Little(TWO32, quotient[..]), remainder);
  }

  // ---- scale_target_for_pool_difficulty ----

  const SCALE: u32 := 1_000_000

  method LoadLimbs(base: Bytes32) returns (x: array<u32>)
    ensures fresh(x) && x.Length == 8
    ensures Little(TWO32, x[..]) == Value(256, base)
  {
    x := new u32[8];
    for limb := 0 to 8
      invariant forall k :: 0 <= k < limb ==> x[k] == Be32(base, 28 - 4 * k)
    {
      x[limb] := Be32(base, 28 - limb * 4);
    }
    assert Reversed(x[..]) == TargetWords(base);
    LittleIsReversedValue(TWO32, x[..]);
    WordsDenoteBytes(base);
  }

  method StoreLimbs(q: array<u32>) returns (out: Bytes32)
    requires q.Length == 9
    ensures Value(256, out) == Little(TWO32, q[..8])
  {
    var bytes := new byte[32];
    for limb := 0 to 8
      invariant forall k :: 0 <= k < limb ==> Be32(bytes[..], 28 - 4 * k) == q[k]
    {
      var v, off := q[limb], 28 - limb * 4;
      ghost var before := bytes[..];
      bytes[off], bytes[off + 1] := v / 0x100_0000, v / 0x1_0000 % 0x100;
      bytes[off + 2], bytes[off + 3] := v / 0x100 % 0x100, v % 0x100;
      Be4Loads(v);
      assert forall k :: 0 <= k < limb ==> Be32(bytes[..], 28 - 4 * k) == Be32(before, 28 - 4 * k);
    }
    out := bytes[..];
    assert TargetWords(out) == Reversed(q[..8]);
    LittleIsReversedValue(TWO32, q[..8]);
    WordsDenoteBytes(out);
  }

  function Min(a: nat, b: nat): nat { if a <= b then a else b }

  /** The target scaled by 10^6 / den, saturated at 2^256 - 1. */
  function ScaledValue(base: nat, den: u32): nat
    requires den > 0
  {
    Min(MaxTarget(), base * SCALE / den)
  }

  lemma WordsOfMax()
    ensures Pow(TWO32, 8) == MaxTarget() + 1
  {
    var w := seq(8, i => TWO32 - 1);
    var t: Bytes32 := seq(32, i => 255);
    AllOnes(TWO32, w);
    FullTarget(t);
    assert TargetWords(t) == w;
    WordsDenoteBytes(t);
  }

  method ScaleTarget(base: Bytes32, den: u32) returns (out: Bytes32)
    requires den > 0
    ensures Value(256, out) == ScaledValue(Value(256, base), den)
  {
    var x := LoadLimbs(base);
    var wide := MultiplyLimbs(x, SCALE);
    var quotient := DivideLimbs(wide, den);
    WordsOfMax();
    LittleAppend(TWO32, quotient[..8], quotient[8]);
    assert quotient[..] == quotient[..8] + [quotient[8]];
    if quotient[8] != 0 {
      MulMono(1, quotient[8], Pow(TWO32, 8));
      out := seq(32, i => 0xff);
      FullTarget(out);
      return;
    }
    out := StoreLimbs(quotient);
    TargetRange(out);
  }

  // ---- alpha_target_from_difficulty ----

  const BITS: seq<nat> := [1, 2, 4, 8, 16, 32, 64, 128]

  /** x |= 1 << k. */
  function WithBit(x: byte, k: nat): (r: byte)
    requires k < 8
  {
    if x / BITS[k] % 2 == 1 then x else WrapByte(x + BITS[k])
  }

  function WrapByte(x: nat): byte { x % 0x100 }

  predicate LowBitsClear(x: byte, k: nat)
    requires k < 8
  {
    x % (2 * BITS[k]) == 0
  }

  /** A byte whose k + 1 low bits are clear gains exactly 2^k, and keeps its k low bits clear. */
  lemma ClearBit(x: byte, k: nat)
    requires k < 8 && LowBitsClear(x, k)
    ensures WithBit(x, k) == x + BITS[k]
    ensures k > 0 ==> LowBitsClear(WithBit(x, k), k - 1)
  {
    var w := BITS[k];
    assert w * (2 * BITS[7 - k]) == 256;
    AddWeight(x, w, x / (2 * w), BITS[7 - k]);
  }

  lemma AddWeight(x: nat, w: nat, q: nat, m: nat)
    requires w > 0 && x == q * (2 * w) && w * (2 * m) == 256 && x < 256
    ensures x / w == 2 * q && (x + w) % w == 0 && x + w < 256
  {
    DivModUnique(x, w, 2 * q, 0);
    DivModUnique(x + w, w, 2 * q + 1, 0);
    if q >= m { MulMono(m, q, 2 * w); }
    MulMono(q + 1, m, 2 * w);
  }

  /** 2^256 - 1 shifted right by difficulty / 16. */
  function NetworkValue(difficulty: u64): nat {
    if difficulty / 16 >= 256 then 0 else Ones(256 - difficulty / 16)
  }

  lemma ShiftedOnes(n: nat, p: nat, q: nat)
    requires p > 0 && q > 0 && n == p * q - 1
    ensures n / q == p - 1
  {
    assert (p - 1) * q == p * q - q;
    DivModUnique(n, q, p - 1, q - 1);
  }

  lemma BelowDivisor(n: nat, q: nat)
    requires n < q
    ensures n / q == 0
  {
  }

  lemma OnesQuotient(n: nat, s: nat)
    requires s <= n
    ensures Pow(2, s) > 0 && Ones(n) / Pow(2, s) == Ones(n - s)
  {
    PowPositive(2, s);
    PowPositive(2, n - s);
    PowAdd(2, n - s, s);
    ShiftedOnes(Ones(n), Pow(2, n - s), Pow(2, s));
  }

  lemma OnesGone(n: nat, s: nat)
    requires n <= s
    ensures Pow(2, s) > 0 && Ones(n) / Pow(2, s) == 0
  {
    PowPositive(2, s);
    PowPositive(2, s - n);
    PowAdd(2, n, s - n);
    MulMono(1, Pow(2, s - n), Pow(2, n));
    BelowDivisor(Ones(n), Pow(2, s));
  }

  /** The consensus target is the largest 256-bit number divided by two to the shift. */
  lemma NetworkIsQuotient(difficulty: u64)
    ensures Pow(2, difficulty / 16) > 0 && NetworkValue(difficulty) == MaxTarget() / Pow(2, difficulty / 16)
  {
    if difficulty / 16 >= 256 { OnesGone(256, difficulty / 16); } else { OnesQuotient(256, difficulty / 16); }
  }

  lemma ValueAdd(b: nat, a: seq<nat>, x: nat, c: seq<nat>, d: nat)
    ensures Value(b, a + [x + d] + c) == Value(b, a + [x] + c) + d * Pow(b, |c|)
  {
    ValueConcat(b, a + [x + d], c);
    ValueConcat(b, a + [x], c);
    assert (a + [x + d])[..|a|] == a == (a + [x])[..|a|];
    var p, u := Pow(b, |c|), Value(b, a) * b + x;
    assert Value(b, a + [x]) == u && Value(b, a + [x + d]) == u + d;
    assert (u + d) * p == u * p + d * p;
  }

  /** Bit number `bit`, counted from the top, weighs 2^(255 - bit). */
  lemma BitWeight(bit: nat)
    requires bit < 256
    ensures BITS[7 - bit % 8] * Pow(256, 31 - bit / 8) == Pow(2, 255 - bit)
    ensures Pow(2, 256 - bit) == 2 * Pow(2, 255 - bit)
  {
    PowOfBytes(31 - bit / 8);
    PowAdd(2, 8 * (31 - bit / 8), 7 - bit % 8);
    SmallPowers();
  }

  /** Everything from bit number `bit` on is still zero. */
  predicate ClearFrom(t: Bytes32, bit: nat) {
    && (forall j :: bit / 8 < j < 32 ==> t[j] == 0)
    && (bit < 256 ==> LowBitsClear(t[bit / 8], 7 - bit % 8))
  }

  function SetBit(t: Bytes32, bit: nat): Bytes32
    requires bit < 256
  {
    t[bit / 8 := WithBit(t[bit / 8], 7 - bit % 8)]
  }

  lemma SetNextBit(t: Bytes32, bit: nat)
    requires bit < 256 && ClearFrom(t, bit)
    ensures ClearFrom(SetBit(t, bit), bit + 1)
    ensures Value(256, SetBit(t, bit)) + Pow(2, 255 - bit) == Value(256, t) + Pow(2, 256 - bit)
  {
    var j, k := bit / 8, 7 - bit % 8;
    ClearBit(t[j], k);
    BitWeight(bit);
    ValueAdd(256, t[..j], t[j], t[j + 1..], BITS[k]);
    assert t == t[..j] + [t[j]] + t[j + 1..];
    assert SetBit(t, bit) == t[..j] + [t[j] + BITS[k]] + t[j + 1..];
    if k == 0 {
      assert (bit + 1) / 8 == j + 1;
    } else {
      assert (bit + 1) / 8 == j;
    }
  }

  ghost predicate Filled(t: Bytes32, bit: nat, total: nat)
    requires bit <= 256
  {
    ClearFrom(t, bit) && Value(256, t) + Pow(2, 256 - bit) == total
  }

  lemma FillStep(t: Bytes32, bit: nat, total: nat)
    requires bit < 256 && Filled(t, bit, total)
    ensures Filled(SetBit(t, bit), bit + 1, total)
  {
    SetNextBit(t, bit);
  }

  /** Setting the bits from number `shift` to the last gives 2^(256 - shift) - 1. */
  method FillBits(shift: nat) returns (target: Bytes32)
    requires shift < 256
    ensures Value(256, target) == Ones(256 - shift)
  {
    var t := new byte[32](i => 0);
    AllZeros(256, t[..]);
    ghost var total := Pow(2, 256 - shift);
    for bit := shift to 256
      invariant Filled(t[..], bit, total)
    {
      ghost var next := SetBit(t[..], bit);
      FillStep(t[..], bit, total);
      t[bit / 8] := WithBit(t[bit / 8], 7 - bit % 8);
      assert t[..] == next;
    }
    target := t[..];
  }

  lemma FullTarget(t: Bytes32)
    requires forall i :: 0 <= i < 32 ==> t[i] == 0xff
    ensures Value(256, t) == MaxTarget()
  {
    AllOnes(256, t);
    PowOfBytes(|t|);
  }

  /** 2^256 - 1 shifted right by difficulty / 16 as a fixed-width big-endian number. */
  method TargetFromDifficulty(difficulty: u64) returns (target: Bytes32)
    ensures Value(256, target) == NetworkValue(difficulty)
  {
    var shift := difficulty / 16;
    if difficulty == 0 {
      target := seq(32, i => 0xff);
      FullTarget(target);
    } else if shift >= 256 {
      target := seq(32, i => 0);
      AllZeros(256, target);
    } else {
      target := FillBits(shift);
    }
  }

  // ---- Comparing targets ----

  /** compare_target_be and hash_le_target_be walk the bytes from the top; the first difference decides. */
  method CompareTargets(a: Bytes32, b: Bytes32) returns (c: int)
    ensures c == 0 <==> a == b
    ensures c < 0 <==> Value(256, a) < Value(256, b)
  {
    for i := 0 to 32
      invariant a[..i] == b[..i]
    {
      if a[i] < b[i] {
        FirstDifference(256, a, b, i);
        return -1;
      }
      if a[i] > b[i] {
        FirstDifference(256, b, a, i);
        return 1;
      }
    }
    return 0;
  }

  // ---- The share target of a job ----

  /** The share target a job should have: an explicit notify target as it is, otherwise the consensus
      target scaled by the current difficulty alone. */
  function ShareValue(network: nat, notify: Option<nat>, den: u32, disabled: bool): nat
    requires den > 0
  {
    if disabled then (if notify.Some? then notify.value else network)
    else if notify.Some? && notify.value != network then notify.value
    else ScaledValue(network, den)
  }

  lemma UnitRatio(x: nat, n: nat)
    requires n > 0
    ensures x * n / n == x
  {
    DivModUnique(x * n, n, x, 0);
  }

  /** Difficulty 1 leaves a target as it is. */
  lemma UnitScale(base: nat)
    requires base <= MaxTarget()
    ensures ScaledValue(base, 1_000_000) == base
  {
    UnitRatio(base, 1_000_000);
  }

  lemma RatioShrinks(x: nat, d: nat, e: nat)
    requires 0 < d <= e
    ensures x / e <= x / d
  {
    var q, r := x / d, x / e;
    assert x == q * d + x % d && x == r * e + x % e;
    if r > q { MulMono(q + 1, r, d); MulMono(d, e, r); }
  }

  /** The targets a pool can bring about, from what it sent (`received`, if anything), the consensus target of
      the header and the denominator, whatever they are: a target of its own is used as it is, at every
      difficulty; sending the consensus target is the same as sending none; with local scaling switched off
      the difficulty has no influence at all; difficulty 1 means the consensus target itself; and a higher
      difficulty never means an easier target. */
  lemma ShareTargetLaws(network: nat, received: Option<nat>, den: u32, disabled: bool)
    requires den > 0 && network <= MaxTarget()
    ensures received.Some? && received.value != network ==> ShareValue(network, received, den, disabled) == received.value
    ensures ShareValue(network, Some(network), den, disabled) == ShareValue(network, None, den, disabled)
    ensures ShareValue(network, None, den, true) == network
    ensures ShareValue(network, None, 1_000_000, disabled) == network
  {
    UnitScale(network);
  }

  lemma HarderIsLower(network: nat, received: Option<nat>, den: u32, higher: u32, disabled: bool)
    requires 0 < den <= higher
    ensures ShareValue(network, received, higher, disabled) <= ShareValue(network, received, den, disabled)
  {
    RatioShrinks(network * 1_000_000, den, higher);
  }

  class AlphaJob {
    const difficulty: u64
    const hasTarget: bool
    var networkTarget: Bytes32
    var notifyTarget: Bytes32
    var target: Bytes32
    var targetsInitialized: bool
    var explicitShareTarget: bool
    var localScalingDisabled: bool
    /** The target the notify carried, if any. */
    ghost const received: Option<nat>

    ghost predicate Valid()
      reads this
    {
      && (hasTarget <==> received.Some?)
      && (hasTarget && !targetsInitialized ==> Value(256, target) == received.value)
      && (hasTarget && targetsInitialized ==> Value(256, notifyTarget) == received.value)
    }

    /** A target of the pool's own, and only such a one, counts as explicit, and is used as it is. */
    ghost predicate Trusted()
      reads this
    {
      && (explicitShareTarget <==> received.Some? && received.value != NetworkValue(difficulty))
      && (explicitShareTarget ==> Value(256, target) == received.value)
    }

    /** A freshly parsed notify. */
    constructor (difficulty: u64, notify: Option<Bytes32>)
      ensures Valid() && !targetsInitialized && this.difficulty == difficulty
      ensures received == if notify.Some? then Some(Value(256, notify.value)) else None
    {
      this.difficulty := difficulty;
      hasTarget := notify.Some?;
      target := if notify.Some? then notify.value else seq(32, i => 0);
      networkTarget, notifyTarget := seq(32, i => 0), seq(32, i => 0);
      targetsInitialized, explicitShareTarget, localScalingDisabled := false, false, false;
      received := if notify.Some? then Some(Value(256, notify.value)) else None;
    }

    /** apply_pool_share_target: the first call saves the notify target, so later ones start from it. */
    method Apply(den: u32, disable: bool)
      requires Valid() && den > 0
      modifies this
      ensures Valid() && targetsInitialized
      ensures Value(256, networkTarget) == NetworkValue(difficulty)
      ensures localScalingDisabled == disable
      ensures Value(256, target) == ShareValue(NetworkValue(difficulty), received, den, disable)
      ensures Trusted()
    {
      networkTarget := TargetFromDifficulty(difficulty);
      if !targetsInitialized {
        notifyTarget := if hasTarget then target else networkTarget;
        targetsInitialized := true;
      }
      var order := CompareTargets(notifyTarget, networkTarget);
      SameValue(notifyTarget, networkTarget);
      explicitShareTarget := hasTarget && order != 0;
      localScalingDisabled := disable;
      if disable {
        target := if hasTarget then notifyTarget else networkTarget;
      } else if explicitShareTarget {
        target := notifyTarget;
      } else {
        target := ScaleTarget(networkTarget, den);
      }
    }
  }

  lemma SameValue(a: Bytes32, b: Bytes32)
    ensures a == b <==> Value(256, a) == Value(256, b)
  {
    if Value(256, a) == Value(256, b) { ValueInjective(256, a, b); }
  }

  /** A job's first target and every mining.set_difficulty after it: only the latest denominator counts,
      so scalings never compound and a difficulty that returns brings its target back. */
  method ApplyHistory(job: AlphaJob, updates: seq<(u32, bool)>)
    requires job.Valid() && updates != [] && forall u :: u in updates ==> u.0 > 0
    modifies job
    ensures job.Valid()
    ensures var (den, disable) := updates[|updates| - 1];
            Value(256, job.target) == ShareValue(NetworkValue(job.difficulty), job.received, den, disable)
    ensures job.Trusted()
  {
    for i := 0 to |updates|
      invariant job.Valid()
      invariant i > 0 ==> job.Trusted()
      invariant i > 0 ==>
        Value(256, job.target) == ShareValue(NetworkValue(job.difficulty), job.received, updates[i - 1].0, updates[i - 1].1)
    {
      job.Apply(updates[i].0, updates[i].1);
    }
  }
}
