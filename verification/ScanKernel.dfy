/** One launch of alpha_scan_kernel as a transition system: every thread advances one shared-memory
    access at a time, in any order, while the host may overwrite the live generation at any moment. */
module ScanKernel {
  import opened Words
  import opened DeficitReduction

  /** A launch. `accepts` and `digest` are the per-nonce test and hash of the job; `stride` is the
      number of threads; they form `groups` groups of `group` threads whose deficits one atomicAdd
      carries (a thread block under CUDA, a single thread under HIP). */
  datatype Config = Config(
    start: u64, count: nat, jobGen: u32, stride: nat, groups: nat, group: nat, cuda: bool,
    accepts: u64 -> bool, digest: u64 -> seq<byte>)
  {
    predicate Valid() {
      && 0 < count <= TWO31
      && stride > 0 && stride == Offset(groups, group)
      && (if cuda then BlockShape(group) else group == 1)
    }

    /** The 32-bit loop increment `idx += stride` never wraps. */
    predicate NoWrap() { count + stride <= TWO32 }

    function Nonce(idx: nat): u64 { NonceAt(start, idx) }
  }

  datatype Memory = Memory(found: bool, deficit: nat, nonce: u64, hash: seq<byte>)

  /** Where a thread stands in its loop body; each value is one access to shared memory away from the next. */
  datatype Pc = Top | ReadFound | ReadGen | HashNonce | TryCas | WriteNonce | WriteHash | Out

  datatype Thread = Thread(pc: Pc, idx: nat, poll: nat, bailed: bool)
  {
    /** Nonces this thread has hashed so far. */
    function Done(): int {
      if pc in {ReadFound, ReadGen, HashNonce} || (pc == Out && bailed) then poll - 1 else poll
    }
  }

  /** The last four fields are history: what was hashed, who won the CAS, and whether any thread
      read a generation other than its own. */
  datatype State = State(
    threads: seq<Thread>, reported: seq<bool>, mem: Memory, liveGen: u32,
    hashed: set<nat>, hashCount: nat, winner: Option<nat>, sawStale: bool)

  datatype Action = Run(thread: nat) | Report(group: nat) | PushGen(gen: u32)

  function Init(c: Config, mem: Memory, gen: u32): State
    requires c.Valid()
  {
    State(seq(c.stride, t requires 0 <= t < c.stride => Thread(Top, t, 0, false)), seq(c.groups, g => false),
          mem, gen, {}, 0, None, false)
  }

  /** (nonce_count - 1 - tid) / stride + 1, the closed form of a thread's assigned iterations. */
  function Expected(t: nat, stride: nat, count: nat): nat
    requires stride > 0
  {
    if t < count then (count - 1 - t) / stride + 1 else 0
  }

  /** The deficit a finished thread computes, in 32-bit arithmetic. */
  function ThreadDeficit(c: Config, t: nat, th: Thread): u32
    requires c.Valid()
  {
    (Expected(t, c.stride, c.count) - th.Done()) % TWO32
  }

  predicate Shaped(c: Config, s: State) {
    c.Valid() && |s.threads| == c.stride && |s.reported| == c.groups
  }

  predicate InGroup(c: Config, g: nat, t: nat) {
    Offset(g, c.group) <= t < Offset(g, c.group) + c.group
  }

  predicate GroupOut(c: Config, s: State, g: nat)
    requires Shaped(c, s)
  {
    forall t: nat :: InGroup(c, g, t) && t < c.stride ==> s.threads[t].pc == Out
  }

  lemma GroupFits(c: Config, g: nat)
    requires c.Valid() && g < c.groups
    ensures Offset(g, c.group) + c.group <= c.stride
  {
    OffsetMono(g + 1, c.groups, c.group);
  }

  function GroupDeficits(c: Config, s: State, g: nat): (r: seq<u32>)
    requires Shaped(c, s) && g < c.groups
    ensures |r| == c.group
  {
    GroupFits(c, g);
    seq<u32>(c.group, k requires 0 <= k < c.group =>
      var t := Offset(g, c.group) + k; ThreadDeficit(c, t, s.threads[t]))
  }

  /** What one group adds to the 64-bit deficit: CUDA reduces the block by shuffles, HIP adds per thread. */
  function GroupReport(c: Config, s: State, g: nat): u32
    requires Shaped(c, s) && g < c.groups
  {
    if c.cuda then BlockDeficit(GroupDeficits(c, s, g)) else GroupDeficits(c, s, g)[0]
  }

  predicate Enabled(c: Config, s: State, a: Action)
    requires Shaped(c, s)
  {
    match a
    case Run(t) => t < c.stride && s.threads[t].pc != Out
    case Report(g) => g < c.groups && !s.reported[g] && GroupOut(c, s, g)
    case PushGen(_) => true
  }

  /** The next shared-memory access of a thread, given the values it would read. */
  function NextThread(c: Config, th: Thread, found: bool, gen: u32): Thread
    requires th.pc != Out
  {
    match th.pc
    case Top =>
      if th.idx >= c.count then th.(pc := Out)
      else
        var poll := th.poll + 1;
        th.(poll := poll, pc := if poll % 256 == 0 then ReadFound else HashNonce)
    case ReadFound => if found then th.(pc := Out, bailed := true) else th.(pc := ReadGen)
    case ReadGen => if gen != c.jobGen then th.(pc := Out, bailed := true) else th.(pc := HashNonce)
    case HashNonce =>
      if c.accepts(c.Nonce(th.idx)) then th.(pc := TryCas)
      else th.(pc := Top, idx := (th.idx + c.stride) % TWO32)
    case TryCas => if found then th.(pc := Out) else th.(pc := WriteNonce)
    case WriteNonce => th.(pc := WriteHash)
    case WriteHash => th.(pc := Out)
  }

  /** What that access writes to the result block. */
  function NextMemory(c: Config, th: Thread, mem: Memory): Memory {
    match th.pc
    case TryCas => mem.(found := true)
    case WriteNonce => mem.(nonce := c.Nonce(th.idx))
    case WriteHash => mem.(hash := c.digest(c.Nonce(th.idx)))
    case _ => mem
  }

  function RunThread(c: Config, s: State, t: nat): State
    requires Shaped(c, s) && t < c.stride && s.threads[t].pc != Out
  {
    var th := s.threads[t];
    s.(threads := s.threads[t := NextThread(c, th, s.mem.found, s.liveGen)],
       mem := NextMemory(c, th, s.mem),
       hashed := if th.pc == HashNonce then s.hashed + {th.idx} else s.hashed,
       hashCount := if th.pc == HashNonce then s.hashCount + 1 else s.hashCount,
       winner := if th.pc == TryCas && !s.mem.found then Some(t) else s.winner,
       sawStale := s.sawStale || (th.pc == ReadGen && s.liveGen != c.jobGen))
  }

  function Apply(c: Config, s: State, a: Action): State
    requires Shaped(c, s) && Enabled(c, s, a)
  {
    match a
    case Run(t) => RunThread(c, s, t)
    case Report(g) =>
      s.(reported := s.reported[g := true],
         mem := s.mem.(deficit := (s.mem.deficit + GroupReport(c, s, g)) % TWO64))
    case PushGen(v) => s.(liveGen := v)
  }

  lemma ApplyShaped(c: Config, s: State, a: Action)
    requires Shaped(c, s) && Enabled(c, s, a)
    ensures Shaped(c, Apply(c, s, a))
  {
  }

  /** `schedule` is a legal interleaving from `s`. */
  predicate Legal(c: Config, s: State, schedule: seq<Action>)
    requires Shaped(c, s)
    decreases |schedule|
  {
    schedule == [] ||
    (Enabled(c, s, schedule[0]) &&
     (ApplyShaped(c, s, schedule[0]); Legal(c, Apply(c, s, schedule[0]), schedule[1..])))
  }

  function Exec(c: Config, s: State, schedule: seq<Action>): (r: State)
    requires Shaped(c, s) && Legal(c, s, schedule)
    ensures Shaped(c, r)
    decreases |schedule|
  {
    if schedule == [] then s
    else ApplyShaped(c, s, schedule[0]); Exec(c, Apply(c, s, schedule[0]), schedule[1..])
  }

  /** Every thread has left the kernel and every group has added its deficit. */
  predicate Terminal(c: Config, s: State)
    requires Shaped(c, s)
  {
    (forall t :: 0 <= t < c.stride ==> s.threads[t].pc == Out) && (forall g :: 0 <= g < c.groups ==> s.reported[g])
  }

  // ---- Index arithmetic of the grid-stride loop ----

  function Index(stride: nat, t: nat, k: nat): nat { t + Offset(k, stride) }

  lemma IndexInjective(stride: nat, t: nat, k: nat, t': nat, k': nat)
    requires t < stride && t' < stride && Index(stride, t, k) == Index(stride, t', k')
    ensures t == t' && k == k'
  {
    if k < k' { OffsetMono(k + 1, k', stride); }
    if k' < k { OffsetMono(k' + 1, k, stride); }
  }

  /** The k-th index of a thread is in range exactly when k is below its closed-form count. */
  lemma IndexInRange(stride: nat, count: nat, t: nat, k: nat)
    requires t < stride
    ensures Index(stride, t, k) < count <==> k < Expected(t, stride, count)
  {
    OffsetIsProduct(k, stride);
    if t < count { QuotientBound(count - 1 - t, stride, k); }
  }

  lemma QuotientBound(x: nat, d: nat, k: nat)
    requires d > 0
    ensures k * d <= x <==> k <= x / d
  {
    var q := x / d;
    assert q * d + x % d == x;
    if k <= q { MulMono(k, q, d); } else { MulMono(q + 1, k, d); }
  }

  lemma IndexCovers(stride: nat, i: nat)
    requires stride > 0
    ensures i % stride < stride && Index(stride, i % stride, i / stride) == i
  {
    OffsetIsProduct(i / stride, stride);
  }

  /** The closed forms of all threads add up to the launch size: nothing is assigned twice or dropped. */
  lemma {:induction false} ExpectedSum(stride: nat, count: nat, e: seq<int>)
    requires stride > 0 && |e| == stride
    requires forall t :: 0 <= t < stride ==> e[t] == Expected(t, stride, count)
    ensures Sum(e) == count
    decreases count
  {
    if count == 0 {
      SumZero(e);
    } else {
      var i := count - 1;
      var owner := i % stride;
      IndexCovers(stride, i);
      var prev := e[owner := e[owner] - 1];
      forall t | 0 <= t < stride ensures prev[t] == Expected(t, stride, i) {
        ExpectedStep(stride, i, t);
      }
      ExpectedSum(stride, i, prev);
      SumUpdate(e, owner, e[owner] - 1);
    }
  }

  lemma ExpectedStep(stride: nat, i: nat, t: nat)
    requires t < stride
    ensures Expected(t, stride, i + 1) == Expected(t, stride, i) + (if t == i % stride then 1 else 0)
  {
    var q := i / stride;
    IndexCovers(stride, i);
    if t == i % stride {
      IndexInRange(stride, i, t, q);
      IndexInRange(stride, i + 1, t, q);
      IndexInRange(stride, i + 1, t, q + 1);
      if q > 0 { IndexInRange(stride, i, t, q - 1); }
    } else {
      OtherOwner(stride, i, t, Expected(t, stride, i));
      OtherOwner(stride, i, t, Expected(t, stride, i + 1));
    }
  }

  lemma OtherOwner(stride: nat, i: nat, t: nat, k: nat)
    requires t < stride && t != i % stride
    ensures k < Expected(t, stride, i) <==> k < Expected(t, stride, i + 1)
  {
    IndexCovers(stride, i);
    if Index(stride, t, k) == i { IndexInjective(stride, t, k, i % stride, i / stride); }
    IndexInRange(stride, i, t, k);
    IndexInRange(stride, i + 1, t, k);
  }
}
