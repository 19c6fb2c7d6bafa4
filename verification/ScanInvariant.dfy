/** What every interleaving of one kernel launch preserves, and what a drained launch delivers. */
module ScanInvariant {
  import opened Words
  import opened DeficitReduction
  import opened ScanKernel

  predicate AtOwnIndex(c: Config, t: nat, th: Thread) {
    th.poll >= 1 && th.idx == Index(c.stride, t, th.poll - 1) && th.idx < c.count
  }

  /** Control state of one thread: `idx` is the poll-th index of its own residue class, and a thread
      that left early has the excuse of a find or of a stale generation. */
  predicate ThreadOk(c: Config, t: nat, th: Thread, excuse: bool)
    requires c.stride > 0
  {
    && 0 <= th.Done() <= Expected(t, c.stride, c.count)
    && (th.pc == Top ==> !th.bailed && th.idx == Index(c.stride, t, th.poll))
    && (th.pc !in {Top, Out} ==> !th.bailed && AtOwnIndex(c, t, th))
    && (th.pc in {TryCas, WriteNonce, WriteHash} ==> c.accepts(c.Nonce(th.idx)))
    && (th.pc in {WriteNonce, WriteHash} ==> excuse)
    && (th.pc == Out && th.Done() < Expected(t, c.stride, c.count) ==> excuse)
  }

  predicate Excused(s: State) { s.mem.found || s.sawStale }

  predicate ThreadsOk(c: Config, s: State)
    requires Shaped(c, s)
  {
    forall t: nat :: t < c.stride ==> ThreadOk(c, t, s.threads[t], Excused(s))
  }

  function DoneCounts(s: State): (r: seq<int>)
    ensures |r| == |s.threads|
  {
    seq(|s.threads|, t requires 0 <= t < |s.threads| => s.threads[t].Done())
  }

  /** Exactly the first Done() indices of every thread have been hashed, each once. */
  ghost predicate HashedOk(c: Config, s: State)
    requires Shaped(c, s)
  {
    && (forall t: nat, k: nat {:trigger Index(c.stride, t, k)} :: t < c.stride ==>
          (Index(c.stride, t, k) in s.hashed <==> k < s.threads[t].Done()))
    && (forall i :: i in s.hashed ==> 0 <= i < c.count)
    && |s.hashed| == s.hashCount == Sum(DoneCounts(s))
  }

  predicate Writing(pc: Pc) { pc in {WriteNonce, WriteHash} }

  predicate NobodyElseWrites(c: Config, s: State, w: nat)
    requires Shaped(c, s)
  {
    forall t: nat :: t < c.stride && t != w ==> !Writing(s.threads[t].pc)
  }

  /** The single CAS winner owns the result block: what it has written so far is its own nonce and digest. */
  predicate WinnerOk(c: Config, s: State)
    requires Shaped(c, s)
  {
    match s.winner
    case None => !s.mem.found && NobodyElseWrites(c, s, c.stride)
    case Some(w) =>
      && s.mem.found && w < c.stride
      && NobodyElseWrites(c, s, w)
      && var th := s.threads[w];
         && th.pc in {WriteNonce, WriteHash, Out}
         && AtOwnIndex(c, w, th) && c.accepts(c.Nonce(th.idx))
         && (th.pc in {WriteHash, Out} ==> s.mem.nonce == c.Nonce(th.idx))
         && (th.pc == Out ==> !th.bailed && s.mem.hash == c.digest(c.Nonce(th.idx)))
  }

  /** A hashed qualifying nonce is never forgotten: its thread is at the CAS, or somebody has won. */
  ghost predicate NothingMissed(c: Config, s: State)
    requires Shaped(c, s)
  {
    forall t: nat, k: nat {:trigger Index(c.stride, t, k)} ::
      t < c.stride && Index(c.stride, t, k) in s.hashed && c.accepts(c.Nonce(Index(c.stride, t, k))) ==>
        s.mem.found || (s.threads[t].pc == TryCas && s.threads[t].idx == Index(c.stride, t, k))
  }

  function Remaining(c: Config, s: State): (r: seq<int>)
    requires Shaped(c, s)
    ensures |r| == c.stride
  {
    seq(c.stride, t requires 0 <= t < c.stride => Expected(t, c.stride, c.count) - s.threads[t].Done())
  }

  /** Per group: the work it left undone if it has reported, zero if not yet. */
  function ReportedSums(c: Config, s: State): (r: seq<int>)
    requires Shaped(c, s)
    ensures |r| == c.groups
  {
    seq(c.groups, g requires 0 <= g < c.groups =>
      if s.reported[g] then (GroupFits(c, g); Sum(Block(Remaining(c, s), c.group, g))) else 0)
  }

  predicate DeficitOk(c: Config, s: State, base: nat)
    requires Shaped(c, s)
  {
    && (forall g: nat :: g < c.groups && s.reported[g] ==> GroupOut(c, s, g))
    && s.mem.deficit == base + Sum(ReportedSums(c, s))
  }

  ghost predicate Inv(c: Config, s: State, base: nat) {
    && Shaped(c, s) && ThreadsOk(c, s) && HashedOk(c, s) && WinnerOk(c, s) && NothingMissed(c, s)
    && DeficitOk(c, s, base)
  }

  /** The launch preconditions the host establishes: a cleared result and room in the 64-bit counter. */
  predicate Launchable(c: Config, mem: Memory) {
    c.Valid() && c.NoWrap() && !mem.found && mem.deficit + c.count < TWO64
  }

  lemma InitThreads(c: Config, mem: Memory, gen: u32)
    requires c.Valid()
    ensures ThreadsOk(c, Init(c, mem, gen))
  {
  }

  lemma InitHashed(c: Config, mem: Memory, gen: u32)
    requires c.Valid()
    ensures HashedOk(c, Init(c, mem, gen)) && NothingMissed(c, Init(c, mem, gen))
  {
    SumZero(DoneCounts(Init(c, mem, gen)));
  }

  lemma InitDeficit(c: Config, mem: Memory, gen: u32)
    requires c.Valid()
    ensures DeficitOk(c, Init(c, mem, gen), mem.deficit)
  {
    SumZero(ReportedSums(c, Init(c, mem, gen)));
  }

  lemma InitInv(c: Config, mem: Memory, gen: u32)
    requires Launchable(c, mem)
    ensures Inv(c, Init(c, mem, gen), mem.deficit)
  {
    InitThreads(c, mem, gen);
    InitHashed(c, mem, gen);
    InitDeficit(c, mem, gen);
  }

  // ---- Preservation, one invariant at a time ----

  lemma NextThreadOk(c: Config, t: nat, th: Thread, found: bool, gen: u32, excuse: bool)
    requires c.Valid() && c.NoWrap() && t < c.stride && th.pc != Out
    requires ThreadOk(c, t, th, excuse) && (found ==> excuse)
    ensures var excuse' := excuse || th.pc == TryCas || (th.pc == ReadGen && gen != c.jobGen);
            ThreadOk(c, t, NextThread(c, th, found, gen), excuse')
  {
    IndexInRange(c.stride, c.count, t, th.poll);
    if th.pc == HashNonce {
      assert Index(c.stride, t, th.poll) == th.idx + c.stride < TWO32;
      SmallMod(th.idx + c.stride);
      IndexInRange(c.stride, c.count, t, th.poll - 1);
    }
  }

  lemma RunKeepsThreads(c: Config, s: State, t: nat)
    requires Shaped(c, s) && ThreadsOk(c, s) && c.NoWrap() && Enabled(c, s, Run(t))
    ensures ThreadsOk(c, RunThread(c, s, t))
  {
    var s' := RunThread(c, s, t);
    assert ThreadOk(c, t, s.threads[t], Excused(s));
    NextThreadOk(c, t, s.threads[t], s.mem.found, s.liveGen, Excused(s));
    forall u: nat | u < c.stride && u != t ensures ThreadOk(c, u, s'.threads[u], Excused(s')) {
      assert ThreadOk(c, u, s.threads[u], Excused(s));
    }
  }

  lemma DoneCountsUpdate(s: State, s': State, t: nat)
    requires t < |s.threads| == |s'.threads| && s'.threads == s.threads[t := s'.threads[t]]
    ensures Sum(DoneCounts(s')) == Sum(DoneCounts(s)) - s.threads[t].Done() + s'.threads[t].Done()
  {
    assert DoneCounts(s') == DoneCounts(s)[t := s'.threads[t].Done()];
    SumUpdate(DoneCounts(s), t, s'.threads[t].Done());
  }

  lemma RunKeepsHashed(c: Config, s: State, t: nat)
    requires Shaped(c, s) && ThreadsOk(c, s) && HashedOk(c, s) && Enabled(c, s, Run(t))
    ensures HashedOk(c, RunThread(c, s, t))
  {
    var s' := RunThread(c, s, t);
    var th := s.threads[t];
    assert ThreadOk(c, t, th, Excused(s));
    DoneCountsUpdate(s, s', t);
    if th.pc == HashNonce {
      HashAddsOne(c, s, t);
    } else {
      assert s'.threads[t].Done() == th.Done();
    }
  }

  lemma HashAddsOne(c: Config, s: State, t: nat)
    requires Shaped(c, s) && HashedOk(c, s) && t < c.stride && s.threads[t].pc == HashNonce
    requires AtOwnIndex(c, t, s.threads[t])
    ensures HashedOk(c, RunThread(c, s, t))
  {
    var s' := RunThread(c, s, t);
    var th := s.threads[t];
    var k := th.poll - 1;
    DoneCountsUpdate(s, s', t);
    assert Index(c.stride, t, k) !in s.hashed;
    assert s'.threads[t].Done() == k + 1;
    forall u: nat, j: nat | u < c.stride
      ensures Index(c.stride, u, j) in s'.hashed <==> j < s'.threads[u].Done()
    {
      if Index(c.stride, u, j) == th.idx { IndexInjective(c.stride, u, j, t, k); }
    }
  }

  lemma RunKeepsWinner(c: Config, s: State, t: nat)
    requires Shaped(c, s) && ThreadsOk(c, s) && WinnerOk(c, s) && Enabled(c, s, Run(t))
    ensures WinnerOk(c, RunThread(c, s, t))
  {
    assert ThreadOk(c, t, s.threads[t], Excused(s));
  }

  lemma RunKeepsNothingMissed(c: Config, s: State, t: nat)
    requires Shaped(c, s) && ThreadsOk(c, s) && NothingMissed(c, s) && Enabled(c, s, Run(t))
    ensures NothingMissed(c, RunThread(c, s, t))
  {
    var s' := RunThread(c, s, t);
    var th := s.threads[t];
    assert ThreadOk(c, t, th, Excused(s));
    forall u: nat, k: nat | u < c.stride && Index(c.stride, u, k) in s'.hashed
                            && c.accepts(c.Nonce(Index(c.stride, u, k))) && !s'.mem.found
      ensures s'.threads[u].pc == TryCas && s'.threads[u].idx == Index(c.stride, u, k)
    {
      var i := Index(c.stride, u, k);
      if th.pc == HashNonce && i == th.idx {
        IndexInjective(c.stride, t, th.poll - 1, u, k);
      } else {
        assert i in s.hashed;
      }
    }
  }

  lemma RunKeepsDeficit(c: Config, s: State, t: nat, base: nat)
    requires Shaped(c, s) && DeficitOk(c, s, base) && Enabled(c, s, Run(t))
    ensures DeficitOk(c, RunThread(c, s, t), base)
  {
    var s' := RunThread(c, s, t);
    forall g: nat | g < c.groups ensures ReportedSums(c, s')[g] == ReportedSums(c, s)[g] {
      if s.reported[g] {
        assert !InGroup(c, g, t);
        SameBlock(c, s, s', g);
      }
    }
    assert ReportedSums(c, s') == ReportedSums(c, s);
  }

  lemma SameBlock(c: Config, s: State, s': State, g: nat)
    requires Shaped(c, s) && Shaped(c, s') && g < c.groups
    requires forall t: nat :: InGroup(c, g, t) && t < c.stride ==> s'.threads[t] == s.threads[t]
    ensures Offset(g, c.group) + c.group <= c.stride
    ensures Block(Remaining(c, s'), c.group, g) == Block(Remaining(c, s), c.group, g)
  {
    GroupFits(c, g);
    var b, b' := Block(Remaining(c, s), c.group, g), Block(Remaining(c, s'), c.group, g);
    forall k | 0 <= k < c.group ensures b'[k] == b[k] {
      assert InGroup(c, g, Offset(g, c.group) + k);
    }
  }

  lemma RemainingBounds(c: Config, s: State)
    requires Shaped(c, s) && ThreadsOk(c, s)
    ensures forall t :: 0 <= t < c.stride ==> 0 <= Remaining(c, s)[t]
    ensures Sum(Remaining(c, s)) + Sum(DoneCounts(s)) == c.count
    ensures Sum(DoneCounts(s)) >= 0
  {
    forall t | 0 <= t < c.stride ensures 0 <= Remaining(c, s)[t] && 0 <= DoneCounts(s)[t] {
      assert ThreadOk(c, t, s.threads[t], Excused(s));
    }
    var e := seq(c.stride, t requires 0 <= t < c.stride => Expected(t, c.stride, c.count));
    ExpectedSum(c.stride, c.count, e);
    SumPointwise(Remaining(c, s), DoneCounts(s), e);
    SumBounds(DoneCounts(s));
  }

  lemma ReportedAtMostRemaining(c: Config, s: State)
    requires Shaped(c, s) && ThreadsOk(c, s)
    ensures 0 <= Sum(ReportedSums(c, s)) <= Sum(Remaining(c, s))
  {
    var all := s.(reported := seq(c.groups, g => true));
    assert Remaining(c, all) == Remaining(c, s);
    AllReported(c, all);
    forall g | 0 <= g < c.groups
      ensures 0 <= ReportedSums(c, s)[g] <= ReportedSums(c, all)[g]
    {
      BlockAtMostAll(c, s, g);
    }
    SumMono(ReportedSums(c, s), ReportedSums(c, all));
    SumBounds(ReportedSums(c, s));
  }

  /** Once every group has reported, the reports add up to all the work left undone. */
  lemma AllReported(c: Config, s: State)
    requires Shaped(c, s) && forall g :: 0 <= g < c.groups ==> s.reported[g]
    ensures Sum(ReportedSums(c, s)) == Sum(Remaining(c, s))
  {
    var all := BlockSums(Remaining(c, s), c.group, c.groups);
    forall g | 0 <= g < c.groups ensures ReportedSums(c, s)[g] == all[g] {
      BlockSumsAt(Remaining(c, s), c.group, c.groups, g);
    }
    assert ReportedSums(c, s) == all;
    SumOfBlocks(Remaining(c, s), c.group, c.groups);
    assert Remaining(c, s)[..c.stride] == Remaining(c, s);
  }

  /** A group whose threads are all out reports exactly the work its threads left undone. */
  lemma GroupReportIsRemaining(c: Config, s: State, g: nat)
    requires Shaped(c, s) && ThreadsOk(c, s) && g < c.groups
    ensures Offset(g, c.group) + c.group <= c.stride
    ensures GroupReport(c, s, g) == Sum(Block(Remaining(c, s), c.group, g))
  {
    BlockAtMostAll(c, s, g);
    GroupDeficitsAreRemaining(c, s, g);
    if c.cuda {
      BlockDeficitIsSum(GroupDeficits(c, s, g));
    } else {
      SumOne(GroupDeficits(c, s, g));
    }
  }

  lemma SumOne(x: seq<int>)
    requires |x| == 1
    ensures Sum(x) == x[0]
  {
    assert x[1..] == [];
  }

  /** The 32-bit subtraction of a thread is exact. */
  lemma ThreadDeficitIsRemaining(c: Config, s: State, t: nat)
    requires Shaped(c, s) && ThreadsOk(c, s) && t < c.stride
    ensures ThreadDeficit(c, t, s.threads[t]) == Remaining(c, s)[t]
  {
    assert ThreadOk(c, t, s.threads[t], Excused(s));
    RemainingBounds(c, s);
    SumBounds(Remaining(c, s));
    SmallMod(Remaining(c, s)[t]);
  }

  lemma GroupDeficitsAreRemaining(c: Config, s: State, g: nat)
    requires Shaped(c, s) && ThreadsOk(c, s) && g < c.groups && Offset(g, c.group) + c.group <= c.stride
    ensures GroupDeficits(c, s, g) == Block(Remaining(c, s), c.group, g)
  {
    forall k | 0 <= k < c.group
      ensures GroupDeficits(c, s, g)[k] == Block(Remaining(c, s), c.group, g)[k]
    {
      ThreadDeficitIsRemaining(c, s, Offset(g, c.group) + k);
    }
  }

  lemma BlockAtMostAll(c: Config, s: State, g: nat)
    requires Shaped(c, s) && ThreadsOk(c, s) && g < c.groups
    ensures Offset(g, c.group) + c.group <= c.stride
    ensures 0 <= Sum(Block(Remaining(c, s), c.group, g)) <= c.count
  {
    GroupFits(c, g);
    RemainingBounds(c, s);
    SumOfSlice(Remaining(c, s), Offset(g, c.group), Offset(g, c.group) + c.group);
  }

  lemma SumSplit(r: seq<int>, at: nat)
    requires at <= |r|
    ensures Sum(r) == Sum(r[..at]) + Sum(r[at..])
  {
    SumConcat(r[..at], r[at..]);
    assert r == r[..at] + r[at..];
  }

  lemma SumOfSlice(r: seq<int>, lo: nat, hi: nat)
    requires lo <= hi <= |r| && forall i :: 0 <= i < |r| ==> r[i] >= 0
    ensures 0 <= Sum(r[lo..hi]) <= Sum(r)
  {
    var rest := r[lo..];
    SumSplit(r, lo);
    SumSplit(rest, hi - lo);
    assert rest[..hi - lo] == r[lo..hi];
    SumBounds(r[..lo]);
    SumBounds(rest[hi - lo..]);
    SumBounds(r[lo..hi]);
  }

  lemma ReportKeepsDeficit(c: Config, s: State, g: nat, base: nat)
    requires Shaped(c, s) && ThreadsOk(c, s) && DeficitOk(c, s, base) && Enabled(c, s, Report(g))
    requires base + c.count < TWO64
    ensures DeficitOk(c, Apply(c, s, Report(g)), base)
  {
    var s' := Apply(c, s, Report(g));
    GroupReportIsRemaining(c, s, g);
    var x := Sum(Block(Remaining(c, s), c.group, g));
    assert Remaining(c, s') == Remaining(c, s);
    assert ReportedSums(c, s') == ReportedSums(c, s)[g := x];
    SumUpdate(ReportedSums(c, s), g, x);
    ReportedAtMostRemaining(c, s');
    RemainingBounds(c, s');
    assert 0 <= s.mem.deficit + x < TWO64;
  }

  /** Every enabled action, by any thread, group or the host, preserves the invariant. */
  lemma StepInv(c: Config, s: State, a: Action, base: nat)
    requires Inv(c, s, base) && c.NoWrap() && base + c.count < TWO64 && Enabled(c, s, a)
    ensures Inv(c, Apply(c, s, a), base)
  {
    match a {
      case Run(t) =>
        RunKeepsThreads(c, s, t);
        RunKeepsHashed(c, s, t);
        RunKeepsWinner(c, s, t);
        RunKeepsNothingMissed(c, s, t);
        RunKeepsDeficit(c, s, t, base);
      case Report(g) =>
        ReportKeepsDeficit(c, s, g, base);
        assert DoneCounts(Apply(c, s, a)) == DoneCounts(s);
      case PushGen(v) =>
        assert DoneCounts(Apply(c, s, a)) == DoneCounts(s);
        assert ReportedSums(c, Apply(c, s, a)) == ReportedSums(c, s);
    }
  }

  /** The invariant holds in every state any legal schedule reaches. */
  lemma {:induction false} ExecInv(c: Config, s: State, schedule: seq<Action>, base: nat)
    requires Inv(c, s, base) && c.NoWrap() && base + c.count < TWO64 && Legal(c, s, schedule)
    ensures Inv(c, Exec(c, s, schedule), base)
    decreases |schedule|
  {
    if schedule != [] {
      StepInv(c, s, schedule[0], base);
      ExecInv(c, Apply(c, s, schedule[0]), schedule[1..], base);
    }
  }

  // ---- What a drained launch delivers ----

  /** Exact accounting: hashed nonces plus the reported deficit is the launch size. */
  lemma DrainedAccounting(c: Config, s: State, base: nat)
    requires Inv(c, s, base) && Terminal(c, s)
    ensures s.mem.deficit - base + |s.hashed| == c.count
  {
    AllReported(c, s);
    RemainingBounds(c, s);
  }

  /** Soundness: a find carries the nonce and digest of one accepted index of this launch. */
  lemma DrainedSound(c: Config, s: State, base: nat)
    requires Inv(c, s, base) && Terminal(c, s) && s.mem.found
    ensures exists i: nat :: i in s.hashed && i < c.count && s.mem.nonce == c.Nonce(i)
                             && c.accepts(s.mem.nonce) && s.mem.hash == c.digest(s.mem.nonce)
  {
    var w := s.winner.value;
    var th := s.threads[w];
    assert ThreadOk(c, w, th, Excused(s));
    assert Index(c.stride, w, th.poll - 1) in s.hashed;
  }

  /** Completeness: without a find, everything hashed was rejected; and without any stale read as
      well, everything was hashed. */
  lemma DrainedComplete(c: Config, s: State, base: nat)
    requires Inv(c, s, base) && Terminal(c, s) && !s.mem.found
    ensures forall i: nat :: i in s.hashed ==> !c.accepts(c.Nonce(i))
    ensures !s.sawStale || s.mem.deficit == base ==> forall i: nat :: i < c.count ==> i in s.hashed
  {
    forall i: nat | i in s.hashed ensures !c.accepts(c.Nonce(i)) {
      IndexCovers(c.stride, i);
      assert Index(c.stride, i % c.stride, i / c.stride) == i;
    }
    if !s.sawStale {
      forall i: nat | i < c.count ensures i in s.hashed { UnexcusedHashesAll(c, s, i); }
    } else if s.mem.deficit == base {
      DrainedAccounting(c, s, base);
      FullSet(s.hashed, c.count);
    }
  }

  lemma UnexcusedHashesAll(c: Config, s: State, i: nat)
    requires Shaped(c, s) && ThreadsOk(c, s) && HashedOk(c, s) && Terminal(c, s) && !Excused(s) && i < c.count
    ensures i in s.hashed
  {
    var t, k := i % c.stride, i / c.stride;
    IndexCovers(c.stride, i);
    IndexInRange(c.stride, c.count, t, k);
    assert ThreadOk(c, t, s.threads[t], Excused(s));
    assert Index(c.stride, t, k) == i;
  }

  lemma {:induction false} FullSet(xs: set<nat>, n: nat)
    requires (forall i :: i in xs ==> i < n) && |xs| == n
    ensures forall i: nat :: i < n ==> i in xs
    decreases n
  {
    if n > 0 {
      if n - 1 in xs {
        var rest := xs - {n - 1};
        FullSet(rest, n - 1);
        assert xs == rest + {n - 1};
      } else {
        SmallSet(xs, n - 1);
      }
    }
  }

  lemma {:induction false} SmallSet(xs: set<nat>, n: nat)
    requires forall i :: i in xs ==> i < n
    ensures |xs| <= n
    decreases n
  {
    if n > 0 {
      SmallSet(xs - {n - 1}, n - 1);
    } else {
      assert xs == {};
    }
  }

  /** If the host never pushes another generation, no thread ever reads a stale one. */
  lemma {:induction false} NoPushNoStale(c: Config, s: State, schedule: seq<Action>)
    requires Shaped(c, s) && Legal(c, s, schedule) && s.liveGen == c.jobGen && !s.sawStale
    requires forall i :: 0 <= i < |schedule| && schedule[i].PushGen? ==> schedule[i].gen == c.jobGen
    ensures !Exec(c, s, schedule).sawStale && Exec(c, s, schedule).liveGen == c.jobGen
    decreases |schedule|
  {
    if schedule != [] {
      assert forall i :: 0 <= i < |schedule[1..]| ==> schedule[1..][i] == schedule[i + 1];
      NoPushNoStale(c, Apply(c, s, schedule[0]), schedule[1..]);
    }
  }

  // ---- Progress: a launch can always drain, and every schedule that keeps running threads does ----

  /** Upper bound on the shared-memory accesses a thread still has to make. */
  function ThreadRank(c: Config, t: nat, th: Thread): int
    requires c.stride > 0
  {
    var left := 8 * (Expected(t, c.stride, c.count) - th.poll);
    match th.pc
    case Top => left + 1
    case ReadFound => left + 8
    case ReadGen => left + 7
    case HashNonce => left + 6
    case TryCas => left + 5
    case WriteNonce => left + 4
    case WriteHash => left + 3
    case Out => 0
  }

  function ThreadRanks(c: Config, s: State): (r: seq<int>)
    requires Shaped(c, s)
    ensures |r| == c.stride
  {
    seq(c.stride, t requires 0 <= t < c.stride => ThreadRank(c, t, s.threads[t]))
  }

  function Unreported(s: State): (r: seq<int>)
    ensures |r| == |s.reported|
  {
    seq(|s.reported|, g requires 0 <= g < |s.reported| => if s.reported[g] then 0 else 1)
  }

  function Rank(c: Config, s: State): int
    requires Shaped(c, s)
  {
    Sum(ThreadRanks(c, s)) + Sum(Unreported(s))
  }

  lemma NextThreadRank(c: Config, t: nat, th: Thread, found: bool, gen: u32, excuse: bool)
    requires c.Valid() && c.NoWrap() && t < c.stride && th.pc != Out && ThreadOk(c, t, th, excuse)
    ensures ThreadRank(c, t, NextThread(c, th, found, gen)) < ThreadRank(c, t, th)
  {
    IndexInRange(c.stride, c.count, t, th.poll);
    if th.poll > 0 { IndexInRange(c.stride, c.count, t, th.poll - 1); }
  }

  /** Every thread step and every report strictly lowers the rank, which never goes below zero:
      no schedule keeps a launch busy for ever. */
  lemma StepLowersRank(c: Config, s: State, a: Action)
    requires Shaped(c, s) && ThreadsOk(c, s) && c.NoWrap() && Enabled(c, s, a) && !a.PushGen?
    ensures Rank(c, Apply(c, s, a)) < Rank(c, s)
  {
    var s' := Apply(c, s, a);
    match a {
      case Run(t) =>
        var x := ThreadRank(c, t, s'.threads[t]);
        assert ThreadOk(c, t, s.threads[t], Excused(s));
        NextThreadRank(c, t, s.threads[t], s.mem.found, s.liveGen, Excused(s));
        assert ThreadRanks(c, s') == ThreadRanks(c, s)[t := x];
        SumUpdate(ThreadRanks(c, s), t, x);
        assert Unreported(s') == Unreported(s);
      case Report(g) =>
        assert ThreadRanks(c, s') == ThreadRanks(c, s);
        assert Unreported(s') == Unreported(s)[g := 0];
        SumUpdate(Unreported(s), g, 0);
    }
  }

  lemma RankNonNegative(c: Config, s: State)
    requires Shaped(c, s) && ThreadsOk(c, s)
    ensures Rank(c, s) >= 0
  {
    forall t | 0 <= t < c.stride ensures ThreadRanks(c, s)[t] >= 0 {
      assert ThreadOk(c, t, s.threads[t], Excused(s));
      ThreadRankNonNegative(c, t, s.threads[t], Excused(s));
    }
    SumBounds(ThreadRanks(c, s));
    SumBounds(Unreported(s));
  }

  lemma ThreadRankNonNegative(c: Config, t: nat, th: Thread, excuse: bool)
    requires t < c.stride && ThreadOk(c, t, th, excuse)
    ensures ThreadRank(c, t, th) >= 0
  {
    if th.poll > 0 { IndexInRange(c.stride, c.count, t, th.poll - 1); }
  }

  /** No reachable state is stuck: from each one some schedule drains the launch. */
  lemma {:induction false} CanDrain(c: Config, s: State, base: nat) returns (schedule: seq<Action>)
    requires Inv(c, s, base) && c.NoWrap() && base + c.count < TWO64
    ensures Legal(c, s, schedule) && Terminal(c, Exec(c, s, schedule))
    decreases Rank(c, s)
  {
    RankNonNegative(c, s);
    if Terminal(c, s) {
      schedule := [];
    } else {
      var a: Action;
      if t: nat :| t < c.stride && s.threads[t].pc != Out {
        a := Run(t);
      } else {
        var g: nat :| g < c.groups && !s.reported[g];
        a := Report(g);
      }
      StepInv(c, s, a, base);
      StepLowersRank(c, s, a);
      RankNonNegative(c, Apply(c, s, a));
      var rest := CanDrain(c, Apply(c, s, a), base);
      schedule := [a] + rest;
    }
  }
}
