/** How soon a running launch notices a find or a newer generation: every thread polls for both before
    each 256th nonce of its own. */
module ScanPrompt {
  import opened Words
  import opened ScanKernel
  import opened ScanInvariant

  const PERIOD: nat := 256

  /** Nonces a thread has hashed when it reaches its next poll. */
  function NextPoll(poll: nat): nat { poll / PERIOD * PERIOD + PERIOD - 1 }

  /** Nonces a thread can have hashed at most when it stops, once there is a find (`cancelled` is false) or
      the generation is another one for good (`cancelled` is true). */
  function Ceiling(th: Thread, cancelled: bool): int {
    match th.pc
    case Top => NextPoll(th.poll)
    case HashNonce => NextPoll(th.poll)
    case ReadFound => th.poll - 1
    case ReadGen => if cancelled then th.poll - 1 else NextPoll(th.poll)
    case _ => th.Done()
  }

  lemma CeilingBounds(th: Thread, cancelled: bool)
    ensures th.Done() <= Ceiling(th, cancelled) <= th.Done() + PERIOD
  {
  }

  lemma NextPollStays(poll: nat)
    ensures (poll + 1) % PERIOD != 0 ==> NextPoll(poll + 1) == NextPoll(poll)
    ensures (poll + 1) % PERIOD == 0 ==> NextPoll(poll) == poll
  {
  }

  lemma NextCeiling(c: Config, th: Thread, found: bool, gen: u32, cancelled: bool)
    requires th.pc != Out && !th.bailed && (if cancelled then gen != c.jobGen else found)
    ensures Ceiling(NextThread(c, th, found, gen), cancelled) <= Ceiling(th, cancelled)
  {
    NextPollStays(th.poll);
    CeilingBounds(th, cancelled);
  }

  /** No write brings the job's own generation back. */
  predicate StaysCancelled(c: Config, schedule: seq<Action>) {
    forall i :: 0 <= i < |schedule| && schedule[i].PushGen? ==> schedule[i].gen != c.jobGen
  }

  /** The launch is to stop: somebody has won, or the generation is another one and remains so. */
  predicate Stopping(c: Config, s: State, schedule: seq<Action>, cancelled: bool) {
    if cancelled then s.liveGen != c.jobGen && StaysCancelled(c, schedule) else s.mem.found
  }

  predicate NobodyHalfBailed(s: State) {
    forall t :: 0 <= t < |s.threads| && s.threads[t].bailed ==> s.threads[t].pc == Out
  }

  lemma StepStops(c: Config, s: State, schedule: seq<Action>, cancelled: bool)
    requires Shaped(c, s) && schedule != [] && Enabled(c, s, schedule[0]) && Stopping(c, s, schedule, cancelled)
    requires NobodyHalfBailed(s)
    ensures var s' := Apply(c, s, schedule[0]);
            Stopping(c, s', schedule[1..], cancelled) && NobodyHalfBailed(s')
    ensures forall t :: 0 <= t < c.stride ==>
      Ceiling(Apply(c, s, schedule[0]).threads[t], cancelled) <= Ceiling(s.threads[t], cancelled)
  {
    assert forall i :: 0 <= i < |schedule[1..]| ==> schedule[1..][i] == schedule[i + 1];
    if schedule[0].Run? { NextCeiling(c, s.threads[schedule[0].thread], s.mem.found, s.liveGen, cancelled); }
  }

  lemma {:induction false} ExecStops(c: Config, s: State, schedule: seq<Action>, cancelled: bool)
    requires Shaped(c, s) && Legal(c, s, schedule) && Stopping(c, s, schedule, cancelled) && NobodyHalfBailed(s)
    ensures forall t :: 0 <= t < c.stride ==>
      Ceiling(Exec(c, s, schedule).threads[t], cancelled) <= Ceiling(s.threads[t], cancelled)
    ensures cancelled ==> Exec(c, s, schedule).liveGen != c.jobGen
    decreases |schedule|
  {
    if schedule != [] {
      StepStops(c, s, schedule, cancelled);
      ExecStops(c, Apply(c, s, schedule[0]), schedule[1..], cancelled);
    }
  }

  lemma {:induction false} SumAddsAtMost(a: seq<int>, b: seq<int>, d: nat)
    requires |a| == |b| && forall t :: 0 <= t < |a| ==> b[t] <= a[t] + d
    ensures Sum(b) <= Sum(a) + d * |a|
  {
    if a != [] { SumAddsAtMost(a[1..], b[1..], d); }
  }

  /** From any reachable state with a find or a foreign generation, whatever the schedule, no thread hashes
      more than 256 nonces before it stops. */
  lemma StopsSoon(c: Config, s: State, schedule: seq<Action>, base: nat, cancelled: bool)
    requires Inv(c, s, base) && c.NoWrap() && base + c.count < TWO64
    requires Legal(c, s, schedule) && Stopping(c, s, schedule, cancelled)
    ensures var end := Exec(c, s, schedule);
            && (forall t :: 0 <= t < c.stride ==> end.threads[t].Done() <= s.threads[t].Done() + PERIOD)
            && end.hashCount <= s.hashCount + PERIOD * c.stride
  {
    var end := Exec(c, s, schedule);
    ThreadsNotHalfBailed(c, s);
    ExecStops(c, s, schedule, cancelled);
    ExecInv(c, s, schedule, base);
    forall t | 0 <= t < c.stride ensures end.threads[t].Done() <= s.threads[t].Done() + PERIOD {
      CeilingBounds(s.threads[t], cancelled);
      CeilingBounds(end.threads[t], cancelled);
    }
    SumAddsAtMost(DoneCounts(s), DoneCounts(end), PERIOD);
  }

  lemma {:induction false} LegalSplit(c: Config, s: State, a: seq<Action>, b: seq<Action>)
    requires Shaped(c, s) && Legal(c, s, a + b)
    ensures Legal(c, s, a) && Legal(c, Exec(c, s, a), b) && Exec(c, s, a + b) == Exec(c, Exec(c, s, a), b)
    decreases |a|
  {
    if a == [] {
      assert a + b == b;
    } else {
      assert (a + b)[0] == a[0] && (a + b)[1..] == a[1..] + b;
      LegalSplit(c, Apply(c, s, a[0]), a[1..], b);
    }
  }

  /** A cancel reaches a running launch: once another generation has been pushed, and for as long as the job's
      own does not come back, no thread hashes more than 256 further nonces. */
  lemma CancelReaches(c: Config, s: State, before: seq<Action>, gen: u32, after: seq<Action>, base: nat)
    requires Inv(c, s, base) && c.NoWrap() && base + c.count < TWO64 && gen != c.jobGen && StaysCancelled(c, after)
    requires Legal(c, s, before + ([PushGen(gen)] + after))
    ensures Legal(c, s, before)
    ensures Exec(c, s, before + ([PushGen(gen)] + after)).hashCount <= Exec(c, s, before).hashCount + PERIOD * c.stride
  {
    LegalSplit(c, s, before, [PushGen(gen)] + after);
    var now := Exec(c, s, before);
    assert ([PushGen(gen)] + after)[1..] == after;
    ExecInv(c, s, before, base);
    StepInv(c, now, PushGen(gen), base);
    StopsSoon(c, Apply(c, now, PushGen(gen)), after, base, true);
  }

  lemma ThreadsNotHalfBailed(c: Config, s: State)
    requires Shaped(c, s) && ThreadsOk(c, s)
    ensures NobodyHalfBailed(s)
  {
    forall t | 0 <= t < |s.threads| && s.threads[t].bailed ensures s.threads[t].pc == Out {
      assert ThreadOk(c, t, s.threads[t], Excused(s));
    }
  }

  // ---- Where threads stop ----

  /** A thread polls before its every 256th nonce and only there; one that left without bailing has hashed
      all its nonces or met a find. */
  predicate Polled(c: Config, t: nat, th: Thread, found: bool)
    requires c.stride > 0
  {
    && (th.pc in {ReadFound, ReadGen} || th.bailed ==> th.poll > 0 && th.poll % PERIOD == 0)
    && (th.pc in {WriteNonce, WriteHash} ==> found)
    && (th.pc == Out && !th.bailed ==> found || th.Done() == Expected(t, c.stride, c.count))
  }

  predicate AllPolled(c: Config, s: State)
    requires Shaped(c, s)
  {
    forall t: nat :: t < c.stride ==> Polled(c, t, s.threads[t], s.mem.found)
  }

  lemma NextPolled(c: Config, t: nat, th: Thread, found: bool, gen: u32, excuse: bool)
    requires c.Valid() && t < c.stride && th.pc != Out && ThreadOk(c, t, th, excuse) && Polled(c, t, th, found)
    ensures Polled(c, t, NextThread(c, th, found, gen), found || th.pc == TryCas)
  {
    IndexInRange(c.stride, c.count, t, th.poll);
  }

  lemma StepPolled(c: Config, s: State, a: Action)
    requires Shaped(c, s) && ThreadsOk(c, s) && AllPolled(c, s) && Enabled(c, s, a)
    ensures AllPolled(c, Apply(c, s, a))
  {
    if a.Run? {
      var t := a.thread;
      assert ThreadOk(c, t, s.threads[t], Excused(s));
      NextPolled(c, t, s.threads[t], s.mem.found, s.liveGen, Excused(s));
    }
  }

  lemma {:induction false} ExecPolled(c: Config, s: State, schedule: seq<Action>, base: nat)
    requires Inv(c, s, base) && c.NoWrap() && base + c.count < TWO64 && Legal(c, s, schedule) && AllPolled(c, s)
    ensures AllPolled(c, Exec(c, s, schedule))
    decreases |schedule|
  {
    if schedule != [] {
      StepInv(c, s, schedule[0], base);
      StepPolled(c, s, schedule[0]);
      ExecPolled(c, Apply(c, s, schedule[0]), schedule[1..], base);
    }
  }

  /** What each thread of a launch on a foreign generation gets to hash. */
  function BeforeFirstPoll(c: Config): (r: seq<int>)
    requires c.stride > 0
    ensures |r| == c.stride
  {
    seq(c.stride, t requires 0 <= t < c.stride =>
      if Expected(t, c.stride, c.count) < PERIOD then Expected(t, c.stride, c.count) else PERIOD - 1)
  }

  /** A drained launch whose device was on a foreign generation from the start: every thread stops at its
      first poll, so it hashes at most 255 nonces; without a find exactly 255, or all it was given. */
  lemma CancelledLaunch(c: Config, mem: Memory, gen: u32, schedule: seq<Action>)
    requires Launchable(c, mem) && gen != c.jobGen && StaysCancelled(c, schedule)
    requires Legal(c, Init(c, mem, gen), schedule) && Terminal(c, Exec(c, Init(c, mem, gen), schedule))
    ensures var end := Exec(c, Init(c, mem, gen), schedule);
            && end.hashCount <= Sum(BeforeFirstPoll(c)) <= (PERIOD - 1) * c.stride
            && (!end.mem.found ==> end.hashCount == Sum(BeforeFirstPoll(c)))
            && end.liveGen != c.jobGen
  {
    var start, end := Init(c, mem, gen), Exec(c, Init(c, mem, gen), schedule);
    InitInv(c, mem, gen);
    ExecInv(c, start, schedule, mem.deficit);
    ExecStops(c, start, schedule, true);
    ExecPolled(c, start, schedule, mem.deficit);
    forall t: nat | t < c.stride
      ensures DoneCounts(end)[t] <= BeforeFirstPoll(c)[t]
      ensures !end.mem.found ==> DoneCounts(end)[t] == BeforeFirstPoll(c)[t]
    {
      assert ThreadOk(c, t, end.threads[t], Excused(end)) && Polled(c, t, end.threads[t], end.mem.found);
      assert Ceiling(end.threads[t], true) <= Ceiling(start.threads[t], true) == PERIOD - 1;
      if end.threads[t].bailed { MultipleAtLeast(end.threads[t].poll); }
    }
    SumMono(DoneCounts(end), BeforeFirstPoll(c));
    if !end.mem.found { assert DoneCounts(end) == BeforeFirstPoll(c); }
    FirstPollBound(c);
  }

  lemma MultipleAtLeast(poll: nat)
    requires poll > 0 && poll % PERIOD == 0
    ensures poll >= PERIOD
  {
  }

  lemma FirstPollBound(c: Config)
    requires c.stride > 0
    ensures Sum(BeforeFirstPoll(c)) <= (PERIOD - 1) * c.stride
  {
    var zeros := seq<int>(c.stride, t => 0);
    SumZero(zeros);
    SumAddsAtMost(zeros, BeforeFirstPoll(c), PERIOD - 1);
  }
}
