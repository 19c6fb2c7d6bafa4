/** The notify/cancel protocol between the network thread and the mining thread of
    alphanumeric_runner.cpp, and the device generation that lets a cancel reach a running batch, as an
    interleaving of their atomic steps. Jobs are numbered by the write that published them; 0 stands
    for no job. Generations are counted by the request_cancel calls that made them. */
module CancelProtocol {
  import opened Words

  /** Where the network thread is inside one publication. */
  datatype NetPc = Idle | Written | Bumped | Flagged

  /** Where the mining thread is inside one iteration of its loop. */
  datatype MinerPc =
    | Top            // about to test cancel and local_have
    | Lock           // decided to take the lock
    | Copied         // holds the lock, job copied
    | Ready          // past the adoption block
    | Sampled        // job_seq sampled, scan about to load the device generation
    | Scanning       // scan running
    | Found          // scan returned a share, about to load job_seq
    | SeqChecked     // generation unchanged, about to load cancel
    | Passed         // both tests passed: the share goes out

  datatype State = State(
    written: nat,    // version in current_job
    jobSeq: u64,     // job_seq
    cancel: bool,
    net: NetPc,
    miner: MinerPc,
    held: nat,       // version in the miner's copy
    mySeq: u64,
    requested: nat,  // request_cancel calls so far; the host generation modulo 2^32
    delivered: nat,  // the latest of them whose write has reached the device
    scanGen: nat)    // requested when the running scan loaded its generation

  datatype Action =
    | Write          // notify or set_difficulty replaces current_job under the lock
    | Bump           // job_seq.fetch_add
    | Cancel         // cancel.store(true)
    | RequestCancel  // bump the host generation and start an asynchronous write to the device
    | Deliver(n: nat) // such a write, or a later one that overtook it in the staging cell, arrives
    | TestCancel
    | Adopt          // lock taken; copy current_job if there is one
    | ClearCancel    // cancel.store(false), lock released
    | SampleSeq      // my_seq = job_seq
    | LoadGen        // the scan loads the host generation and launches
    | ScanEnds(found: bool)
    | CheckSeq
    | CheckCancel
    | Submit

  function Init(): State { State(0, 0, false, Idle, Top, 0, 0, 0, 0, 0) }

  predicate MinerHasLock(s: State) { s.miner == Copied }

  predicate Enabled(s: State, a: Action) {
    match a
    case Write => s.net == Idle && !MinerHasLock(s)
    case Bump => s.net == Written
    case Cancel => s.net == Bumped
    case RequestCancel => s.net == Flagged
    case Deliver(n) => s.delivered < n <= s.requested
    case TestCancel => s.miner == Top
    case Adopt => s.miner == Lock
    case ClearCancel => s.miner == Copied
    case SampleSeq => s.miner == Ready
    case LoadGen => s.miner == Sampled
    case ScanEnds(_) => s.miner == Scanning
    case CheckSeq => s.miner == Found
    case CheckCancel => s.miner == SeqChecked
    case Submit => s.miner == Passed
  }

  function Step(s: State, a: Action): State
    requires Enabled(s, a)
  {
    match a
    case Write => s.(written := s.written + 1, net := Written)
    case Bump => s.(jobSeq := (s.jobSeq + 1) % TWO64, net := Bumped)
    case Cancel => s.(cancel := true, net := Flagged)
    case RequestCancel => s.(requested := s.requested + 1, net := Idle)
    case Deliver(n) => s.(delivered := n)
    case TestCancel => s.(miner := if s.cancel || s.held == 0 then Lock else Ready)
    case Adopt =>
      // Without a job the lock is released again and the loop restarts.
      if s.written > 0 then s.(held := s.written, miner := Copied) else s.(miner := Top)
    case ClearCancel => s.(cancel := false, miner := Ready)
    case SampleSeq => s.(mySeq := s.jobSeq, miner := Sampled)
    case LoadGen => s.(scanGen := s.requested, miner := Scanning)
    case ScanEnds(found) => s.(miner := if found then Found else Top)
    case CheckSeq => s.(miner := if s.mySeq != s.jobSeq then Top else SeqChecked)
    case CheckCancel => s.(miner := if s.cancel then Top else Passed)
    case Submit => s.(miner := Top)
  }

  /** Publications whose write, bump and cancel store have all happened. */
  function Completed(s: State): int { s.written - if s.net in {Written, Bumped} then 1 else 0 }

  predicate Legal(s: State, run: seq<Action>)
    decreases |run|
  {
    run == [] || (Enabled(s, run[0]) && Legal(Step(s, run[0]), run[1..]))
  }

  function Exec(s: State, run: seq<Action>): State
    requires Legal(s, run)
    decreases |run|
  {
    if run == [] then s else Exec(Step(s, run[0]), run[1..])
  }

  // ---- No cancel is lost ----

  ghost predicate Inv(s: State) {
    && s.held <= s.written
    && s.requested == s.written - (if s.net == Idle then 0 else 1)
    && s.delivered <= s.requested
    && (!s.cancel ==> s.held >= Completed(s))
    && (s.miner == Copied ==> s.held == s.written)
    && (s.miner == Lock ==> s.cancel || s.held == 0)
    && (s.miner in {Ready, Sampled, Scanning, Found, SeqChecked, Passed, Copied} ==> s.held > 0)
  }

  lemma StepKeepsInv(s: State, a: Action)
    requires Inv(s) && Enabled(s, a)
    ensures Inv(Step(s, a))
  {
  }

  lemma {:induction false} ExecKeepsInv(s: State, run: seq<Action>)
    requires Inv(s) && Legal(s, run)
    ensures Inv(Exec(s, run))
    decreases |run|
  {
    if run != [] {
      StepKeepsInv(s, run[0]);
      ExecKeepsInv(Step(s, run[0]), run[1..]);
    }
  }

  /** In every reachable state without a pending cancel, the held job is at least as new as every
      completed publication: clearing the flag never hides one. */
  lemma NoCancelLost(run: seq<Action>)
    requires Legal(Init(), run)
    ensures var s := Exec(Init(), run); !s.cancel ==> s.held >= Completed(s)
  {
    ExecKeepsInv(Init(), run);
  }

  /** A share that passes the staleness tests belongs to the newest job, or to the one before it while
      the newest is still being published. */
  lemma PassingShareIsFresh(run: seq<Action>)
    requires Legal(Init(), run + [CheckCancel])
    requires Exec(Init(), run + [CheckCancel]).miner == Passed
    ensures var s := Exec(Init(), run + [CheckCancel]);
      0 < s.held <= s.written <= s.held + if s.net in {Written, Bumped} then 1 else 0
  {
    ExecSplit(Init(), run, [CheckCancel]);
    NoCancelLost(run);
    ExecKeepsInv(Init(), run);
    var s := Exec(Init(), run);
    assert Exec(s, [CheckCancel]) == Step(s, CheckCancel);
  }

  lemma {:induction false} ExecSplit(s: State, run: seq<Action>, more: seq<Action>)
    requires Legal(s, run + more)
    ensures Legal(s, run) && Legal(Exec(s, run), more)
    ensures Exec(s, run + more) == Exec(Exec(s, run), more)
    decreases |run|
  {
    if run == [] {
      assert run + more == more;
    } else {
      assert (run + more)[1..] == run[1..] + more;
      ExecSplit(Step(s, run[0]), run[1..], more);
    }
  }

  /** Job 1 is published, and the miner has seen its cancel. */
  function PublishOne(): seq<Action> { [Write, Bump, Cancel] + [RequestCancel, Deliver(1), TestCancel] }

  /** The miner adopts job 1; job 2 is written and counted before the generation is sampled. */
  function ShareOfOne(): seq<Action> {
    [Adopt, ClearCancel, Write] + ([Bump, SampleSeq, LoadGen] + [ScanEnds(true), CheckSeq, CheckCancel])
  }

  lemma ShareOfOnePasses(s: State)
    requires s == State(1, 1, true, Idle, Lock, 0, 0, 1, 1, 0)
    ensures Legal(s, ShareOfOne()) && Exec(s, ShareOfOne()) == State(2, 2, false, Bumped, Passed, 1, 2, 1, 1, 1)
  {
    var s1 := State(2, 1, false, Written, Ready, 1, 0, 1, 1, 0);
    var s2 := State(2, 2, false, Bumped, Scanning, 1, 2, 1, 1, 1);
    RunThree(s, Adopt, ClearCancel, Write, s1);
    RunThree(s1, Bump, SampleSeq, LoadGen, s2);
    RunThree(s2, ScanEnds(true), CheckSeq, CheckCancel, s2.(miner := Passed));
    ExecJoin(s1, [Bump, SampleSeq, LoadGen], [ScanEnds(true), CheckSeq, CheckCancel]);
    ExecJoin(s, [Adopt, ClearCancel, Write], [Bump, SampleSeq, LoadGen] + [ScanEnds(true), CheckSeq, CheckCancel]);
  }

  lemma PublishOneRuns()
    ensures Legal(Init(), PublishOne()) && Exec(Init(), PublishOne()) == State(1, 1, true, Idle, Lock, 0, 0, 1, 1, 0)
  {
    var s1 := State(1, 1, true, Flagged, Top, 0, 0, 0, 0, 0);
    RunThree(Init(), Write, Bump, Cancel, s1);
    RunThree(s1, RequestCancel, Deliver(1), TestCancel, State(1, 1, true, Idle, Lock, 0, 0, 1, 1, 0));
    ExecJoin(Init(), [Write, Bump, Cancel], [RequestCancel, Deliver(1), TestCancel]);
  }

  /** The bound is reached: job 2's cancel store is still to come, so both tests pass on a share of job 1. */
  lemma OneBehindIsPossible()
    ensures Legal(Init(), PublishOne() + ShareOfOne())
    ensures var s := Exec(Init(), PublishOne() + ShareOfOne());
      s.miner == Passed && s.held == 1 && s.written == 2 && s.mySeq == s.jobSeq && !s.cancel
  {
    PublishOneRuns();
    ShareOfOnePasses(State(1, 1, true, Idle, Lock, 0, 0, 1, 1, 0));
    ExecJoin(Init(), PublishOne(), ShareOfOne());
  }

  // ---- The generation test ----

  function One(a: Action): nat { if a == Bump then 1 else 0 }

  /** How often job_seq is incremented. */
  function Bumps(run: seq<Action>): nat { if run == [] then 0 else One(run[0]) + Bumps(run[1..]) }

  predicate NoSample(run: seq<Action>) { forall i :: 0 <= i < |run| ==> run[i] != SampleSeq }

  /** Sampled, and not yet past the scan. */
  predicate BeforeResult(m: MinerPc) { m in {Sampled, Scanning} }

  lemma StepCounts(s: State, a: Action)
    requires Enabled(s, a) && a != SampleSeq
    ensures Step(s, a).mySeq == s.mySeq && Step(s, a).jobSeq == (s.jobSeq + One(a)) % TWO64
  {
  }

  lemma BumpAdds(x: u64, y: u64, m: nat, n: nat)
    requires y == (x + m) % TWO64
    ensures (y + n) % TWO64 == (x + (m + n)) % TWO64
  {
  }

  /** A stretch without a sample keeps the sample and counts its bumps modulo 2^64. */
  lemma {:induction false} CountsBumps(s: State, run: seq<Action>)
    requires Legal(s, run) && NoSample(run)
    ensures Exec(s, run).mySeq == s.mySeq && Exec(s, run).jobSeq == (s.jobSeq + Bumps(run)) % TWO64
    decreases |run|
  {
    if run != [] {
      var next, rest := Step(s, run[0]), run[1..];
      assert forall i :: 0 <= i < |rest| ==> rest[i] == run[i + 1];
      StepCounts(s, run[0]);
      CountsBumps(next, rest);
      BumpAdds(s.jobSeq, next.jobSeq, One(run[0]), Bumps(rest));
    }
  }

  /** No scan has ended in the run. */
  predicate NoEnd(run: seq<Action>) { ScanEnds(true) !in run && ScanEnds(false) !in run }

  /** The scan that ended in the run has found a share. */
  predicate EndedWithFind(run: seq<Action>) { ScanEnds(true) in run && ScanEnds(false) !in run }

  /** Without another sample the miner never comes back to a scan, and has a find only if it has it still. */
  lemma {:induction false} AfterResult(s: State, run: seq<Action>)
    requires Legal(s, run) && NoSample(run) && !BeforeResult(s.miner)
    ensures !BeforeResult(Exec(s, run).miner)
    ensures Exec(s, run).miner == Found ==> s.miner == Found && NoEnd(run)
    decreases |run|
  {
    if run != [] {
      var rest := run[1..];
      assert run == [run[0]] + rest;
      assert forall i :: 0 <= i < |rest| ==> rest[i] == run[i + 1];
      AfterResult(Step(s, run[0]), rest);
    }
  }

  /** Without another sample the miner has a find only from the scan that followed this one. */
  lemma {:induction false} AfterSample(s: State, run: seq<Action>)
    requires Legal(s, run) && NoSample(run) && BeforeResult(s.miner)
    ensures Exec(s, run).miner == Found ==> EndedWithFind(run)
    decreases |run|
  {
    if run != [] {
      var next, rest := Step(s, run[0]), run[1..];
      assert run == [run[0]] + rest;
      assert forall i :: 0 <= i < |rest| ==> rest[i] == run[i + 1];
      if BeforeResult(next.miner) {
        AfterSample(next, rest);
      } else {
        AfterResult(next, rest);
      }
    }
  }

  lemma SameAfter(x: u64, n: nat)
    ensures (x + n) % TWO64 == x <==> n % TWO64 == 0
  {
  }

  /** From a sample to the generation test that follows it: the test passes if and only if the number of
      bumps in between is a multiple of 2^64, and the share it is about comes from a scan that found one. */
  lemma GenerationTest(s: State, mid: seq<Action>)
    requires Legal(s, [SampleSeq] + mid + [CheckSeq]) && NoSample(mid)
    ensures var end := Exec(s, [SampleSeq] + mid + [CheckSeq]);
      && (end.miner == SeqChecked <==> Bumps(mid) % TWO64 == 0)
      && (end.miner == Top <==> Bumps(mid) % TWO64 != 0)
    ensures EndedWithFind(mid)
  {
    ExecSplit(s, [SampleSeq] + mid, [CheckSeq]);
    ExecSplit(s, [SampleSeq], mid);
    RunOne(s, SampleSeq);
    var sampled := Step(s, SampleSeq);
    CountsBumps(sampled, mid);
    AfterSample(sampled, mid);
    RunOne(Exec(sampled, mid), CheckSeq);
    SameAfter(s.jobSeq, Bumps(mid));
  }

  /** Exactly the shares that go out: from a sample to the second test, a share passes if and only if the
      bumps up to the first test number a multiple of 2^64 and no cancel is pending at the second. */
  lemma SharePasses(s: State, mid: seq<Action>, post: seq<Action>)
    requires Legal(s, [SampleSeq] + mid + [CheckSeq] + post + [CheckCancel])
    requires NoSample(mid) && forall i :: 0 <= i < |post| ==> NetAction(post[i])
    ensures Legal(s, [SampleSeq] + mid + [CheckSeq] + post)
    ensures Bumps(mid) % TWO64 == 0
    ensures var end := Exec(s, [SampleSeq] + mid + [CheckSeq] + post);
      Exec(s, [SampleSeq] + mid + [CheckSeq] + post + [CheckCancel]).miner == Passed <==> !end.cancel
  {
    var upTo := [SampleSeq] + mid + [CheckSeq];
    ExecSplit(s, upTo + post, [CheckCancel]);
    ExecSplit(s, upTo, post);
    GenerationTest(s, mid);
    NetKeepsMiner(Exec(s, upTo), post);
    RunOne(Exec(s, upTo + post), CheckCancel);
  }

  lemma {:induction false} NetKeepsMiner(s: State, run: seq<Action>)
    requires Legal(s, run) && forall i :: 0 <= i < |run| ==> NetAction(run[i])
    ensures Exec(s, run).miner == s.miner
    decreases |run|
  {
    if run != [] {
      assert forall i :: 0 <= i < |run[1..]| ==> run[1..][i] == run[i + 1];
      NetKeepsMiner(Step(s, run[0]), run[1..]);
    }
  }

  lemma RunThree(s: State, a: Action, b: Action, c: Action, end: State)
    requires Enabled(s, a) && Enabled(Step(s, a), b) && Enabled(Step(Step(s, a), b), c)
    requires end == Step(Step(Step(s, a), b), c)
    ensures Legal(s, [a, b, c]) && Exec(s, [a, b, c]) == end
  {
    var s1 := Step(s, a);
    assert [a, b, c][1..] == [b, c] && [b, c][1..] == [c] && [c][1..] == [];
    assert Legal(Step(s1, b), [c]);
    assert Legal(s1, [b, c]);
    assert Exec(Step(s1, b), [c]) == Step(Step(s1, b), c);
    assert Exec(s1, [b, c]) == Exec(Step(s1, b), [c]);
  }

  /** The other way to be one behind: job 2 is counted between the two tests of a share of job 1. */
  function CountedBetweenTests(): seq<Action> {
    [Adopt, ClearCancel, SampleSeq] + ([LoadGen, ScanEnds(true), CheckSeq] + [Write, Bump, CheckCancel])
  }

  lemma LateBumpPasses()
    ensures Legal(Init(), PublishOne() + CountedBetweenTests())
    ensures var s := Exec(Init(), PublishOne() + CountedBetweenTests());
      s.miner == Passed && s.held == 1 && s.written == 2 && s.mySeq != s.jobSeq && !s.cancel
  {
    PublishOneRuns();
    var s := State(1, 1, true, Idle, Lock, 0, 0, 1, 1, 0);
    var s1 := State(1, 1, false, Idle, Sampled, 1, 1, 1, 1, 0);
    var s2 := State(1, 1, false, Idle, SeqChecked, 1, 1, 1, 1, 1);
    var s3 := State(2, 2, false, Bumped, Passed, 1, 1, 1, 1, 1);
    RunThree(s, Adopt, ClearCancel, SampleSeq, s1);
    RunThree(s1, LoadGen, ScanEnds(true), CheckSeq, s2);
    RunThree(s2, Write, Bump, CheckCancel, s3);
    ExecJoin(s1, [LoadGen, ScanEnds(true), CheckSeq], [Write, Bump, CheckCancel]);
    ExecJoin(s, [Adopt, ClearCancel, SampleSeq], [LoadGen, ScanEnds(true), CheckSeq] + [Write, Bump, CheckCancel]);
    ExecJoin(Init(), PublishOne(), CountedBetweenTests());
  }

  lemma {:induction false} ExecJoin(s: State, run: seq<Action>, more: seq<Action>)
    requires Legal(s, run) && Legal(Exec(s, run), more)
    ensures Legal(s, run + more) && Exec(s, run + more) == Exec(Exec(s, run), more)
    decreases |run|
  {
    if run == [] {
      assert run + more == more;
    } else {
      assert (run + more)[1..] == run[1..] + more;
      ExecJoin(Step(s, run[0]), run[1..], more);
    }
  }

  /** The miner's copy never goes back to an older job. */
  lemma {:induction false} HeldNeverGoesBack(s: State, run: seq<Action>)
    requires Inv(s) && Legal(s, run)
    ensures s.held <= Exec(s, run).held
    decreases |run|
  {
    if run != [] {
      StepKeepsInv(s, run[0]);
      HeldNeverGoesBack(Step(s, run[0]), run[1..]);
    }
  }

  // ---- No adoption without a cancel ----

  function Times(a: Action, run: seq<Action>): nat {
    if run == [] then 0 else Times(a, run[..|run| - 1]) + if run[|run| - 1] == a then 1 else 0
  }

  /** A cancel that is pending or just being consumed. */
  function Unconsumed(s: State): nat { if s.cancel || s.miner == Copied then 1 else 0 }

  /** Apart from the first job, every adoption consumes a cancel store of its own. */
  lemma {:induction false} AdoptionsConsumeCancels(run: seq<Action>)
    requires Legal(Init(), run)
    ensures var s := Exec(Init(), run);
      Times(ClearCancel, run) + Unconsumed(s) <= Times(Cancel, run) + if s.held > 0 then 1 else 0
    decreases |run|
  {
    if run != [] {
      var before, a := run[..|run| - 1], run[|run| - 1];
      assert run == before + [a];
      ExecSplit(Init(), before, [a]);
      RunOne(Exec(Init(), before), a);
      AdoptionsConsumeCancels(before);
      ExecKeepsInv(Init(), before);
    }
  }

  /** The loop goes back to nonce 0 at most once more than cancels have been stored. */
  lemma RewindsAtMost(run: seq<Action>)
    requires Legal(Init(), run)
    ensures Times(ClearCancel, run) <= Times(Cancel, run) + 1
  {
    AdoptionsConsumeCancels(run);
  }

  // ---- Every publication is picked up ----

  /** How many of its own steps the miner still needs before it holds a fresh copy. */
  function StepsToAdopt(m: MinerPc): nat {
    match m
    case Copied => 1
    case Lock => 2
    case Top => 3
    case Passed => 4
    case SeqChecked => 5
    case Found => 6
    case Scanning => 7
    case Sampled => 8
    case Ready => 9
  }

  /** Steps of the network thread and of the device. */
  predicate NetAction(a: Action) { a in {Write, Bump, Cancel, RequestCancel} || a.Deliver? }

  /** While a cancel is pending, every miner step moves it closer to adopting, whatever the scan and the
      tests report, and network steps never move it away. */
  lemma PendingCancelStep(s: State, a: Action)
    requires Inv(s) && s.cancel && Enabled(s, a)
    ensures NetAction(a) ==> Step(s, a).cancel && Step(s, a).miner == s.miner
    ensures !NetAction(a) && a != ClearCancel && s.written > 0 ==>
      Step(s, a).cancel && StepsToAdopt(Step(s, a).miner) < StepsToAdopt(s.miner)
    ensures a == ClearCancel ==> Step(s, a).held == s.written
  {
  }

  function MinerSteps(run: seq<Action>): nat {
    if run == [] then 0 else (if NetAction(run[0]) then 0 else 1) + MinerSteps(run[1..])
  }

  /** So every run in which the miner takes that many steps adopts: whatever the network and the device do
      meanwhile, at the latest with that many of its steps the flag is cleared, and at that moment the miner
      holds the newest job. */
  lemma {:induction false} PendingCancelIsServed(s: State, run: seq<Action>) returns (k: nat)
    requires Inv(s) && s.cancel && s.written > 0 && Legal(s, run) && MinerSteps(run) >= StepsToAdopt(s.miner)
    ensures k < |run| && run[k] == ClearCancel && MinerSteps(run[..k + 1]) <= StepsToAdopt(s.miner)
    ensures Legal(s, run[..k + 1]) && var end := Exec(s, run[..k + 1]); !end.cancel && end.held == end.written
    decreases |run|
  {
    var a := run[0];
    PendingCancelStep(s, a);
    if a == ClearCancel {
      k := 0;
      assert run[..1] == [a];
      assert MinerSteps([a][1..]) == 0;
      RunOne(s, a);
    } else {
      StepKeepsInv(s, a);
      var j := PendingCancelIsServed(Step(s, a), run[1..]);
      k := j + 1;
      assert run[..k + 1] == [a] + run[1..][..j + 1];
      RunOne(s, a);
      ExecJoin(s, [a], run[1..][..j + 1]);
    }
  }

  // ---- When a batch drains without a cancel ----

  /** What the kernel's poll compares: 32-bit generations. */
  predicate ReadsStale(s: State) { s.delivered % TWO32 != s.scanGen % TWO32 }

  /** No publication stands between its cancel store and its request_cancel, and no generation write is
      still on its way to the device. */
  predicate Quiet(s: State) { s.net != Flagged && s.delivered == s.requested }

  /** While a scan that was launched quietly runs: whatever reached the device since came after a cancel
      store of its own. */
  ghost predicate QuietScan(s: State) {
    && s.miner == Scanning && s.scanGen <= s.delivered <= s.requested
    && (s.requested > s.scanGen || s.net == Flagged ==> s.cancel)
  }

  lemma {:induction false} QuietScanKept(s: State, run: seq<Action>)
    requires QuietScan(s) && Legal(s, run) && forall i :: 0 <= i < |run| ==> NetAction(run[i])
    ensures QuietScan(Exec(s, run))
    decreases |run|
  {
    if run != [] {
      assert forall i :: 0 <= i < |run[1..]| ==> run[1..][i] == run[i + 1];
      QuietScanKept(Step(s, run[0]), run[1..]);
    }
  }

  /** A batch can drain on a stale generation with no cancel pending, so that the loop goes on behind
      nonces it never hashed, exactly when it was not launched quietly. */
  lemma DrainWithoutCancel(s: State)
    requires Inv(s) && s.miner == Sampled && !s.cancel
    ensures Quiet(s) ==>
      forall run :: Legal(Step(s, LoadGen), run) && (forall i :: 0 <= i < |run| ==> NetAction(run[i])) ==>
        var end := Exec(Step(s, LoadGen), run);
        ReadsStale(end) ==> end.cancel
    ensures !Quiet(s) ==>
      exists run :: Legal(Step(s, LoadGen), run) && (forall i :: 0 <= i < |run| ==> NetAction(run[i])) &&
        var end := Exec(Step(s, LoadGen), run);
        ReadsStale(end) && !end.cancel
  {
    var s1 := Step(s, LoadGen);
    if Quiet(s) {
      forall run | Legal(s1, run) && (forall i :: 0 <= i < |run| ==> NetAction(run[i]))
        ensures ReadsStale(Exec(s1, run)) ==> Exec(s1, run).cancel
      {
        QuietScanKept(s1, run);
      }
    } else {
      var run := SkippingRun(s1);
      assert Legal(s1, run);
    }
  }

  /** The network and device steps that drain a batch launched too early. */
  lemma SkippingRun(s: State) returns (run: seq<Action>)
    requires Inv(s) && s.miner == Scanning && s.scanGen == s.requested && !Quiet(s) && !s.cancel
    ensures Legal(s, run) && forall i :: 0 <= i < |run| ==> NetAction(run[i])
    ensures ReadsStale(Exec(s, run)) && !Exec(s, run).cancel
  {
    if s.delivered % TWO32 != s.requested % TWO32 {
      run := [];
    } else if s.delivered < s.requested {
      run := [Deliver(s.delivered + 1)];
      RunOne(s, run[0]);
    } else {
      var s1 := Step(s, RequestCancel);
      var deliver := Deliver(s.requested + 1);
      RunOne(s1, deliver);
      RunOne(s, RequestCancel);
      ExecJoin(s, [RequestCancel], [deliver]);
      run := [RequestCancel] + [deliver];
    }
  }

  lemma RunOne(s: State, a: Action)
    requires Enabled(s, a)
    ensures Legal(s, [a]) && Exec(s, [a]) == Step(s, a)
  {
    assert [a][1..] == [];
    assert Legal(Step(s, a), []);
  }

  /** A job is adopted between its cancel store and its request_cancel. */
  function OwnCancelRun(): seq<Action> {
    [Write, Bump, Cancel] + ([TestCancel, Adopt, ClearCancel] + ([SampleSeq, LoadGen, RequestCancel] + [Deliver(1)]))
  }

  /** Such a state is reached: the first batch of the newest job drains on that job's own cancel request,
      with the flag already cleared. */
  lemma OwnCancelDrainsItsJob()
    ensures Legal(Init(), OwnCancelRun())
    ensures var s := Exec(Init(), OwnCancelRun());
      s.miner == Scanning && ReadsStale(s) && !s.cancel && s.held == s.written == 1
  {
    var s1 := State(1, 1, true, Flagged, Top, 0, 0, 0, 0, 0);
    var s2 := State(1, 1, false, Flagged, Ready, 1, 0, 0, 0, 0);
    var s3 := State(1, 1, false, Idle, Scanning, 1, 1, 1, 0, 0);
    RunThree(Init(), Write, Bump, Cancel, s1);
    RunThree(s1, TestCancel, Adopt, ClearCancel, s2);
    RunThree(s2, SampleSeq, LoadGen, RequestCancel, s3);
    RunOne(s3, Deliver(1));
    ExecJoin(s2, [SampleSeq, LoadGen, RequestCancel], [Deliver(1)]);
    var r3 := [SampleSeq, LoadGen, RequestCancel] + [Deliver(1)];
    ExecJoin(s1, [TestCancel, Adopt, ClearCancel], r3);
    ExecJoin(Init(), [Write, Bump, Cancel], [TestCancel, Adopt, ClearCancel] + r3);
  }
}
