/** The host side of a scan: launch geometry, slicing and the reported result. */
module ScanHost {
  import opened Words
  import opened DeficitReduction
  import opened ScanKernel
  import opened ScanInvariant
  import opened ScanPrompt
  import opened ScanWrap

  const SLICE_MAX: nat := TWO31
  const DEFAULT_THREADS: nat := 256
  const GRID_MAX: nat := 2147483647

  /** Threads per block: a multiple of 32 within the kernel's launch bounds. */
  function ClampThreads(arg: int): (threads: nat)
    ensures BlockShape(threads)
    ensures arg >= 0 && BlockShape(arg) ==> threads == arg
    ensures arg <= 0 ==> threads == DEFAULT_THREADS
    ensures 32 <= arg <= 512 ==> threads <= arg < threads + 32
  {
    var t := if arg <= 0 then DEFAULT_THREADS else arg;
    var t := if t > 512 then 512 else t;
    var t := if t < 32 then 32 else t;
    t - t % 32
  }

  /** Enough blocks for the slice, but no more than the device saturates with. */
  function GridBlocks(slice: nat, threads: nat, sat: nat): (blocks: nat)
    requires threads > 0
    ensures 1 <= blocks
  {
    var need := (slice + threads - 1) / threads;
    var blocks := if need < sat then need else sat;
    var blocks := if blocks < 1 then 1 else blocks;
    if blocks > GRID_MAX then GRID_MAX else blocks
  }

  /** The grid has a thread for every nonce unless the device saturates first, and no block to spare. */
  lemma GridSize(slice: nat, threads: nat, sat: nat)
    requires threads > 0
    ensures var b := GridBlocks(slice, threads, sat);
      && (b * threads >= slice || b == sat || b == GRID_MAX || sat == 0)
      && (b == 1 || ((b - 1) * threads < slice && b <= sat && b <= GRID_MAX))
  {
    var need := (slice + threads - 1) / threads;
    var b := GridBlocks(slice, threads, sat);
    assert need * threads <= slice + threads - 1 < (need + 1) * threads;
    if b <= need { MulMono(b, need, threads); }
    if b >= need { MulMono(need, b, threads); }
  }

  /** A scan request; `sat` is the SM count times the blocks per SM. */
  datatype Request = Request(
    start: u64, count: u64, jobGen: u32, threads: nat, sat: nat, cuda: bool,
    accepts: u64 -> bool, digest: u64 -> seq<byte>)
  {
    predicate Valid() { BlockShape(threads) }

    function Nonce(offset: nat): u64 { NonceAt(start, offset) }
  }

  function SliceSize(req: Request, offset: nat): nat
    requires offset <= req.count
  {
    if req.count - offset < SLICE_MAX then req.count - offset else SLICE_MAX
  }

  function GridThreads(req: Request, slice: nat): nat
    requires req.Valid()
  {
    GridBlocks(slice, req.threads, req.sat) * req.threads
  }

  /** The launch of the slice at `offset`; the kernel forms its stride in 32 bits. */
  function SliceConfig(req: Request, offset: nat): Config
    requires req.Valid() && offset < req.count
  {
    var n := SliceSize(req, offset);
    var stride := GridThreads(req, n) % TWO32;
    Config(req.Nonce(offset), n, req.jobGen, stride,
           if req.cuda then GridBlocks(n, req.threads, req.sat) else stride,
           if req.cuda then req.threads else 1, req.cuda, req.accepts, req.digest)
  }

  // ---- When the 32-bit loop index is safe ----

  /** Exactly when launch size plus thread count stays within 2^32 does every thread's increment
      stay on its own indices; one nonce more and some thread wraps onto another thread's nonce. */
  lemma WrapIff(count: nat, stride: nat)
    requires 0 < count <= TWO31 && 0 < stride < TWO32
    ensures count + stride <= TWO32 <==>
            forall i: nat {:trigger NextIndex(i, stride)} :: 
              i < count ==> NextIndex(i, stride) == i + stride || NextIndex(i, stride) >= count
  {
    if count + stride > TWO32 {
      var last := count - 1;
      assert last + stride - TWO32 < count;
      assert NextIndex(last, stride) == last + stride - TWO32;
    } else {
      forall i: nat | i < count ensures NextIndex(i, stride) == i + stride {
        SmallMod(i + stride);
      }
    }
  }

  function NextIndex(i: nat, stride: nat): nat { (i + stride) % TWO32 }

  predicate GridFits(req: Request)
    requires req.Valid()
  {
    var n := SliceSize(req, 0);
    n + GridThreads(req, n) <= TWO32
  }

  /** The source bounds the stride by 2^25; every device within that, and every power-of-two block
      size on any device, is safe. */
  lemma GridFitsInPractice(req: Request)
    requires req.Valid() && req.count > 0
    ensures req.sat * req.threads <= TWO31 ==> GridFits(req)
    ensures TWO31 % req.threads == 0 ==> GridFits(req)
  {
    var n := SliceSize(req, 0);
    var blocks := GridBlocks(n, req.threads, req.sat);
    if req.sat * req.threads <= TWO31 {
      if req.sat >= 1 { MulMono(blocks, req.sat, req.threads); }
    }
    if TWO31 % req.threads == 0 {
      var q := TWO31 / req.threads;
      assert q * req.threads == TWO31;
      NeedBound(n, req.threads, q);
      MulMono(blocks, q, req.threads);
    }
  }

  lemma NeedBound(n: nat, d: nat, q: nat)
    requires d > 0 && 0 < n <= q * d
    ensures 1 <= (n + d - 1) / d <= q
  {
    var need := (n + d - 1) / d;
    assert need * d <= n + d - 1;
    if need > q { MulMono(q + 1, need, d); }
  }

  /** A geometry outside that: 96 threads per block on a device of 100000 multiprocessors at 256
      blocks each lets the last thread of a full slice wrap onto nonce 63. */
  lemma WrapWitness(req: Request)
    requires req.threads == 96 && req.sat == 100000 * 256 && req.count == TWO31
    ensures req.Valid() && !GridFits(req)
    ensures NextIndex(TWO31 - 1, GridThreads(req, SliceSize(req, 0))) == 63
  {
  }

  lemma SliceLaunchable(req: Request, offset: nat, mem: Memory)
    requires req.Valid() && GridFits(req) && offset < req.count
    requires !mem.found && mem.deficit <= offset
    ensures Launchable(SliceConfig(req, offset), mem)
  {
    var n, first := SliceSize(req, offset), SliceSize(req, 0);
    var b, b0 := GridBlocks(n, req.threads, req.sat), GridBlocks(first, req.threads, req.sat);
    NeedMono(n, first, req.threads);
    MulMono(b, b0, req.threads);
    MulMono(1, b, req.threads);
    SmallMod(b * req.threads);
    OffsetIsProduct(b, req.threads);
    OffsetIsProduct(b * req.threads, 1);
  }

  lemma NeedMono(n: nat, m: nat, d: nat)
    requires d > 0 && n <= m
    ensures (n + d - 1) / d <= (m + d - 1) / d
  {
    var x, y := (n + d - 1) / d, (m + d - 1) / d;
    assert x * d <= n + d - 1 && m + d - 1 < (y + 1) * d;
    if y < x { MulMono(y + 1, x, d); }
  }

  // ---- The slicing loop ----

  /** The device runs each slice the host launches to completion under its own schedule. The result
      block and the live generation carry over from slice to slice; a find ends the launches. */
  predicate DeviceDrains(req: Request, offset: nat, mem: Memory, gen: u32, schedules: seq<seq<Action>>)
    requires req.Valid() && offset <= req.count
    decreases req.count - offset
  {
    if offset == req.count || mem.found then true
    else
      var c := SliceConfig(req, offset);
      && schedules != []
      && c.Valid()
      && Legal(c, Init(c, mem, gen), schedules[0])
      && var end := Exec(c, Init(c, mem, gen), schedules[0]);
         && Terminal(c, end)
         && DeviceDrains(req, offset + c.count, end.mem, end.liveGen, schedules[1..])
  }

  /** No cancel reaches the device while the scan runs. */
  predicate NoCancel(req: Request, schedules: seq<seq<Action>>) {
    forall k, i :: 0 <= k < |schedules| && 0 <= i < |schedules[k]| && schedules[k][i].PushGen? ==>
      schedules[k][i].gen == req.jobGen
  }

  datatype ScanResult = ScanResult(found: bool, nonce: u64, hash: seq<byte>, hashesScanned: nat)

  function Shift(xs: set<nat>, shift: nat): set<nat> { set x | x in xs :: x + shift }

  lemma ShiftInsert(rest: set<nat>, x: nat, shift: nat)
    requires x !in rest
    ensures Shift(rest + {x}, shift) == Shift(rest, shift) + {x + shift} && x + shift !in Shift(rest, shift)
  {
  }

  lemma {:induction false} ShiftSize(xs: set<nat>, shift: nat)
    ensures |Shift(xs, shift)| == |xs|
    decreases |xs|
  {
    if xs != {} {
      var x :| x in xs;
      var rest := xs - {x};
      ShiftSize(rest, shift);
      ShiftInsert(rest, x, shift);
      assert xs == rest + {x};
    }
  }

  /** The nonce was hashed in this call, it qualifies, and the hash is its own. */
  ghost predicate TrueShare(req: Request, nonce: u64, hash: seq<byte>, covered: set<nat>) {
    exists o :: o in covered && nonce == req.Nonce(o) && req.accepts(nonce) && hash == req.digest(nonce)
  }

  /** A scan call between two launches: nonces enqueued, result block, live generation; and, as history,
      the offsets hashed so far, how many hashes were computed, and whether any thread read a foreign
      generation. */
  datatype Device = Device(done: nat, mem: Memory, liveGen: u32, covered: set<nat>, hashes: nat, stale: bool)

  /** What the finished launches have established about the offsets they covered. */
  ghost predicate Progress(req: Request, d: Device) {
    && d.done <= req.count
    && (forall o :: o in d.covered ==> o < d.done)
    && d.mem.deficit + |d.covered| == d.done
    && d.hashes == |d.covered|
    && (d.mem.found ==> TrueShare(req, d.mem.nonce, d.mem.hash, d.covered))
    && (!d.mem.found ==> forall o :: o in d.covered ==> !req.accepts(req.Nonce(o)))
    && (!d.mem.found && !d.stale ==> forall o: nat :: o < d.done ==> o in d.covered)
  }

  /** The state in which the device leaves the slice at `offset`. */
  function SliceEnd(req: Request, offset: nat, mem: Memory, gen: u32, schedules: seq<seq<Action>>): (end: State)
    requires req.Valid() && offset < req.count && !mem.found
    requires DeviceDrains(req, offset, mem, gen, schedules)
    ensures DeviceDrains(req, offset + SliceSize(req, offset), end.mem, end.liveGen, schedules[1..])
  {
    var c := SliceConfig(req, offset);
    Exec(c, Init(c, mem, gen), schedules[0])
  }

  predicate Launching(req: Request, d: Device, schedules: seq<seq<Action>>) {
    && req.Valid() && d.done < req.count && !d.mem.found
    && DeviceDrains(req, d.done, d.mem, d.liveGen, schedules)
  }

  /** One launch, run by the device under the first of the schedules. */
  function AfterSlice(req: Request, d: Device, schedules: seq<seq<Action>>): Device
    requires Launching(req, d, schedules)
  {
    var end := SliceEnd(req, d.done, d.mem, d.liveGen, schedules);
    Device(d.done + SliceSize(req, d.done), end.mem, end.liveGen,
           d.covered + Shift(end.hashed, d.done), d.hashes + end.hashCount, d.stale || end.sawStale)
  }

  /** The whole call: launches until the range is used up or a share is found. */
  function DeviceRun(req: Request, d: Device, schedules: seq<seq<Action>>): Device
    requires req.Valid() && d.done <= req.count && DeviceDrains(req, d.done, d.mem, d.liveGen, schedules)
    decreases req.count - d.done
  {
    if d.done == req.count || d.mem.found then d
    else DeviceRun(req, AfterSlice(req, d, schedules), schedules[1..])
  }

  /** The device when a call starts: {found, deficit} cleared, nonce and hash as they were left. */
  function Cleared(mem: Memory, gen: u32): Device {
    Device(0, mem.(found := false, deficit := 0), gen, {}, 0, false)
  }

  lemma SliceInv(req: Request, d: Device, schedules: seq<seq<Action>>)
    requires Launching(req, d, schedules) && GridFits(req) && d.mem.deficit <= d.done
    ensures var c, end := SliceConfig(req, d.done), SliceEnd(req, d.done, d.mem, d.liveGen, schedules);
            Inv(c, end, d.mem.deficit) && Terminal(c, end)
  {
    var c := SliceConfig(req, d.done);
    SliceLaunchable(req, d.done, d.mem);
    InitInv(c, d.mem, d.liveGen);
    ExecInv(c, Init(c, d.mem, d.liveGen), schedules[0], d.mem.deficit);
  }

  lemma UnionSize(below: set<nat>, above: set<nat>, n: nat)
    requires (forall o :: o in below ==> o < n) && (forall o :: o in above ==> o >= n)
    ensures |below + above| == |below| + |above|
  {
    assert below !! above;
  }

  /** One drained slice extends the progress made so far. */
  lemma SliceProgress(req: Request, d: Device, schedules: seq<seq<Action>>)
    requires Launching(req, d, schedules) && GridFits(req) && Progress(req, d)
    ensures Progress(req, AfterSlice(req, d, schedules))
  {
    var c, end := SliceConfig(req, d.done), SliceEnd(req, d.done, d.mem, d.liveGen, schedules);
    SliceInv(req, d, schedules);
    DrainedAccounting(c, end, d.mem.deficit);
    ShiftSize(end.hashed, d.done);
    UnionSize(d.covered, Shift(end.hashed, d.done), d.done);
    if end.mem.found {
      SliceFound(req, d.done, end, d.mem.deficit);
    } else {
      SliceNotFound(req, d.done, end, d.mem.deficit);
    }
  }

  lemma SliceFound(req: Request, offset: nat, end: State, base: nat)
    requires req.Valid() && offset < req.count
    requires var c := SliceConfig(req, offset); Inv(c, end, base) && Terminal(c, end) && end.mem.found
    ensures TrueShare(req, end.mem.nonce, end.mem.hash, Shift(end.hashed, offset))
  {
    var c := SliceConfig(req, offset);
    DrainedSound(c, end, base);
    var i: nat :| i in end.hashed && i < c.count && end.mem.nonce == c.Nonce(i)
                  && c.accepts(end.mem.nonce) && end.mem.hash == c.digest(end.mem.nonce);
    NonceShift(req, offset, i);
    assert i + offset in Shift(end.hashed, offset);
  }

  lemma SliceNotFound(req: Request, offset: nat, end: State, base: nat)
    requires req.Valid() && offset < req.count
    requires var c := SliceConfig(req, offset); Inv(c, end, base) && Terminal(c, end) && !end.mem.found
    ensures forall o :: o in Shift(end.hashed, offset) ==> !req.accepts(req.Nonce(o))
    ensures !end.sawStale ==>
      forall o: nat :: offset <= o < offset + SliceSize(req, offset) ==> o in Shift(end.hashed, offset)
  {
    var c := SliceConfig(req, offset);
    DrainedComplete(c, end, base);
    forall o | o in Shift(end.hashed, offset) ensures !req.accepts(req.Nonce(o)) {
      NonceShift(req, offset, o - offset);
    }
    if !end.sawStale {
      forall o: nat | offset <= o < offset + c.count ensures o in Shift(end.hashed, offset) {
        assert o - offset in end.hashed;
      }
    }
  }

  /** Without a cancel, a slice neither reads nor leaves behind a foreign generation. */
  lemma SliceNotStale(req: Request, offset: nat, mem: Memory, gen: u32, schedules: seq<seq<Action>>)
    requires req.Valid() && offset < req.count && !mem.found && gen == req.jobGen && NoCancel(req, schedules)
    requires DeviceDrains(req, offset, mem, gen, schedules)
    ensures var end := SliceEnd(req, offset, mem, gen, schedules);
            !end.sawStale && end.liveGen == req.jobGen
    ensures NoCancel(req, schedules[1..])
  {
    var c := SliceConfig(req, offset);
    NoPushNoStale(c, Init(c, mem, gen), schedules[0]);
    assert forall k :: 0 <= k < |schedules[1..]| ==> schedules[1..][k] == schedules[k + 1];
  }

  lemma NonceShift(req: Request, offset: nat, i: nat)
    ensures NonceAt(req.Nonce(offset), i) == req.Nonce(i + offset) == req.Nonce(offset + i)
  {
  }

  predicate Undisturbed(req: Request, d: Device, queue: seq<seq<Action>>) {
    !d.stale && d.liveGen == req.jobGen && NoCancel(req, queue)
  }

  lemma SliceStaysUndisturbed(req: Request, d: Device, queue: seq<seq<Action>>)
    requires Launching(req, d, queue) && Undisturbed(req, d, queue)
    ensures Undisturbed(req, AfterSlice(req, d, queue), queue[1..])
  {
    SliceNotStale(req, d.done, d.mem, d.liveGen, queue);
  }

  /** Between two launches: the range is used up to s, and the launches to come drain. */
  predicate Between(req: Request, d: Device, s: u64, queue: seq<seq<Action>>) {
    && req.Valid() && d.done <= req.count && s == req.Nonce(d.done)
    && DeviceDrains(req, d.done, d.mem, d.liveGen, queue)
  }

  lemma SliceStaysBetween(req: Request, d: Device, s: u64, queue: seq<seq<Action>>)
    requires Between(req, d, s, queue) && d.done < req.count && !d.mem.found
    ensures Between(req, AfterSlice(req, d, queue), NonceAt(s, SliceSize(req, d.done)), queue[1..])
  {
    NonceShift(req, d.done, SliceSize(req, d.done));
  }

  /** The host loop's invariant; `quiet` says that no cancel reaches the device during the scan. */
  ghost predicate HostInv(req: Request, d: Device, s: u64, queue: seq<seq<Action>>, quiet: bool) {
    && Between(req, d, s, queue)
    && (GridFits(req) ==> Progress(req, d))
    && (quiet ==> Undisturbed(req, d, queue))
  }

  lemma SliceKeepsHostInv(req: Request, d: Device, s: u64, queue: seq<seq<Action>>, quiet: bool)
    requires HostInv(req, d, s, queue, quiet) && d.done < req.count && !d.mem.found
    ensures HostInv(req, AfterSlice(req, d, queue), NonceAt(s, SliceSize(req, d.done)), queue[1..], quiet)
  {
    if GridFits(req) { SliceProgress(req, d, queue); }
    if quiet { SliceStaysUndisturbed(req, d, queue); }
    SliceStaysBetween(req, d, s, queue);
  }

  lemma HostInvAtEntry(req: Request, mem: Memory, gen: u32, schedules: seq<seq<Action>>)
    requires req.Valid() && DeviceDrains(req, 0, Cleared(mem, gen).mem, gen, schedules)
    ensures HostInv(req, Cleared(mem, gen), req.start, schedules, gen == req.jobGen && NoCancel(req, schedules))
  {
  }

  /** One kernel launch: the queue holds the schedules of the launches still to come. */
  method LaunchSlice(req: Request, d: Device, s: u64, queue: seq<seq<Action>>, ghost quiet: bool)
    returns (d': Device, queue': seq<seq<Action>>)
    requires HostInv(req, d, s, queue, quiet) && d.done < req.count && !d.mem.found
    ensures d' == AfterSlice(req, d, queue) && queue' == queue[1..]
    ensures d'.done == d.done + SliceSize(req, d.done)
    ensures DeviceRun(req, d', queue') == DeviceRun(req, d, queue)
    ensures HostInv(req, d', NonceAt(s, SliceSize(req, d.done)), queue', quiet)
  {
    SliceKeepsHostInv(req, d, s, queue, quiet);
    return AfterSlice(req, d, queue), queue[1..];
  }

  function CompletedWork(enqueued: nat, deficit: nat): nat {
    if enqueued >= deficit then enqueued - deficit else 0
  }

  /** What the host copies out of the device at the end. */
  function Reported(d: Device): ScanResult {
    if d.mem.found then ScanResult(true, d.mem.nonce, d.mem.hash, CompletedWork(d.done, d.mem.deficit))
    else ScanResult(false, 0, [], CompletedWork(d.done, d.mem.deficit))
  }

  /** What a scan promises: the count is the number of nonces hashed, each once; a reported share was
      hashed and qualifies; if none is reported, none of the nonces hashed qualifies; a full count means that
      the whole range was searched; and without a foreign generation a qualifying nonce is not missed. */
  ghost predicate Faithful(req: Request, r: ScanResult, d: Device) {
    && r.hashesScanned == d.hashes == |d.covered|
    && d.done <= req.count && (forall o :: o in d.covered ==> o < d.done)
    && (r.found ==> TrueShare(req, r.nonce, r.hash, d.covered))
    && (!r.found ==> forall o :: o in d.covered ==> !req.accepts(req.Nonce(o)))
    && (!r.found && r.hashesScanned == req.count ==> NoneQualifies(req))
    && (!d.stale && !NoneQualifies(req) ==> r.found)
  }

  lemma HostInvAtExit(req: Request, d: Device, s: u64, queue: seq<seq<Action>>, quiet: bool)
    requires HostInv(req, d, s, queue, quiet) && GridFits(req) && (d.done == req.count || d.mem.found)
    ensures Faithful(req, Reported(d), d)
  {
    if !d.mem.found && |d.covered| == req.count { FullSet(d.covered, req.count); }
  }

  // ---- A call that is already cancelled ----

  /** The device never returns to the job's generation. */
  predicate StaysForeign(req: Request, schedules: seq<seq<Action>>) {
    forall k, i :: 0 <= k < |schedules| && 0 <= i < |schedules[k]| && schedules[k][i].PushGen? ==>
      schedules[k][i].gen != req.jobGen
  }

  lemma StridePositive(req: Request, offset: nat)
    requires req.Valid() && GridFits(req) && offset < req.count
    ensures SliceConfig(req, offset).stride > 0
  {
    SliceLaunchable(req, offset, Memory(false, 0, 0, []));
  }

  /** The threads of the launches from one offset to another. */
  function ThreadsLaunched(req: Request, from: nat, to: nat): nat
    requires req.Valid() && to <= req.count
    decreases req.count - from
  {
    if from >= to then 0 else SliceConfig(req, from).stride + ThreadsLaunched(req, from + SliceSize(req, from), to)
  }

  /** What these launches hash if every thread stops at its first poll. */
  function UntilFirstPoll(req: Request, from: nat, to: nat): int
    requires req.Valid() && GridFits(req) && to <= req.count
    decreases req.count - from
  {
    if from >= to then 0
    else
      StridePositive(req, from);
      Sum(BeforeFirstPoll(SliceConfig(req, from))) + UntilFirstPoll(req, from + SliceSize(req, from), to)
  }

  lemma {:induction false} FirstPollThreads(req: Request, from: nat, to: nat)
    requires req.Valid() && GridFits(req) && to <= req.count
    ensures UntilFirstPoll(req, from, to) <= 255 * ThreadsLaunched(req, from, to)
    decreases req.count - from
  {
    if from < to {
      StridePositive(req, from);
      FirstPollBound(SliceConfig(req, from));
      FirstPollThreads(req, from + SliceSize(req, from), to);
    }
  }

  lemma CancelledSlice(req: Request, d: Device, schedules: seq<seq<Action>>)
    requires Launching(req, d, schedules) && GridFits(req) && d.mem.deficit <= d.done
    requires d.liveGen != req.jobGen && StaysForeign(req, schedules)
    ensures SliceConfig(req, d.done).stride > 0
    ensures var d', n := AfterSlice(req, d, schedules), Sum(BeforeFirstPoll(SliceConfig(req, d.done)));
            && d'.hashes <= d.hashes + n && (!d'.mem.found ==> d'.hashes == d.hashes + n)
            && d'.liveGen != req.jobGen && StaysForeign(req, schedules[1..])
  {
    SliceLaunchable(req, d.done, d.mem);
    CancelledLaunch(SliceConfig(req, d.done), d.mem, d.liveGen, schedules[0]);
    assert forall k :: 0 <= k < |schedules[1..]| ==> schedules[1..][k] == schedules[k + 1];
  }

  lemma {:induction false} RunGrows(req: Request, d: Device, schedules: seq<seq<Action>>)
    requires req.Valid() && d.done <= req.count && DeviceDrains(req, d.done, d.mem, d.liveGen, schedules)
    ensures d.done <= DeviceRun(req, d, schedules).done <= req.count
    ensures d.done < req.count && !d.mem.found ==>
      d.done + SliceSize(req, d.done) <= DeviceRun(req, d, schedules).done
    decreases req.count - d.done
  {
    if d.done < req.count && !d.mem.found { RunGrows(req, AfterSlice(req, d, schedules), schedules[1..]); }
  }

  /** From d on the device has hashed at most what its threads get before their first poll, exactly that
      if it ends without a find. */
  ghost predicate StoppedEarly(req: Request, d: Device, end: Device)
    requires req.Valid() && GridFits(req) && end.done <= req.count
  {
    && end.hashes <= d.hashes + UntilFirstPoll(req, d.done, end.done)
    && (!end.mem.found ==> end.hashes == d.hashes + UntilFirstPoll(req, d.done, end.done))
  }

  lemma StoppedEarlyFirst(req: Request, d: Device, schedules: seq<seq<Action>>, end: Device)
    requires Launching(req, d, schedules) && GridFits(req) && d.mem.deficit <= d.done
    requires d.liveGen != req.jobGen && StaysForeign(req, schedules)
    requires AfterSlice(req, d, schedules).done <= end.done <= req.count
    requires AfterSlice(req, d, schedules).mem.found ==> end == AfterSlice(req, d, schedules)
    requires StoppedEarly(req, AfterSlice(req, d, schedules), end)
    ensures StoppedEarly(req, d, end)
  {
    CancelledSlice(req, d, schedules);
  }

  /** All the launches of a cancelled call stop at the first poll of their threads. */
  lemma {:induction false} CancelledRun(req: Request, d: Device, schedules: seq<seq<Action>>)
    requires req.Valid() && GridFits(req) && Progress(req, d)
    requires DeviceDrains(req, d.done, d.mem, d.liveGen, schedules)
    requires d.liveGen != req.jobGen && StaysForeign(req, schedules)
    ensures DeviceRun(req, d, schedules).done <= req.count
    ensures StoppedEarly(req, d, DeviceRun(req, d, schedules))
    decreases req.count - d.done
  {
    RunGrows(req, d, schedules);
    if d.done < req.count && !d.mem.found {
      var next, end := AfterSlice(req, d, schedules), DeviceRun(req, d, schedules);
      CancelledSlice(req, d, schedules);
      SliceProgress(req, d, schedules);
      SliceStaysBetween(req, d, req.Nonce(d.done), schedules);
      CancelledRun(req, next, schedules[1..]);
      StoppedEarlyFirst(req, d, schedules, end);
    }
  }

  /** No thread of the call has hashed more than the 255 nonces before its first poll, and without a find
      each has hashed those 255, or all it was given. */
  ghost predicate Prompt(req: Request, r: ScanResult, d: Device)
    requires req.Valid() && GridFits(req)
  {
    && d.done <= req.count
    && r.hashesScanned <= UntilFirstPoll(req, 0, d.done) <= 255 * ThreadsLaunched(req, 0, d.done)
    && (!r.found ==> r.hashesScanned == UntilFirstPoll(req, 0, req.count))
  }

  // ---- A grid that does not fit ----

  predicate NoneQualifies(req: Request) { forall o: nat {:trigger req.Nonce(o)} :: o < req.count ==> !req.accepts(req.Nonce(o)) }

  /** No nonce was found and all were hashed, but none is reported. */
  predicate Broken(req: Request, r: ScanResult, d: Device) {
    !r.found && |d.covered| == req.count > 0 && r.hashesScanned == 0
  }

  /** The host never launches more blocks than the slice needs, so a grid that does not fit wraps. */
  lemma SliceWraps(req: Request)
    requires req.Valid() && 0 < req.count <= SLICE_MAX && !GridFits(req) && SliceConfig(req, 0).Valid()
    ensures Wrapping(SliceConfig(req, 0))
  {
    var need := (req.count + req.threads - 1) / req.threads;
    assert need * req.threads <= req.count + req.threads - 1;
    NeedBoundBelow(req.count, req.threads);
    var b := GridBlocks(req.count, req.threads, req.sat);
    MulMono(b, need, req.threads);
    SmallMod(b * req.threads);
  }

  lemma NeedBoundBelow(n: nat, d: nat)
    requires n > 0 && d > 0
    ensures (n + d - 1) / d >= 1
  {
  }

  /** The first launch of such a call ends with everything hashed and a deficit of almost 2^32. */
  lemma FirstSliceWraps(req: Request, d: Device, schedules: seq<seq<Action>>)
    requires Launching(req, d, schedules) && d.done == 0 && d.mem.deficit == 0
    requires req.count <= SLICE_MAX && !GridFits(req) && NoneQualifies(req)
    ensures var end := SliceEnd(req, 0, d.mem, d.liveGen, schedules);
            !end.mem.found && |end.hashed| == req.count && end.mem.deficit >= TWO32 - 512
  {
    var c := SliceConfig(req, 0);
    SliceWraps(req);
    forall i: nat | i < c.count ensures !c.accepts(c.Nonce(i)) { NonceShift(req, 0, i); }
    InitWraps(c, d.mem, d.liveGen);
    ExecWraps(c, Init(c, d.mem, d.liveGen), schedules[0], 0);
    AccountingBreaks(c, SliceEnd(req, 0, d.mem, d.liveGen, schedules), 0);
  }

  lemma FirstCovered(req: Request, d: Device, schedules: seq<seq<Action>>)
    requires Launching(req, d, schedules) && d.covered == {}
    ensures |AfterSlice(req, d, schedules).covered| == |SliceEnd(req, d.done, d.mem, d.liveGen, schedules).hashed|
  {
    var hashed := SliceEnd(req, d.done, d.mem, d.liveGen, schedules).hashed;
    ShiftSize(hashed, d.done);
    assert {} + Shift(hashed, d.done) == Shift(hashed, d.done);
  }

  lemma RunOfOneSlice(req: Request, d: Device, schedules: seq<seq<Action>>)
    requires Launching(req, d, schedules) && req.count - d.done <= SLICE_MAX
    ensures DeviceRun(req, d, schedules) == AfterSlice(req, d, schedules)
  {
    assert AfterSlice(req, d, schedules).done == req.count;
  }

  /** A call of one launch on such a grid, when nothing qualifies: every nonce was hashed, and the deficit
      exceeds the number of nonces launched. */
  lemma OneSliceWraps(req: Request, d: Device, schedules: seq<seq<Action>>)
    requires Launching(req, d, schedules) && d.done == 0 && d.mem.deficit == 0 && d.covered == {}
    requires req.count <= SLICE_MAX && !GridFits(req) && NoneQualifies(req)
    ensures var d' := DeviceRun(req, d, schedules); Broken(req, Reported(d'), d')
  {
    FirstSliceWraps(req, d, schedules);
    RunOfOneSlice(req, d, schedules);
    FirstCovered(req, d, schedules);
  }

  lemma CancelledCall(req: Request, stale0: Memory, gen: u32, schedules: seq<seq<Action>>)
    requires req.Valid() && GridFits(req) && DeviceDrains(req, 0, Cleared(stale0, gen).mem, gen, schedules)
    requires gen != req.jobGen && StaysForeign(req, schedules)
    ensures var d := DeviceRun(req, Cleared(stale0, gen), schedules);
            (d.mem.found || d.done == req.count) && Faithful(req, Reported(d), d) ==> Prompt(req, Reported(d), d)
  {
    var d := DeviceRun(req, Cleared(stale0, gen), schedules);
    CancelledRun(req, Cleared(stale0, gen), schedules);
    FirstPollThreads(req, 0, d.done);
  }

  lemma VerdictFits(req: Request, stale0: Memory, gen: u32, schedules: seq<seq<Action>>,
                    d: Device, s: u64, queue: seq<seq<Action>>, quiet: bool)
    requires HostInv(req, d, s, queue, quiet) && GridFits(req) && (d.done == req.count || d.mem.found)
    requires DeviceDrains(req, 0, Cleared(stale0, gen).mem, gen, schedules)
    requires d == DeviceRun(req, Cleared(stale0, gen), schedules)
    ensures Faithful(req, Reported(d), d)
    ensures gen != req.jobGen && StaysForeign(req, schedules) ==> Prompt(req, Reported(d), d)
  {
    HostInvAtExit(req, d, s, queue, quiet);
    if gen != req.jobGen && StaysForeign(req, schedules) { CancelledCall(req, stale0, gen, schedules); }
  }

  /** An empty call would launch one block, were it to launch at all. */
  lemma EmptyFits(req: Request)
    requires req.Valid() && req.count == 0
    ensures GridFits(req)
  {
    var need := (req.threads - 1) / req.threads;
    assert need == 0;
    assert GridBlocks(0, req.threads, req.sat) == 1;
  }

  lemma BrokenCall(req: Request, stale0: Memory, gen: u32, schedules: seq<seq<Action>>)
    requires req.Valid() && req.count <= SLICE_MAX && !GridFits(req) && NoneQualifies(req)
    requires DeviceDrains(req, 0, Cleared(stale0, gen).mem, gen, schedules)
    ensures var d := DeviceRun(req, Cleared(stale0, gen), schedules); Broken(req, Reported(d), d)
  {
    if req.count == 0 { EmptyFits(req); }
    OneSliceWraps(req, Cleared(stale0, gen), schedules);
  }

  lemma Verdict(req: Request, stale0: Memory, gen: u32, schedules: seq<seq<Action>>,
                d: Device, s: u64, queue: seq<seq<Action>>, quiet: bool)
    requires HostInv(req, d, s, queue, quiet) && (d.done == req.count || d.mem.found)
    requires DeviceDrains(req, 0, Cleared(stale0, gen).mem, gen, schedules)
    requires d == DeviceRun(req, Cleared(stale0, gen), schedules)
    ensures GridFits(req) ==> Faithful(req, Reported(d), d)
    ensures !GridFits(req) && req.count <= SLICE_MAX && NoneQualifies(req) ==> Broken(req, Reported(d), d)
    ensures GridFits(req) && gen != req.jobGen && StaysForeign(req, schedules) ==> Prompt(req, Reported(d), d)
  {
    if GridFits(req) {
      VerdictFits(req, stale0, gen, schedules, d, s, queue, quiet);
    } else if req.count <= SLICE_MAX && NoneQualifies(req) {
      BrokenCall(req, stale0, gen, schedules);
    }
  }

  /** alphanumeric_cuda_scan92 and its HIP twin, for every legal schedule of every launch, from any
      stale result block. `d` is the device at the end of exactly those launches under those schedules:
      d.covered holds the offsets its threads hashed, d.hashes counts their hashes, and d.stale says
      whether any of them read a generation other than the job's. On a grid that fits the count is exact;
      on one that does not, a call of one launch that finds nothing reports 0 for all its work. A call that
      starts on a foreign generation stops at the first poll of its threads. */
  method Scan92(req: Request, stale0: Memory, gen: u32, schedules: seq<seq<Action>>) returns (r: ScanResult, d: Device)
    requires req.Valid() && DeviceDrains(req, 0, Cleared(stale0, gen).mem, gen, schedules)
    ensures d == DeviceRun(req, Cleared(stale0, gen), schedules) && r == Reported(d)
    ensures !r.found ==> d.done == req.count
    ensures GridFits(req) ==> Faithful(req, r, d)
    ensures !GridFits(req) && req.count <= SLICE_MAX && NoneQualifies(req) ==> Broken(req, r, d)
    ensures GridFits(req) && gen != req.jobGen && StaysForeign(req, schedules) ==> Prompt(req, r, d)
    ensures gen == req.jobGen && NoCancel(req, schedules) ==> !d.stale
  {
    r, d := ScanResult(false, 0, [], 0), Cleared(stale0, gen);
    ghost var quiet := gen == req.jobGen && NoCancel(req, schedules);
    HostInvAtEntry(req, stale0, gen, schedules);
    if req.count == 0 {
      Verdict(req, stale0, gen, schedules, d, req.start, schedules, quiet);
      return;
    }
    var queue := schedules;
    var remaining: nat := req.count;
    var s: u64 := req.start;
    var foundEarly := false;
    while remaining != 0 && !foundEarly
      invariant remaining + d.done == req.count
      invariant foundEarly ==> d.mem.found
      invariant d.mem.found ==> foundEarly || remaining == 0
      invariant HostInv(req, d, s, queue, quiet)
      invariant DeviceRun(req, d, queue) == DeviceRun(req, Cleared(stale0, gen), schedules)
      decreases remaining, !foundEarly
    {
      var slice := SliceSize(req, d.done);
      d, queue := LaunchSlice(req, d, s, queue, quiet);
      s := NonceAt(s, slice);
      remaining := remaining - slice;
      if remaining != 0 && d.mem.found {
        foundEarly := true;
      }
    }
    if d.mem.found {
      r := r.(found := true, nonce := d.mem.nonce, hash := d.mem.hash);
    }
    r := r.(hashesScanned := CompletedWork(d.done, d.mem.deficit));
    Verdict(req, stale0, gen, schedules, d, s, queue, quiet);
  }
}
