/** The parallel scan instantiated with the Alphanumeric share test. */
module AlphaScan {
  import opened Words
  import opened Blake3Reference
  import opened Blake3WordPath
  import opened AlphaShare
  import opened ScanKernel
  import opened ScanHost

  /** A nonce whose header hash, read as a 256-bit integer, is at most the target. */
  predicate IsShare(p: Primitives, f: Fields, target: Bytes32, nonce: u64) {
    Meets(ReferenceDigest(p, f, nonce), target)
  }

  /** What build_job_pre hands the kernel. */
  function AlphaJob(p: Primitives, f: Fields, target: Bytes32): JobPre {
    JobConstants(p, HeaderWords(f), TargetWords(target))
  }

  /** The request of a scan call: the kernel applies the word test to every nonce. */
  function AlphaRequest(p: Primitives, jw: JobPre, start: u64, count: u64,
                        jobGen: u32, threads: nat, sat: nat, cuda: bool): Request
    requires |jw.m1| == 7
  {
    Request(start, count, jobGen, threads, sat, cuda,
            (n: u64) => WordTest(p, jw, n).Some?,
            (n: u64) => if WordTest(p, jw, n).Some? then WordTest(p, jw, n).value else [])
  }

  /** The kernel's test and digest, as the scan uses them, are the byte path's. */
  lemma KernelTestsShares(p: Primitives, f: Fields, target: Bytes32, start: u64, count: u64,
                          jobGen: u32, threads: nat, sat: nat, cuda: bool, n: u64)
    ensures var q := AlphaRequest(p, AlphaJob(p, f, target), start, count, jobGen, threads, sat, cuda);
            && (q.accepts(n) <==> IsShare(p, f, target, n))
            && (q.accepts(n) ==> q.digest(n) == ReferenceDigest(p, f, n))
  {
    WordTestIsShareTest(p, f, target, AlphaJob(p, f, target), n);
  }

  predicate NoShare(p: Primitives, f: Fields, target: Bytes32, start: u64, count: u64) {
    forall o: nat {:trigger NonceAt(start, o)} :: o < count ==> !IsShare(p, f, target, NonceAt(start, o))
  }

  ghost predicate TrueScan(p: Primitives, f: Fields, target: Bytes32, start: u64, count: u64, r: ScanResult, d: Device) {
    && r.hashesScanned == d.hashes == |d.covered|
    && (forall o :: o in d.covered ==> o < count)
    && (r.found ==> r.hash == ReferenceDigest(p, f, r.nonce) && IsShare(p, f, target, r.nonce)
                    && exists o :: o in d.covered && r.nonce == NonceAt(start, o))
    && (!r.found && (r.hashesScanned == count || !d.stale) ==> NoShare(p, f, target, start, count))
  }

  lemma NoneIsNoShare(p: Primitives, f: Fields, target: Bytes32, q: Request)
    requires q == AlphaRequest(p, AlphaJob(p, f, target), q.start, q.count, q.jobGen, q.threads, q.sat, q.cuda)
    ensures NoneQualifies(q) <==> NoShare(p, f, target, q.start, q.count)
  {
    forall o: nat | o < q.count ensures q.accepts(q.Nonce(o)) <==> IsShare(p, f, target, NonceAt(q.start, o)) {
      KernelTestsShares(p, f, target, q.start, q.count, q.jobGen, q.threads, q.sat, q.cuda, NonceAt(q.start, o));
    }
  }

  /** A whole scan call: a find is a share of the requested range together with its true BLAKE3-92
      digest; a call that reports the full count without a find proves the range free of shares; and
      unless some thread read a foreign generation, an existing share is found. `d` is the device after
      exactly the launches of this call under their schedules. All this on a grid that fits; on one that
      does not, a call of one launch without a share in its range reports no work at all. */
  method ScanAlpha(p: Primitives, f: Fields, target: Bytes32, start: u64, count: u64, jobGen: u32,
                   threadsArg: int, sat: nat, cuda: bool, stale0: Memory, gen: u32, schedules: seq<seq<Action>>)
    returns (r: ScanResult, d: Device)
    requires var q := AlphaRequest(p, AlphaJob(p, f, target), start, count, jobGen, ClampThreads(threadsArg), sat, cuda);
             DeviceDrains(q, 0, Cleared(stale0, gen).mem, gen, schedules)
    ensures var q := AlphaRequest(p, AlphaJob(p, f, target), start, count, jobGen, ClampThreads(threadsArg), sat, cuda);
            d == DeviceRun(q, Cleared(stale0, gen), schedules)
    ensures var q := AlphaRequest(p, AlphaJob(p, f, target), start, count, jobGen, ClampThreads(threadsArg), sat, cuda);
            if GridFits(q) then TrueScan(p, f, target, start, count, r, d)
            else count <= SLICE_MAX && NoShare(p, f, target, start, count) ==> !r.found && r.hashesScanned == 0 < |d.covered| == count
    ensures var q := AlphaRequest(p, AlphaJob(p, f, target), start, count, jobGen, ClampThreads(threadsArg), sat, cuda);
            GridFits(q) && gen != jobGen && StaysForeign(q, schedules) ==> Prompt(q, r, d)
  {
    var w := HeaderWordsFromFields(f);
    var jw := BuildJobPre(p, w, TargetWords(target));
    assert jw == AlphaJob(p, f, target);
    var threads := ClampThreads(threadsArg);
    var q := AlphaRequest(p, jw, start, count, jobGen, threads, sat, cuda);
    r, d := Scan92(q, stale0, gen, schedules);
    if r.found {
      KernelTestsShares(p, f, target, start, count, jobGen, threads, sat, cuda, r.nonce);
    }
    NoneIsNoShare(p, f, target, q);
  }
}
