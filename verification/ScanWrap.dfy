/** A launch whose 32-bit loop index wraps: the threads that wrap hash a second nonce of somebody else,
    their 32-bit deficits go below zero, and the accounting breaks under every schedule. */
module ScanWrap {
  import opened Words
  import opened DeficitReduction
  import opened ScanKernel
  import opened ScanInvariant

  /** The index can wrap, and the grid has no more blocks than the launch needs. */
  predicate Wrapping(c: Config) { c.Valid() && !c.NoWrap() && c.stride < c.count + 512 }

  predicate NothingQualifies(c: Config) { forall i: nat {:trigger c.Nonce(i)} :: i < c.count ==> !c.accepts(c.Nonce(i)) }

  predicate Wraps(c: Config, t: nat) { t < c.count && t + c.stride >= TWO32 }

  /** How often a thread enters its loop body. */
  function Entries(c: Config, t: nat): nat { if Wraps(c, t) then 2 else if t < c.count then 1 else 0 }

  /** The index of a thread after k increments. */
  function Visit(c: Config, t: nat, k: nat): nat { if k == 0 then t else (Visit(c, t, k - 1) + c.stride) % TWO32 }

  lemma VisitInRange(c: Config, t: nat, k: nat)
    requires Wrapping(c) && t < c.stride && k <= Entries(c, t)
    ensures Visit(c, t, k) < c.count <==> k < Entries(c, t)
  {
    if k >= 1 {
      assert Visit(c, t, 0) == t;
      WrapOnce(t + c.stride);
    }
    if k == 2 {
      assert Visit(c, t, 1) == t + c.stride - TWO32;
      SmallMod(Visit(c, t, 1) + c.stride);
    }
  }

  lemma WrapOnce(x: nat)
    requires x < 2 * TWO32
    ensures x % TWO32 == if x < TWO32 then x else x - TWO32
  {
  }

  predicate Walks(c: Config, t: nat, th: Thread) {
    && !th.bailed && th.poll <= Entries(c, t)
    && match th.pc
       case Top => th.idx == Visit(c, t, th.poll)
       case HashNonce => th.poll >= 1 && th.idx == Visit(c, t, th.poll - 1)
       case Out => th.poll == Entries(c, t)
       case _ => false
  }

  /** 1 - 2 in 32 bits for a thread that wraps. */
  function Share(c: Config, t: nat): u32 { if Wraps(c, t) then TWO32 - 1 else 0 }

  function Shares(c: Config, g: nat): (r: seq<u32>)
    ensures |r| == c.group
  {
    seq<u32>(c.group, k requires 0 <= k < c.group => Share(c, Offset(g, c.group) + k))
  }

  /** What a group whose threads have all left reports. */
  function GroupShare(c: Config, g: nat): u32
    requires c.Valid()
  {
    if c.cuda then BlockDeficit(Shares(c, g)) else Shares(c, g)[0]
  }

  function ReportedShares(c: Config, s: State): (r: seq<int>)
    requires Shaped(c, s)
    ensures |r| == c.groups
  {
    seq(c.groups, g requires 0 <= g < c.groups => if s.reported[g] then GroupShare(c, g) else 0)
  }

  predicate AllWalk(c: Config, s: State)
    requires Shaped(c, s)
  {
    forall t: nat :: t < c.stride ==> Walks(c, t, s.threads[t])
  }

  ghost predicate HashedSoFar(c: Config, s: State)
    requires Shaped(c, s)
  {
    && (forall i :: i in s.hashed ==> i < c.count)
    && forall t: nat :: t < c.count && t < c.stride && s.threads[t].Done() >= 1 ==> t in s.hashed
  }

  ghost predicate WrapInv(c: Config, s: State, base: nat) {
    && Shaped(c, s) && Wrapping(c) && NothingQualifies(c) && !s.mem.found
    && AllWalk(c, s) && HashedSoFar(c, s)
    && s.mem.deficit == (base + Sum(ReportedShares(c, s))) % TWO64
  }

  lemma InitWraps(c: Config, mem: Memory, gen: u32)
    requires Wrapping(c) && NothingQualifies(c) && !mem.found && mem.deficit < TWO64
    ensures WrapInv(c, Init(c, mem, gen), mem.deficit)
  {
    SumZero(ReportedShares(c, Init(c, mem, gen)));
  }

  lemma NextWalks(c: Config, t: nat, th: Thread, found: bool, gen: u32)
    requires Wrapping(c) && NothingQualifies(c) && t < c.stride && Walks(c, t, th) && th.pc != Out
    ensures Walks(c, t, NextThread(c, th, found, gen))
    ensures th.pc == HashNonce ==> th.idx < c.count
  {
    if th.pc == Top {
      VisitInRange(c, t, th.poll);
    } else {
      VisitInRange(c, t, th.poll - 1);
      assert !c.accepts(c.Nonce(th.idx));
    }
  }

  lemma RunWalks(c: Config, s: State, t: nat, base: nat)
    requires WrapInv(c, s, base) && Enabled(c, s, Run(t))
    ensures WrapInv(c, RunThread(c, s, t), base)
  {
    var s' := RunThread(c, s, t);
    NextWalks(c, t, s.threads[t], s.mem.found, s.liveGen);
    assert ReportedShares(c, s') == ReportedShares(c, s);
  }

  lemma ShareIsDeficit(c: Config, t: nat, th: Thread)
    requires Wrapping(c) && t < c.stride && Walks(c, t, th) && th.pc == Out
    ensures ThreadDeficit(c, t, th) == Share(c, t)
  {
    if t < c.count { DivModUnique(c.count - 1 - t, c.stride, 0, c.count - 1 - t); }
  }

  lemma ReportIsShare(c: Config, s: State, g: nat)
    requires Shaped(c, s) && Wrapping(c) && AllWalk(c, s) && g < c.groups && GroupOut(c, s, g)
    ensures GroupReport(c, s, g) == GroupShare(c, g)
  {
    GroupFits(c, g);
    forall k | 0 <= k < c.group ensures GroupDeficits(c, s, g)[k] == Shares(c, g)[k] {
      var t := Offset(g, c.group) + k;
      assert InGroup(c, g, t);
      ShareIsDeficit(c, t, s.threads[t]);
    }
    assert GroupDeficits(c, s, g) == Shares(c, g);
  }

  lemma AddModulo(a: nat, x: nat, y: nat)
    requires a == x % TWO64
    ensures (a + y) % TWO64 == (x + y) % TWO64
  {
  }

  lemma ReportAddsShare(c: Config, s: State, g: nat)
    requires Shaped(c, s) && g < c.groups && !s.reported[g]
    ensures Sum(ReportedShares(c, s.(reported := s.reported[g := true]))) == Sum(ReportedShares(c, s)) + GroupShare(c, g)
    ensures Sum(ReportedShares(c, s)) >= 0
  {
    var x := GroupShare(c, g);
    assert ReportedShares(c, s.(reported := s.reported[g := true])) == ReportedShares(c, s)[g := x];
    SumUpdate(ReportedShares(c, s), g, x);
    SumBounds(ReportedShares(c, s));
  }

  lemma ReportWalks(c: Config, s: State, g: nat, base: nat)
    requires WrapInv(c, s, base) && Enabled(c, s, Report(g))
    ensures WrapInv(c, Apply(c, s, Report(g)), base)
  {
    var s' := Apply(c, s, Report(g));
    ReportIsShare(c, s, g);
    ReportAddsShare(c, s, g);
    assert ReportedShares(c, s') == ReportedShares(c, s.(reported := s.reported[g := true]));
    AddModulo(s.mem.deficit, base + Sum(ReportedShares(c, s)), GroupShare(c, g));
  }

  lemma {:induction false} ExecWraps(c: Config, s: State, schedule: seq<Action>, base: nat)
    requires WrapInv(c, s, base) && Legal(c, s, schedule)
    ensures WrapInv(c, Exec(c, s, schedule), base)
    decreases |schedule|
  {
    if schedule != [] {
      match schedule[0] {
        case Run(t) => RunWalks(c, s, t, base);
        case Report(g) => ReportWalks(c, s, g, base);
        case PushGen(v) => assert ReportedShares(c, Apply(c, s, schedule[0])) == ReportedShares(c, s);
      }
      ExecWraps(c, Apply(c, s, schedule[0]), schedule[1..], base);
    }
  }

  // ---- The reported deficit ----

  /** Deficits of 0 and -1 in 32 bits add up to some multiple of 2^32, less the number of -1s. */
  lemma {:induction false} CountBelowZero(x: seq<int>) returns (m: nat)
    requires forall i :: 0 <= i < |x| ==> x[i] == 0 || x[i] == TWO32 - 1
    ensures Sum(x) == m * TWO32 - m && m <= |x|
    ensures m == 0 ==> forall i :: 0 <= i < |x| ==> x[i] == 0
    decreases |x|
  {
    m := 0;
    if x != [] {
      var rest := CountBelowZero(x[1..]);
      m := rest + if x[0] == 0 then 0 else 1;
      assert forall i :: 1 <= i < |x| ==> x[i] == x[1..][i - 1];
    }
  }

  lemma BlockBelowZero(x: seq<u32>, k: nat)
    requires BlockShape(|x|) && k < |x| && x[k] != 0
    requires forall i :: 0 <= i < |x| ==> x[i] == 0 || x[i] == TWO32 - 1
    ensures BlockDeficit(x) >= TWO32 - 512
  {
    var m := CountBelowZero(x);
    BlockDeficitIsSum(x);
    DivModUnique(m * TWO32 - m, TWO32, m - 1, TWO32 - m);
  }

  lemma GroupOf(size: nat, n: nat, t: nat) returns (g: nat, k: nat)
    requires size > 0 && t < Offset(n, size)
    ensures g < n && k < size && Offset(g, size) + k == t
  {
    g, k := t / size, t % size;
    IndexCovers(size, t);
    if g >= n { OffsetMono(n, g, size); }
  }

  lemma ShareAt(c: Config, g: nat, k: nat)
    requires k < c.group
    ensures Shares(c, g)[k] == Share(c, Offset(g, c.group) + k)
  {
  }

  /** The group of the last nonce reports almost 2^32. */
  lemma LastGroupShare(c: Config) returns (g: nat)
    requires Wrapping(c)
    ensures g < c.groups && GroupShare(c, g) >= TWO32 - 512
  {
    var k: nat;
    g, k := GroupOf(c.group, c.groups, c.count - 1);
    ShareAt(c, g, k);
    assert Wraps(c, c.count - 1);
    forall i | 0 <= i < c.group ensures Shares(c, g)[i] == 0 || Shares(c, g)[i] == TWO32 - 1 { ShareAt(c, g, i); }
    if c.cuda { BlockBelowZero(Shares(c, g), k); }
  }

  lemma {:induction false} SumBelow(x: seq<int>, m: nat)
    requires forall i :: 0 <= i < |x| ==> 0 <= x[i] <= m
    ensures 0 <= Sum(x) <= |x| * m
  {
    if x != [] { SumBelow(x[1..], m); }
  }

  lemma {:induction false} CountTo(xs: set<nat>, n: nat)
    requires forall i: nat :: i in xs <==> i < n
    ensures |xs| == n
    decreases n
  {
    if n > 0 {
      CountTo(xs - {n - 1}, n - 1);
    } else {
      assert xs == {};
    }
  }

  lemma GroupsBelow(c: Config)
    requires c.Valid()
    ensures c.groups <= c.stride
  {
    OffsetIsProduct(c.groups, c.group);
    MulMono(1, c.group, c.groups);
  }

  lemma SharesTotal(c: Config, s: State)
    requires Shaped(c, s) && Wrapping(c) && Terminal(c, s)
    ensures TWO32 - 512 <= Sum(ReportedShares(c, s)) < TWO64
  {
    var r := ReportedShares(c, s);
    var g := LastGroupShare(c);
    SumBounds(r);
    assert r[g] == GroupShare(c, g);
    SumBelow(r, TWO32 - 1);
    GroupsBelow(c);
    MulMono(c.groups, TWO32 - 1, TWO32 - 1);
  }

  /** Every drained launch of a wrapping grid has hashed all its nonces, and still reports a deficit, of
      almost 2^32 at least: hashed plus deficit is not the launch size. */
  lemma AccountingBreaks(c: Config, s: State, base: nat)
    requires WrapInv(c, s, base) && Terminal(c, s) && base < TWO64
    ensures (forall i: nat :: i < c.count ==> i in s.hashed) && |s.hashed| == c.count
    ensures s.mem.deficit - base + |s.hashed| != c.count
    ensures base == 0 ==> s.mem.deficit >= TWO32 - 512
  {
    forall i: nat | i < c.count ensures i in s.hashed { assert Walks(c, i, s.threads[i]); }
    CountTo(s.hashed, c.count);
    SharesTotal(c, s);
    WrapOnceWide(base + Sum(ReportedShares(c, s)));
  }

  lemma WrapOnceWide(x: nat)
    requires x < 2 * TWO64
    ensures x % TWO64 == if x < TWO64 then x else x - TWO64
  {
  }

  // ---- Such launches drain ----

  function Left(c: Config, t: nat, th: Thread): int {
    match th.pc
    case Out => 0
    case Top => 2 * (Entries(c, t) - th.poll) + 1
    case _ => 2 * (Entries(c, t) - th.poll) + 2
  }

  function LeftAll(c: Config, s: State): (r: seq<int>)
    requires Shaped(c, s)
    ensures |r| == c.stride
  {
    seq(c.stride, t requires 0 <= t < c.stride => Left(c, t, s.threads[t]))
  }

  lemma LeftNonNegative(c: Config, s: State)
    requires Shaped(c, s) && AllWalk(c, s)
    ensures Sum(LeftAll(c, s)) >= 0 && Sum(Unreported(s)) >= 0
  {
    forall t | 0 <= t < c.stride ensures LeftAll(c, s)[t] >= 0 { assert Walks(c, t, s.threads[t]); }
    SumBounds(LeftAll(c, s));
    SumBounds(Unreported(s));
  }

  lemma RunLowersLeft(c: Config, s: State, t: nat, base: nat)
    requires WrapInv(c, s, base) && Enabled(c, s, Run(t))
    ensures Sum(LeftAll(c, RunThread(c, s, t))) < Sum(LeftAll(c, s))
  {
    var s' := RunThread(c, s, t);
    assert Walks(c, t, s.threads[t]);
    NextWalks(c, t, s.threads[t], s.mem.found, s.liveGen);
    var x := Left(c, t, s'.threads[t]);
    if s.threads[t].pc == HashNonce { assert !c.accepts(c.Nonce(s.threads[t].idx)); }
    assert LeftAll(c, s') == LeftAll(c, s)[t := x];
    SumUpdate(LeftAll(c, s), t, x);
  }

  lemma ReportLowersLeft(c: Config, s: State, g: nat)
    requires Shaped(c, s) && Enabled(c, s, Report(g))
    ensures LeftAll(c, Apply(c, s, Report(g))) == LeftAll(c, s)
    ensures Sum(Unreported(Apply(c, s, Report(g)))) < Sum(Unreported(s))
  {
    var s' := Apply(c, s, Report(g));
    assert LeftAll(c, s') == LeftAll(c, s);
    assert Unreported(s') == Unreported(s)[g := 0];
    SumUpdate(Unreported(s), g, 0);
  }

  /** The wrapping launches drain as well: what AccountingBreaks says of drained ones is not empty. */
  lemma {:induction false} WrappingDrains(c: Config, s: State, base: nat) returns (schedule: seq<Action>)
    requires WrapInv(c, s, base)
    ensures Legal(c, s, schedule) && Terminal(c, Exec(c, s, schedule))
    decreases Sum(LeftAll(c, s)), Sum(Unreported(s))
  {
    LeftNonNegative(c, s);
    if Terminal(c, s) {
      schedule := [];
    } else {
      var a: Action;
      if t: nat :| t < c.stride && s.threads[t].pc != Out {
        a := Run(t);
        RunWalks(c, s, t, base);
        RunLowersLeft(c, s, t, base);
      } else {
        var g: nat :| g < c.groups && !s.reported[g];
        a := Report(g);
        ReportWalks(c, s, g, base);
        ReportLowersLeft(c, s, g);
      }
      LeftNonNegative(c, Apply(c, s, a));
      var rest := WrappingDrains(c, Apply(c, s, a), base);
      schedule := [a] + rest;
    }
  }
}
