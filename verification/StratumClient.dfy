/** Matching mining.submit responses to submits in stratum_client.cpp: an atomic id counter, a locked set
    of pending ids, any number of submitting threads and one reading thread. */
module StratumClient {
  import opened Words

  /** A 32-bit int; the atomic counter wraps in two's complement. */
  type int32 = x: int | -0x8000_0000 <= x < 0x8000_0000

  function Wrap(x: int): int32 {
    var m := x % 0x1_0000_0000;
    if m < 0x8000_0000 then m else m - 0x1_0000_0000
  }

  /** The k-th id issued: the counter starts at 100 and is incremented first. */
  function IdAt(k: nat): int32 { Wrap(100 + k) }

  lemma NextId(k: nat)
    ensures Wrap(IdAt(k) + 1) == IdAt(k + 1)
  {
  }

  /** Ids differ until the counter has gone all the way round. */
  lemma IdsDiffer(i: nat, j: nat)
    requires i < j < i + TWO32
    ensures IdAt(i) != IdAt(j)
  {
  }

  /** The login requests use 1 and 2; the counter reaches 1 first with issue number 2^32 - 99. */
  lemma LoginIds(k: nat)
    ensures k < TWO32 - 99 ==> IdAt(k) != 1 && IdAt(k) != 2
    ensures k == TWO32 - 99 ==> IdAt(k) == 1
  {
  }

  function IssuedIds(n: nat): (r: seq<int32>)
    ensures |r| == n
  {
    seq(n, k requires 0 <= k < n => IdAt(k + 1))
  }

  /** One call of the submit-result handler. */
  datatype Result = Result(id: int32, accepted: bool)

  function ResultIds(results: seq<Result>): (r: seq<int32>)
    ensures |r| == |results|
  {
    seq(|results|, k requires 0 <= k < |results| => results[k].id)
  }

  /** What one submit call returned: its id, or -1 after taking the id back; `erased` says whether the
      pending set still held it then. */
  datatype Outcome = Sent(id: int32) | Failed(id: int32, erased: bool) {
    function Sid(): int { if Sent? then id else -1 }
  }

  function OutcomeIds(outcomes: seq<Outcome>): (r: seq<int32>)
    ensures |r| == |outcomes|
  {
    seq(|outcomes|, k requires 0 <= k < |outcomes| => outcomes[k].id)
  }

  // ---- The client's members ----

  class Client {
    var nextId: int32
    var pending: set<int32>
    var results: seq<Result>

    constructor ()
      ensures nextId == 100 && pending == {} && results == []
    {
      nextId, pending, results := 100, {}, [];
    }

    /** ++next_id_. */
    method Issue() returns (id: int32)
      modifies `nextId
      ensures id == nextId == Wrap(old(nextId) + 1)
    {
      nextId := Wrap(nextId + 1);
      id := nextId;
    }

    /** The id enters the pending set before the request is sent. */
    method Register(id: int32)
      modifies `pending
      ensures pending == old(pending) + {id}
    {
      pending := pending + {id};
    }

    /** The end of submit_share and submit_raw: a failed send takes the id back and reports -1. */
    method Finish(id: int32, ok: bool) returns (r: Outcome)
      modifies `pending
      ensures r == if ok then Sent(id) else Failed(id, id in old(pending))
      ensures pending == if ok then old(pending) else old(pending) - {id}
    {
      if !ok {
        var erased := id in pending;
        pending := pending - {id};
        return Failed(id, erased);
      }
      return Sent(id);
    }

    /** parse_submit_response: the handler runs only for a pending id, which is then no longer pending.
        `id` is the number in the line; one that does not fit an int is ignored. */
    method Response(id: nat, accepted: bool)
      modifies `pending, `results
      ensures id >= 0x8000_0000 ==> results == old(results) && pending == old(pending)
      ensures id < 0x8000_0000 ==>
        && pending == old(pending) - {id}
        && results == old(results) + (if id in old(pending) then [Result(id, accepted)] else [])
    {
      if id >= 0x8000_0000 {
        return;
      }
      var wasPending := id in pending;
      pending := pending - {id};
      if wasPending {
        results := results + [Result(id, accepted)];
      }
    }
  }

  // ---- Sessions ----

  /** A step of some thread: one submits, puts its id into the pending set, learns whether its send went
      through; or the reader meets a response line. The indices pick one of the threads at that stage. */
  datatype Event = Submit | Insert(thread: nat) | SendEnds(thread: nat, ok: bool) | Line(id: nat, accepted: bool)

  /** Ids issued so far; the threads that have an id but have not inserted it, and those whose send is
      under way; the pending set; the handler's calls; and what the submit calls returned. */
  datatype State = State(
    issued: nat, waiting: seq<int32>, sending: seq<int32>, pending: set<int32>,
    results: seq<Result>, outcomes: seq<Outcome>)

  function Without<T>(s: seq<T>, t: nat): seq<T>
    requires t < |s|
  {
    s[..t] + s[t + 1..]
  }

  function Step(s: State, e: Event): State {
    match e
    case Submit => s.(issued := s.issued + 1, waiting := s.waiting + [IdAt(s.issued + 1)])
    case Insert(t) =>
      if t >= |s.waiting| then s
      else s.(waiting := Without(s.waiting, t), sending := s.sending + [s.waiting[t]], pending := s.pending + {s.waiting[t]})
    case SendEnds(t, ok) =>
      if t >= |s.sending| then s
      else
        var id := s.sending[t];
        s.(sending := Without(s.sending, t),
           pending := if ok then s.pending else s.pending - {id},
           outcomes := s.outcomes + [if ok then Sent(id) else Failed(id, id in s.pending)])
    case Line(id, accepted) =>
      if id >= 0x8000_0000 || id !in s.pending then s
      else s.(pending := s.pending - {id}, results := s.results + [Result(id, accepted)])
  }

  /** The session after a list of events. */
  function After(events: seq<Event>): State {
    if events == [] then State(0, [], [], {}, [], [])
    else Step(After(events[..|events| - 1]), events[|events| - 1])
  }

  /** The client runs every session as specified. */
  method Session(events: seq<Event>) returns (issued: nat, results: seq<Result>, outcomes: seq<Outcome>)
    ensures var s := After(events);
      issued == s.issued && results == s.results && outcomes == s.outcomes
    ensures WellAnswered(results, outcomes, issued)
    ensures exists at :: AnsweredBy(events, results, at)
  {
    var client := new Client();
    issued, outcomes := 0, [];
    var waiting: seq<int32>, sending: seq<int32> := [], [];
    for i := 0 to |events|
      invariant After(events[..i]) == State(issued, waiting, sending, client.pending, client.results, outcomes)
      invariant client.nextId == IdAt(issued)
    {
      assert events[..i + 1][..i] == events[..i];
      match events[i] {
        case Submit =>
          NextId(issued);
          var id := client.Issue();
          issued, waiting := issued + 1, waiting + [id];
        case Insert(t) =>
          if t < |waiting| {
            client.Register(waiting[t]);
            waiting, sending := Without(waiting, t), sending + [waiting[t]];
          }
        case SendEnds(t, ok) =>
          if t < |sending| {
            var r := client.Finish(sending[t], ok);
            sending, outcomes := Without(sending, t), outcomes + [r];
          }
        case Line(id, accepted) =>
          client.Response(id, accepted);
      }
    }
    assert events[..|events|] == events;
    results := client.results;
    SessionIsWellAnswered(events);
    ghost var at := VerdictsAreTheLines(events);
  }

  // ---- Every id is accounted for ----

  function TakenBack(outcomes: seq<Outcome>): multiset<int32> {
    if outcomes == [] then multiset{}
    else
      var r := outcomes[|outcomes| - 1];
      TakenBack(outcomes[..|outcomes| - 1]) + if r.Failed? && r.erased then multiset{r.id} else multiset{}
  }

  ghost predicate Threads(s: State) {
    multiset(s.waiting) + multiset(s.sending) + multiset(OutcomeIds(s.outcomes)) == multiset(IssuedIds(s.issued))
  }

  /** Every id is answered, pending, on its way there, or taken back, once for each time it was issued. */
  function Places(s: State): multiset<int32> {
    multiset(ResultIds(s.results)) + multiset(s.pending) + multiset(s.waiting) + TakenBack(s.outcomes)
  }

  ghost predicate Counts(s: State) {
    && Threads(s)
    && TakenBack(s.outcomes) <= multiset(OutcomeIds(s.outcomes))
    && Places(s) <= multiset(IssuedIds(s.issued))
    && (s.issued <= TWO32 ==> Places(s) == multiset(IssuedIds(s.issued)))
  }

  /** A failed send that erased nothing came after the answer. */
  ghost predicate LateFailures(s: State) {
    forall k :: 0 <= k < |s.outcomes| && s.outcomes[k].Failed? && !s.outcomes[k].erased ==>
      s.outcomes[k].id in multiset(ResultIds(s.results))
  }

  predicate NonNegative(results: seq<Result>) { forall k :: 0 <= k < |results| ==> results[k].id >= 0 }

  lemma WithoutCounts<T>(s: seq<T>, t: nat)
    requires t < |s|
    ensures multiset(Without(s, t)) + multiset{s[t]} == multiset(s)
  {
    assert s == s[..t] + [s[t]] + s[t + 1..];
  }

  lemma {:induction false} IssuedOnce(n: nat, id: int32)
    requires n <= TWO32
    ensures multiset(IssuedIds(n))[id] <= 1
    ensures id in multiset(IssuedIds(n)) ==> exists k :: 1 <= k <= n && id == IdAt(k)
  {
    if n > 0 {
      IssuedOnce(n - 1, id);
      assert IssuedIds(n) == IssuedIds(n - 1) + [IdAt(n)];
      if id == IdAt(n) && id in multiset(IssuedIds(n - 1)) {
        var k :| 1 <= k <= n - 1 && id == IdAt(k);
        IdsDiffer(k, n);
      }
    }
  }

  lemma SetAdd<T>(a: set<T>, x: T)
    ensures multiset(a + {x}) == if x in a then multiset(a) else multiset(a) + multiset{x}
  {
    if x in a { assert a + {x} == a; }
  }

  lemma SetRemove<T>(a: set<T>, x: T)
    requires x in a
    ensures multiset(a - {x}) + multiset{x} == multiset(a)
  {
  }

  lemma SubmitKeeps(s: State)
    requires Counts(s)
    ensures Counts(Step(s, Submit))
  {
    var id, s' := IdAt(s.issued + 1), Step(s, Submit);
    assert IssuedIds(s.issued + 1) == IssuedIds(s.issued) + [id];
    assert multiset(IssuedIds(s.issued + 1)) == multiset(IssuedIds(s.issued)) + multiset{id};
    assert multiset(s'.waiting) == multiset(s.waiting) + multiset{id};
    assert Places(s') == Places(s) + multiset{id};
  }

  lemma MoveOne<T>(a: multiset<T>, b: multiset<T>, b': multiset<T>, c: multiset<T>, x: T)
    requires b' + multiset{x} == b
    ensures a + b' + (c + multiset{x}) == a + b + c
  {
    assert a + b' + (c + multiset{x}) == a + (b' + multiset{x}) + c;
  }

  lemma InsertThreads(s: State, t: nat)
    requires Threads(s) && t < |s.waiting|
    ensures Threads(Step(s, Insert(t)))
  {
    var id, s' := s.waiting[t], Step(s, Insert(t));
    WithoutCounts(s.waiting, t);
    assert multiset(s'.sending) == multiset(s.sending) + multiset{id};
    MoveOne(multiset(OutcomeIds(s.outcomes)), multiset(s.waiting), multiset(s'.waiting), multiset(s.sending), id);
  }

  lemma InsertNew(s: State, t: nat)
    requires t < |s.waiting| && s.waiting[t] !in s.pending
    ensures Places(Step(s, Insert(t))) == Places(s)
  {
    var id, s' := s.waiting[t], Step(s, Insert(t));
    WithoutCounts(s.waiting, t);
    SetAdd(s.pending, id);
    MoveOne(multiset(ResultIds(s.results)) + TakenBack(s.outcomes), multiset(s.waiting), multiset(s'.waiting),
            multiset(s.pending), id);
  }

  /** Inserting an id that is already pending, as after a wrap, loses one place. */
  lemma InsertAgain(s: State, t: nat)
    requires t < |s.waiting| && s.waiting[t] in s.pending
    ensures Places(Step(s, Insert(t))) + multiset{s.waiting[t]} == Places(s)
  {
    WithoutCounts(s.waiting, t);
    SetAdd(s.pending, s.waiting[t]);
  }

  lemma OneLess<T>(a: multiset<T>, b: multiset<T>, c: multiset<T>, x: T)
    requires a + multiset{x} == b && b <= c
    ensures a <= c
  {
  }

  lemma InsertPlaces(s: State, t: nat)
    requires Counts(s) && t < |s.waiting|
    ensures var s' := Step(s, Insert(t));
      && Places(s') <= multiset(IssuedIds(s.issued))
      && (s.issued <= TWO32 ==> Places(s') == multiset(IssuedIds(s.issued)))
  {
    if s.waiting[t] !in s.pending {
      InsertNew(s, t);
    } else {
      InsertAgain(s, t);
      OneLess(Places(Step(s, Insert(t))), Places(s), multiset(IssuedIds(s.issued)), s.waiting[t]);
      if s.issued <= TWO32 { UniqueIsNotPending(s, t); }
    }
  }

  lemma InsertKeeps(s: State, t: nat)
    requires Counts(s) && t < |s.waiting|
    ensures Counts(Step(s, Insert(t)))
  {
    InsertThreads(s, t);
    InsertPlaces(s, t);
  }

  lemma UniqueIsNotPending(s: State, t: nat)
    requires Places(s) <= multiset(IssuedIds(s.issued)) && s.issued <= TWO32 && t < |s.waiting|
    ensures s.waiting[t] !in s.pending
  {
    var id := s.waiting[t];
    IssuedOnce(s.issued, id);
    assert id in multiset(s.waiting);
    assert Places(s)[id] <= 1;
  }

  /** While ids are unique, one whose send is under way is pending or has been answered. */
  lemma SendingIsPendingOrAnswered(s: State, t: nat)
    requires Counts(s) && s.issued <= TWO32 && t < |s.sending|
    ensures s.sending[t] in s.pending || s.sending[t] in multiset(ResultIds(s.results))
  {
    var id := s.sending[t];
    IssuedOnce(s.issued, id);
    assert id in multiset(s.sending);
    assert multiset(s.waiting)[id] == 0 && multiset(OutcomeIds(s.outcomes))[id] == 0;
    assert Places(s)[id] == 1;
  }

  lemma OutcomesAppend(outcomes: seq<Outcome>, r: Outcome)
    ensures multiset(OutcomeIds(outcomes + [r])) == multiset(OutcomeIds(outcomes)) + multiset{r.id}
    ensures TakenBack(outcomes + [r]) == TakenBack(outcomes) + if r == Failed(r.id, true) then multiset{r.id} else multiset{}
  {
    assert (outcomes + [r])[..|outcomes|] == outcomes;
    assert OutcomeIds(outcomes + [r]) == OutcomeIds(outcomes) + [r.id];
  }

  lemma ResultsAppend(results: seq<Result>, r: Result)
    ensures multiset(ResultIds(results + [r])) == multiset(ResultIds(results)) + multiset{r.id}
  {
    assert ResultIds(results + [r]) == ResultIds(results) + [r.id];
  }

  lemma SendEndsThreads(s: State, t: nat, ok: bool)
    requires Threads(s) && t < |s.sending|
    ensures Threads(Step(s, SendEnds(t, ok)))
  {
    var id, s' := s.sending[t], Step(s, SendEnds(t, ok));
    WithoutCounts(s.sending, t);
    OutcomesAppend(s.outcomes, s'.outcomes[|s.outcomes|]);
    MoveOne(multiset(s.waiting), multiset(s.sending), multiset(s'.sending), multiset(OutcomeIds(s.outcomes)), id);
  }

  lemma SendEndsPlaces(s: State, t: nat, ok: bool)
    requires t < |s.sending|
    ensures Places(Step(s, SendEnds(t, ok))) == Places(s)
  {
    var id, s' := s.sending[t], Step(s, SendEnds(t, ok));
    OutcomesAppend(s.outcomes, s'.outcomes[|s.outcomes|]);
    if !ok && id in s.pending {
      SetRemove(s.pending, id);
      MoveOne(multiset(ResultIds(s.results)) + multiset(s.waiting), multiset(s.pending), multiset(s'.pending),
              TakenBack(s.outcomes), id);
    } else {
      assert s.pending - {id} == s.pending || ok;
    }
  }

  lemma SendEndsTaken(s: State, t: nat, ok: bool)
    requires TakenBack(s.outcomes) <= multiset(OutcomeIds(s.outcomes)) && t < |s.sending|
    ensures var s' := Step(s, SendEnds(t, ok)); TakenBack(s'.outcomes) <= multiset(OutcomeIds(s'.outcomes))
  {
    var r := Step(s, SendEnds(t, ok)).outcomes[|s.outcomes|];
    assert Step(s, SendEnds(t, ok)).outcomes == s.outcomes + [r];
    OutcomesAppend(s.outcomes, r);
    StillWithin(TakenBack(s.outcomes), multiset(OutcomeIds(s.outcomes)), r.id);
  }

  lemma StillWithin<T>(a: multiset<T>, b: multiset<T>, x: T)
    requires a <= b
    ensures a + multiset{x} <= b + multiset{x} && a <= b + multiset{x}
  {
  }

  lemma SendEndsKeeps(s: State, t: nat, ok: bool)
    requires Counts(s) && t < |s.sending|
    ensures Counts(Step(s, SendEnds(t, ok)))
  {
    SendEndsThreads(s, t, ok);
    SendEndsPlaces(s, t, ok);
    SendEndsTaken(s, t, ok);
  }

  lemma SendEndsIsLate(s: State, t: nat, ok: bool)
    requires Counts(s) && s.issued <= TWO32 && LateFailures(s) && t < |s.sending|
    ensures LateFailures(Step(s, SendEnds(t, ok)))
  {
    SendingIsPendingOrAnswered(s, t);
  }

  lemma LinePlaces(s: State, id: nat, accepted: bool)
    requires id < 0x8000_0000 && id in s.pending
    ensures Places(Step(s, Line(id, accepted))) == Places(s)
  {
    var s' := Step(s, Line(id, accepted));
    SetRemove(s.pending, id);
    ResultsAppend(s.results, Result(id, accepted));
    MoveOne(multiset(s.waiting) + TakenBack(s.outcomes), multiset(s.pending), multiset(s'.pending),
            multiset(ResultIds(s.results)), id);
  }

  lemma LineIsLate(s: State, id: nat, accepted: bool)
    requires LateFailures(s) && id < 0x8000_0000 && id in s.pending
    ensures LateFailures(Step(s, Line(id, accepted)))
  {
    ResultsAppend(s.results, Result(id, accepted));
  }

  lemma StepCounts(s: State, e: Event)
    requires Counts(s)
    ensures Counts(Step(s, e))
  {
    match e {
      case Submit => SubmitKeeps(s);
      case Insert(t) => if t < |s.waiting| { InsertKeeps(s, t); }
      case SendEnds(t, ok) => if t < |s.sending| { SendEndsKeeps(s, t, ok); }
      case Line(id, accepted) => if id < 0x8000_0000 && id in s.pending { LinePlaces(s, id, accepted); }
    }
  }

  lemma StepIsLate(s: State, e: Event)
    requires Counts(s) && Step(s, e).issued <= TWO32 && LateFailures(s)
    ensures LateFailures(Step(s, e))
  {
    match e {
      case SendEnds(t, ok) => if t < |s.sending| { SendEndsIsLate(s, t, ok); }
      case Line(id, accepted) => if id < 0x8000_0000 && id in s.pending { LineIsLate(s, id, accepted); }
      case _ =>
    }
  }

  lemma {:induction false} SessionCounts(events: seq<Event>)
    ensures Counts(After(events))
  {
    if events == [] {
      assert ResultIds([]) == [] && OutcomeIds([]) == [] && IssuedIds(0) == [];
    } else {
      SessionCounts(events[..|events| - 1]);
      StepCounts(After(events[..|events| - 1]), events[|events| - 1]);
    }
  }

  lemma StepIssued(s: State, e: Event)
    ensures s.issued <= Step(s, e).issued
  {
  }

  lemma StepNonNegative(s: State, e: Event)
    requires NonNegative(s.results)
    ensures NonNegative(Step(s, e).results)
  {
  }

  lemma {:induction false} SessionIsLate(events: seq<Event>)
    requires After(events).issued <= TWO32
    ensures LateFailures(After(events))
  {
    if events != [] {
      var before, e := events[..|events| - 1], events[|events| - 1];
      var s := After(before);
      StepIssued(s, e);
      SessionIsLate(before);
      SessionCounts(before);
      StepIsLate(s, e);
    }
  }

  lemma {:induction false} SessionNonNegative(events: seq<Event>)
    ensures NonNegative(After(events).results)
  {
    if events != [] {
      SessionNonNegative(events[..|events| - 1]);
      StepNonNegative(After(events[..|events| - 1]), events[|events| - 1]);
    }
  }

  // ---- What the handler and the submitters see ----

  lemma CountBound(s: seq<int32>, id: int32, i: nat, j: nat)
    requires i < j < |s| && s[i] == id && s[j] == id
    ensures multiset(s)[id] >= 2
  {
    assert s == s[..j] + s[j..];
    assert s[..j][i] == id && s[j..][0] == id;
    assert id in multiset(s[..j]) && id in multiset(s[j..]);
  }

  lemma SubmultisetSize<T>(a: multiset<T>, b: multiset<T>)
    requires a <= b
    ensures |a| <= |b|
  {
    assert b == a + (b - a);
  }

  /** Within the first 2^32 - 100 issues no answered id is a login id. */
  lemma NeverLoginId(ids: seq<int32>, issued: nat, i: nat)
    requires multiset(ids) <= multiset(IssuedIds(issued)) && issued < TWO32 - 99 && i < |ids|
    ensures ids[i] != 1 && ids[i] != 2
  {
    IssuedOnce(issued, ids[i]);
    assert ids[i] in multiset(ids);
    var k :| 1 <= k <= issued && ids[i] == IdAt(k);
    LoginIds(k);
  }

  /** Within the first 2^32 issues no id is answered twice. */
  lemma AnsweredOnce(ids: seq<int32>, issued: nat, i: nat, j: nat)
    requires multiset(ids) <= multiset(IssuedIds(issued)) && issued <= TWO32
    requires i < j < |ids|
    ensures ids[i] != ids[j]
  {
    IssuedOnce(issued, ids[i]);
    if ids[j] == ids[i] { CountBound(ids, ids[i], i, j); }
  }

  predicate Answered(results: seq<Result>, id: int32) { id in ResultIds(results) }

  /** Some submit call of this id returned a negative value, which its caller takes for a failure. */
  predicate ReportedFailed(outcomes: seq<Outcome>, id: int32) {
    exists k :: 0 <= k < |outcomes| && outcomes[k].id == id && outcomes[k].Sid() < 0
  }

  /** What the result handler and the callers of submit have seen of a session with `issued` ids. */
  ghost predicate WellAnswered(results: seq<Result>, outcomes: seq<Outcome>, issued: nat) {
    && |results| <= issued
    && multiset(ResultIds(results)) <= multiset(IssuedIds(issued))
    && (issued <= TWO32 ==> forall i, j :: 0 <= i < j < |results| ==> results[i].id != results[j].id)
    && (issued < TWO32 - 99 ==> forall i :: 0 <= i < |results| ==> results[i].id != 1 && results[i].id != 2)
    && (issued <= TWO32 ==>
        forall id :: Answered(results, id) && ReportedFailed(outcomes, id) <==> Failed(id, false) in outcomes)
  }

  /** An id taken back was not answered. */
  lemma TakenIsNotAnswered(s: State, k: nat)
    requires Counts(s) && s.issued <= TWO32 && k < |s.outcomes| && s.outcomes[k] == Failed(s.outcomes[k].id, true)
    ensures s.outcomes[k].id !in multiset(ResultIds(s.results))
  {
    var id := s.outcomes[k].id;
    TakenIsCounted(s.outcomes, k);
    IssuedOnce(s.issued, id);
    assert multiset(ResultIds(s.results))[id] + TakenBack(s.outcomes)[id] <= Places(s)[id] <= 1;
  }

  /** An answered id was also reported as failed exactly when some failed send found its id no longer
      pending, that is, when erasing it removed nothing. */
  lemma AnsweredAndFailed(s: State, id: int32)
    requires Counts(s) && LateFailures(s) && NonNegative(s.results) && s.issued <= TWO32
    ensures Answered(s.results, id) && ReportedFailed(s.outcomes, id) <==> Failed(id, false) in s.outcomes
  {
    assert id in ResultIds(s.results) <==> id in multiset(ResultIds(s.results));
    if Failed(id, false) in s.outcomes {
      var k :| 0 <= k < |s.outcomes| && s.outcomes[k] == Failed(id, false);
      assert s.outcomes[k].Sid() < 0;
    }
    if Answered(s.results, id) && ReportedFailed(s.outcomes, id) {
      var k :| 0 <= k < |s.outcomes| && s.outcomes[k].id == id && s.outcomes[k].Sid() < 0;
      var j :| 0 <= j < |s.results| && ResultIds(s.results)[j] == id;
      assert s.results[j].id >= 0;
      if s.outcomes[k].erased { TakenIsNotAnswered(s, k); }
    }
  }

  lemma {:induction false} TakenIsCounted(outcomes: seq<Outcome>, k: nat)
    requires k < |outcomes| && outcomes[k].Failed? && outcomes[k].erased
    ensures outcomes[k].id in TakenBack(outcomes)
    decreases |outcomes|
  {
    if k < |outcomes| - 1 { TakenIsCounted(outcomes[..|outcomes| - 1], k); }
  }

  /** Over every session: the handler runs at most once for each time an id was issued, never more often
      in all than ids were issued, and it contradicts a caller exactly for late failures. */
  lemma SessionIsWellAnswered(events: seq<Event>)
    ensures var s := After(events); WellAnswered(s.results, s.outcomes, s.issued)
  {
    var s := After(events);
    var ids := ResultIds(s.results);
    SessionCounts(events);
    SessionNonNegative(events);
    assert multiset(ids) <= multiset(IssuedIds(s.issued));
    SubmultisetSize(multiset(ids), multiset(IssuedIds(s.issued)));
    if s.issued <= TWO32 {
      SessionIsLate(events);
      forall i, j | 0 <= i < j < |s.results| ensures s.results[i].id != s.results[j].id { AnsweredOnce(ids, s.issued, i, j); }
      forall id ensures Answered(s.results, id) && ReportedFailed(s.outcomes, id) <==> Failed(id, false) in s.outcomes {
        AnsweredAndFailed(s, id);
      }
    }
    if s.issued < TWO32 - 99 {
      forall i | 0 <= i < |s.results| ensures s.results[i].id != 1 && s.results[i].id != 2 { NeverLoginId(ids, s.issued, i); }
    }
  }

  // ---- The verdicts ----

  /** A response line for a pending id. */
  predicate Answers(events: seq<Event>, i: nat)
    requires i < |events|
  {
    events[i].Line? && events[i].id < 0x8000_0000 && events[i].id in After(events[..i]).pending
  }

  /** The lines behind the handler's calls, in order: `at` lists exactly those that answer a pending id. */
  ghost predicate AnsweredBy(events: seq<Event>, results: seq<Result>, at: seq<nat>) {
    && |at| == |results|
    && (forall j, k :: 0 <= j < k < |at| ==> at[j] < at[k])
    && (forall k :: 0 <= k < |at| ==> at[k] < |events| && IsAnswerOf(events, at[k], results[k]))
    && (forall i: nat :: i < |events| && Answers(events, i) ==> i in at)
  }

  /** The handler's call carries the id and the verdict of the line. */
  predicate IsAnswerOf(events: seq<Event>, i: nat, r: Result)
    requires i < |events|
  {
    Answers(events, i) && r.id == events[i].id && r.accepted == events[i].accepted
  }

  lemma EarlierAnswers(events: seq<Event>, results: seq<Result>, at: seq<nat>)
    requires events != [] && AnsweredBy(events[..|events| - 1], results, at)
    ensures forall k :: 0 <= k < |at| ==> at[k] < |events| - 1 && IsAnswerOf(events, at[k], results[k])
    ensures forall i: nat :: i < |events| - 1 && Answers(events, i) ==> i in at
  {
    var before := events[..|events| - 1];
    forall k | 0 <= k < |at| ensures IsAnswerOf(events, at[k], results[k]) {
      assert IsAnswerOf(before, at[k], results[k]);
      assert before[..at[k]] == events[..at[k]];
    }
    forall i: nat | i < |events| - 1 && Answers(events, i) ensures i in at {
      assert before[..i] == events[..i];
      assert Answers(before, i);
    }
  }

  lemma AnswerNow(events: seq<Event>, results: seq<Result>, at: seq<nat>, r: Result)
    requires events != [] && AnsweredBy(events[..|events| - 1], results, at)
    requires IsAnswerOf(events, |events| - 1, r)
    ensures AnsweredBy(events, results + [r], at + [|events| - 1])
  {
    EarlierAnswers(events, results, at);
    var at' := at + [|events| - 1];
    forall i: nat | i < |events| && Answers(events, i) ensures i in at' {
      if i == |events| - 1 { assert at'[|at|] == i; } else { assert i in at; }
    }
  }

  lemma NoAnswer(events: seq<Event>, results: seq<Result>, at: seq<nat>)
    requires events != [] && AnsweredBy(events[..|events| - 1], results, at) && !Answers(events, |events| - 1)
    ensures AnsweredBy(events, results, at)
  {
    EarlierAnswers(events, results, at);
  }

  lemma StepResults(s: State, e: Event)
    ensures if e.Line? && e.id < 0x8000_0000 && e.id in s.pending
            then Step(s, e).results == s.results + [Result(e.id, e.accepted)]
            else Step(s, e).results == s.results
  {
  }

  /** Over every session the handler runs once for each line that answers a pending id, in order, with the id
      and the verdict of that line, and for no other line. */
  lemma {:induction false} VerdictsAreTheLines(events: seq<Event>) returns (at: seq<nat>)
    ensures AnsweredBy(events, After(events).results, at)
    decreases |events|
  {
    if events == [] {
      at := [];
    } else {
      var last := |events| - 1;
      var s := After(events[..last]);
      at := VerdictsAreTheLines(events[..last]);
      StepResults(s, events[last]);
      if Answers(events, last) {
        AnswerNow(events, s.results, at, Result(events[last].id, events[last].accepted));
        at := at + [last];
      } else {
        NoAnswer(events, s.results, at);
      }
    }
  }

  /** The smallest session of that kind: the response overtakes the failure of its own send, and the share
      counts as accepted although submit_share returned -1. */
  lemma AcceptedButNotSubmitted()
    ensures var s := After([Submit, Insert(0), Line(101, true), SendEnds(0, false)]);
      s.results == [Result(101, true)] && s.outcomes == [Failed(101, false)] && s.outcomes[0].Sid() == -1
  {
    var e := [Submit, Insert(0), Line(101, true), SendEnds(0, false)];
    assert e[..3] == [Submit, Insert(0), Line(101, true)] && e[..3][..2] == [Submit, Insert(0)];
    assert e[..3][..2][..1] == [Submit] && [Submit][..0] == [];
    assert After([Submit]) == State(1, [101], [], {}, [], []);
    assert After([Submit, Insert(0)]) == State(1, [], [101], {101}, [], []);
    assert After(e[..3]) == State(1, [], [101], {}, [Result(101, true)], []);
  }
}
