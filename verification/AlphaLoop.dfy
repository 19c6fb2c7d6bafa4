/** The mining loop of alphanumeric_runner.cpp: a 64-bit next_nonce, a chunk resized towards a batch
    time, and finds that restart the scan just behind the winning nonce. */
module AlphaLoop {
  import opened Words

  const MIN_CHUNK: nat := 0x1_0000
  const MAX_CHUNK: nat := 0x1000_0000

  /** What one scan call reports. */
  datatype Outcome = Failed | NotFound | FoundAt(nonce: u64)

  /** How far a nonce lies behind the start of a chunk, counting around 2^64. */
  function Distance(start: u64, nonce: u64): (d: nat)
    ensures NonceAt(start, d) == nonce && d < TWO64
  {
    (nonce - start) % TWO64
  }

  /** The scan's own guarantee: a reported nonce lies in the launched chunk. */
  predicate InChunk(start: u64, count: nat, outcome: Outcome) {
    outcome.FoundAt? ==> Distance(start, outcome.nonce) < count
  }

  // ---- The loop's members ----

  function Resized(chunk: nat, resized: Option<nat>): nat {
    if resized.Some? then Clamp(resized.value, MIN_CHUNK, MAX_CHUNK) else chunk
  }

  class MiningLoop {
    var nextNonce: u64
    var chunk: nat

    constructor (intensityChunk: nat)
      ensures nextNonce == 0 && chunk == Clamp(intensityChunk, MIN_CHUNK, MAX_CHUNK)
    {
      nextNonce, chunk := 0, Clamp(intensityChunk, MIN_CHUNK, MAX_CHUNK);
    }

    /** A job is (re-)adopted: scanning starts again at nonce 0, with the chunk kept. */
    method Adopt()
      modifies `nextNonce
      ensures nextNonce == 0
    {
      nextNonce := 0;
    }

    /** What the loop does with the result of a scan: a failure moves nothing, an empty scan moves by what
        was launched, a find moves just behind its nonce, however much was launched. */
    method Batch(outcome: Outcome, resized: Option<nat>)
      modifies this
      ensures outcome.Failed? ==> nextNonce == old(nextNonce) && chunk == old(chunk)
      ensures outcome.NotFound? ==> nextNonce == NonceAt(old(nextNonce), old(chunk))
      ensures outcome.FoundAt? ==> nextNonce == NonceAt(outcome.nonce, 1)
      ensures !outcome.Failed? ==> chunk == Resized(old(chunk), resized)
    {
      if outcome.Failed? {
        return;
      }
      var count := chunk;
      if resized.Some? {
        chunk := Clamp(resized.value, MIN_CHUNK, MAX_CHUNK);
      }
      if outcome.FoundAt? {
        nextNonce := (outcome.nonce + 1) % TWO64;
      } else {
        nextNonce := (nextNonce + count) % TWO64;
      }
    }
  }

  // ---- Runs ----

  datatype Event =
    | Adopted
    | Scanned(scan: (u64, nat) -> Outcome, resized: Option<nat>)

  /** Every scan of the run reports only nonces of the chunk it was given. */
  ghost predicate SoundScans(events: seq<Event>) {
    forall i, start, count :: 0 <= i < |events| && events[i].Scanned? ==>
      InChunk(start, count, events[i].scan(start, count))
  }

  /** A find: its adoption, its place in the unwrapped nonce stream of that adoption, its nonce, and how
      many nonces the adoption had launched by then. */
  datatype Find = Find(epoch: nat, position: nat, nonce: u64, launched: nat)

  /** The loop after some events; `launched` counts the current adoption's nonces, `position` is
      next_nonce before wrapping. */
  datatype State = State(nextNonce: u64, chunk: nat, epoch: nat, launched: nat, position: nat, finds: seq<Find>)

  function Step(s: State, e: Event): State {
    match e
    case Adopted => s.(nextNonce := 0, epoch := s.epoch + 1, launched := 0, position := 0)
    case Scanned(scan, resized) =>
      match scan(s.nextNonce, s.chunk)
      case Failed => s
      case NotFound =>
        State(NonceAt(s.nextNonce, s.chunk), Resized(s.chunk, resized), s.epoch, s.launched + s.chunk,
              s.position + s.chunk, s.finds)
      case FoundAt(nonce) =>
        var at := s.position + Distance(s.nextNonce, nonce);
        State(NonceAt(nonce, 1), Resized(s.chunk, resized), s.epoch, s.launched + s.chunk, at + 1,
              s.finds + [Find(s.epoch, at, nonce, s.launched + s.chunk)])
  }

  function After(intensityChunk: nat, events: seq<Event>): State {
    if events == [] then State(0, Clamp(intensityChunk, MIN_CHUNK, MAX_CHUNK), 0, 0, 0, [])
    else Step(After(intensityChunk, events[..|events| - 1]), events[|events| - 1])
  }

  // ---- What every run keeps ----

  ghost predicate Before(f: Find, epoch: nat, position: nat) {
    f.epoch < epoch || (f.epoch == epoch && f.position < position)
  }

  /** The finds come in order, all before the current place in the stream, each within what its adoption
      had launched. */
  ghost predicate Recorded(finds: seq<Find>, epoch: nat, position: nat) {
    finds != [] ==>
      var f := finds[|finds| - 1];
      && Before(f, epoch, position)
      && f.nonce == f.position % TWO64 && f.position < f.launched
      && Recorded(finds[..|finds| - 1], f.epoch, f.position)
  }

  ghost predicate Inv(s: State) {
    && MIN_CHUNK <= s.chunk <= MAX_CHUNK
    && s.nextNonce == s.position % TWO64 && s.position <= s.launched
    && Recorded(s.finds, s.epoch, s.position)
  }

  lemma RecordAnother(finds: seq<Find>, f: Find)
    requires Recorded(finds, f.epoch, f.position) && f.nonce == f.position % TWO64 && f.position < f.launched
    ensures Recorded(finds + [f], f.epoch, f.position + 1)
  {
    assert (finds + [f])[..|finds|] == finds;
  }

  lemma RecordLater(finds: seq<Find>, epoch: nat, position: nat, epoch': nat, position': nat)
    requires Recorded(finds, epoch, position)
    requires epoch < epoch' || (epoch == epoch' && position <= position')
    ensures Recorded(finds, epoch', position')
  {
  }

  /** Adding to the wrapped counter and to the unwrapped one stays in step. */
  lemma InStep(position: nat, next: u64, d: nat)
    requires next == position % TWO64
    ensures NonceAt(next, d) == (position + d) % TWO64
  {
  }

  /** After a batch the next nonce is the wrapped place in the stream again. */
  lemma BatchInv(s: State, d: nat, chunk: nat, nextNonce: u64, finds: seq<Find>)
    requires Inv(s) && d <= s.chunk && MIN_CHUNK <= chunk <= MAX_CHUNK && nextNonce == (s.position + d) % TWO64
    requires Recorded(finds, s.epoch, s.position + d)
    ensures Inv(State(nextNonce, chunk, s.epoch, s.launched + s.chunk, s.position + d, finds))
  {
  }

  lemma FoundInv(s: State, nonce: u64, resized: Option<nat>)
    requires Inv(s) && Distance(s.nextNonce, nonce) < s.chunk
    ensures var at := s.position + Distance(s.nextNonce, nonce);
      Inv(State(NonceAt(nonce, 1), Resized(s.chunk, resized), s.epoch, s.launched + s.chunk, at + 1,
                s.finds + [Find(s.epoch, at, nonce, s.launched + s.chunk)]))
  {
    var d := Distance(s.nextNonce, nonce);
    var f := Find(s.epoch, s.position + d, nonce, s.launched + s.chunk);
    InStep(s.position, s.nextNonce, d);
    InStep(s.position + d, nonce, 1);
    RecordLater(s.finds, s.epoch, s.position, s.epoch, s.position + d);
    RecordAnother(s.finds, f);
    BatchInv(s, d + 1, Resized(s.chunk, resized), NonceAt(nonce, 1), s.finds + [f]);
  }

  lemma NotFoundInv(s: State, resized: Option<nat>)
    requires Inv(s)
    ensures Inv(State(NonceAt(s.nextNonce, s.chunk), Resized(s.chunk, resized), s.epoch, s.launched + s.chunk,
                      s.position + s.chunk, s.finds))
  {
    InStep(s.position, s.nextNonce, s.chunk);
    RecordLater(s.finds, s.epoch, s.position, s.epoch, s.position + s.chunk);
    BatchInv(s, s.chunk, Resized(s.chunk, resized), NonceAt(s.nextNonce, s.chunk), s.finds);
  }

  lemma StepInv(s: State, e: Event)
    requires Inv(s) && (e.Scanned? ==> InChunk(s.nextNonce, s.chunk, e.scan(s.nextNonce, s.chunk)))
    ensures Inv(Step(s, e))
  {
    match e {
      case Adopted => RecordLater(s.finds, s.epoch, s.position, s.epoch + 1, 0);
      case Scanned(scan, resized) =>
        match scan(s.nextNonce, s.chunk) {
          case Failed =>
          case NotFound => NotFoundInv(s, resized);
          case FoundAt(nonce) => FoundInv(s, nonce, resized);
        }
    }
  }

  lemma {:induction false} RunInv(intensityChunk: nat, events: seq<Event>)
    requires SoundScans(events)
    ensures Inv(After(intensityChunk, events))
  {
    if events != [] {
      var before, e := events[..|events| - 1], events[|events| - 1];
      assert forall i :: 0 <= i < |before| ==> before[i] == events[i];
      RunInv(intensityChunk, before);
      StepInv(After(intensityChunk, before), e);
    }
  }

  // ---- Reported nonces ----

  lemma {:induction false} FindAt(finds: seq<Find>, epoch: nat, position: nat, i: nat)
    requires Recorded(finds, epoch, position) && i < |finds|
    ensures Before(finds[i], epoch, position)
    ensures finds[i].nonce == finds[i].position % TWO64 && finds[i].position < finds[i].launched
    decreases |finds|
  {
    var last := |finds| - 1;
    if i < last { FindAt(finds[..last], finds[last].epoch, finds[last].position, i); }
  }

  lemma {:induction false} FindsInOrder(finds: seq<Find>, epoch: nat, position: nat, i: nat, j: nat)
    requires Recorded(finds, epoch, position) && i < j < |finds|
    ensures Before(finds[i], finds[j].epoch, finds[j].position)
    decreases |finds|
  {
    var last := |finds| - 1;
    if j < last {
      FindsInOrder(finds[..last], finds[last].epoch, finds[last].position, i, j);
    } else {
      FindAt(finds[..last], finds[last].epoch, finds[last].position, i);
    }
  }

  /** Two finds of one adoption share a nonce only if the 64-bit counter wrapped in between. */
  lemma RepeatNeedsWrap(f: Find, g: Find)
    requires f.epoch == g.epoch && f.position < g.position
    requires f.nonce == f.position % TWO64 && g.nonce == g.position % TWO64
    ensures f.nonce == g.nonce ==> g.position - f.position >= TWO64
    ensures g.position < TWO64 ==> f.nonce < g.nonce
  {
  }

  /** The nonces found in one adoption strictly increase for as long as it has launched at most 2^64. */
  lemma NoncesIncrease(intensityChunk: nat, events: seq<Event>, i: nat, j: nat)
    requires SoundScans(events) && i < j < |After(intensityChunk, events).finds|
    ensures var finds := After(intensityChunk, events).finds;
      finds[i].epoch == finds[j].epoch && finds[j].launched <= TWO64 ==> finds[i].nonce < finds[j].nonce
  {
    var s := After(intensityChunk, events);
    RunInv(intensityChunk, events);
    FindsInOrder(s.finds, s.epoch, s.position, i, j);
    FindAt(s.finds, s.epoch, s.position, i);
    FindAt(s.finds, s.epoch, s.position, j);
    if s.finds[i].epoch == s.finds[j].epoch { RepeatNeedsWrap(s.finds[i], s.finds[j]); }
  }

  // ---- Nothing found is lost, and nothing is skipped ----

  /** The loop when event i comes. */
  function At(intensityChunk: nat, events: seq<Event>, i: nat): State
    requires i <= |events|
  {
    After(intensityChunk, events[..i])
  }

  /** What the scan of event i reported: it was given the loop's position and chunk of that moment. */
  function OutcomeOf(intensityChunk: nat, events: seq<Event>, i: nat): Outcome
    requires i < |events|
  {
    var s := At(intensityChunk, events, i);
    if events[i].Scanned? then events[i].scan(s.nextNonce, s.chunk) else Failed
  }

  function Adoptions(events: seq<Event>): nat {
    if events == [] then 0
    else Adoptions(events[..|events| - 1]) + if events[|events| - 1].Adopted? then 1 else 0
  }

  lemma {:induction false} EpochCounts(intensityChunk: nat, events: seq<Event>)
    ensures After(intensityChunk, events).epoch == Adoptions(events)
  {
    if events != [] { EpochCounts(intensityChunk, events[..|events| - 1]); }
  }

  lemma EarlierEvents(intensityChunk: nat, events: seq<Event>, i: nat)
    requires i < |events| - 1
    ensures At(intensityChunk, events[..|events| - 1], i) == At(intensityChunk, events, i)
    ensures OutcomeOf(intensityChunk, events[..|events| - 1], i) == OutcomeOf(intensityChunk, events, i)
  {
    assert events[..|events| - 1][..i] == events[..i];
  }

  /** The find that event i made. */
  predicate IsFindOf(intensityChunk: nat, events: seq<Event>, i: nat, f: Find)
    requires i < |events|
  {
    && OutcomeOf(intensityChunk, events, i).FoundAt?
    && f.nonce == OutcomeOf(intensityChunk, events, i).nonce
    && f.epoch == Adoptions(events[..i])
  }

  /** The events of the finds, in order: `at` lists exactly those whose scan found a share. */
  ghost predicate FoundBy(intensityChunk: nat, events: seq<Event>, finds: seq<Find>, at: seq<nat>) {
    && |at| == |finds|
    && (forall j, k :: 0 <= j < k < |at| ==> at[j] < at[k])
    && (forall k :: 0 <= k < |at| ==> at[k] < |events| && IsFindOf(intensityChunk, events, at[k], finds[k]))
    && (forall i: nat :: i < |events| && OutcomeOf(intensityChunk, events, i).FoundAt? ==> i in at)
  }

  lemma FoundBefore(intensityChunk: nat, events: seq<Event>, finds: seq<Find>, at: seq<nat>)
    requires events != [] && FoundBy(intensityChunk, events[..|events| - 1], finds, at)
    ensures |at| == |finds| && (forall k :: 0 <= k < |at| ==> at[k] < |events| - 1)
    ensures forall k :: 0 <= k < |at| ==> IsFindOf(intensityChunk, events, at[k], finds[k])
    ensures forall i: nat :: i < |events| - 1 && OutcomeOf(intensityChunk, events, i).FoundAt? ==> i in at
  {
    var before := events[..|events| - 1];
    forall k | 0 <= k < |at| ensures IsFindOf(intensityChunk, events, at[k], finds[k]) {
      assert IsFindOf(intensityChunk, before, at[k], finds[k]);
      EarlierEvents(intensityChunk, events, at[k]);
      assert before[..at[k]] == events[..at[k]];
    }
    forall i: nat | i < |events| - 1 && OutcomeOf(intensityChunk, events, i).FoundAt? ensures i in at {
      EarlierEvents(intensityChunk, events, i);
    }
  }

  lemma FoundNow(intensityChunk: nat, events: seq<Event>, finds: seq<Find>, at: seq<nat>, f: Find)
    requires events != [] && FoundBy(intensityChunk, events[..|events| - 1], finds, at)
    requires IsFindOf(intensityChunk, events, |events| - 1, f)
    ensures FoundBy(intensityChunk, events, finds + [f], at + [|events| - 1])
  {
    FoundBefore(intensityChunk, events, finds, at);
    var at' := at + [|events| - 1];
    forall i: nat | i < |events| && OutcomeOf(intensityChunk, events, i).FoundAt? ensures i in at' {
      if i == |events| - 1 { assert at'[|at|] == i; } else { assert i in at; }
    }
  }

  lemma FoundNothing(intensityChunk: nat, events: seq<Event>, finds: seq<Find>, at: seq<nat>)
    requires events != [] && FoundBy(intensityChunk, events[..|events| - 1], finds, at)
    requires !OutcomeOf(intensityChunk, events, |events| - 1).FoundAt?
    ensures FoundBy(intensityChunk, events, finds, at)
  {
    FoundBefore(intensityChunk, events, finds, at);
  }

  lemma StepFinds(s: State, e: Event)
    ensures var outcome := if e.Scanned? then e.scan(s.nextNonce, s.chunk) else Failed;
      if outcome.FoundAt?
      then |Step(s, e).finds| == |s.finds| + 1 && Step(s, e).finds[..|s.finds|] == s.finds
           && Step(s, e).finds[|s.finds|].nonce == outcome.nonce && Step(s, e).finds[|s.finds|].epoch == s.epoch
      else Step(s, e).finds == s.finds
  {
  }

  /** Every scan that found a share is reported, once and in order, with its nonce and its adoption, and
      nothing else is. */
  lemma {:induction false} EveryFindIsReported(intensityChunk: nat, events: seq<Event>) returns (at: seq<nat>)
    ensures FoundBy(intensityChunk, events, After(intensityChunk, events).finds, at)
    decreases |events|
  {
    if events == [] {
      at := [];
    } else {
      var last := |events| - 1;
      var s, finds := At(intensityChunk, events, last), After(intensityChunk, events).finds;
      at := EveryFindIsReported(intensityChunk, events[..last]);
      StepFinds(s, events[last]);
      if OutcomeOf(intensityChunk, events, last).FoundAt? {
        EpochCounts(intensityChunk, events[..last]);
        FoundNow(intensityChunk, events, s.finds, at, finds[|s.finds|]);
        at := at + [last];
        assert finds == s.finds + [finds[|s.finds|]];
      } else {
        FoundNothing(intensityChunk, events, s.finds, at);
      }
    }
  }

  /** Event i searched the place p of the nonce stream of adoption `epoch`: an empty scan searches its whole
      chunk, a scan with a find only up to it. */
  predicate Searched(intensityChunk: nat, events: seq<Event>, i: nat, epoch: nat, p: nat)
    requires i < |events|
  {
    var s, outcome := At(intensityChunk, events, i), OutcomeOf(intensityChunk, events, i);
    && s.epoch == epoch && s.position <= p
    && match outcome
       case Failed => false
       case NotFound => p < s.position + s.chunk
       case FoundAt(nonce) => p <= s.position + Distance(s.nextNonce, nonce)
  }

  /** Every place of the current adoption's stream before the loop's own has been searched: the loop never
      skips a nonce, not even those of a chunk behind its find. */
  lemma {:induction false} NothingSkipped(intensityChunk: nat, events: seq<Event>, p: nat) returns (i: nat)
    requires SoundScans(events) && p < After(intensityChunk, events).position
    ensures i < |events| && Searched(intensityChunk, events, i, After(intensityChunk, events).epoch, p)
    decreases |events|
  {
    var last := |events| - 1;
    var s := At(intensityChunk, events, last);
    if p < s.position && s.epoch == After(intensityChunk, events).epoch {
      assert forall k :: 0 <= k < last ==> events[..last][k] == events[k];
      i := NothingSkipped(intensityChunk, events[..last], p);
      EarlierEvents(intensityChunk, events, i);
    } else {
      i := last;
    }
  }

  ghost predicate AllReported(intensityChunk: nat, events: seq<Event>, finds: seq<Find>) {
    exists at :: FoundBy(intensityChunk, events, finds, at)
  }

  predicate Increasing(finds: seq<Find>) {
    forall i, j :: 0 <= i < j < |finds| && finds[i].epoch == finds[j].epoch && finds[j].launched <= TWO64 ==>
      finds[i].nonce < finds[j].nonce
  }

  lemma RunReports(intensityChunk: nat, events: seq<Event>)
    requires SoundScans(events)
    ensures var finds := After(intensityChunk, events).finds;
      AllReported(intensityChunk, events, finds) && Increasing(finds)
  {
    var at := EveryFindIsReported(intensityChunk, events);
    var finds := After(intensityChunk, events).finds;
    forall i, j | 0 <= i < j < |finds| && finds[i].epoch == finds[j].epoch && finds[j].launched <= TWO64
      ensures finds[i].nonce < finds[j].nonce
    {
      NoncesIncrease(intensityChunk, events, i, j);
    }
  }

  /** The whole loop: it reports every find of its events and nothing else, and within one adoption no nonce twice
      before the counter has wrapped. */
  method Mine(intensityChunk: nat, events: seq<Event>) returns (finds: seq<Find>)
    requires SoundScans(events)
    ensures finds == After(intensityChunk, events).finds
    ensures AllReported(intensityChunk, events, finds) && Increasing(finds)
  {
    var loop := new MiningLoop(intensityChunk);
    var epoch: nat, launched: nat, position: nat := 0, 0, 0;
    finds := [];
    for k := 0 to |events|
      invariant After(intensityChunk, events[..k]) == State(loop.nextNonce, loop.chunk, epoch, launched, position, finds)
    {
      assert events[..k + 1][..k] == events[..k];
      match events[k] {
        case Adopted =>
          loop.Adopt();
          epoch, launched, position := epoch + 1, 0, 0;
        case Scanned(scan, resized) =>
          var outcome, start, count := scan(loop.nextNonce, loop.chunk), loop.nextNonce, loop.chunk;
          loop.Batch(outcome, resized);
          if !outcome.Failed? {
            launched := launched + count;
          }
          if outcome.FoundAt? {
            position := position + Distance(start, outcome.nonce);
            finds := finds + [Find(epoch, position, outcome.nonce, launched)];
            position := position + 1;
          } else if outcome.NotFound? {
            position := position + count;
          }
      }
    }
    assert events[..|events|] == events;
    RunReports(intensityChunk, events);
  }
}
