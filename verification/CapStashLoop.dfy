/** The mining loop of whirlpool.cpp: 32-bit nonce ranges per extranonce2, roll-over, re-setup of the
    device, and deduplication of submitted shares. */
module CapStashLoop {
  import opened Words

  const NONCE_SPAN: nat := 0x1_0000_0000
  const MIN_CHUNK: nat := 0x1_0000
  const MAX_CHUNK: nat := 0x4000_0000

  /** What the device was last set up with: a job's header with an extranonce2, and a difficulty. */
  datatype Setup = Setup(epoch: nat, en2: u32, difficulty: nat)

  /** A successful launch: the adoption it belongs to, how often extranonce2 had been rolled since, the
      nonces [start, start + count), and what the device held. */
  datatype Launch = Launch(epoch: nat, roll: nat, start: nat, count: nat, setup: Setup) {
    function End(): nat { start + count }

    predicate SameSpace(other: Launch) { epoch == other.epoch && roll == other.roll }

    /** The device hashed the same header. */
    predicate SameHeader(other: Launch) { setup.epoch == other.setup.epoch && setup.en2 == other.setup.en2 }

    predicate Covers(nonce: nat) { start <= nonce < End() }
  }

  /** A launch of a nonempty part of the nonce space, on the header of its adoption and roll. */
  predicate InSpan(l: Launch) {
    && 0 < l.count && l.End() <= NONCE_SPAN
    && l.setup.epoch == l.epoch && l.setup.en2 == l.roll % TWO32
  }

  /** A launch at (epoch, roll, start) continues where l stopped: in the same nonce space, at the start of
      the next one when this one is used up, or at the start of a newer adoption. */
  predicate Continues(l: Launch, epoch: nat, roll: nat, start: nat) {
    || (epoch == l.epoch && roll == l.roll && start == l.End() < NONCE_SPAN)
    || (epoch == l.epoch && roll == l.roll + 1 && start == 0 && l.End() == NONCE_SPAN)
    || (epoch > l.epoch && roll == 0 && start == 0)
  }

  ghost predicate ContinuesLog(log: seq<Launch>, epoch: nat, roll: nat, start: nat) {
    if log == [] then roll == 0 && start == 0 else Continues(log[|log| - 1], epoch, roll, start)
  }

  /** Every launch of the log continues the one before it. */
  ghost predicate Tiled(log: seq<Launch>) {
    log != [] ==>
      var before, l := log[..|log| - 1], log[|log| - 1];
      Tiled(before) && InSpan(l) && ContinuesLog(before, l.epoch, l.roll, l.start)
  }

  lemma TiledAppend(log: seq<Launch>, l: Launch)
    requires Tiled(log) && InSpan(l) && ContinuesLog(log, l.epoch, l.roll, l.start)
    ensures Tiled(log + [l])
  {
    assert (log + [l])[..|log|] == log;
  }

  /** The loop stands at the position the log has to be continued from. */
  ghost predicate AtPosition(log: seq<Launch>, epoch: nat, roll: nat, start: nat, en2: u32) {
    start < NONCE_SPAN && en2 == roll % TWO32 && Tiled(log) && ContinuesLog(log, epoch, roll, start)
  }

  /** After a launch the next position continues it, in the same nonce space or in the next one. */
  lemma LaunchContinues(log: seq<Launch>, l: Launch, epoch: nat, roll: nat, start: nat)
    requires Tiled(log) && InSpan(l) && ContinuesLog(log, l.epoch, l.roll, l.start)
    requires Continues(l, epoch, roll, start)
    ensures Tiled(log + [l]) && ContinuesLog(log + [l], epoch, roll, start)
  {
    TiledAppend(log, l);
  }

  lemma NextRoll(roll: nat, en2: u32)
    requires en2 == roll % TWO32
    ensures NextEn2(en2) == (roll + 1) % TWO32
  {
  }

  function NextEn2(en2: u32): u32 { (en2 + 1) % TWO32 }

  lemma {:induction false} TiledStep(log: seq<Launch>, j: nat)
    requires Tiled(log) && j < |log|
    ensures InSpan(log[j])
    ensures j > 0 ==> InSpan(log[j - 1]) && Continues(log[j - 1], log[j].epoch, log[j].roll, log[j].start)
    ensures j == 0 ==> log[j].roll == 0 && log[j].start == 0
    decreases |log|
  {
    var before := log[..|log| - 1];
    if j < |before| {
      TiledStep(before, j);
    } else if j > 0 {
      TiledStep(before, j - 1);
    }
  }

  // ---- What a tiled log covers ----

  /** Everything below a launch's end has been launched on its header. */
  lemma {:induction false} BelowIsCovered(log: seq<Launch>, j: nat, nonce: nat) returns (i: nat)
    requires Tiled(log) && j < |log| && nonce < log[j].End()
    ensures i <= j && log[i].SameSpace(log[j]) && log[i].Covers(nonce)
    decreases j
  {
    TiledStep(log, j);
    if log[j].start <= nonce {
      i := j;
    } else {
      i := BelowIsCovered(log, j - 1, nonce);
    }
  }

  /** Before extranonce2 advances past a value, its whole nonce space has been launched. */
  lemma {:induction false} RolledIsCovered(log: seq<Launch>, j: nat, roll: nat, nonce: nat) returns (i: nat)
    requires Tiled(log) && j < |log| && roll < log[j].roll && nonce < NONCE_SPAN
    ensures i < j && log[i].epoch == log[j].epoch && log[i].roll == roll && log[i].Covers(nonce)
    decreases j
  {
    TiledStep(log, j);
    if log[j - 1].roll == roll {
      i := BelowIsCovered(log, j - 1, nonce);
    } else {
      i := RolledIsCovered(log, j - 1, roll, nonce);
    }
  }

  /** Launches move forward: a later one on the same header starts at or after the end of an earlier one. */
  lemma {:induction false} LaterIsBeyond(log: seq<Launch>, i: nat, j: nat)
    requires Tiled(log) && i < j < |log|
    ensures log[i].epoch <= log[j].epoch
    ensures log[i].epoch == log[j].epoch ==> log[i].roll <= log[j].roll
    ensures log[i].SameSpace(log[j]) ==> log[i].End() <= log[j].start
    decreases j
  {
    TiledStep(log, j);
    if i < j - 1 { LaterIsBeyond(log, i, j - 1); }
  }

  /** No nonce is launched twice in one nonce space; and on one header, whose extranonce2 has 32 bits, only
      after extranonce2 has gone all the way round. */
  lemma LaunchesAreDisjoint(log: seq<Launch>, i: nat, j: nat, nonce: nat)
    requires Tiled(log) && i < j < |log|
    requires log[i].SameHeader(log[j]) && log[i].Covers(nonce) && log[j].Covers(nonce)
    ensures log[j].roll >= log[i].roll + TWO32
  {
    LaterIsBeyond(log, i, j);
    TiledStep(log, i);
    TiledStep(log, j);
    SameResidue(log[i].roll, log[j].roll);
  }

  lemma SameResidue(a: nat, b: nat)
    requires a <= b && a % TWO32 == b % TWO32
    ensures a == b || b >= a + TWO32
  {
  }

  // ---- Submitted keys ----

  /** The dedup set holds exactly the keys sent since it was cleared, each new when it was sent. */
  ghost predicate Recorded(sent: seq<string>, keys: set<string>) {
    if sent == [] then keys == {}
    else
      var before, key := sent[..|sent| - 1], sent[|sent| - 1];
      key in keys && Recorded(before, keys - {key})
  }

  lemma RecordKey(sent: seq<string>, keys: set<string>, key: string)
    requires Recorded(sent, keys) && key !in keys
    ensures Recorded(sent + [key], keys + {key})
  {
    assert (sent + [key])[..|sent|] == sent;
    assert keys + {key} - {key} == keys;
  }

  lemma {:induction false} SentIsRecorded(sent: seq<string>, keys: set<string>, i: nat)
    requires Recorded(sent, keys) && i < |sent|
    ensures sent[i] in keys
    decreases |sent|
  {
    if i < |sent| - 1 { SentIsRecorded(sent[..|sent| - 1], keys - {sent[|sent| - 1]}, i); }
  }

  /** No submit key repeats between two clearings of the dedup set. */
  lemma {:induction false} KeysNeverRepeat(sent: seq<string>, keys: set<string>, i: nat, j: nat)
    requires Recorded(sent, keys) && i < j < |sent|
    ensures sent[i] != sent[j]
    decreases |sent|
  {
    var last := |sent| - 1;
    if j < last {
      KeysNeverRepeat(sent[..last], keys - {sent[last]}, i, j);
    } else {
      SentIsRecorded(sent[..last], keys - {sent[last]}, i);
    }
  }

  predicate Distinct(keys: seq<string>) { forall i, j :: 0 <= i < j < |keys| ==> keys[i] != keys[j] }

  predicate AllDistinct(rounds: seq<seq<string>>) { forall r :: 0 <= r < |rounds| ==> Distinct(rounds[r]) }

  lemma RecordedIsDistinct(sent: seq<string>, keys: set<string>)
    requires Recorded(sent, keys)
    ensures Distinct(sent)
  {
    forall i, j | 0 <= i < j < |sent| ensures sent[i] != sent[j] { KeysNeverRepeat(sent, keys, i, j); }
  }

  // ---- The loop as a function of what it meets ----

  /** A share found by a launch: its submit key, and what the staleness test and the send report. */
  datatype Share = Share(key: string, stale: bool, sendOk: bool)

  /** What a pass of the loop meets outside itself. */
  datatype Pass = Pass(difficulty: nat, setupOk: bool, launchOk: bool, resized: Option<nat>, share: Option<Share>)

  /** The loop's variables; and, as history, the adoption and roll counts, what the device holds, the
      successful launches, and the keys sent, one list for each clearing of the dedup set. */
  datatype State = State(
    en2: u32, next: u32, chunk: nat, difficulty: Option<nat>, needSetup: bool, keys: set<string>,
    epoch: nat, roll: nat, device: Setup, log: seq<Launch>, earlier: seq<seq<string>>, sent: seq<string>)

  /** The loop's state when the first job is adopted. */
  function Start(intensityChunk: nat): State {
    State(0, 0, Clamp(intensityChunk, MIN_CHUNK, MAX_CHUNK), None, true, {}, 0, 0, Setup(0, 0, 0), [], [], [])
  }

  function ForgetKeys(s: State): State { s.(keys := {}, earlier := s.earlier + [s.sent], sent := []) }

  function Adopt(s: State, clearKeys: bool): State {
    var s := s.(en2 := 0, next := 0, needSetup := true, epoch := s.epoch + 1, roll := 0);
    if clearKeys then ForgetKeys(s) else s
  }

  /** The cap on the dedup set and the difficulty test. */
  function Retarget(s: State, difficulty: nat): State {
    var s := if |s.keys| > 10000 then ForgetKeys(s) else s;
    if Some(difficulty) != s.difficulty then s.(difficulty := Some(difficulty), needSetup := true) else s
  }

  /** A successful device setup, where one is needed. */
  function SetUp(s: State, difficulty: nat): State {
    if s.needSetup then s.(device := Setup(s.epoch, s.en2, difficulty), needSetup := false) else s
  }

  predicate Submits(s: State, share: Share) { !share.stale && share.key !in s.keys && share.sendOk }

  function Submit(s: State, share: Option<Share>): State {
    if share.Some? && Submits(s, share.value)
    then s.(keys := s.keys + {share.value.key}, sent := s.sent + [share.value.key])
    else s
  }

  function NextCount(s: State): nat {
    if NONCE_SPAN - s.next < s.chunk then NONCE_SPAN - s.next else s.chunk
  }

  /** next_nonce += count, rolling extranonce2 when the 32-bit space is used up. */
  function Advance(s: State, count: nat): State {
    var s' := s.(log := s.log + [Launch(s.epoch, s.roll, s.next, count, s.device)]);
    if s.next + count >= NONCE_SPAN
    then s'.(en2 := NextEn2(s.en2), next := 0, needSetup := true, roll := s.roll + 1)
    else s'.(next := s.next + count)
  }

  function Resize(s: State, resized: Option<nat>): State {
    if resized.Some? then s.(chunk := Clamp(resized.value, MIN_CHUNK, MAX_CHUNK)) else s
  }

  /** A launch that succeeded, with its share if it found one. */
  function Launched(s: State, p: Pass): State {
    Advance(Submit(Resize(s, p.resized), p.share), NextCount(s))
  }

  /** One pass after the adoption block: a failed setup or launch moves nothing. */
  function AfterPass(s: State, p: Pass): State {
    var s := Retarget(s, p.difficulty);
    if s.needSetup && !p.setupOk then s
    else
      var s := SetUp(s, p.difficulty);
      if p.launchOk then Launched(s, p) else s
  }

  datatype Event = Adopted(clearKeys: bool) | Passed(pass: Pass)

  function Step(s: State, e: Event): State {
    match e
    case Adopted(clearKeys) => Adopt(s, clearKeys)
    case Passed(pass) => AfterPass(s, pass)
  }

  function After(intensityChunk: nat, events: seq<Event>): State {
    if events == [] then Start(intensityChunk)
    else Step(After(intensityChunk, events[..|events| - 1]), events[|events| - 1])
  }

  // ---- What every run keeps ----

  ghost predicate KeysOk(s: State) { Recorded(s.sent, s.keys) && AllDistinct(s.earlier) }

  ghost predicate SetupOk(s: State) {
    && MIN_CHUNK <= s.chunk <= MAX_CHUNK
    && (!s.needSetup ==> s.difficulty.Some? && s.device == Setup(s.epoch, s.en2, s.difficulty.value))
  }

  ghost predicate Inv(s: State) {
    KeysOk(s) && SetupOk(s) && AtPosition(s.log, s.epoch, s.roll, s.next, s.en2)
  }

  lemma ForgetKeepsKeys(s: State)
    requires KeysOk(s)
    ensures KeysOk(ForgetKeys(s))
  {
    RecordedIsDistinct(s.sent, s.keys);
  }

  lemma SubmitKeepsKeys(s: State, share: Option<Share>)
    requires KeysOk(s)
    ensures KeysOk(Submit(s, share))
  {
    if share.Some? && Submits(s, share.value) { RecordKey(s.sent, s.keys, share.value.key); }
  }

  lemma AdoptInv(s: State, clearKeys: bool)
    requires Inv(s)
    ensures Inv(Adopt(s, clearKeys))
  {
    ForgetKeepsKeys(s.(en2 := 0, next := 0, needSetup := true, epoch := s.epoch + 1, roll := 0));
  }

  lemma RetargetInv(s: State, difficulty: nat)
    requires Inv(s)
    ensures Inv(Retarget(s, difficulty)) && Retarget(s, difficulty).difficulty == Some(difficulty)
  {
    ForgetKeepsKeys(s);
  }

  lemma AdvanceInv(s: State, count: nat)
    requires Inv(s) && !s.needSetup && 0 < count <= NONCE_SPAN - s.next
    ensures Inv(Advance(s, count))
  {
    var l := Launch(s.epoch, s.roll, s.next, count, s.device);
    if s.next + count == NONCE_SPAN {
      NextRoll(s.roll, s.en2);
      LaunchContinues(s.log, l, s.epoch, s.roll + 1, 0);
    } else {
      LaunchContinues(s.log, l, s.epoch, s.roll, s.next + count);
    }
  }

  /** A launch covers the next nonces on the current header and the difficulty the device holds. */
  lemma LaunchedInv(s: State, p: Pass)
    requires Inv(s) && !s.needSetup && s.difficulty == Some(p.difficulty)
    ensures Inv(Launched(s, p))
    ensures Launched(s, p).log
      == s.log + [Launch(s.epoch, s.roll, s.next, NextCount(s), Setup(s.epoch, s.en2, p.difficulty))]
  {
    var resized := Resize(s, p.resized);
    SubmitKeepsKeys(resized, p.share);
    AdvanceInv(Submit(resized, p.share), NextCount(s));
  }

  predicate Launches(s: State, p: Pass) {
    p.launchOk && (p.setupOk || !Retarget(s, p.difficulty).needSetup)
  }

  /** Setup and difficulty test keep the invariant and the position. */
  lemma PreparedInv(s: State, p: Pass)
    requires Inv(s)
    ensures var s' := SetUp(Retarget(s, p.difficulty), p.difficulty);
      Inv(s') && SamePosition(s, s') && !s'.needSetup && s'.difficulty == Some(p.difficulty)
  {
    RetargetInv(s, p.difficulty);
  }

  predicate SamePosition(s: State, s': State) {
    s'.log == s.log && s'.epoch == s.epoch && s'.roll == s.roll && s'.next == s.next && s'.en2 == s.en2
    && s'.chunk == s.chunk
  }

  /** A pass that launches covers the next nonces, on the current header, with its own difficulty. */
  lemma PassLaunches(s: State, p: Pass)
    requires Inv(s) && Launches(s, p)
    ensures Inv(AfterPass(s, p))
    ensures AfterPass(s, p).log
      == s.log + [Launch(s.epoch, s.roll, s.next, NextCount(s), Setup(s.epoch, s.en2, p.difficulty))]
    ensures 0 < NextCount(s) <= s.chunk && (NextCount(s) == s.chunk || s.next + NextCount(s) == NONCE_SPAN)
    ensures p.resized.Some? && MIN_CHUNK <= p.resized.value <= MAX_CHUNK ==> AfterPass(s, p).chunk == p.resized.value
    ensures p.resized.None? ==> AfterPass(s, p).chunk == s.chunk
  {
    PreparedInv(s, p);
    LaunchedInv(SetUp(Retarget(s, p.difficulty), p.difficulty), p);
  }

  /** Any other pass moves nothing and sends nothing. */
  lemma PassFails(s: State, p: Pass)
    requires Inv(s) && !Launches(s, p)
    ensures Inv(AfterPass(s, p)) && SamePosition(s, AfterPass(s, p))
    ensures AfterPass(s, p).sent == s.sent || AfterPass(s, p).sent == []
  {
    RetargetInv(s, p.difficulty);
    PreparedInv(s, p);
  }

  /** The dedup set of a pass: emptied when it holds more than 10000 keys. */
  function KeysOfPass(s: State): set<string> { if |s.keys| > 10000 then {} else s.keys }

  function SentInPass(s: State): seq<string> { if |s.keys| > 10000 then [] else s.sent }

  /** What goes out of a launch: a share that is not stale, whose key is not in the dedup set, and whose send
      succeeds. */
  function KeySent(keys: set<string>, share: Option<Share>): seq<string> {
    if share.Some? && !share.value.stale && share.value.key !in keys && share.value.sendOk then [share.value.key] else []
  }

  /** The pass has sent these keys and put them on record. */
  predicate Sends(keys: set<string>, sent: seq<string>, now: seq<string>, s': State) {
    s'.sent == sent + now && s'.keys == keys + (set k | k in now)
  }

  lemma SubmitSends(s: State, share: Option<Share>)
    ensures Sends(s.keys, s.sent, KeySent(s.keys, share), Submit(s, share))
  {
  }

  lemma LaunchedSends(s: State, p: Pass)
    ensures Sends(s.keys, s.sent, KeySent(s.keys, p.share), Launched(s, p))
  {
    SubmitSends(Resize(s, p.resized), p.share);
  }

  lemma PreparedKeys(s: State, p: Pass)
    ensures Retarget(s, p.difficulty).keys == KeysOfPass(s) && Retarget(s, p.difficulty).sent == SentInPass(s)
    ensures SetUp(Retarget(s, p.difficulty), p.difficulty).keys == KeysOfPass(s)
    ensures SetUp(Retarget(s, p.difficulty), p.difficulty).sent == SentInPass(s)
  {
  }

  /** A share is sent, and its key recorded, if and only if its launch took place, it is not stale, its key is
      not in the dedup set, and the send succeeds; nothing else is ever sent. */
  lemma PassSends(s: State, p: Pass)
    ensures Sends(KeysOfPass(s), SentInPass(s), if Launches(s, p) then KeySent(KeysOfPass(s), p.share) else [], AfterPass(s, p))
  {
    PreparedKeys(s, p);
    if Launches(s, p) {
      LaunchedSends(SetUp(Retarget(s, p.difficulty), p.difficulty), p);
    } else {
      assert KeysOfPass(s) + (set k: string | k in []) == KeysOfPass(s);
    }
  }

  /** Keys are forgotten only by a clean job or when there are more than 10000 of them. */
  lemma Forgets(s: State, e: Event)
    ensures var forgets := if e.Adopted? then e.clearKeys else |s.keys| > 10000;
      && Step(s, e).earlier == s.earlier + (if forgets then [s.sent] else [])
      && (!forgets ==> s.sent <= Step(s, e).sent && s.keys <= Step(s, e).keys)
      && (e.Adopted? ==> Step(s, e).sent == if e.clearKeys then [] else s.sent)
  {
    if e.Passed? { PassSends(s, e.pass); }
  }

  /** In every run the dedup set holds exactly the keys sent since it was last emptied. */
  lemma KeysOnRecord(intensityChunk: nat, events: seq<Event>, key: string)
    ensures var s := After(intensityChunk, events); key in s.keys <==> key in s.sent
  {
    RunInv(intensityChunk, events);
    RecordedKeys(After(intensityChunk, events).sent, After(intensityChunk, events).keys, key);
  }

  lemma {:induction false} RecordedKeys(sent: seq<string>, keys: set<string>, key: string)
    requires Recorded(sent, keys)
    ensures key in keys <==> key in sent
  {
    if sent != [] {
      var last := |sent| - 1;
      RecordedKeys(sent[..last], keys - {sent[last]}, key);
      assert sent == sent[..last] + [sent[last]];
    }
  }

  lemma {:induction false} RunInv(intensityChunk: nat, events: seq<Event>)
    ensures Inv(After(intensityChunk, events))
  {
    if events != [] {
      var s, e := After(intensityChunk, events[..|events| - 1]), events[|events| - 1];
      RunInv(intensityChunk, events[..|events| - 1]);
      match e {
        case Adopted(clearKeys) => AdoptInv(s, clearKeys);
        case Passed(pass) => if Launches(s, pass) { PassLaunches(s, pass); } else { PassFails(s, pass); }
      }
    }
  }

  // ---- The loop itself ----

  class MiningLoop {
    var curEn2: u32
    var nextNonce: u32
    var chunk: nat
    var curDifficulty: Option<nat>
    var needSetup: bool
    var submittedKeys: set<string>
    ghost var epoch: nat
    ghost var roll: nat
    ghost var device: Setup
    ghost var log: seq<Launch>
    ghost var earlier: seq<seq<string>>
    ghost var sent: seq<string>

    ghost function View(): State
      reads this
    {
      State(curEn2, nextNonce, chunk, curDifficulty, needSetup, submittedKeys,
            epoch, roll, device, log, earlier, sent)
    }

    constructor (intensityChunk: nat)
      ensures View() == Start(intensityChunk)
    {
      curEn2, nextNonce, chunk := 0, 0, Clamp(intensityChunk, MIN_CHUNK, MAX_CHUNK);
      curDifficulty, needSetup, submittedKeys := None, true, {};
      epoch, roll, device, log, earlier, sent := 0, 0, Setup(0, 0, 0), [], [], [];
    }

    method ClearKeys()
      modifies `submittedKeys, `earlier, `sent
      ensures View() == ForgetKeys(old(View()))
    {
      earlier, sent := earlier + [sent], [];
      submittedKeys := {};
    }

    /** Picking up a job: everything starts afresh, keys are forgotten only for a clean job. */
    method AdoptJob(clearKeys: bool)
      modifies this
      ensures View() == Adopt(old(View()), clearKeys)
    {
      curEn2, nextNonce, needSetup := 0, 0, true;
      epoch, roll := epoch + 1, 0;
      if clearKeys {
        ClearKeys();
      }
    }

    /** The difficulty test and the device setup. */
    method Prepare(difficulty: nat, setupOk: bool) returns (ready: bool)
      modifies this
      ensures ready <==> setupOk || !Retarget(old(View()), difficulty).needSetup
      ensures View() == if ready then SetUp(Retarget(old(View()), difficulty), difficulty) else Retarget(old(View()), difficulty)
    {
      if |submittedKeys| > 10000 {
        ClearKeys();
      }
      if Some(difficulty) != curDifficulty {
        curDifficulty, needSetup := Some(difficulty), true;
      }
      if needSetup {
        if !setupOk {
          return false;
        }
        device := Setup(epoch, curEn2, difficulty);
        needSetup := false;
      }
      return true;
    }

    /** A found share: dropped when stale or already sent, recorded only once it has been sent. */
    method SubmitShare(share: Share)
      modifies `submittedKeys, `sent
      ensures View() == Submit(old(View()), Some(share))
    {
      if share.stale {
        return;
      } else if share.key in submittedKeys {
        return;
      } else if share.sendOk {
        submittedKeys := submittedKeys + {share.key};
        sent := sent + [share.key];
      }
    }

    method AdvanceBy(count: nat)
      modifies this
      ensures View() == Advance(old(View()), count)
    {
      log := log + [Launch(epoch, roll, nextNonce, count, device)];
      var next := nextNonce + count;
      if next >= NONCE_SPAN {
        curEn2, nextNonce, needSetup := NextEn2(curEn2), 0, true;
        roll := roll + 1;
      } else {
        nextNonce := next;
      }
    }

    /** One pass of the loop after the adoption block. */
    method Iterate(pass: Pass)
      modifies this
      ensures View() == AfterPass(old(View()), pass)
    {
      var ready := Prepare(pass.difficulty, pass.setupOk);
      if !ready {
        return;
      }
      var remaining := NONCE_SPAN - nextNonce;
      var count := if remaining < chunk then remaining else chunk;
      if !pass.launchOk {
        return;
      }
      if pass.resized.Some? {
        chunk := Clamp(pass.resized.value, MIN_CHUNK, MAX_CHUNK);
      }
      if pass.share.Some? {
        SubmitShare(pass.share.value);
      }
      AdvanceBy(count);
    }
  }

  /** The whole loop, over any adoptions, difficulty changes, failures, resizings and shares. */
  method RunLoop(intensityChunk: nat, events: seq<Event>) returns (loop: MiningLoop)
    ensures fresh(loop) && loop.View() == After(intensityChunk, events)
  {
    loop := new MiningLoop(intensityChunk);
    for i := 0 to |events|
      invariant fresh(loop) && loop.View() == After(intensityChunk, events[..i])
    {
      assert events[..i + 1][..i] == events[..i];
      match events[i] {
        case Adopted(clearKeys) => loop.AdoptJob(clearKeys);
        case Passed(pass) => loop.Iterate(pass);
      }
    }
    assert events[..|events|] == events;
  }

  /** Every run launches a tiled log, so the coverage and disjointness above hold of it, and between two
      clearings of the dedup set it sends no key twice. */
  lemma Run(intensityChunk: nat, events: seq<Event>)
    ensures var s := After(intensityChunk, events);
      Tiled(s.log) && AllDistinct(s.earlier) && Distinct(s.sent)
  {
    var s := After(intensityChunk, events);
    RunInv(intensityChunk, events);
    RecordedIsDistinct(s.sent, s.keys);
  }
}
