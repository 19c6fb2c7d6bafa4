/** The optimised word path: hoisted round-0 mixes, literal message schedule, split final round. */
module Blake3WordPath {
  import opened Words
  import opened Radix
  import opened Blake3Reference

  /** Per-job constants: the state after the six nonce-free mixes of round 0, the block words (the
      nonce slots 11 and 12 hold zero and are never read), and the target as big-endian words. */
  datatype JobPre = JobPre(v0: State, m0: Message, m1: seq<u32>, target: Chain)

  function M0(jw: JobPre, nl: u32, nh: u32, i: nat): u32
    requires i < 16
  {
    if i == 11 then nl else if i == 12 then nh else jw.m0[i]
  }

  function M1(jw: JobPre, i: nat): u32
    requires i < 16 && |jw.m1| == 7
  {
    if i < 7 then jw.m1[i] else 0
  }

  function WithNonce(m: Message, nl: u32, nh: u32): Message { m[11 := nl][12 := nh] }

  function Block1(m1: seq<u32>): Message
    requires |m1| == 7
  {
    m1 + [0, 0, 0, 0, 0, 0, 0, 0, 0]
  }

  /** The state after the four columns and the two nonce-free diagonals of round 0. */
  function Hoisted(p: Primitives, m: Message): State {
    var v := Columns(p, InitialState(IV, 64, CHUNK_START), m);
    var v := G(p, v, 0, 5, 10, 15, m[8], m[9]);
    G(p, v, 3, 4, 9, 14, m[14], m[15])
  }

  /** `jw` is what the host prepares for header words `w` (nonce words ignored) and `target`. */
  predicate Prepared(p: Primitives, w: seq<u32>, target: Chain, jw: JobPre) {
    && |w| == 23
    && jw.m0 == WithNonce(w[..16], 0, 0) && jw.m1 == w[16..] && jw.target == target
    && jw.v0 == Hoisted(p, jw.m0)
  }

  /** The one value that is Prepared. */
  function JobConstants(p: Primitives, w: seq<u32>, target: Chain): (jw: JobPre)
    requires |w| == 23
    ensures Prepared(p, w, target, jw)
    ensures forall other :: Prepared(p, w, target, other) ==> other == jw
  {
    var m0 := WithNonce(w[..16], 0, 0);
    JobPre(Hoisted(p, m0), m0, w[16..], target)
  }

  method BuildJobPre(p: Primitives, w: seq<u32>, target: Chain) returns (jw: JobPre)
    requires |w| == 23
    ensures Prepared(p, w, target, jw)
  {
    var m0: Message := w[..16][11 := 0][12 := 0];
    var v: State := IV + IV[..4] + [0, 0, 0, 0];
    v := v[14 := 64][15 := CHUNK_START];
    assert v == InitialState(IV, 64, CHUNK_START);
    v := G(p, v, 0, 4, 8, 12, m0[0], m0[1]);
    v := G(p, v, 1, 5, 9, 13, m0[2], m0[3]);
    v := G(p, v, 2, 6, 10, 14, m0[4], m0[5]);
    v := G(p, v, 3, 7, 11, 15, m0[6], m0[7]);
    v := G(p, v, 0, 5, 10, 15, m0[8], m0[9]);
    v := G(p, v, 3, 4, 9, 14, m0[14], m0[15]);
    jw := JobPre(v, m0, w[16..], target);
  }

  /** Mixes of disjoint lanes commute. */
  lemma MixesCommute(p: Primitives, v: State,
                     a: nat, b: nat, c: nat, d: nat, mx: u32, my: u32,
                     e: nat, f: nat, g: nat, h: nat, nx: u32, ny: u32)
    requires Lanes(a, b, c, d) && Lanes(e, f, g, h)
    requires e !in {a, b, c, d} && f !in {a, b, c, d} && g !in {a, b, c, d} && h !in {a, b, c, d}
    ensures G(p, G(p, v, a, b, c, d, mx, my), e, f, g, h, nx, ny) == G(p, G(p, v, e, f, g, h, nx, ny), a, b, c, d, mx, my)
  {
    var l := G(p, G(p, v, a, b, c, d, mx, my), e, f, g, h, nx, ny);
    var r := G(p, G(p, v, e, f, g, h, nx, ny), a, b, c, d, mx, my);
    assert forall i :: 0 <= i < 16 ==> l[i] == r[i];
  }

  /** Finishing round 0 from the hoisted state is round 0, although the last diagonal ran early. */
  lemma HoistedRound(p: Primitives, m: Message)
    ensures var h := Hoisted(p, m);
            G(p, G(p, h, 1, 6, 11, 12, m[10], m[11]), 2, 7, 8, 13, m[12], m[13])
              == Round(p, InitialState(IV, 64, CHUNK_START), m)
  {
    var v := G(p, Columns(p, InitialState(IV, 64, CHUNK_START), m), 0, 5, 10, 15, m[8], m[9]);
    MixesCommute(p, v, 3, 4, 9, 14, m[14], m[15], 1, 6, 11, 12, m[10], m[11]);
    var v' := G(p, v, 1, 6, 11, 12, m[10], m[11]);
    MixesCommute(p, v', 3, 4, 9, 14, m[14], m[15], 2, 7, 8, 13, m[12], m[13]);
  }

  /** The message words of each unrolled round, in the literal order the code writes them. */
  function LiteralRow(m: Message, round: nat): Message
    requires round < 7
  {
    match round
    case 0 => [m[0], m[1], m[2], m[3], m[4], m[5], m[6], m[7], m[8], m[9], m[10], m[11], m[12], m[13], m[14], m[15]]
    case 1 => [m[2], m[6], m[3], m[10], m[7], m[0], m[4], m[13], m[1], m[11], m[12], m[5], m[9], m[14], m[15], m[8]]
    case 2 => [m[3], m[4], m[10], m[12], m[13], m[2], m[7], m[14], m[6], m[5], m[9], m[0], m[11], m[15], m[8], m[1]]
    case 3 => [m[10], m[7], m[12], m[9], m[14], m[3], m[13], m[15], m[4], m[0], m[11], m[2], m[5], m[8], m[1], m[6]]
    case 4 => [m[12], m[13], m[9], m[11], m[15], m[10], m[14], m[8], m[7], m[2], m[5], m[3], m[0], m[1], m[6], m[4]]
    case 5 => [m[9], m[14], m[11], m[5], m[8], m[12], m[15], m[1], m[13], m[3], m[0], m[10], m[2], m[6], m[4], m[7]]
    case 6 => [m[11], m[15], m[5], m[0], m[1], m[9], m[8], m[6], m[14], m[10], m[2], m[12], m[3], m[4], m[7], m[13]]
  }

  /** The literal rows are the iterated message permutation. */
  lemma {:induction false} LiteralSchedule(m: Message, round: nat)
    requires round < 7
    ensures LiteralRow(m, round) == Scheduled(m, round)
  {
    if round > 0 {
      LiteralSchedule(m, round - 1);
      assert LiteralRow(m, round) == Permute(LiteralRow(m, round - 1));
    }
  }

  /** compress-0 from the hoisted state: the two nonce-carrying diagonals, then rounds 1 to 6. */
  method Compress0FromPre(p: Primitives, jw: JobPre, nl: u32, nh: u32) returns (cv: Chain)
    requires jw.v0 == Hoisted(p, jw.m0)
    ensures cv == Compress(p, IV, WithNonce(jw.m0, nl, nh), 64, CHUNK_START)
  {
    var m: Message := seq<u32>(16, i requires 0 <= i < 16 => M0(jw, nl, nh, i));
    assert m == WithNonce(jw.m0, nl, nh);
    HoistedRound(p, m);
    var v := jw.v0;
    v := G(p, v, 1, 6, 11, 12, m[10], m[11]);
    v := G(p, v, 2, 7, 8, 13, m[12], m[13]);
    v := RoundsOneTo(p, InitialState(IV, 64, CHUNK_START), m, v, 6);
    cv := Output(p, v);
  }

  /** The unrolled rounds from 1 up to `last`, each with its literal row. */
  method RoundsOneTo(p: Primitives, ghost start: State, m: Message, first: State, last: nat) returns (v: State)
    requires first == Round(p, start, m) && last < 7
    ensures v == Rounds(p, start, m, last + 1)
  {
    v := first;
    assert Rounds(p, start, m, 0) == start && Scheduled(m, 0) == m;
    for r := 1 to last + 1
      invariant v == Rounds(p, start, m, r)
    {
      LiteralSchedule(m, r);
      v := Round(p, v, LiteralRow(m, r));
    }
  }

  /** The state in which the head leaves compress-1: every mix of seven rounds but two diagonals of the last. */
  function HeadState(p: Primitives, cv: Chain, m: Message): State {
    var k := Scheduled(m, 6);
    var v := Columns(p, Rounds(p, InitialState(cv, 28, CHUNK_END + ROOT), m, 6), k);
    var v := G(p, v, 0, 5, 10, 15, k[8], k[9]);
    G(p, v, 2, 7, 8, 13, k[12], k[13])
  }

  /** Running the two deferred diagonals last completes the final round, and neither touches v0 or v8. */
  lemma HeadThenTail(p: Primitives, cv: Chain, m: Message)
    ensures var k, v := Scheduled(m, 6), HeadState(p, cv, m);
            var w := G(p, G(p, v, 1, 6, 11, 12, k[10], k[11]), 3, 4, 9, 14, k[14], k[15]);
            w == Rounds(p, InitialState(cv, 28, CHUNK_END + ROOT), m, 7) && w[0] == v[0] && w[8] == v[8]
  {
    var k := Scheduled(m, 6);
    var v := G(p, Columns(p, Rounds(p, InitialState(cv, 28, CHUNK_END + ROOT), m, 6), k), 0, 5, 10, 15, k[8], k[9]);
    MixesCommute(p, v, 2, 7, 8, 13, k[12], k[13], 1, 6, 11, 12, k[10], k[11]);
  }

  /** compress-1 up to the first output word; `v` keeps the state for the tail. */
  method Hash92Head(p: Primitives, jw: JobPre, nl: u32, nh: u32) returns (h0: u32, v: State)
    requires |jw.m1| == 7 && jw.v0 == Hoisted(p, jw.m0)
    ensures var cv := Compress(p, IV, WithNonce(jw.m0, nl, nh), 64, CHUNK_START);
            v == HeadState(p, cv, Block1(jw.m1)) && h0 == p.xor(v[0], v[8])
  {
    var cv := Compress0FromPre(p, jw, nl, nh);
    var m: Message := seq<u32>(16, i requires 0 <= i < 16 => M1(jw, i));
    assert m == Block1(jw.m1);
    v := cv + IV[..4] + [0, 0, 0, 0];
    v := v[14 := 28][15 := CHUNK_END + ROOT];
    ghost var start: State := v;
    assert start == InitialState(cv, 28, CHUNK_END + ROOT);
    v := Round(p, v, m);
    v := RoundsOneTo(p, start, m, v, 5);
    LiteralSchedule(m, 6);
    v := G(p, v, 0, 4, 8, 12, m[11], m[15]);
    v := G(p, v, 1, 5, 9, 13, m[5], m[0]);
    v := G(p, v, 2, 6, 10, 14, m[1], m[9]);
    v := G(p, v, 3, 7, 11, 15, m[8], m[6]);
    v := G(p, v, 0, 5, 10, 15, m[14], m[10]);
    v := G(p, v, 2, 7, 8, 13, m[3], m[4]);
    h0 := p.xor(v[0], v[8]);
  }

  /** The two deferred diagonals and the eight output words. */
  method Hash92Tail(p: Primitives, jw: JobPre, ghost cv: Chain, start: State) returns (h: Chain)
    requires |jw.m1| == 7 && start == HeadState(p, cv, Block1(jw.m1))
    ensures h == Compress(p, cv, Block1(jw.m1), 28, CHUNK_END + ROOT)
    ensures h[0] == p.xor(start[0], start[8])
  {
    ghost var m := Block1(jw.m1);
    LiteralSchedule(m, 6);
    HeadThenTail(p, cv, m);
    var v := start;
    v := G(p, v, 1, 6, 11, 12, M1(jw, 2), M1(jw, 12));
    v := G(p, v, 3, 4, 9, 14, M1(jw, 7), M1(jw, 13));
    h := Output(p, v);
  }

  // ---- The word path as functions of the prepared constants ----

  function Words0(jw: JobPre, nl: u32, nh: u32): Message {
    seq<u32>(16, i requires 0 <= i < 16 => M0(jw, nl, nh, i))
  }

  function Words1(jw: JobPre): Message
    requires |jw.m1| == 7
  {
    seq<u32>(16, i requires 0 <= i < 16 => M1(jw, i))
  }

  /** Rounds 1 to n with their literal rows. */
  function LiteralRounds(p: Primitives, m: Message, first: State, n: nat): State
    requires n < 7
  {
    if n == 0 then first else Round(p, LiteralRounds(p, m, first, n - 1), LiteralRow(m, n))
  }

  /** alpha_compress0_from_pre. */
  function WordChain(p: Primitives, jw: JobPre, nl: u32, nh: u32): Chain {
    var m := Words0(jw, nl, nh);
    var v := G(p, jw.v0, 1, 6, 11, 12, m[10], m[11]);
    var v := G(p, v, 2, 7, 8, 13, m[12], m[13]);
    Output(p, LiteralRounds(p, m, v, 6))
  }

  /** The state alpha_hash92_head leaves. */
  function WordHead(p: Primitives, jw: JobPre, nl: u32, nh: u32): State
    requires |jw.m1| == 7
  {
    var m := Words1(jw);
    var k := LiteralRow(m, 6);
    var first := Round(p, InitialState(WordChain(p, jw, nl, nh), 28, CHUNK_END + ROOT), m);
    var v := Columns(p, LiteralRounds(p, m, first, 5), k);
    var v := G(p, v, 0, 5, 10, 15, k[8], k[9]);
    G(p, v, 2, 7, 8, 13, k[12], k[13])
  }

  /** alpha_hash92_tail. */
  function WordTail(p: Primitives, jw: JobPre, v: State): Chain
    requires |jw.m1| == 7
  {
    Output(p, G(p, G(p, v, 1, 6, 11, 12, M1(jw, 2), M1(jw, 12)), 3, 4, 9, 14, M1(jw, 7), M1(jw, 13)))
  }

  lemma {:induction false} LiteralRoundsAreRounds(p: Primitives, start: State, m: Message, first: State, n: nat)
    requires n < 7 && first == Round(p, start, m)
    ensures LiteralRounds(p, m, first, n) == Rounds(p, start, m, n + 1)
  {
    assert Rounds(p, start, m, 0) == start && Scheduled(m, 0) == m;
    if n > 0 {
      LiteralRoundsAreRounds(p, start, m, first, n - 1);
      LiteralSchedule(m, n);
    }
  }

  lemma WordChainIsCompress(p: Primitives, jw: JobPre, nl: u32, nh: u32)
    requires jw.v0 == Hoisted(p, jw.m0)
    ensures WordChain(p, jw, nl, nh) == Compress(p, IV, WithNonce(jw.m0, nl, nh), 64, CHUNK_START)
  {
    var m := Words0(jw, nl, nh);
    assert m == WithNonce(jw.m0, nl, nh);
    HoistedRound(p, m);
    var v := G(p, G(p, jw.v0, 1, 6, 11, 12, m[10], m[11]), 2, 7, 8, 13, m[12], m[13]);
    LiteralRoundsAreRounds(p, InitialState(IV, 64, CHUNK_START), m, v, 6);
  }

  lemma WordHeadIsHeadState(p: Primitives, jw: JobPre, nl: u32, nh: u32)
    requires |jw.m1| == 7
    ensures WordHead(p, jw, nl, nh) == HeadState(p, WordChain(p, jw, nl, nh), Block1(jw.m1))
  {
    var m := Words1(jw);
    assert m == Block1(jw.m1);
    LiteralSchedule(m, 6);
    var start := InitialState(WordChain(p, jw, nl, nh), 28, CHUNK_END + ROOT);
    LiteralRoundsAreRounds(p, start, m, Round(p, start, m), 5);
  }

  lemma WordTailIsCompress(p: Primitives, jw: JobPre, cv: Chain)
    requires |jw.m1| == 7
    ensures WordTail(p, jw, HeadState(p, cv, Block1(jw.m1))) == Compress(p, cv, Block1(jw.m1), 28, CHUNK_END + ROOT)
  {
    var m := Block1(jw.m1);
    LiteralSchedule(m, 6);
    HeadThenTail(p, cv, m);
    assert M1(jw, 2) == m[2] && M1(jw, 12) == m[12] && M1(jw, 7) == m[7] && M1(jw, 13) == m[13];
  }
}
