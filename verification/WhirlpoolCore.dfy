/** The Whirlpool compression over an abstract word type: the interleaved reference form and the
    form with a precomputed key schedule. Nothing here depends on what the words or tables are. */
module WhirlpoolCore {
  /** Eight words, named like the registers of the source. */
  datatype Words8<+T> = W(w0: T, w1: T, w2: T, w3: T, w4: T, w5: T, w6: T, w7: T)

  /** Word arithmetic, tables and round constants: `lookup(k, x)` is entry (byte k of x) of table T_k. */
  datatype Ops<!T> = Ops(xor: (T, T) -> T, zero: T, lookup: (nat, T) -> T, rc: nat -> T)

  /** WROUND_ELT: table k reads byte k of its k-th argument. */
  function Element<T>(o: Ops<T>, x0: T, x1: T, x2: T, x3: T, x4: T, x5: T, x6: T, x7: T): T {
    o.xor(o.xor(o.xor(o.xor(o.xor(o.xor(o.xor(o.lookup(0, x0), o.lookup(1, x1)), o.lookup(2, x2)), o.lookup(3, x3)),
      o.lookup(4, x4)), o.lookup(5, x5)), o.lookup(6, x6)), o.lookup(7, x7))
  }

  /** One Whirlpool round with added constants or round key `c`. */
  function Round<T>(o: Ops<T>, x: Words8<T>, c: Words8<T>): Words8<T> {
    W(o.xor(Element(o, x.w0, x.w7, x.w6, x.w5, x.w4, x.w3, x.w2, x.w1), c.w0),
      o.xor(Element(o, x.w1, x.w0, x.w7, x.w6, x.w5, x.w4, x.w3, x.w2), c.w1),
      o.xor(Element(o, x.w2, x.w1, x.w0, x.w7, x.w6, x.w5, x.w4, x.w3), c.w2),
      o.xor(Element(o, x.w3, x.w2, x.w1, x.w0, x.w7, x.w6, x.w5, x.w4), c.w3),
      o.xor(Element(o, x.w4, x.w3, x.w2, x.w1, x.w0, x.w7, x.w6, x.w5), c.w4),
      o.xor(Element(o, x.w5, x.w4, x.w3, x.w2, x.w1, x.w0, x.w7, x.w6), c.w5),
      o.xor(Element(o, x.w6, x.w5, x.w4, x.w3, x.w2, x.w1, x.w0, x.w7), c.w6),
      o.xor(Element(o, x.w7, x.w6, x.w5, x.w4, x.w3, x.w2, x.w1, x.w0), c.w7))
  }

  function RoundConstant<T>(o: Ops<T>, r: nat): Words8<T> {
    W(o.rc(r), o.zero, o.zero, o.zero, o.zero, o.zero, o.zero, o.zero)
  }

  /** The round key K_r of the schedule started from `h` (K_0 = h). */
  function Key<T>(o: Ops<T>, h: Words8<T>, r: nat): Words8<T> {
    if r == 0 then h else Round(o, Key(o, h, r - 1), RoundConstant(o, r - 1))
  }

  /** The message state after r rounds keyed by K_1 .. K_r. */
  function Message<T>(o: Ops<T>, n: Words8<T>, h: Words8<T>, r: nat): Words8<T> {
    if r == 0 then n else Round(o, Message(o, n, h, r - 1), Key(o, h, r))
  }

  function Xor8<T>(o: Ops<T>, a: Words8<T>, b: Words8<T>): Words8<T> {
    W(o.xor(a.w0, b.w0), o.xor(a.w1, b.w1), o.xor(a.w2, b.w2), o.xor(a.w3, b.w3),
      o.xor(a.w4, b.w4), o.xor(a.w5, b.w5), o.xor(a.w6, b.w6), o.xor(a.w7, b.w7))
  }

  /** The Miyaguchi-Preneel compression of one block given as eight words. */
  function Compress<T>(o: Ops<T>, block: Words8<T>, state: Words8<T>): Words8<T> {
    Xor8(o, state, Xor8(o, Message(o, Xor8(o, block, state), state, 10), block))
  }

  // ---- The same compression on sequences, by index ----

  function Words<T>(x: Words8<T>): (s: seq<T>)
    ensures |s| == 8
  {
    [x.w0, x.w1, x.w2, x.w3, x.w4, x.w5, x.w6, x.w7]
  }

  /** The word k places before word i, going round. */
  function Back(i: nat, k: nat): (j: nat)
    requires i < 8 && k < 8
    ensures j < 8 && j == (i + 8 - k) % 8
  {
    if k <= i then i - k else i + 8 - k
  }

  /** Word i looks table k up at byte k of the word k places before it. */
  function Lookups<T>(o: Ops<T>, s: seq<T>, i: nat, k: nat): T
    requires |s| == 8 && i < 8 && k < 8
  {
    if k == 0 then o.lookup(0, s[i]) else o.xor(Lookups(o, s, i, k - 1), o.lookup(k, s[Back(i, k)]))
  }

  function ShiftedRound<T>(o: Ops<T>, s: seq<T>, c: seq<T>): (r: seq<T>)
    requires |s| == |c| == 8
    ensures |r| == 8
  {
    seq(8, i requires 0 <= i < 8 => o.xor(Lookups(o, s, i, 7), c[i]))
  }

  /** The round constant enters word 0 alone. */
  function Constant<T>(o: Ops<T>, r: nat): (c: seq<T>)
    ensures |c| == 8
  {
    seq(8, i => if i == 0 then o.rc(r) else o.zero)
  }

  function ShiftedKey<T>(o: Ops<T>, h: seq<T>, r: nat): (k: seq<T>)
    requires |h| == 8
    ensures |k| == 8
  {
    if r == 0 then h else ShiftedRound(o, ShiftedKey(o, h, r - 1), Constant(o, r - 1))
  }

  function ShiftedMessage<T>(o: Ops<T>, n: seq<T>, h: seq<T>, r: nat): (m: seq<T>)
    requires |n| == |h| == 8
    ensures |m| == 8
  {
    if r == 0 then n else ShiftedRound(o, ShiftedMessage(o, n, h, r - 1), ShiftedKey(o, h, r))
  }

  function XorWords<T>(o: Ops<T>, a: seq<T>, b: seq<T>): (r: seq<T>)
    requires |a| == |b|
    ensures |r| == |a|
  {
    seq(|a|, i requires 0 <= i < |a| => o.xor(a[i], b[i]))
  }

  function ElementAt<T>(o: Ops<T>, s: seq<T>, i: nat): T
    requires |s| == 8 && i < 8
  {
    Element(o, s[i], s[Back(i, 1)], s[Back(i, 2)], s[Back(i, 3)], s[Back(i, 4)], s[Back(i, 5)], s[Back(i, 6)], s[Back(i, 7)])
  }

  lemma WordIsElement<T>(o: Ops<T>, s: seq<T>, i: nat)
    requires |s| == 8 && i < 8
    ensures Lookups(o, s, i, 7) == ElementAt(o, s, i)
  {
    assert Lookups(o, s, i, 1) == o.xor(o.lookup(0, s[i]), o.lookup(1, s[Back(i, 1)]));
    assert Lookups(o, s, i, 3) == o.xor(o.xor(Lookups(o, s, i, 1), o.lookup(2, s[Back(i, 2)])), o.lookup(3, s[Back(i, 3)]));
    assert Lookups(o, s, i, 5) == o.xor(o.xor(Lookups(o, s, i, 3), o.lookup(4, s[Back(i, 4)])), o.lookup(5, s[Back(i, 5)]));
    assert Lookups(o, s, i, 7) == o.xor(o.xor(Lookups(o, s, i, 5), o.lookup(6, s[Back(i, 6)])), o.lookup(7, s[Back(i, 7)]));
  }

  lemma LowWords<T>(o: Ops<T>, x: Words8<T>)
    ensures var s := Words(x);
      && ElementAt(o, s, 0) == Element(o, x.w0, x.w7, x.w6, x.w5, x.w4, x.w3, x.w2, x.w1)
      && ElementAt(o, s, 1) == Element(o, x.w1, x.w0, x.w7, x.w6, x.w5, x.w4, x.w3, x.w2)
      && ElementAt(o, s, 2) == Element(o, x.w2, x.w1, x.w0, x.w7, x.w6, x.w5, x.w4, x.w3)
      && ElementAt(o, s, 3) == Element(o, x.w3, x.w2, x.w1, x.w0, x.w7, x.w6, x.w5, x.w4)
  {
  }

  lemma HighWords<T>(o: Ops<T>, x: Words8<T>)
    ensures var s := Words(x);
      && ElementAt(o, s, 4) == Element(o, x.w4, x.w3, x.w2, x.w1, x.w0, x.w7, x.w6, x.w5)
      && ElementAt(o, s, 5) == Element(o, x.w5, x.w4, x.w3, x.w2, x.w1, x.w0, x.w7, x.w6)
      && ElementAt(o, s, 6) == Element(o, x.w6, x.w5, x.w4, x.w3, x.w2, x.w1, x.w0, x.w7)
      && ElementAt(o, s, 7) == Element(o, x.w7, x.w6, x.w5, x.w4, x.w3, x.w2, x.w1, x.w0)
  {
  }

  lemma RoundWords<T>(o: Ops<T>, x: Words8<T>, c: Words8<T>)
    ensures var s := Words(x);
      Round(o, x, c) == W(o.xor(ElementAt(o, s, 0), c.w0), o.xor(ElementAt(o, s, 1), c.w1),
                          o.xor(ElementAt(o, s, 2), c.w2), o.xor(ElementAt(o, s, 3), c.w3),
                          o.xor(ElementAt(o, s, 4), c.w4), o.xor(ElementAt(o, s, 5), c.w5),
                          o.xor(ElementAt(o, s, 6), c.w6), o.xor(ElementAt(o, s, 7), c.w7))
  {
    LowWords(o, x);
    HighWords(o, x);
  }

  lemma ShiftedRoundAt<T>(o: Ops<T>, s: seq<T>, c: seq<T>, i: nat)
    requires |s| == |c| == 8 && i < 8
    ensures ShiftedRound(o, s, c)[i] == o.xor(ElementAt(o, s, i), c[i])
  {
    WordIsElement(o, s, i);
  }

  /** The written-out round is the column shift: word i of the result is word i of the key added to the
      lookups of table k at the word k places before word i, for k from 0 to 7. */
  lemma RoundShifts<T>(o: Ops<T>, x: Words8<T>, c: Words8<T>)
    ensures Words(Round(o, x, c)) == ShiftedRound(o, Words(x), Words(c))
  {
    RoundWords(o, x, c);
    forall i | 0 <= i < 8 ensures Words(Round(o, x, c))[i] == ShiftedRound(o, Words(x), Words(c))[i] {
      ShiftedRoundAt(o, Words(x), Words(c), i);
    }
  }

  lemma {:induction false} KeyShifts<T>(o: Ops<T>, h: Words8<T>, r: nat)
    ensures Words(Key(o, h, r)) == ShiftedKey(o, Words(h), r)
  {
    if r > 0 {
      KeyShifts(o, h, r - 1);
      RoundShifts(o, Key(o, h, r - 1), RoundConstant(o, r - 1));
      assert Words(RoundConstant(o, r - 1)) == Constant(o, r - 1);
    }
  }

  lemma {:induction false} MessageShifts<T>(o: Ops<T>, n: Words8<T>, h: Words8<T>, r: nat)
    ensures Words(Message(o, n, h, r)) == ShiftedMessage(o, Words(n), Words(h), r)
  {
    if r > 0 {
      MessageShifts(o, n, h, r - 1);
      KeyShifts(o, h, r);
      RoundShifts(o, Message(o, n, h, r - 1), Key(o, h, r));
    }
  }

  /** The compression by index: ten column-shift rounds of the whitened block under the shifted key schedule,
      with state and block added at the end. */
  lemma CompressShifts<T>(o: Ops<T>, block: Words8<T>, state: Words8<T>)
    ensures Words(Compress(o, block, state)) ==
      var b, h := Words(block), Words(state);
      XorWords(o, h, XorWords(o, ShiftedMessage(o, XorWords(o, b, h), h, 10), b))
  {
    MessageShifts(o, Xor8(o, block, state), state, 10);
    assert Words(Xor8(o, block, state)) == XorWords(o, Words(block), Words(state));
  }

  // ---- The loops ----

  /** whirlpool_compress_cuda: the key schedule advances one round ahead of the message. */
  method CompressInterleaved<T>(o: Ops<T>, block: Words8<T>, state: Words8<T>) returns (out: Words8<T>)
    ensures out == Compress(o, block, state)
  {
    var n, h := Xor8(o, block, state), state;
    for r := 0 to 10
      invariant h == Key(o, state, r)
      invariant n == Message(o, Xor8(o, block, state), state, r)
    {
      h := Round(o, h, RoundConstant(o, r));
      n := Round(o, n, h);
    }
    out := Xor8(o, state, Xor8(o, n, block));
  }

  /** `rk` holds the ten round keys K_1 .. K_10 of the schedule started from `mid`. */
  ghost predicate IsKeySchedule<T>(o: Ops<T>, mid: Words8<T>, rk: seq<Words8<T>>) {
    |rk| == 10 && forall r :: 0 <= r < 10 ==> rk[r] == Key(o, mid, r + 1)
  }

  /** whirlpool_round_keys_cuda: the schedule alone, once per job. */
  method RoundKeys<T>(o: Ops<T>, mid: Words8<T>) returns (rk: seq<Words8<T>>)
    ensures IsKeySchedule(o, mid, rk)
  {
    rk := [];
    var h := mid;
    for r := 0 to 10
      invariant |rk| == r && h == Key(o, mid, r)
      invariant forall q :: 0 <= q < r ==> rk[q] == Key(o, mid, q + 1)
    {
      h := Round(o, h, RoundConstant(o, r));
      rk := rk + [h];
    }
  }

  /** What the kernel relies on of the word arithmetic. */
  ghost predicate XorLaws<T(!new)>(o: Ops<T>) {
    && (forall a, b, c :: o.xor(a, o.xor(b, c)) == o.xor(o.xor(a, b), c))
    && (forall a :: o.xor(a, o.zero) == a)
  }

  /** The feed-forward with the zero message words 3 to 6 left out. */
  lemma FeedForward<T(!new)>(o: Ops<T>, m: Words8<T>, n: Words8<T>, sn: Words8<T>)
    requires XorLaws(o) && sn.w3 == sn.w4 == sn.w5 == sn.w6 == o.zero
    ensures Xor8(o, m, Xor8(o, n, sn)) ==
            W(o.xor(o.xor(m.w0, n.w0), sn.w0), o.xor(o.xor(m.w1, n.w1), sn.w1), o.xor(o.xor(m.w2, n.w2), sn.w2), o.xor(m.w3, n.w3),
              o.xor(m.w4, n.w4), o.xor(m.w5, n.w5), o.xor(m.w6, n.w6), o.xor(o.xor(m.w7, n.w7), sn.w7))
  {
  }

  /** WHIRLPOOL_BLOCK1_FOLD: message-only rounds under the precomputed keys, feed-forward, and the
      fold of the two digest halves, for a second block whose words 3 to 6 are zero. */
  method Block1Fold<T(!new)>(o: Ops<T>, mid: Words8<T>, rk: seq<Words8<T>>, sn: Words8<T>)
    returns (ow0: T, ow1: T, ow2: T, ow3: T)
    requires XorLaws(o) && IsKeySchedule(o, mid, rk) && sn.w3 == sn.w4 == sn.w5 == sn.w6 == o.zero
    ensures var f := Compress(o, sn, mid);
            ow0 == o.xor(f.w0, f.w4) && ow1 == o.xor(f.w1, f.w5) && ow2 == o.xor(f.w2, f.w6) && ow3 == o.xor(f.w3, f.w7)
  {
    var n := Xor8(o, sn, mid);
    for r := 0 to 10
      invariant n == Message(o, Xor8(o, sn, mid), mid, r)
    {
      n := Round(o, n, rk[r]);
    }
    FeedForward(o, mid, n, sn);
    var f0, f1, f2 := o.xor(o.xor(mid.w0, n.w0), sn.w0), o.xor(o.xor(mid.w1, n.w1), sn.w1), o.xor(o.xor(mid.w2, n.w2), sn.w2);
    var f3, f4, f5 := o.xor(mid.w3, n.w3), o.xor(mid.w4, n.w4), o.xor(mid.w5, n.w5);
    var f6, f7 := o.xor(mid.w6, n.w6), o.xor(o.xor(mid.w7, n.w7), sn.w7);
    ow0, ow1, ow2, ow3 := o.xor(f0, f4), o.xor(f1, f5), o.xor(f2, f6), o.xor(f3, f7);
  }

  // ---- Serialization ----

  /** How a word is stored: its low byte, the shift to the next byte, and exclusive or of bytes. */
  datatype Codec<!T, !B> = Codec(low: T -> B, shift: T -> T, xorByte: (B, B) -> B)

  function ByteOf<T, B>(k: Codec<T, B>, x: T, i: nat): B {
    if i == 0 then k.low(x) else ByteOf(k, k.shift(x), i - 1)
  }

  /** enc64le: eight bytes, least significant first. */
  function Enc<T, B>(k: Codec<T, B>, x: T): (p: seq<B>)
    ensures |p| == 8
  {
    seq(8, i requires 0 <= i < 8 => ByteOf(k, x, i))
  }

  function XorBytes<T, B>(k: Codec<T, B>, a: seq<B>, b: seq<B>): (r: seq<B>)
    requires |a| == |b|
    ensures |r| == |a|
  {
    seq(|a|, i requires 0 <= i < |a| => k.xorByte(a[i], b[i]))
  }

  /** Serialize a state and fold its two halves byte by byte. */
  function FoldedBytes<T, B>(k: Codec<T, B>, s: Words8<T>): (r: seq<B>)
    ensures |r| == 32
  {
    XorBytes(k, Enc(k, s.w0) + Enc(k, s.w1) + Enc(k, s.w2) + Enc(k, s.w3),
             Enc(k, s.w4) + Enc(k, s.w5) + Enc(k, s.w6) + Enc(k, s.w7))
  }

  /** Taking bytes commutes with exclusive or. */
  ghost predicate ByteLaws<T(!new), B>(o: Ops<T>, k: Codec<T, B>) {
    && (forall a, b :: k.low(o.xor(a, b)) == k.xorByte(k.low(a), k.low(b)))
    && (forall a, b :: k.shift(o.xor(a, b)) == o.xor(k.shift(a), k.shift(b)))
  }

  lemma {:induction false} ByteOfXor<T(!new), B>(o: Ops<T>, k: Codec<T, B>, x: T, y: T, i: nat)
    requires ByteLaws(o, k)
    ensures ByteOf(k, o.xor(x, y), i) == k.xorByte(ByteOf(k, x, i), ByteOf(k, y, i))
    decreases i
  {
    if i > 0 { ByteOfXor(o, k, k.shift(x), k.shift(y), i - 1); }
  }

  lemma EncOfXor<T(!new), B>(o: Ops<T>, k: Codec<T, B>, x: T, y: T)
    requires ByteLaws(o, k)
    ensures Enc(k, o.xor(x, y)) == XorBytes(k, Enc(k, x), Enc(k, y))
  {
    forall i | 0 <= i < 8 ensures Enc(k, o.xor(x, y))[i] == XorBytes(k, Enc(k, x), Enc(k, y))[i] { ByteOfXor(o, k, x, y, i); }
  }

  lemma XorOfPairs<T, B>(k: Codec<T, B>, a: seq<B>, b: seq<B>, c: seq<B>, d: seq<B>)
    requires |a| == |c| && |b| == |d|
    ensures XorBytes(k, a + b, c + d) == XorBytes(k, a, c) + XorBytes(k, b, d)
  {
  }

  /** Folding words and then serializing is serializing and then folding bytes. */
  lemma FoldThenSerialize<T(!new), B>(o: Ops<T>, k: Codec<T, B>, s: Words8<T>)
    requires ByteLaws(o, k)
    ensures Enc(k, o.xor(s.w0, s.w4)) + Enc(k, o.xor(s.w1, s.w5)) + Enc(k, o.xor(s.w2, s.w6)) + Enc(k, o.xor(s.w3, s.w7))
         == FoldedBytes(k, s)
  {
    EncOfXor(o, k, s.w0, s.w4);
    EncOfXor(o, k, s.w1, s.w5);
    EncOfXor(o, k, s.w2, s.w6);
    EncOfXor(o, k, s.w3, s.w7);
    var a, b, c, d := Enc(k, s.w0), Enc(k, s.w1), Enc(k, s.w2), Enc(k, s.w3);
    var e, f, g, h := Enc(k, s.w4), Enc(k, s.w5), Enc(k, s.w6), Enc(k, s.w7);
    XorOfPairs(k, a, b, e, f);
    XorOfPairs(k, a + b, c, e + f, g);
    XorOfPairs(k, a + b + c, d, e + f + g, h);
  }
}
