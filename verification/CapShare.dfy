/** The share test of the Whirlpool mining kernel: its comparison of 64-bit words against the arithmetic
    on 256-bit integers that ShareTarget.dfy does with the stored bytes. */
module CapShare {
  import opened Words
  import opened Radix
  import opened WhirlpoolCore
  import opened Whirlpool
  import opened CapHash
  import opened ShareTarget

  // ---- Bytes as numbers ----

  function Ints(b: seq<bv8>): (m: seq<byte>)
    ensures |m| == |b|
  {
    seq(|b|, i requires 0 <= i < |b| => ByteValue(b[i]))
  }

  predicate Less(a: bv8, b: bv8) { a < b }

  function ByteValue(x: bv8): byte { x as int }

  lemma ByteOrder(a: bv8, b: bv8)
    ensures Less(a, b) <==> ByteValue(a) < ByteValue(b)
  {
  }

  lemma ByteEqual(a: bv8, b: bv8)
    ensures a == b <==> ByteValue(a) == ByteValue(b)
  {
  }

  lemma ByteRoundTrip(x: byte)
    ensures ByteValue(x as bv8) == x
  {
  }

  lemma IntsOfBits(m: seq<byte>)
    ensures Ints(Bits(m)) == m
  {
    forall i | 0 <= i < |m| ensures Ints(Bits(m))[i] == m[i] { ByteRoundTrip(m[i]); }
  }

  // ---- Words compare as their bytes do ----

  /** Reading a value from its most significant byte: an order, the first byte, and what follows it. */
  datatype Peel<!T> = Peel(le: (T, T) -> bool, top: T -> bv8, rest: T -> T)

  ghost predicate PeelLaws<T(!new)>(p: Peel<T>, zero: T) { p.le(zero, zero) && TopDecides(p) }

  ghost predicate TopDecides<T(!new)>(p: Peel<T>) { forall x, y :: Decides(p, x, y) }

  /** The first bytes decide the comparison, and where they agree what follows them does. */
  ghost predicate Decides<T>(p: Peel<T>, x: T, y: T) {
    p.le(x, y) <==> Less(p.top(x), p.top(y)) || (p.top(x) == p.top(y) && p.le(p.rest(x), p.rest(y)))
  }

  function Tops<T>(p: Peel<T>, x: T, n: nat): (s: seq<bv8>)
    ensures |s| == n
    decreases n
  {
    if n == 0 then [] else [p.top(x)] + Tops(p, p.rest(x), n - 1)
  }

  function After<T>(p: Peel<T>, x: T, n: nat): T
    decreases n
  {
    if n == 0 then x else After(p, p.rest(x), n - 1)
  }

  predicate BytesLe(s: seq<bv8>, t: seq<bv8>)
    requires |s| == |t|
  {
    s == [] || Less(s[0], t[0]) || (s[0] == t[0] && BytesLe(s[1..], t[1..]))
  }

  lemma {:induction false} BytesLeIsLexLe(s: seq<bv8>, t: seq<bv8>)
    requires |s| == |t|
    ensures BytesLe(s, t) <==> LexLe(Ints(s), Ints(t))
  {
    if s != [] {
      ByteOrder(s[0], t[0]);
      ByteEqual(s[0], t[0]);
      BytesLeIsLexLe(s[1..], t[1..]);
      assert Ints(s)[1..] == Ints(s[1..]) && Ints(t)[1..] == Ints(t[1..]);
    }
  }

  /** The order is the lexicographic order of the bytes. */
  lemma {:induction false} OrderIsLexicographic<T(!new)>(p: Peel<T>, zero: T, x: T, y: T, n: nat)
    requires PeelLaws(p, zero) && After(p, x, n) == zero && After(p, y, n) == zero
    ensures p.le(x, y) <==> BytesLe(Tops(p, x, n), Tops(p, y, n))
    decreases n
  {
    if n > 0 {
      OrderIsLexicographic(p, zero, p.rest(x), p.rest(y), n - 1);
      assert Decides(p, x, y);
      assert Tops(p, x, n)[1..] == Tops(p, p.rest(x), n - 1) && Tops(p, y, n)[1..] == Tops(p, p.rest(y), n - 1);
    }
  }

  // ---- The machine's words ----

  function Le64(x: bv64, y: bv64): bool { x <= y }

  function Less64(x: bv64, y: bv64): bool { x < y }

  function TopByte(x: bv64): bv8 { (x >> 56) as bv8 }

  function Rest(x: bv64): bv64 { x << 8 }

  function WordPeel(): Peel<bv64> { Peel(Le64, TopByte, Rest) }

  lemma RestIs(x: bv64)
    ensures Rest(x) == x << 8 && TopByte(x) == (x >> 56) as bv8
  {
  }

  lemma TopBits(x: bv64, y: bv64)
    ensures x <= y <==> ((x >> 56) as bv8) < ((y >> 56) as bv8) || ((x >> 56) as bv8 == (y >> 56) as bv8 && (x << 8) <= (y << 8))
  {
  }

  lemma TopByteDecides(x: bv64, y: bv64, tx: bv8, ty: bv8, rx: bv64, ry: bv64)
    requires tx == (x >> 56) as bv8 && ty == (y >> 56) as bv8 && rx == x << 8 && ry == y << 8
    ensures x <= y <==> tx < ty || (tx == ty && rx <= ry)
  {
    TopBits(x, y);
  }

  lemma TopByteDecidesLe(x: bv64, y: bv64, tx: bv8, ty: bv8, rx: bv64, ry: bv64)
    requires tx == (x >> 56) as bv8 && ty == (y >> 56) as bv8 && rx == x << 8 && ry == y << 8
    ensures Le64(x, y) <==> Less(tx, ty) || (tx == ty && Le64(rx, ry))
  {
    TopByteDecides(x, y, tx, ty, rx, ry);
  }

  lemma PeelTopByte(x: bv64, y: bv64)
    ensures Decides(WordPeel(), x, y)
  {
    RestIs(x);
    RestIs(y);
    TopByteDecidesLe(x, y, TopByte(x), TopByte(y), Rest(x), Rest(y));
  }

  lemma MachinePeels()
    ensures TopDecides(WordPeel())
  {
    forall x: bv64, y: bv64 ensures Decides(WordPeel(), x, y) { PeelTopByte(x, y); }
  }

  lemma ZeroLe()
    ensures Le64(0, 0)
  {
  }

  // ---- Words from bytes and back ----

  lemma JoinLow(a: bv8, b: bv8, c: bv8, d: bv8, e: bv8, f: bv8, g: bv8, h: bv8)
    ensures LowByte(Join(a, b, c, d, e, f, g, h)) == a
  {
  }

  lemma JoinShift(a: bv8, b: bv8, c: bv8, d: bv8, e: bv8, f: bv8, g: bv8, h: bv8)
    ensures ShiftByte(Join(a, b, c, d, e, f, g, h)) == Join(b, c, d, e, f, g, h, 0)
  {
  }

  lemma JoinTop(a: bv8, b: bv8, c: bv8, d: bv8, e: bv8, f: bv8, g: bv8, h: bv8)
    ensures TopByte(Join(a, b, c, d, e, f, g, h)) == h
  {
  }

  lemma JoinRest(a: bv8, b: bv8, c: bv8, d: bv8, e: bv8, f: bv8, g: bv8, h: bv8)
    ensures Rest(Join(a, b, c, d, e, f, g, h)) == Join(0, a, b, c, d, e, f, g)
  {
  }

  lemma JoinZero()
    ensures Join(0, 0, 0, 0, 0, 0, 0, 0) == 0
  {
  }

  lemma SplitWord(x: bv64)
    ensures Join((x & 0xff) as bv8, ((x >> 8) & 0xff) as bv8, ((x >> 16) & 0xff) as bv8, ((x >> 24) & 0xff) as bv8,
                 ((x >> 32) & 0xff) as bv8, ((x >> 40) & 0xff) as bv8, ((x >> 48) & 0xff) as bv8, ((x >> 56) & 0xff) as bv8) == x
  {
  }

  /** Every word is loaded from some eight bytes. */
  lemma BytesOfWord(x: bv64) returns (p: seq<bv8>)
    ensures |p| == 8 && Dec64(p) == x
  {
    p := [(x & 0xff) as bv8, ((x >> 8) & 0xff) as bv8, ((x >> 16) & 0xff) as bv8, ((x >> 24) & 0xff) as bv8,
          ((x >> 32) & 0xff) as bv8, ((x >> 40) & 0xff) as bv8, ((x >> 48) & 0xff) as bv8, ((x >> 56) & 0xff) as bv8];
    SplitWord(x);
  }

  lemma LoadStep(p: seq<bv8>)
    requires |p| == 8
    ensures LowByte(Dec64(p)) == p[0] && ShiftByte(Dec64(p)) == Dec64(p[1..] + [0])
    ensures TopByte(Dec64(p)) == p[7] && Rest(Dec64(p)) == Dec64([0] + p[..7])
  {
    JoinLow(p[0], p[1], p[2], p[3], p[4], p[5], p[6], p[7]);
    JoinShift(p[0], p[1], p[2], p[3], p[4], p[5], p[6], p[7]);
    JoinTop(p[0], p[1], p[2], p[3], p[4], p[5], p[6], p[7]);
    JoinRest(p[0], p[1], p[2], p[3], p[4], p[5], p[6], p[7]);
  }

  /** Storing a loaded word gives back its bytes. */
  lemma {:induction false} StoreLoad(k: Codec<bv64, bv8>, p: seq<bv8>, i: nat)
    requires k.low == LowByte && k.shift == ShiftByte && |p| == 8 && i < 8
    ensures ByteOf(k, Dec64(p), i) == p[i]
    decreases i
  {
    LoadStep(p);
    if i > 0 { StoreLoad(k, p[1..] + [0], i - 1); }
  }

  lemma StoredWord(k: Codec<bv64, bv8>, p: seq<bv8>)
    requires k.low == LowByte && k.shift == ShiftByte && |p| == 8
    ensures Enc(k, Dec64(p)) == p
  {
    forall i | 0 <= i < 8 ensures Enc(k, Dec64(p))[i] == p[i] { StoreLoad(k, p, i); }
  }

  function Backwards(b: seq<bv8>): (r: seq<bv8>)
    ensures |r| == |b|
  {
    seq(|b|, i requires 0 <= i < |b| => b[|b| - 1 - i])
  }

  function Load(p: seq<bv8>): bv64 { if |p| == 8 then Dec64(p) else 0 }

  /** Peeling a loaded value removes its last byte and makes room at the front. */
  ghost predicate LoadLaws<T>(pl: Peel<T>, load: seq<bv8> -> T, zero: T) {
    && load([0, 0, 0, 0, 0, 0, 0, 0]) == zero
    && forall p :: |p| == 8 ==> pl.top(load(p)) == p[7] && pl.rest(load(p)) == load([0] + p[..7])
  }

  lemma MachineLoads()
    ensures LoadLaws(WordPeel(), Load, 0)
  {
    JoinZero();
    forall p: seq<bv8> | |p| == 8 ensures TopByte(Load(p)) == p[7] && Rest(Load(p)) == Load([0] + p[..7]) { LoadStep(p); }
  }

  lemma BackwardsLast(p: seq<bv8>, n: nat)
    requires |p| == 8 && 0 < n <= 8
    ensures Backwards(p[8 - n..]) == [p[7]] + Backwards(([0] + p[..7])[9 - n..])
  {
    assert ([0] + p[..7])[9 - n..] == p[8 - n..7];
  }

  /** From the top a loaded word shows its bytes in reverse. */
  lemma {:induction false} TopsOfLoad<T>(pl: Peel<T>, load: seq<bv8> -> T, zero: T, p: seq<bv8>, n: nat)
    requires LoadLaws(pl, load, zero) && |p| == 8 && n <= 8
    ensures Tops(pl, load(p), n) == Backwards(p[8 - n..])
    decreases n
  {
    if n > 0 {
      TopsOfLoad(pl, load, zero, [0] + p[..7], n - 1);
      BackwardsLast(p, n);
    }
  }

  lemma {:induction false} LoadExhausts<T>(pl: Peel<T>, load: seq<bv8> -> T, zero: T, p: seq<bv8>, n: nat)
    requires LoadLaws(pl, load, zero) && |p| == 8 && n <= 8 && forall i :: 0 <= i < 8 - n ==> p[i] == 0
    ensures After(pl, load(p), n) == zero
    decreases n
  {
    if n > 0 {
      LoadExhausts(pl, load, zero, [0] + p[..7], n - 1);
    } else {
      assert p == [0, 0, 0, 0, 0, 0, 0, 0];
    }
  }

  lemma LoadedOrder<T(!new)>(pl: Peel<T>, load: seq<bv8> -> T, zero: T, p: seq<bv8>, q: seq<bv8>)
    requires PeelLaws(pl, zero) && LoadLaws(pl, load, zero) && |p| == |q| == 8
    ensures pl.le(load(p), load(q)) <==> Little(256, Ints(p)) <= Little(256, Ints(q))
  {
    LoadExhausts(pl, load, zero, p, 8);
    LoadExhausts(pl, load, zero, q, 8);
    OrderIsLexicographic(pl, zero, load(p), load(q), 8);
    TopsOfLoad(pl, load, zero, p, 8);
    TopsOfLoad(pl, load, zero, q, 8);
    assert p[0..] == p && q[0..] == q;
    BackwardsOrder(p, q);
  }

  lemma BackwardsOrder(p: seq<bv8>, q: seq<bv8>)
    requires |p| == |q|
    ensures BytesLe(Backwards(p), Backwards(q)) <==> Little(256, Ints(p)) <= Little(256, Ints(q))
  {
    BytesLeIsLexLe(Backwards(p), Backwards(q));
    assert Ints(Backwards(p)) == Reversed(Ints(p)) && Ints(Backwards(q)) == Reversed(Ints(q));
    LittleIsReversedValue(256, Ints(p));
    LittleIsReversedValue(256, Ints(q));
    LexIsValueOrder(256, Reversed(Ints(p)), Reversed(Ints(q)));
  }

  /** Comparing two words as the machine does is comparing the numbers their stored bytes denote. */
  lemma WordOrder(k: Codec<bv64, bv8>, x: bv64, y: bv64)
    requires k.low == LowByte && k.shift == ShiftByte
    ensures Le64(x, y) <==> Little(256, Ints(Enc(k, x))) <= Little(256, Ints(Enc(k, y)))
  {
    var p := BytesOfWord(x);
    var q := BytesOfWord(y);
    StoredWord(k, p);
    StoredWord(k, q);
    MachinePeels();
    ZeroLe();
    MachineLoads();
    LoadedOrder(WordPeel(), Load, 0, p, q);
  }

  // ---- The share test of one nonce ----

  function Number(b: seq<bv8>): nat { Little(256, Ints(b)) }

  lemma WordsOfStored(k: Codec<bv64, bv8>, w0: bv64, w1: bv64, w2: bv64, w3: bv64)
    ensures WordsOf(Ints(Stored(k, w0, w1, w2, w3)))
         == [Number(Enc(k, w0)), Number(Enc(k, w1)), Number(Enc(k, w2)), Number(Enc(k, w3))]
  {
    var e0, e1, e2, e3 := Enc(k, w0), Enc(k, w1), Enc(k, w2), Enc(k, w3);
    var b := Stored(k, w0, w1, w2, w3);
    assert b[0..8] == e0 && b[8..16] == e1 && b[16..24] == e2 && b[24..32] == e3;
    IntsSlice(b, 0, 8);
    IntsSlice(b, 8, 16);
    IntsSlice(b, 16, 24);
    IntsSlice(b, 24, 32);
  }

  lemma IntsSlice(b: seq<bv8>, lo: nat, hi: nat)
    requires lo <= hi <= |b|
    ensures Ints(b)[lo..hi] == Ints(b[lo..hi])
  {
  }

  lemma LessIsNotLe(x: bv64, y: bv64)
    ensures x < y <==> !(y <= x)
  {
  }

  lemma LessIsNotLe64(x: bv64, y: bv64)
    ensures Less64(x, y) <==> !Le64(y, x)
  {
    LessIsNotLe(x, y);
  }

  lemma NumberInjective(p: seq<bv8>, q: seq<bv8>)
    requires |p| == |q| && Number(p) == Number(q)
    ensures p == q
  {
    LittleIsReversedValue(256, Ints(p));
    LittleIsReversedValue(256, Ints(q));
    ValueInjective(256, Reversed(Ints(p)), Reversed(Ints(q)));
    var n := |p|;
    forall i | 0 <= i < n ensures p[i] == q[i] {
      assert Reversed(Ints(p))[n - 1 - i] == Reversed(Ints(q))[n - 1 - i];
      ByteEqual(p[i], q[i]);
    }
  }

  /** Words with the same number are the same word. */
  lemma EqualWords(k: Codec<bv64, bv8>, x: bv64, y: bv64)
    requires k.low == LowByte && k.shift == ShiftByte && Number(Enc(k, x)) == Number(Enc(k, y))
    ensures x == y
  {
    var p := BytesOfWord(x);
    var q := BytesOfWord(y);
    StoredWord(k, p);
    StoredWord(k, q);
    NumberInjective(p, q);
  }

  /** A word of the hash against a word of the target: the comparisons mean the same for their numbers. */
  lemma WordLess(k: Codec<bv64, bv8>, x: bv64, y: bv64, n: nat, m: nat)
    requires k.low == LowByte && k.shift == ShiftByte && n == Number(Enc(k, x)) && m == Number(Enc(k, y))
    ensures Less64(x, y) <==> n < m
    ensures x == y <==> n == m
  {
    WordOrder(k, y, x);
    LessIsNotLe64(x, y);
    if n == m { EqualWords(k, x, y); }
  }

  /** The cascade of the kernel, on any words that compare as their numbers do. */
  lemma Cascade(n: seq<nat>, m: seq<nat>, le: bool)
    requires |n| == |m| == 4 && Digits(TWO64, n) && Digits(TWO64, m)
    requires le <==> if n[3] != m[3] then n[3] < m[3] else if n[2] != m[2] then n[2] < m[2]
                     else if n[1] != m[1] then n[1] < m[1] else n[0] <= m[0]
    ensures le <==> Little(TWO64, n) <= Little(TWO64, m)
  {
    LexFour(n[3], n[2], n[1], n[0], m[3], m[2], m[1], m[0]);
    assert Reversed(n) == [n[3], n[2], n[1], n[0]] && Reversed(m) == [m[3], m[2], m[1], m[0]];
    LittleCompare(n, m);
  }

  /** The numbers of four stored words are the base 2^64 digits of the number of all the bytes. */
  lemma WordNumbers(k: Codec<bv64, bv8>, w0: bv64, w1: bv64, w2: bv64, w3: bv64) returns (n: seq<nat>)
    ensures n == [Number(Enc(k, w0)), Number(Enc(k, w1)), Number(Enc(k, w2)), Number(Enc(k, w3))]
    ensures Digits(TWO64, n) && Little(TWO64, n) == Number(Stored(k, w0, w1, w2, w3))
  {
    n := WordsOf(Ints(Stored(k, w0, w1, w2, w3)));
    WordsOfStored(k, w0, w1, w2, w3);
    WordsAreBytes(Ints(Stored(k, w0, w1, w2, w3)));
  }

  /** Storing the loaded target words gives back the target. */
  lemma StoredTarget(k: Codec<bv64, bv8>, t: seq<bv8>)
    requires k.low == LowByte && k.shift == ShiftByte && |t| == 32
    ensures var tw := TargetWords(t); |tw| == 4 && Stored(k, tw[0], tw[1], tw[2], tw[3]) == t
  {
    StoredWord(k, t[0..8]);
    StoredWord(k, t[8..16]);
    StoredWord(k, t[16..24]);
    StoredWord(k, t[24..32]);
    assert t == t[0..8] + t[8..16] + t[16..24] + t[24..32];
  }

  /** whirlpool_mine_ms for one nonce: the kernel accepts it exactly when the folded digest of the header
      carrying it is at most the target, both read as little-endian 256-bit integers, and stores that digest. */
  method KernelTest(o: Ops<bv64>, k: Codec<bv64, bv8>, h: seq<bv8>, t: seq<bv8>, job: Job, nonce: bv32)
    returns (accepted: bool, out: seq<bv8>)
    requires Ready(o, h, t, job) && IsMachine(o, k)
    ensures out == CapWhirlpool80(o, k, WithNonce(h, nonce))
    ensures accepted <==> Number(out) <= Number(t)
  {
    var ow0, ow1, ow2, ow3 := FoldNonce(o, k, h, t, job, nonce);
    out := Stored(k, ow0, ow1, ow2, ow3);
    var tw0, tw1, tw2, tw3 := job.target[0], job.target[1], job.target[2], job.target[3];
    accepted := CompareWords(k, ow0, ow1, ow2, ow3, tw0, tw1, tw2, tw3);
    StoredTarget(k, t);
  }

  /** The comparison, most significant word first, of four hash words with the four words of the target. */
  method CompareWords(k: Codec<bv64, bv8>, ow0: bv64, ow1: bv64, ow2: bv64, ow3: bv64,
                      tw0: bv64, tw1: bv64, tw2: bv64, tw3: bv64)
    returns (le: bool)
    requires k.low == LowByte && k.shift == ShiftByte
    ensures le <==> Number(Stored(k, ow0, ow1, ow2, ow3)) <= Number(Stored(k, tw0, tw1, tw2, tw3))
  {
    if ow3 != tw3 {
      le := Less64(ow3, tw3);
    } else if ow2 != tw2 {
      le := Less64(ow2, tw2);
    } else if ow1 != tw1 {
      le := Less64(ow1, tw1);
    } else {
      le := Le64(ow0, tw0);
    }
    ghost var n := WordNumbers(k, ow0, ow1, ow2, ow3);
    ghost var m := WordNumbers(k, tw0, tw1, tw2, tw3);
    WordOrder(k, ow0, tw0);
    WordLess(k, ow1, tw1, n[1], m[1]);
    WordLess(k, ow2, tw2, n[2], m[2]);
    WordLess(k, ow3, tw3, n[3], m[3]);
    Cascade(n, m, le);
  }

  /** A job with the share target of a difficulty: the kernel accepts a nonce if and only if the folded
      digest times the difficulty is at most 0xffff * 2^208 when the difficulty fits, and never accepts one
      that misses it. */
  method MineNonce(o: Ops<bv64>, k: Codec<bv64, bv8>, h: seq<bv8>, div: u64, nonce: bv32) returns (accepted: bool, out: seq<bv8>)
    requires |h| == 80 && IsMachine(o, k) && div >= 1
    ensures out == CapWhirlpool80(o, k, WithNonce(h, nonce))
    ensures Fits(div) ==> (accepted <==> Number(out) * div <= Diff1())
    ensures accepted ==> Number(out) * div <= Diff1()
  {
    var target := MakeShareTarget(div);
    var t := Bits(target);
    var job := SetupJob(o, h, t);
    accepted, out := KernelTest(o, k, h, t, job, nonce);
    IntsOfBits(target);
    QuotientCompare(Number(out), Diff1(), div);
  }
}
