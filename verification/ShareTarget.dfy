/** The Bitcoin-style share target of the Whirlpool miner: make_share_target's byte-wise long division
    in 64-bit arithmetic, and the four 64-bit words its bytes are loaded into. */
module ShareTarget {
  import opened Words
  import opened Radix
  import opened Blake3Reference
  import Targets

  /** Difficulty 1, little-endian: 0xffff in bytes 26 and 27. */
  function Diff1Bytes(): Bytes32 {
    seq(32, i => if i == 26 || i == 27 then 0xff else 0)
  }

  function Diff1(): nat { Little(256, Diff1Bytes()) }

  lemma {:induction false} LittleZeros(b: nat, s: seq<nat>)
    requires forall i :: 0 <= i < |s| ==> s[i] == 0
    ensures Little(b, s) == 0
  {
    if s != [] { LittleZeros(b, s[1..]); }
  }

  /** The numerator seen by the division once the bytes from j up have been consumed. */
  lemma {:induction false} Diff1Tail(j: nat)
    requires j <= 32
    ensures Little(256, Diff1Bytes()[j..]) ==
      if j >= 28 then 0 else if j == 27 then 0xff else 0xffff * Pow(256, 26 - j)
    decreases 32 - j
  {
    var t := Diff1Bytes()[j..];
    if j >= 28 {
      LittleZeros(256, t);
    } else {
      Diff1Tail(j + 1);
      assert t[1..] == Diff1Bytes()[j + 1..];
    }
  }

  /** It stands for 0xffff * 2^208. */
  lemma Diff1Value()
    ensures Diff1() == 0xffff * Pow(2, 208)
  {
    Diff1Tail(0);
    Targets.PowOfBytes(26);
    assert Diff1Bytes()[0..] == Diff1Bytes();
  }

  /** A caller can check this before the call: no remainder of the division reaches 2^56, so shifting it
      left by 8 stays within 64 bits. */
  predicate Fits(div: u64)
    requires div > 0
  {
    forall k :: 0 <= k <= 25 ==> Dividend(k) % div < TWO56
  }

  function Dividend(k: nat): nat { 0xffff * Pow(256, k) }

  lemma SmallDivisorFits(div: u64)
    requires 0 < div <= TWO56
    ensures Fits(div)
  {
  }

  // ---- The division ----

  /** Before consuming a byte, the quotient so far is exact with remainder rem, or already too small. */
  ghost predicate Track(exact: bool, lu: int, lq: int, div: int, rem: int) {
    && 0 <= rem < div
    && (exact ==> lu == lq * div + rem)
    && (!exact ==> (lq + 1) * div <= lu)
  }

  /** (rem << 8) | u in 64 bits. */
  function Shifted(rem: u64, u: byte): u64 { rem * 256 % TWO64 + u }

  /** No wrap: the digit continues the exact quotient. */
  lemma ExactStep(lu: int, lq: int, div: int, rem: int, u: int, digit: int, rest: int)
    requires Track(true, lu, lq, div, rem)
    requires rem * 256 + u == digit * div + rest && 0 <= rest < div
    ensures Track(true, u + lu * 256, digit + lq * 256, div, rest)
  {
    assert (digit + lq * 256) * div == digit * div + 256 * (lq * div);
  }

  /** Once 2^56 is reached the shift drops at least 2^64, more than the divisor: the digit is too small. */
  lemma WrapStep(lu: int, lq: int, div: int, rem: int, u: int, cur: int, digit: int, rest: int)
    requires Track(true, lu, lq, div, rem) && cur + div <= rem * 256 + u
    requires cur == digit * div + rest && 0 <= rest < div
    ensures Track(false, u + lu * 256, digit + lq * 256, div, rest)
  {
    assert (digit + lq * 256 + 1) * div == digit * div + 256 * (lq * div) + div;
  }

  /** A quotient that is too small stays too small: later digits cannot make up for a missing unit. */
  lemma BelowStep(lu: int, lq: int, div: int, rem: int, u: int, digit: int, rest: int)
    requires Track(false, lu, lq, div, rem) && u >= 0 && digit < 256 && 0 <= rest < div
    ensures Track(false, u + lu * 256, digit + lq * 256, div, rest)
  {
    assert 256 * ((lq + 1) * div) == (lq * 256 + 256) * div;
    MulMonoInt(digit + lq * 256 + 1, lq * 256 + 256, div);
  }

  lemma MulMonoInt(a: int, b: int, c: int)
    requires a <= b && c >= 0
    ensures a * c <= b * c
  {
  }

  lemma RemainderBound(x: nat, div: nat)
    requires div > 0
    ensures x % div <= x
  {
    assert x == x / div * div + x % div;
    MulMono(0, x / div, div);
  }

  lemma DivisionIdentity(x: nat, div: nat, q: nat, r: nat)
    requires div > 0 && q == x / div && r == x % div
    ensures x == q * div + r && r < div
  {
  }

  lemma ShiftedBound(rem: u64, u: byte)
    ensures Shifted(rem, u) <= rem * 256 + u
  {
    RemainderBound(rem * 256, TWO64);
  }

  lemma DigitBelow(rem: nat, u: byte, div: nat, cur: nat, digit: nat, rest: nat)
    requires rem < div && cur <= rem * 256 + u && cur == digit * div + rest
    ensures digit < 256
  {
    if digit >= 256 { MulMono(256, digit, div); }
  }

  /** The digit always fits a byte. */
  lemma DigitFits(rem: u64, u: byte, div: u64, cur: u64, digit: nat, rest: nat)
    requires rem < div && cur == Shifted(rem, u) && cur == digit * div + rest
    ensures digit < 256
  {
    ShiftedBound(rem, u);
    DigitBelow(rem, u, div, cur, digit, rest);
  }

  ghost predicate ExactDownTo(div: u64, i: nat)
    requires div > 0
  {
    forall j :: i < j <= 32 ==> Little(256, Diff1Bytes()[j..]) % div < TWO56
  }

  lemma FitsIsExact(div: u64)
    requires div > 0
    ensures ExactDownTo(div, 0) <==> Fits(div)
  {
    if ExactDownTo(div, 0) {
      forall k | 0 <= k <= 25 ensures Dividend(k) % div < TWO56 {
        Diff1Tail(26 - k);
        assert Little(256, Diff1Bytes()[26 - k..]) % div < TWO56;
      }
    }
    if Fits(div) {
      forall j | 0 < j <= 32 ensures Little(256, Diff1Bytes()[j..]) % div < TWO56 { TailFits(div, j); }
    }
  }

  lemma TailFits(div: u64, j: nat)
    requires 0 < j <= 32 && div > 0 && Fits(div)
    ensures Little(256, Diff1Bytes()[j..]) % div < TWO56
  {
    Diff1Tail(j);
    if j <= 26 {
      assert Dividend(26 - j) % div < TWO56;
    } else {
      RemainderBound(Little(256, Diff1Bytes()[j..]), div);
    }
  }

  /** One byte of the division. */
  lemma DigitStep(exact: bool, lu: nat, lq: nat, div: u64, rem: u64, u: byte, cur: u64, digit: nat, rest: nat)
    requires Track(exact, lu, lq, div, rem) && cur == Shifted(rem, u)
    requires cur == digit * div + rest && rest < div && digit < 256
    ensures Track(exact && rem < TWO56, u + lu * 256, digit + lq * 256, div, rest)
  {
    if !exact {
      BelowStep(lu, lq, div, rem, u, digit, rest);
    } else if rem < TWO56 {
      ExactStep(lu, lq, div, rem, u, digit, rest);
    } else {
      WrapStep(lu, lq, div, rem, u, cur, digit, rest);
    }
  }

  lemma ExactExtends(div: u64, i: nat, exact: bool, lq: nat, rem: u64)
    requires i < 32 && div > 0 && (exact <==> ExactDownTo(div, i + 1))
    requires Track(exact, Little(256, Diff1Bytes()[i + 1..]), lq, div, rem)
    ensures exact && rem < TWO56 <==> ExactDownTo(div, i)
  {
    var lu := Little(256, Diff1Bytes()[i + 1..]);
    if exact { DivModUnique(lu, div, lq, rem); }
  }

  ghost predicate Dividing(div: u64, i: nat, exact: bool, t: seq<byte>, rem: u64)
    requires i <= 32 && div > 0 && |t| == 32
  {
    && t[..i] == Diff1Bytes()[..i]
    && (exact <==> ExactDownTo(div, i))
    && Track(exact, Little(256, Diff1Bytes()[i..]), Little(256, t[i..]), div, rem)
  }

  lemma DivisionStep(div: u64, i: nat, exact: bool, t: seq<byte>, rem: u64, t': seq<byte>,
                     digit: byte, rest: u64)
    requires i < 32 && div > 0 && |t| == |t'| == 32 && Dividing(div, i + 1, exact, t, rem)
    requires Shifted(rem, t[i]) == digit * div + rest && rest < div && t' == t[i := digit]
    ensures Dividing(div, i, exact && rem < TWO56, t', rest)
  {
    var source := Diff1Bytes();
    var lu, lq := Little(256, source[i + 1..]), Little(256, t[i + 1..]);
    ExactExtends(div, i, exact, lq, rem);
    assert source[..i + 1][i] == source[i] && source[i..][1..] == source[i + 1..];
    assert t'[i..][1..] == t[i + 1..];
    DigitStep(exact, lu, lq, div, rem, t[i], Shifted(rem, t[i]), digit, rest);
    assert t'[..i] == t[..i + 1][..i];
  }

  lemma BelowQuotient(x: nat, div: nat, q: nat)
    requires div > 0 && (q + 1) * div <= x
    ensures q < x / div
  {
    var e := x / div;
    assert x == e * div + x % div;
    if e <= q { MulMono(e + 1, q + 1, div); }
  }

  lemma Conclude(exact: bool, x: nat, q: nat, div: nat, rem: nat)
    requires Track(exact, x, q, div, rem)
    ensures if exact then q == x / div else q < x / div
  {
    if exact { DivModUnique(x, div, q, rem); } else { BelowQuotient(x, div, q); }
  }

  lemma FinalTarget(div: u64, exact: bool, t: seq<byte>, rest: u64)
    requires div > 0 && |t| == 32 && Dividing(div, 0, exact, t, rest)
    ensures if Fits(div) then Little(256, t) == Diff1() / div else Little(256, t) < Diff1() / div
  {
    FitsIsExact(div);
    assert t[0..] == t && Diff1Bytes()[0..] == Diff1Bytes();
    Conclude(exact, Diff1(), Little(256, t), div, rest);
  }

  /** The quotient digit and the remainder of one 64-bit division. */
  method DivideWord(rem: u64, u: byte, div: u64) returns (digit: byte, rest: u64)
    requires rem < div
    ensures Shifted(rem, u) == digit * div + rest && rest < div
  {
    var cur := Shifted(rem, u);
    DivisionIdentity(cur, div, cur / div, cur % div);
    DigitFits(rem, u, div, cur, cur / div, cur % div);
    digit, rest := cur / div % 256, cur % div;
  }

  /** The loop of make_share_target, in place from the top byte down. */
  method DivideInPlace(t: array<byte>, div: u64) returns (ghost exact: bool, ghost rest: u64)
    requires div >= 1 && t.Length == 32 && t[..] == Diff1Bytes()
    modifies t
    ensures Dividing(div, 0, exact, t[..], rest)
  {
    var rem: u64 := 0;
    exact := true;
    assert t[32..] == Diff1Bytes()[32..] == [];
    for i := 32 downto 0
      invariant rem < div && Dividing(div, i, exact, t[..], rem)
    {
      ghost var before := t[..];
      assert before[i] == t[i];
      var digit, r := DivideWord(rem, t[i], div);
      t[i] := digit;
      assert t[..] == before[i := digit];
      DivisionStep(div, i, exact, before, rem, t[..], digit, r);
      exact := exact && rem < TWO56;
      rem := r;
    }
    rest := rem;
  }

  /** make_share_target on the rounded-up difficulty: the exact quotient when no remainder reaches 2^56,
      and a strictly harder target otherwise. */
  method MakeShareTarget(div: u64) returns (target: Bytes32)
    requires div >= 1
    ensures Fits(div) ==> Little(256, target) == Diff1() / div
    ensures !Fits(div) ==> Little(256, target) < Diff1() / div
  {
    var t := new byte[32](i => if i == 26 || i == 27 then 0xff else 0);
    assert t[..] == Diff1Bytes();
    ghost var exact, rest := DivideInPlace(t, div);
    target := t[..];
    FinalTarget(div, exact, target, rest);
  }

  /** A difficulty of 2^63 is one where the 64-bit shift loses bits. */
  lemma LargeDivisorWraps()
    ensures !Fits(0x8000_0000_0000_0000)
  {
    assert Dividend(6) == 0xffff_0000_0000_0000;
    assert Dividend(6) % 0x8000_0000_0000_0000 == 0x7fff_0000_0000_0000;
  }

  // ---- The target's words ----

  /** The 64-bit word of bytes 8j to 8j + 7, little-endian. */
  function WordAt(b: Bytes32, j: nat): nat
    requires j < 4
  {
    Little(256, b[8 * j..8 * j + 8])
  }

  /** The four words, least significant first. */
  function WordsOf(b: Bytes32): seq<nat> { [WordAt(b, 0), WordAt(b, 1), WordAt(b, 2), WordAt(b, 3)] }

  lemma {:induction false} LittleSplit(b: nat, s: seq<nat>, n: nat)
    requires n <= |s|
    ensures Little(b, s) == Little(b, s[..n]) + Little(b, s[n..]) * Pow(b, n)
    decreases n
  {
    if n == 0 {
      assert s[0..] == s;
    } else {
      LittleSplit(b, s[1..], n - 1);
      assert s[1..][..n - 1] == s[..n][1..] && s[1..][n - 1..] == s[n..];
      Distribute(Little(b, s[n..]), Pow(b, n - 1), Little(b, s[..n][1..]), b);
    }
  }

  lemma PeelWord(b: Bytes32, j: nat)
    requires j < 4
    ensures Little(256, b[8 * j..]) == WordAt(b, j) + Little(256, b[8 * (j + 1)..]) * TWO64
    ensures WordAt(b, j) < TWO64
  {
    PowOf256();
    LittleSplit(256, b[8 * j..], 8);
    var w := b[8 * j..8 * j + 8];
    assert b[8 * j..][..8] == w && b[8 * j..][8..] == b[8 * (j + 1)..];
    LittleIsReversedValue(256, w);
    ValueBound(256, Reversed(w));
  }

  /** The four words and the 32 bytes denote the same 256-bit integer. */
  lemma WordsAreBytes(b: Bytes32)
    ensures Little(TWO64, WordsOf(b)) == Little(256, b) && Digits(TWO64, WordsOf(b))
  {
    PeelWord(b, 0);
    PeelWord(b, 1);
    PeelWord(b, 2);
    PeelWord(b, 3);
    assert b[0..] == b && b[32..] == [];
    LittleQuad(TWO64, WordAt(b, 0), WordAt(b, 1), WordAt(b, 2), WordAt(b, 3));
  }

  lemma LittleCompare(s: seq<nat>, t: seq<nat>)
    requires |s| == |t| && Digits(TWO64, s) && Digits(TWO64, t)
    ensures LexLe(Reversed(s), Reversed(t)) <==> Little(TWO64, s) <= Little(TWO64, t)
  {
    LittleIsReversedValue(TWO64, s);
    LittleIsReversedValue(TWO64, t);
    LexIsValueOrder(TWO64, Reversed(s), Reversed(t));
  }

  lemma LexFour(a: nat, b: nat, c: nat, d: nat, p: nat, q: nat, r: nat, s: nat)
    ensures LexLe([a, b, c, d], [p, q, r, s]) <==>
      a < p || (a == p && (b < q || (b == q && (c < r || (c == r && d <= s)))))
  {
    assert [a, b, c, d][1..] == [b, c, d] && [p, q, r, s][1..] == [q, r, s];
    assert [b, c, d][1..] == [c, d] && [q, r, s][1..] == [r, s];
    assert [c, d][1..] == [d] && [r, s][1..] == [s];
    assert LexLe([d], [s]) <==> d <= s;
    assert LexLe([c, d], [r, s]) <==> c < r || (c == r && d <= s);
  }

  lemma QuotientCompare(h: nat, x: nat, div: nat)
    requires div > 0
    ensures h <= x / div <==> h * div <= x
  {
    var q := x / div;
    assert x == q * div + x % div;
    if h <= q { MulMono(h, q, div); } else { MulMono(q + 1, h, div); }
  }
}
