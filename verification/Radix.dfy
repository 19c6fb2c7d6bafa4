/** Positional numerals: big-endian values of digit strings, and the byte/word encodings built on them. */
module Radix {
  import opened Words

  function Pow(b: nat, e: nat): (r: nat) {
    if e == 0 then 1 else Pow(b, e - 1) * b
  }

  lemma {:induction false} PowPositive(b: nat, e: nat)
    requires b > 0
    ensures Pow(b, e) > 0
  {
    if e > 0 { PowPositive(b, e - 1); }
  }

  lemma MulAssoc(x: nat, y: nat, z: nat)
    ensures x * (y * z) == x * y * z
  {
  }

  lemma {:induction false} PowAdd(b: nat, e: nat, f: nat)
    ensures Pow(b, e + f) == Pow(b, e) * Pow(b, f)
  {
    if f > 0 {
      PowAdd(b, e, f - 1);
      MulAssoc(Pow(b, e), Pow(b, f - 1), b);
      assert Pow(b, e + f) == Pow(b, e + (f - 1)) * b;
    }
  }

  /** Big-endian value: the first digit is the most significant. */
  function Value(b: nat, s: seq<nat>): nat {
    if s == [] then 0 else Value(b, s[..|s| - 1]) * b + s[|s| - 1]
  }

  predicate Digits(b: nat, s: seq<nat>) { forall i :: 0 <= i < |s| ==> s[i] < b }

  lemma {:induction false} ValueConcat(b: nat, s: seq<nat>, t: seq<nat>)
    ensures Value(b, s + t) == Value(b, s) * Pow(b, |t|) + Value(b, t)
    decreases |t|
  {
    if t == [] {
      assert s + t == s;
    } else {
      var t' := t[..|t| - 1];
      ValueConcat(b, s, t');
      assert (s + t)[..|s + t| - 1] == s + t';
      Distribute(Value(b, s), Pow(b, |t'|), Value(b, t'), b);
    }
  }

  lemma Distribute(x: nat, p: nat, y: nat, b: nat)
    ensures (x * p + y) * b == x * (p * b) + y * b
  {
    assert x * (p * b) == x * p * b;
  }

  lemma {:induction false} ValueBound(b: nat, s: seq<nat>)
    requires b > 0 && Digits(b, s)
    ensures Value(b, s) < Pow(b, |s|)
    decreases |s|
  {
    if s != [] {
      ValueBound(b, s[..|s| - 1]);
      MulMono(Value(b, s[..|s| - 1]) + 1, Pow(b, |s| - 1), b);
    }
  }

  lemma ValueOne(b: nat, d: nat)
    ensures Value(b, [d]) == d
  {
    assert [d][..0] == [];
  }

  /** The word-by-word test the kernels use: the first differing digit decides. */
  predicate LexLe(s: seq<nat>, t: seq<nat>)
    requires |s| == |t|
  {
    s == [] || s[0] < t[0] || (s[0] == t[0] && LexLe(s[1..], t[1..]))
  }

  lemma ValueHead(b: nat, s: seq<nat>)
    requires s != []
    ensures Value(b, s) == s[0] * Pow(b, |s| - 1) + Value(b, s[1..])
  {
    ValueConcat(b, [s[0]], s[1..]);
    ValueOne(b, s[0]);
    assert [s[0]] + s[1..] == s;
  }

  lemma LeadingDigitDecides(x: nat, y: nat, p: nat, u: nat, w: nat)
    requires x < y && u < p
    ensures x * p + u < y * p + w
  {
    MulMono(x + 1, y, p);
  }

  /** Lexicographic order on equally long digit strings is the order of the numbers they denote. */
  lemma {:induction false} LexIsValueOrder(b: nat, s: seq<nat>, t: seq<nat>)
    requires b > 0 && |s| == |t| && Digits(b, s) && Digits(b, t)
    ensures LexLe(s, t) <==> Value(b, s) <= Value(b, t)
    decreases |s|
  {
    if s != [] {
      var s', t', p := s[1..], t[1..], Pow(b, |s| - 1);
      LexIsValueOrder(b, s', t');
      ValueHead(b, s);
      ValueHead(b, t);
      ValueBound(b, s');
      ValueBound(b, t');
      if s[0] < t[0] {
        LeadingDigitDecides(s[0], t[0], p, Value(b, s'), Value(b, t'));
      } else if t[0] < s[0] {
        LeadingDigitDecides(t[0], s[0], p, Value(b, t'), Value(b, s'));
      }
    }
  }

  lemma ValueSplit(b: nat, s: seq<nat>, i: nat)
    requires i < |s|
    ensures Value(b, s) == (Value(b, s[..i]) * b + s[i]) * Pow(b, |s| - i - 1) + Value(b, s[i + 1..])
  {
    ValueConcat(b, s[..i + 1], s[i + 1..]);
    assert s == s[..i + 1] + s[i + 1..];
    assert s[..i + 1][..i] == s[..i];
  }

  /** Two equally long numerals whose first difference is at i. */
  lemma FirstDifference(b: nat, s: seq<nat>, t: seq<nat>, i: nat)
    requires b > 0 && |s| == |t| && Digits(b, s) && Digits(b, t)
    requires i < |s| && s[..i] == t[..i] && s[i] < t[i]
    ensures Value(b, s) < Value(b, t)
  {
    ValueSplit(b, s, i);
    ValueSplit(b, t, i);
    var vs, vt, p := Value(b, s[i + 1..]), Value(b, t[i + 1..]), Pow(b, |s| - i - 1);
    assert vs < p by { ValueBound(b, s[i + 1..]); }
    var u := Value(b, s[..i]) * b;
    LeadingDigitDecides(u + s[i], u + t[i], p, vs, vt);
  }

  /** Equally long numerals of the same value are the same digits. */
  lemma {:induction false} ValueInjective(b: nat, s: seq<nat>, t: seq<nat>)
    requires b > 0 && |s| == |t| && Digits(b, s) && Digits(b, t) && Value(b, s) == Value(b, t)
    ensures s == t
  {
    if s != [] {
      var s', t' := s[..|s| - 1], t[..|t| - 1];
      SameDivision(Value(b, s'), s[|s| - 1], Value(b, t'), t[|t| - 1], b);
      ValueInjective(b, s', t');
      assert s == s' + [s[|s| - 1]] && t == t' + [t[|t| - 1]];
    }
  }

  lemma SameDivision(q: nat, r: nat, q': nat, r': nat, b: nat)
    requires r < b && r' < b && q * b + r == q' * b + r'
    ensures q == q' && r == r'
  {
    DivModUnique(q * b + r, b, q, r);
    DivModUnique(q * b + r, b, q', r');
  }

  /** n digits, all the largest one. */
  lemma {:induction false} AllOnes(b: nat, s: seq<nat>)
    requires b > 0 && forall i :: 0 <= i < |s| ==> s[i] == b - 1
    ensures Value(b, s) == Pow(b, |s|) - 1
  {
    if s != [] {
      AllOnes(b, s[..|s| - 1]);
      assert (Pow(b, |s| - 1) - 1) * b + (b - 1) == Pow(b, |s| - 1) * b - 1;
    }
  }

  lemma {:induction false} AllZeros(b: nat, s: seq<nat>)
    requires forall i :: 0 <= i < |s| ==> s[i] == 0
    ensures Value(b, s) == 0
  {
    if s != [] { AllZeros(b, s[..|s| - 1]); }
  }

  // ---- Little-endian limbs ----

  /** Little-endian value: the first digit is the least significant. */
  function Little(b: nat, s: seq<nat>): nat {
    if s == [] then 0 else s[0] + Little(b, s[1..]) * b
  }

  function Reversed(s: seq<nat>): (r: seq<nat>)
    ensures |r| == |s|
    ensures forall i :: 0 <= i < |s| ==> r[i] == s[|s| - 1 - i]
  {
    seq(|s|, i requires 0 <= i < |s| => s[|s| - 1 - i])
  }

  lemma {:induction false} LittleIsReversedValue(b: nat, s: seq<nat>)
    ensures Little(b, s) == Value(b, Reversed(s))
  {
    if s != [] {
      LittleIsReversedValue(b, s[1..]);
      assert Reversed(s)[..|s| - 1] == Reversed(s[1..]);
    }
  }

  lemma {:induction false} LittleAppend(b: nat, s: seq<nat>, d: nat)
    ensures Little(b, s + [d]) == Little(b, s) + d * Pow(b, |s|)
  {
    if s == [] {
      assert [d][1..] == [];
    } else {
      LittleAppend(b, s[1..], d);
      assert (s + [d])[1..] == s[1..] + [d];
      Distribute(d, Pow(b, |s| - 1), Little(b, s[1..]), b);
    }
  }

  /** The values of the first k groups of n digits. */
  function GroupValues(b: nat, n: nat, digits: seq<nat>, k: nat): (r: seq<nat>)
    requires Offset(k, n) <= |digits|
    ensures |r| == k
  {
    if k == 0 then []
    else GroupValues(b, n, digits, k - 1) + [Value(b, digits[Offset(k - 1, n)..Offset(k, n)])]
  }

  lemma {:induction false} GroupValuesAt(b: nat, n: nat, digits: seq<nat>, k: nat, g: nat)
    requires Offset(k, n) <= |digits| && g < k
    ensures Offset(g, n) + n <= |digits|
    ensures GroupValues(b, n, digits, k)[g] == Value(b, digits[Offset(g, n)..Offset(g, n) + n])
    decreases k
  {
    if g < k - 1 { GroupValuesAt(b, n, digits, k - 1, g); }
  }

  lemma JoinGroup(b: nat, base: nat, values: seq<nat>, head: seq<nat>, last: seq<nat>)
    requires base == Pow(b, |last|) && Value(base, values) == Value(b, head)
    ensures Value(base, values + [Value(b, last)]) == Value(b, head + last)
  {
    ValueConcat(b, head, last);
    ValueAppend(base, values, Value(b, last));
  }

  lemma GroupsGrow(b: nat, n: nat, digits: seq<nat>, k: nat, head: seq<nat>, last: seq<nat>)
    requires k > 0 && Offset(k, n) <= |digits|
    requires head == digits[..Offset(k - 1, n)] && last == digits[Offset(k - 1, n)..Offset(k, n)]
    ensures |last| == n && digits[..Offset(k, n)] == head + last
    ensures GroupValues(b, n, digits, k) == GroupValues(b, n, digits, k - 1) + [Value(b, last)]
  {
  }

  /** Reading a numeral in groups of n digits does not change its value. */
  lemma {:induction false} ValueOfGroups(b: nat, n: nat, digits: seq<nat>, k: nat)
    requires Offset(k, n) <= |digits|
    ensures Value(Pow(b, n), GroupValues(b, n, digits, k)) == Value(b, digits[..Offset(k, n)])
    decreases k
  {
    if k > 0 {
      var head, last := digits[..Offset(k - 1, n)], digits[Offset(k - 1, n)..Offset(k, n)];
      ValueOfGroups(b, n, digits, k - 1);
      GroupsGrow(b, n, digits, k, head, last);
      JoinGroup(b, Pow(b, n), GroupValues(b, n, digits, k - 1), head, last);
    }
  }

  lemma ValueAppend(b: nat, s: seq<nat>, d: nat)
    ensures Value(b, s + [d]) == Value(b, s) * b + d
  {
    assert (s + [d])[..|s|] == s;
  }

  lemma PowOf256()
    ensures Pow(256, 4) == TWO32 && Pow(256, 8) == TWO64
  {
    assert Pow(256, 1) == Pow(256, 0) * 256 == 256;
    assert Pow(256, 2) == Pow(256, 1) * 256;
    PowAdd(256, 2, 2);
    PowAdd(256, 4, 4);
  }

  // ---- Encodings ----

  function Be32(p: seq<byte>, at: nat): (w: u32)
    requires at + 4 <= |p|
  {
    (p[at] as int) * 0x100_0000 + (p[at + 1] as int) * 0x1_0000 + (p[at + 2] as int) * 0x100 + p[at + 3]
  }

  function Le32(p: seq<byte>, at: nat): (w: u32)
    requires at + 4 <= |p|
  {
    (p[at] as int) + (p[at + 1] as int) * 0x100 + (p[at + 2] as int) * 0x1_0000 + (p[at + 3] as int) * 0x100_0000
  }

  /** store32_le. */
  function Store32(x: u32): (p: seq<byte>)
    ensures |p| == 4
  {
    [x % 0x100, x / 0x100 % 0x100, x / 0x1_0000 % 0x100, x / 0x100_0000]
  }

  /** store64_le. */
  function Store64(x: u64): (p: seq<byte>)
    ensures |p| == 8
  {
    Store32(x % TWO32) + Store32(x / TWO32)
  }

  lemma StoreLoad32(x: u32)
    ensures Le32(Store32(x), 0) == x
  {
    var p := Store32(x);
    var y := x / 0x100;
    var z := x / 0x1_0000;
    assert z == y / 0x100;
    assert x / 0x100_0000 == z / 0x100;
  }

  lemma LittleQuad(b: nat, w: nat, x: nat, y: nat, z: nat)
    ensures Little(b, [w, x, y, z]) == w + (x + (y + z * b) * b) * b
  {
    assert [w, x, y, z][1..] == [x, y, z] && [x, y, z][1..] == [y, z] && [y, z][1..] == [z] && [z][1..] == [];
    assert Little(b, [y, z]) == y + Little(b, [z]) * b && Little(b, [z]) == z;
  }

  /** Loading four bytes reads the little-endian number they denote. */
  lemma Le32IsLittle(p: seq<byte>, at: nat)
    requires at + 4 <= |p|
    ensures Le32(p, at) == Little(256, p[at..at + 4])
  {
    assert p[at..at + 4] == [p[at], p[at + 1], p[at + 2], p[at + 3]];
    LittleQuad(256, p[at], p[at + 1], p[at + 2], p[at + 3]);
  }

  /** Storing a word writes the little-endian bytes that denote it. */
  lemma StoredNumber32(x: u32)
    ensures Little(256, Store32(x)) == x
  {
    StoreLoad32(x);
    Le32IsLittle(Store32(x), 0);
    assert Store32(x)[0..4] == Store32(x);
  }

  lemma {:induction false} LittleConcat(b: nat, s: seq<nat>, t: seq<nat>)
    ensures Little(b, s + t) == Little(b, s) + Little(b, t) * Pow(b, |s|)
  {
    if s == [] {
      assert s + t == t;
    } else {
      assert (s + t)[1..] == s[1..] + t;
      LittleConcat(b, s[1..], t);
      Distribute(Little(b, t), Pow(b, |s| - 1), Little(b, s[1..]), b);
    }
  }

  lemma StoredNumber64(x: u64)
    ensures Little(256, Store64(x)) == x
  {
    var lo, hi := x % TWO32, x / TWO32;
    StoredNumber32(lo);
    StoredNumber32(hi);
    LittleConcat(256, Store32(lo), Store32(hi));
    PowOf256();
  }

  function Bswap32(x: u32): (r: u32) { Be32(Store32(x), 0) }

  lemma Be32IsValue(p: seq<byte>, at: nat)
    requires at + 4 <= |p|
    ensures Be32(p, at) == Value(256, p[at..at + 4])
  {
    var q := p[at..at + 4];
    assert q[..3] == [p[at], p[at + 1], p[at + 2]];
    assert q[..3][..2] == [p[at], p[at + 1]];
    assert q[..3][..2][..1] == [p[at]];
    ValueOne(256, p[at]);
    assert Value(256, q[..3][..2]) == Value(256, q[..3][..2][..1]) * 256 + p[at + 1];
    assert Value(256, q[..3]) == Value(256, q[..3][..2]) * 256 + p[at + 2];
  }

  /** The four big-endian bytes of a word. */
  function Be4(w: u32): (p: seq<byte>)
    ensures |p| == 4
  {
    [w / 0x100_0000, w / 0x1_0000 % 0x100, w / 0x100 % 0x100, w % 0x100]
  }

  lemma Be32Slice(p: seq<byte>, lo: nat, hi: nat, k: nat)
    requires lo <= hi <= |p| && k + 4 <= hi - lo
    ensures Be32(p, lo + k) == Be32(p[lo..hi], k)
  {
  }

  lemma Be4Loads(w: u32)
    ensures Be32(Be4(w), 0) == w
  {
    assert w / 0x1_0000 == w / 0x100 / 0x100 && w / 0x100_0000 == w / 0x1_0000 / 0x100;
  }

  lemma Be4Value(w: u32)
    ensures Value(256, Be4(w)) == w
  {
    Be4Loads(w);
    Be32IsValue(Be4(w), 0);
    assert Be4(w)[0..4] == Be4(w);
  }
}
