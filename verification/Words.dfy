/** Machine words, byte strings and finite sums shared by every component. */
module Words {
  type byte = x: int | 0 <= x < 0x100
  type u32 = x: int | 0 <= x < 0x1_0000_0000
  type u64 = x: int | 0 <= x < 0x1_0000_0000_0000_0000

  const TWO31: nat := 0x8000_0000
  const TWO32: nat := 0x1_0000_0000
  const TWO56: nat := 0x100_0000_0000_0000
  const TWO64: nat := 0x1_0000_0000_0000_0000

  type Bytes32 = b: seq<byte> | |b| == 32 witness
    [0, 0, 0, 0, 0, 0, 0, 0, 0, 0, 0, 0, 0, 0, 0, 0, 0, 0, 0, 0, 0, 0, 0, 0, 0, 0, 0, 0, 0, 0, 0, 0]

  datatype Option<+T> = None | Some(value: T)

  /** 64-bit nonce arithmetic wraps. */
  function NonceAt(start: u64, offset: nat): u64 { (start + offset) % TWO64 }

  lemma SmallMod(x: nat)
    requires x < TWO32
    ensures x % TWO32 == x
  {
  }

  function Clamp(x: nat, lo: nat, hi: nat): (r: nat)
    requires lo <= hi
    ensures lo <= r <= hi && (lo <= x <= hi ==> r == x)
    ensures (x < lo ==> r == lo) && (x > hi ==> r == hi)
  {
    if x < lo then lo else if x > hi then hi else x
  }

  function Zeros(n: nat): (r: seq<byte>)
    ensures |r| == n
  {
    seq(n, i => 0)
  }

  function Sum(s: seq<int>): int {
    if s == [] then 0 else s[0] + Sum(s[1..])
  }

  lemma {:induction false} SumConcat(a: seq<int>, b: seq<int>)
    ensures Sum(a + b) == Sum(a) + Sum(b)
  {
    if a == [] {
      assert a + b == b;
    } else {
      assert (a + b)[1..] == a[1..] + b;
      SumConcat(a[1..], b);
    }
  }

  lemma SumUpdate(s: seq<int>, i: nat, x: int)
    requires i < |s|
    ensures Sum(s[i := x]) == Sum(s) - s[i] + x
  {
    SumConcat(s[..i], s[i..]);
    SumConcat(s[..i], [x] + s[i + 1..]);
    assert s == s[..i] + s[i..];
    assert s[i := x] == s[..i] + ([x] + s[i + 1..]);
    assert s[i..][1..] == s[i + 1..];
    assert ([x] + s[i + 1..])[1..] == s[i + 1..];
  }

  /** A sum of non-negative terms is non-negative and bounds each of them. */
  lemma {:induction false} SumBounds(s: seq<int>)
    requires forall i :: 0 <= i < |s| ==> s[i] >= 0
    ensures Sum(s) >= 0
    ensures forall i :: 0 <= i < |s| ==> s[i] <= Sum(s)
  {
    if s != [] {
      SumBounds(s[1..]);
      forall i | 0 <= i < |s| ensures s[i] <= Sum(s) {
        if i > 0 { assert s[i] == s[1..][i - 1]; }
      }
    }
  }

  lemma {:induction false} SumPointwise(a: seq<int>, b: seq<int>, c: seq<int>)
    requires |a| == |b| == |c|
    requires forall i :: 0 <= i < |a| ==> a[i] + b[i] == c[i]
    ensures Sum(a) + Sum(b) == Sum(c)
  {
    if a != [] {
      SumPointwise(a[1..], b[1..], c[1..]);
    }
  }

  lemma {:induction false} SumMono(a: seq<int>, b: seq<int>)
    requires |a| == |b| && forall i :: 0 <= i < |a| ==> a[i] <= b[i]
    ensures Sum(a) <= Sum(b)
  {
    if a != [] { SumMono(a[1..], b[1..]); }
  }

  lemma {:induction false} SumZero(s: seq<int>)
    requires forall i :: 0 <= i < |s| ==> s[i] == 0
    ensures Sum(s) == 0
  {
    if s != [] { SumZero(s[1..]); }
  }

  /** g * size, kept as a recursion so that proofs about offsets stay linear. */
  function Offset(g: nat, size: nat): nat {
    if g == 0 then 0 else Offset(g - 1, size) + size
  }

  lemma {:induction false} OffsetIsProduct(g: nat, size: nat)
    ensures Offset(g, size) == g * size
  {
    if g > 0 { OffsetIsProduct(g - 1, size); }
  }

  lemma {:induction false} OffsetMono(g: nat, h: nat, size: nat)
    requires g <= h
    ensures Offset(g, size) <= Offset(h, size)
  {
    if g < h { OffsetMono(g, h - 1, size); }
  }

  /** The g-th block of `size` consecutive elements. */
  function Block(s: seq<int>, size: nat, g: nat): seq<int>
    requires Offset(g, size) + size <= |s|
  {
    s[Offset(g, size)..Offset(g, size) + size]
  }

  /** The sums of the first n blocks. */
  function BlockSums(s: seq<int>, size: nat, n: nat): (r: seq<int>)
    requires Offset(n, size) <= |s|
    ensures |r| == n
  {
    if n == 0 then [] else BlockSums(s, size, n - 1) + [Sum(Block(s, size, n - 1))]
  }

  lemma {:induction false} BlockSumsAt(s: seq<int>, size: nat, n: nat, g: nat)
    requires Offset(n, size) <= |s| && g < n
    ensures Offset(g, size) + size <= |s|
    ensures BlockSums(s, size, n)[g] == Sum(Block(s, size, g))
    decreases n
  {
    if g < n - 1 { BlockSumsAt(s, size, n - 1, g); }
  }

  /** Summing block by block is summing everything. */
  lemma {:induction false} SumOfBlocks(s: seq<int>, size: nat, n: nat)
    requires Offset(n, size) <= |s|
    ensures Sum(BlockSums(s, size, n)) == Sum(s[..Offset(n, size)])
    decreases n
  {
    if n > 0 {
      SumOfBlocks(s, size, n - 1);
      var last := Block(s, size, n - 1);
      SumConcat(BlockSums(s, size, n - 1), [Sum(last)]);
      SumConcat(s[..Offset(n - 1, size)], last);
      assert s[..Offset(n, size)] == s[..Offset(n - 1, size)] + last;
    }
  }

  lemma MulMono(a: nat, b: nat, c: nat)
    requires a <= b
    ensures a * c <= b * c
  {
  }

  lemma DivModUnique(x: nat, d: nat, q: nat, r: nat)
    requires d > 0 && r < d && x == q * d + r
    ensures x / d == q && x % d == r
  {
    var k := x / d;
    assert k * d + x % d == x;
    if k > q {
      MulMono(q + 1, k, d);
    } else if k < q {
      MulMono(k + 1, q, d);
    }
  }
}
