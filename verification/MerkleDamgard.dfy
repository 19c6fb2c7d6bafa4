/** The streaming hash context of md_helper.c in its Whirlpool configuration: 64-byte blocks,
    256-bit big-endian length. The compression function and its state are parameters. */
module MerkleDamgard {
  import opened Words
  import opened Radix

  /** The state after the first n blocks of m. */
  function Fold<S>(f: (seq<byte>, S) -> S, init: S, m: seq<byte>, n: nat): S
    requires 64 * n <= |m|
  {
    if n == 0 then init else f(m[64 * (n - 1)..64 * n], Fold(f, init, m, n - 1))
  }

  lemma {:induction false} FoldPrefix<S>(f: (seq<byte>, S) -> S, init: S, m: seq<byte>, m': seq<byte>, n: nat)
    requires 64 * n <= |m| && 64 * n <= |m'| && m[..64 * n] == m'[..64 * n]
    ensures Fold(f, init, m, n) == Fold(f, init, m', n)
    decreases n
  {
    if n > 0 {
      assert m[..64 * (n - 1)] == m[..64 * n][..64 * (n - 1)] == m'[..64 * (n - 1)];
      assert m[64 * (n - 1)..64 * n] == m[..64 * n][64 * (n - 1)..] == m'[64 * (n - 1)..64 * n];
      FoldPrefix(f, init, m, m', n - 1);
    }
  }

  // ---- Padding ----

  /** sph_enc64be. */
  function Be8(x: u64): (p: seq<byte>)
    ensures |p| == 8
  {
    Be4(x / TWO32) + Be4(x % TWO32)
  }

  /** The 32 bytes stored for a 64-bit byte counter: sixteen zeros, count >> 61, count << 3. */
  function LengthField(count: u64): (p: seq<byte>)
    ensures |p| == 32
  {
    Zeros(16) + Be8(count / 0x2000_0000_0000_0000) + Be8(count * 8 % TWO64)
  }

  /** The 64-bit counter after n bytes. */
  function Counter(n: nat): u64 { n % TWO64 }

  function PadZeros(len: nat): nat { (95 - len % 64) % 64 }

  /** message || 0x80 || zeros || length field of the counter. */
  function Padded(m: seq<byte>): seq<byte> {
    m + [0x80] + Zeros(PadZeros(|m|)) + LengthField(Counter(|m|))
  }

  lemma Position(len: nat, n: nat)
    requires 64 * n <= len < 64 * (n + 1)
    ensures Counter(len) % 64 == len - 64 * n
    ensures PadZeros(len) == if len - 64 * n > 31 then 95 - (len - 64 * n) else 31 - (len - 64 * n)
  {
    assert len % 64 == len - 64 * n;
  }

  lemma CounterAdd(len: nat, k: nat)
    ensures Counter(len + k) == (Counter(len) + k) % TWO64
  {
  }

  /** The padded message ends in one more block than the message fills, or two when the tail exceeds 31 bytes. */
  lemma PaddedSize(m: seq<byte>)
    ensures |Padded(m)| == 64 * (|m| / 64 + if |m| % 64 > 31 then 2 else 1)
  {
    Position(|m|, |m| / 64);
  }

  /** Every block of p. */
  function FoldAll<S>(f: (seq<byte>, S) -> S, init: S, p: seq<byte>): S {
    Fold(f, init, p, |p| / 64)
  }

  function Digest<S>(f: (seq<byte>, S) -> S, init: S, m: seq<byte>): S { FoldAll(f, init, Padded(m)) }

  /** A tail of up to 31 bytes leaves room for the length in its own block. */
  lemma PaddedShort(m: seq<byte>, whole: seq<byte>, tail: seq<byte>)
    requires m == whole + tail && |whole| % 64 == 0 && |tail| <= 31
    ensures Padded(m) == whole + (tail + [0x80] + Zeros(31 - |tail|) + LengthField(Counter(|m|)))
  {
    Position(|m|, |whole| / 64);
    Regroup(whole, tail, [0x80], Zeros(31 - |tail|), LengthField(Counter(|m|)));
  }

  /** A longer one pushes the length into a block of its own. */
  lemma PaddedLong(m: seq<byte>, whole: seq<byte>, tail: seq<byte>)
    requires m == whole + tail && |whole| % 64 == 0 && 31 < |tail| < 64
    ensures Padded(m) == whole + (tail + [0x80] + Zeros(63 - |tail|))
      + (Zeros(32) + LengthField(Counter(|m|)))
  {
    Position(|m|, |whole| / 64);
    ZerosAdd(63 - |tail|, 32);
    RegroupTwo(whole, tail, [0x80], Zeros(63 - |tail|), Zeros(32), LengthField(Counter(|m|)));
  }

  lemma ZerosAdd(a: nat, b: nat)
    ensures Zeros(a + b) == Zeros(a) + Zeros(b)
  {
  }

  lemma Regroup<T>(a: seq<T>, b: seq<T>, c: seq<T>, d: seq<T>, e: seq<T>)
    ensures a + b + c + d + e == a + (b + c + d + e)
  {
  }

  lemma RegroupTwo<T>(a: seq<T>, b: seq<T>, c: seq<T>, z: seq<T>, w: seq<T>, e: seq<T>)
    ensures a + b + c + (z + w) + e == a + (b + c + z) + (w + e)
  {
  }

  /** The compressions left once only a tail is buffered: two when it exceeds 31 bytes, otherwise one. */
  function Finish<S>(f: (seq<byte>, S) -> S, s: S, tail: seq<byte>, field: seq<byte>): S
    requires |tail| < 64
  {
    if |tail| > 31
    then f(Zeros(32) + field, f(tail + [0x80] + Zeros(63 - |tail|), s))
    else f(tail + [0x80] + Zeros(31 - |tail|) + field, s)
  }

  lemma FoldBlock<S>(f: (seq<byte>, S) -> S, init: S, m: seq<byte>, block: seq<byte>, n: nat)
    requires |m| == 64 * n && |block| == 64
    ensures Fold(f, init, m + block, n + 1) == f(block, Fold(f, init, m, n))
  {
    assert (m + block)[64 * n..64 * (n + 1)] == block;
    FoldPrefix(f, init, m, m + block, n);
  }

  lemma FoldLast<S>(f: (seq<byte>, S) -> S, init: S, m: seq<byte>, block: seq<byte>, n: nat)
    requires |m| == 64 * n && |block| == 64
    ensures FoldAll(f, init, m + block) == f(block, Fold(f, init, m, n))
  {
    FoldBlock(f, init, m, block, n);
    assert |m + block| / 64 == n + 1;
  }

  lemma FoldLastTwo<S>(f: (seq<byte>, S) -> S, init: S, m: seq<byte>, b1: seq<byte>, b2: seq<byte>, n: nat)
    requires |m| == 64 * n && |b1| == |b2| == 64
    ensures FoldAll(f, init, m + b1 + b2) == f(b2, f(b1, Fold(f, init, m, n)))
  {
    FoldBlock(f, init, m, b1, n);
    FoldLast(f, init, m + b1, b2, n + 1);
  }

  lemma FinishShort<S>(f: (seq<byte>, S) -> S, init: S, n: nat, whole: seq<byte>, tail: seq<byte>, field: seq<byte>)
    requires |whole| == 64 * n && |tail| <= 31 && |field| == 32
    ensures FoldAll(f, init, whole + (tail + [0x80] + Zeros(31 - |tail|) + field))
         == Finish(f, Fold(f, init, whole, n), tail, field)
  {
    FoldLast(f, init, whole, tail + [0x80] + Zeros(31 - |tail|) + field, n);
  }

  lemma FinishLong<S>(f: (seq<byte>, S) -> S, init: S, n: nat, whole: seq<byte>, tail: seq<byte>, field: seq<byte>)
    requires |whole| == 64 * n && 31 < |tail| < 64 && |field| == 32
    ensures FoldAll(f, init, whole + (tail + [0x80] + Zeros(63 - |tail|)) + (Zeros(32) + field))
         == Finish(f, Fold(f, init, whole, n), tail, field)
  {
    FoldLastTwo(f, init, whole, tail + [0x80] + Zeros(63 - |tail|), Zeros(32) + field, n);
  }

  /** The digest is one or two compressions away from the state after the last whole block. */
  lemma DigestBlocks<S>(f: (seq<byte>, S) -> S, init: S, m: seq<byte>, n: nat, tail: seq<byte>)
    requires 64 * n <= |m| < 64 * (n + 1) && tail == m[64 * n..]
    ensures Digest(f, init, m) == Finish(f, Fold(f, init, m, n), tail, LengthField(Counter(|m|)))
  {
    var whole := m[..64 * n];
    assert m == whole + tail;
    FoldPrefix(f, init, m, whole, n);
    if |tail| > 31 {
      PaddedLong(m, whole, tail);
      FinishLong(f, init, n, whole, tail, LengthField(Counter(|m|)));
    } else {
      PaddedShort(m, whole, tail);
      FinishShort(f, init, n, whole, tail, LengthField(Counter(|m|)));
    }
  }

  // ---- The context ----

  class Context<S> {
    const f: (seq<byte>, S) -> S
    const init: S
    const buf: array<byte>
    var state: S
    var count: u64
    /** Every byte absorbed so far, and how many whole blocks of it have been compressed. */
    ghost var msg: seq<byte>
    ghost var n: nat

    ghost predicate Valid()
      reads this, buf
    {
      && buf.Length == 64
      && count == Counter(|msg|)
      && 64 * n <= |msg| < 64 * (n + 1)
      && buf[..|msg| - 64 * n] == msg[64 * n..]
      && state == Fold(f, init, msg, n)
    }

    constructor (f: (seq<byte>, S) -> S, init: S)
      ensures Valid() && msg == [] && this.f == f && this.init == init
      ensures fresh(buf)
    {
      this.f := f;
      this.init := init;
      buf := new byte[64];
      state := init;
      count := 0;
      msg := [];
      n := 0;
    }

    method Reset()
      requires buf.Length == 64
      modifies this
      ensures Valid() && msg == []
    {
      state := init;
      count := 0;
      msg := [];
      n := 0;
    }

    /** memcpy into the buffer. */
    method Store(at: nat, data: seq<byte>)
      requires at + |data| <= buf.Length
      modifies buf
      ensures buf[..] == old(buf[..at]) + data + old(buf[at + |data|..])
    {
      forall i | 0 <= i < |data| {
        buf[at + i] := data[i];
      }
    }

    /** One pass of the buffered loop: add to the buffer, compress it when full. */
    method AbsorbPiece(piece: seq<byte>)
      requires Valid() && |msg| - 64 * n + |piece| <= 64
      modifies this, buf
      ensures Valid() && msg == old(msg) + piece
    {
      Position(|msg|, n);
      CounterAdd(|msg|, |piece|);
      ghost var before, all := msg[64 * n..], msg + piece;
      FoldPrefix(f, init, msg, all, n);
      var current := count % 64;
      Store(current, piece);
      assert buf[..current + |piece|] == before + piece == all[64 * n..];
      if current + |piece| == 64 {
        CompressBuffer(all[64 * n..64 * (n + 1)]);
        n := n + 1;
      }
      count := (count + |piece|) % TWO64;
      msg := all;
    }

    /** whirlpool_short: everything goes through the buffer. */
    method UpdateShort(data: seq<byte>)
      requires Valid()
      modifies this, buf
      ensures Valid() && msg == old(msg) + data
    {
      var rest := data;
      while |rest| > 0
        invariant Valid() && msg + rest == old(msg) + data
      {
        Position(|msg|, n);
        var clen := 64 - count % 64;
        if clen > |rest| {
          clen := |rest|;
        }
        assert msg + rest == (msg + rest[..clen]) + rest[clen..];
        AbsorbPiece(rest[..clen]);
        rest := rest[clen..];
      }
    }

    /** sph_whirlpool: short inputs through the buffer; long ones top the buffer up, then feed whole
        blocks straight from the data unless it is misaligned, and buffer the remainder. */
    method Update(data: seq<byte>, aligned: bool)
      requires Valid()
      modifies this, buf
      ensures Valid() && msg == old(msg) + data
    {
      if |data| < 128 {
        UpdateShort(data);
        return;
      }
      var rest := TopUp(data);
      if !aligned {
        UpdateShort(rest);
      } else {
        DirectBlocks(rest);
      }
    }

    static lemma TakeDrop(a: seq<byte>, b: seq<byte>, t: nat)
      requires t <= |b|
      ensures (a + b[..t]) + b[t..] == a + b
    {
    }

    /** Complete a partly filled buffer so that the rest starts on a block boundary. */
    method TopUp(data: seq<byte>) returns (rest: seq<byte>)
      requires Valid() && |data| >= 128
      modifies this, buf
      ensures Valid() && |msg| == 64 * n && msg + rest == old(msg) + data
    {
      Position(|msg|, n);
      rest := data;
      var current := count % 64;
      if current > 0 {
        var t := 64 - current;
        ghost var full := n + 1;
        UpdateShort(data[..t]);
        rest := data[t..];
        assert |msg| == 64 * full && n == full;
        TakeDrop(old(msg), data, t);
      }
    }

    /** The block-direct loop, entered with an empty buffer: whole blocks skip the buffer. */
    method DirectBlocks(data: seq<byte>)
      requires Valid() && |msg| == 64 * n
      modifies this, buf
      ensures Valid() && msg == old(msg) + data
    {
      ghost var all := msg + data;
      CounterAdd(|msg|, |data|);
      var rest, j := CompressBlocks(data, all);
      Store(0, rest);
      count := (count + |data|) % TWO64;
      msg := all;
      n := n + j;
      assert all[64 * n..] == rest;
    }

    method CompressBlocks(data: seq<byte>, ghost all: seq<byte>) returns (rest: seq<byte>, ghost j: nat)
      requires Valid() && |msg| == 64 * n && all == msg + data
      modifies `state
      ensures 64 * j <= |data| < 64 * (j + 1) && rest == data[64 * j..]
      ensures state == Fold(f, init, all, n + j)
    {
      FoldPrefix(f, init, msg, all, n);
      rest, j := data, 0;
      while |rest| >= 64
        invariant 64 * j <= |data| && rest == data[64 * j..]
        invariant state == Fold(f, init, all, n + j)
      {
        assert rest[..64] == all[64 * (n + j)..64 * (n + j + 1)];
        state := f(rest[..64], state);
        rest := rest[64..];
        j := j + 1;
      }
    }

    /** whirlpool_close: pad, store the length, compress, and re-initialise. */
    method Close() returns (digest: S)
      requires Valid()
      modifies this, buf
      ensures digest == Digest(f, init, old(msg))
      ensures Valid() && msg == []
    {
      Position(|msg|, n);
      DigestBlocks(f, init, msg, n, msg[64 * n..]);
      digest := PadAndCompress(msg[64 * n..]);
      Reset();
    }

    /** addbits_and_close: the 0x80 byte, zeros up to the length field, an extra block if it does not fit. */
    method PadAndCompress(ghost tail: seq<byte>) returns (digest: S)
      requires buf.Length == 64 && |tail| == count % 64 && buf[..|tail|] == tail
      modifies `state, buf
      ensures digest == Finish(f, old(state), tail, LengthField(count))
    {
      ghost var field := LengthField(count);
      var current := count % 64;
      Store(current, [0x80]);
      current := current + 1;
      if current > 32 {
        Store(current, Zeros(64 - current));
        CompressBuffer(tail + [0x80] + Zeros(63 - |tail|));
        Store(0, Zeros(32));
        Store(32, LengthField(count));
        CompressBuffer(Zeros(32) + field);
      } else {
        Store(current, Zeros(32 - current));
        Store(32, LengthField(count));
        CompressBuffer(tail + [0x80] + Zeros(31 - |tail|) + field);
      }
      digest := state;
    }

    method CompressBuffer(ghost block: seq<byte>)
      requires buf[..] == block
      modifies `state
      ensures state == f(block, old(state))
    {
      state := f(buf[..], state);
    }
  }

  /** The message a list of update calls delivers. */
  function Joined(calls: seq<(seq<byte>, bool)>): seq<byte> {
    if calls == [] then [] else Joined(calls[..|calls| - 1]) + calls[|calls| - 1].0
  }

  /** Open a context, make the given update calls (each with its own alignment), close: only the joined
      bytes matter, and the context is ready for the next message. */
  method HashChunks<S>(c: Context<S>, calls: seq<(seq<byte>, bool)>) returns (digest: S)
    requires c.Valid() && c.msg == []
    modifies c, c.buf
    ensures digest == Digest(c.f, c.init, Joined(calls))
    ensures c.Valid() && c.msg == []
  {
    for i := 0 to |calls|
      invariant c.Valid() && c.msg == Joined(calls[..i])
    {
      assert calls[..i + 1][..i] == calls[..i];
      c.Update(calls[i].0, calls[i].1);
    }
    assert calls[..|calls|] == calls;
    digest := c.Close();
  }

  // ---- What the length field says ----

  lemma Be8Value(x: u64)
    ensures Value(256, Be8(x)) == x
  {
    Be4Value(x / TWO32);
    Be4Value(x % TWO32);
    ValueConcat(256, Be4(x / TWO32), Be4(x % TWO32));
    PowOf256();
  }

  lemma FieldValue(c: u64)
    ensures Value(256, LengthField(c)) == 8 * c
  {
    PairValue(c / 0x2000_0000_0000_0000, c * 8 % TWO64);
    BitCount(c);
  }

  lemma BitCount(c: u64)
    ensures c / 0x2000_0000_0000_0000 * TWO64 + c * 8 % TWO64 == 8 * c
  {
  }

  lemma PairValue(hi: u64, lo: u64)
    ensures Value(256, Zeros(16) + Be8(hi) + Be8(lo)) == hi * TWO64 + lo
  {
    var z, h, l := Zeros(16), Be8(hi), Be8(lo);
    AllZeros(256, z);
    Be8Value(hi);
    Be8Value(lo);
    PowOf256();
    ValueConcat(256, z, h);
    assert Value(256, z + h) == hi;
    ValueConcat(256, z + h, l);
  }

  /** The field is the exact bit length of every message below 2^64 bytes, and of no longer one. */
  lemma LengthFieldValue(n: nat)
    ensures Value(256, LengthField(Counter(n))) == 8 * n <==> n < TWO64
  {
    FieldValue(Counter(n));
  }

  // ---- The 80-byte block header ----

  /** The second block of an 80-byte message: 16 bytes of it, the padding bit, and 640 in the last bytes. */
  function EightyByteTail(m: seq<byte>): (b: seq<byte>)
    requires |m| == 80
    ensures |b| == 64
  {
    m[64..] + [0x80] + Zeros(45) + [2, 0x80]
  }

  lemma EightyByteLength()
    ensures LengthField(80) == Zeros(30) + [2, 0x80]
  {
    assert Be8(0) == Zeros(8);
    assert Be8(640) == Zeros(6) + [2, 0x80];
  }

  /** An 80-byte message takes exactly two compressions, the second over its padded tail. */
  lemma EightyByteDigest<S>(f: (seq<byte>, S) -> S, init: S, m: seq<byte>)
    requires |m| == 80
    ensures Digest(f, init, m) == f(EightyByteTail(m), f(m[..64], init))
  {
    var tail := m[64..];
    DigestBlocks(f, init, m, 1, tail);
    EightyByteLength();
    assert Zeros(15) + (Zeros(30) + [2, 0x80]) == Zeros(45) + [2, 0x80];
    assert tail + [0x80] + Zeros(15) + LengthField(80) == EightyByteTail(m);
    assert Fold(f, init, m, 1) == f(m[0..64], Fold(f, init, m, 0));
    assert m[0..64] == m[..64];
  }
}
