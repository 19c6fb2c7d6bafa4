/** From typed job fields to the share decision: header packing, target words and the kernel's
    per-nonce test, against the byte-path hash and 256-bit integer comparison. */
module AlphaShare {
  import opened Words
  import opened Radix
  import opened Blake3Reference
  import opened Blake3WordPath

  // ---- Header words ----

  function LoadWords(b: Bytes32): Chain {
    seq<u32>(8, i requires 0 <= i < 8 => Le32(b, 4 * i))
  }

  /** alpha_header_words_from_fields: words 11 and 12 carry the nonce and are emitted as zero. */
  function HeaderWords(f: Fields): (w: seq<u32>)
    ensures |w| == 23
  {
    [f.blockNumber] + LoadWords(f.previousHash)
      + [f.timestamp % TWO32, f.timestamp / TWO32, 0, 0, f.difficulty % TWO32, f.difficulty / TWO32]
      + LoadWords(f.merkleRoot)
  }

  lemma LoadInside(pre: seq<byte>, mid: seq<byte>, post: seq<byte>, k: nat)
    requires k + 4 <= |mid|
    ensures Le32(pre + mid + post, |pre| + k) == Le32(mid, k)
  {
  }

  lemma LoadStore64(x: u64)
    ensures Le32(Store64(x), 0) == x % TWO32 && Le32(Store64(x), 4) == x / TWO32
  {
    var lo, hi := Store32(x % TWO32), Store32(x / TWO32);
    StoreLoad32(x % TWO32);
    StoreLoad32(x / TWO32);
    LoadInside([], lo, hi, 0);
    assert [] + lo + hi == lo + hi;
    LoadInside(lo, hi, [], 0);
    assert lo + hi + [] == lo + hi;
  }

  /** The little-endian words of the serialized header that come from integer fields. */
  lemma HeaderLoads(f: Fields, nonce: u64)
    ensures var h := Header92(f, nonce);
            && Le32(h, 0) == f.blockNumber
            && Le32(h, 36) == f.timestamp % TWO32 && Le32(h, 40) == f.timestamp / TWO32
            && Le32(h, 44) == nonce % TWO32 && Le32(h, 48) == nonce / TWO32
            && Le32(h, 52) == f.difficulty % TWO32 && Le32(h, 56) == f.difficulty / TWO32
  {
    var h := Header92(f, nonce);
    StoreLoad32(f.blockNumber);
    LoadStore64(f.timestamp);
    LoadStore64(nonce);
    LoadStore64(f.difficulty);
    assert h[0..4] == Store32(f.blockNumber);
    assert h[36..44] == Store64(f.timestamp);
    assert h[44..52] == Store64(nonce);
    assert h[52..60] == Store64(f.difficulty);
    LoadSlice(h, 0, 4, 0);
    LoadSlice(h, 36, 44, 0);
    LoadSlice(h, 36, 44, 4);
    LoadSlice(h, 44, 52, 0);
    LoadSlice(h, 44, 52, 4);
    LoadSlice(h, 52, 60, 0);
    LoadSlice(h, 52, 60, 4);
  }

  lemma LoadSlice(h: seq<byte>, lo: nat, hi: nat, k: nat)
    requires lo <= hi <= |h| && k + 4 <= hi - lo
    ensures Le32(h, lo + k) == Le32(h[lo..hi], k)
  {
  }

  /** Every word of the serialized header, from the packed fields. */
  lemma HeaderWord(f: Fields, nonce: u64, i: nat)
    requires i < 23
    ensures Le32(Header92(f, nonce), 4 * i) == HeaderWords(f)[11 := nonce % TWO32][12 := nonce / TWO32][i]
  {
    var h, w := Header92(f, nonce), HeaderWords(f);
    if 1 <= i < 9 {
      assert w[i] == LoadWords(f.previousHash)[i - 1] && h[4..36] == f.previousHash;
      LoadSlice(h, 4, 36, 4 * (i - 1));
    } else if 15 <= i {
      assert w[i] == LoadWords(f.merkleRoot)[i - 15] && h[60..92] == f.merkleRoot;
      LoadSlice(h, 60, 92, 4 * (i - 15));
    } else {
      HeaderLoads(f, nonce);
    }
  }

  /** Packing the fields with zero nonce words and injecting the nonce later is the same as loading
      the words of the header serialized with that nonce. */
  lemma HeaderPacking(f: Fields, nonce: u64)
    ensures WordsFromBlock(Header92(f, nonce)[..64]) == WithNonce(HeaderWords(f)[..16], nonce % TWO32, nonce / TWO32)
    ensures WordsFromBlock(Header92(f, nonce)[64..] + Zeros(36)) == Block1(HeaderWords(f)[16..])
  {
    var h, w := Header92(f, nonce), HeaderWords(f);
    forall i | 0 <= i < 16 ensures WordsFromBlock(h[..64])[i] == WithNonce(w[..16], nonce % TWO32, nonce / TWO32)[i] {
      HeaderWord(f, nonce, i);
      LoadSlice(h, 0, 64, 4 * i);
    }
    HeaderTail(f, nonce);
  }

  lemma HeaderTail(f: Fields, nonce: u64)
    ensures WordsFromBlock(Header92(f, nonce)[64..] + Zeros(36)) == Block1(HeaderWords(f)[16..])
  {
    var h, w := Header92(f, nonce), HeaderWords(f);
    var tail := h[64..] + Zeros(36);
    assert tail[0..28] == h[64..92];
    forall i | 0 <= i < 16 ensures WordsFromBlock(tail)[i] == Block1(w[16..])[i] {
      if i < 7 {
        HeaderWord(f, nonce, 16 + i);
        LoadSlice(h, 64, 92, 4 * i);
        LoadSlice(tail, 0, 28, 4 * i);
      }
    }
  }

  /** alpha_header_words_from_fields, filling the words in order. */
  method HeaderWordsFromFields(f: Fields) returns (w: seq<u32>)
    ensures w == HeaderWords(f)
  {
    w := [f.blockNumber];
    for i := 0 to 8
      invariant w == [f.blockNumber] + LoadWords(f.previousHash)[..i]
    {
      w := w + [Le32(f.previousHash, i * 4)];
    }
    w := w + [f.timestamp % TWO32, f.timestamp / TWO32, 0, 0, f.difficulty % TWO32, f.difficulty / TWO32];
    ghost var front := w;
    for i := 0 to 8
      invariant w == front + LoadWords(f.merkleRoot)[..i]
    {
      w := w + [Le32(f.merkleRoot, i * 4)];
    }
  }

  // ---- Comparing a hash with the target ----

  function TargetWords(target: Bytes32): Chain {
    seq<u32>(8, i requires 0 <= i < 8 => Be32(target, 4 * i))
  }

  function Swapped(h: Chain): Chain {
    seq<u32>(8, i requires 0 <= i < 8 => Bswap32(h[i]))
  }

  /** 32 big-endian bytes and their eight big-endian words denote the same 256-bit integer. */
  lemma WordsDenoteBytes(b: Bytes32)
    ensures Value(TWO32, TargetWords(b)) == Value(256, b)
  {
    PowOf256();
    OffsetIsProduct(8, 4);
    var groups := GroupValues(256, 4, b, 8);
    forall i | 0 <= i < 8 ensures groups[i] == TargetWords(b)[i] {
      GroupValuesAt(256, 4, b, 8, i);
      OffsetIsProduct(i, 4);
      Be32IsValue(b, 4 * i);
    }
    assert groups == TargetWords(b);
    ValueOfGroups(256, 4, b, 8);
    assert b[..32] == b;
  }

  lemma {:induction false} StoredWord(h: seq<u32>, i: nat)
    requires i < |h|
    ensures Be32(StoreWords(h), 4 * i) == Bswap32(h[i])
  {
    var p := StoreWords(h);
    if i == 0 {
      assert p[0..4] == Store32(h[0]);
      Be32Slice(p, 0, 4, 0);
    } else {
      StoredWord(h[1..], i - 1);
      assert p[4..|p|] == StoreWords(h[1..]);
      Be32Slice(p, 4, |p|, 4 * (i - 1));
    }
  }

  /** Byte-swapped output words and target words compare as the 256-bit integers they stand for. */
  lemma WordCompareIsIntegerCompare(h: Chain, target: Bytes32)
    ensures LexLe(Swapped(h), TargetWords(target)) <==> Value(256, StoreWords(h)) <= Value(256, target)
  {
    var digest: Bytes32 := StoreWords(h);
    forall i | 0 <= i < 8 ensures Swapped(h)[i] == TargetWords(digest)[i] { StoredWord(h, i); }
    assert Swapped(h) == TargetWords(digest);
    WordsDenoteBytes(digest);
    WordsDenoteBytes(target);
    LexIsValueOrder(TWO32, Swapped(h), TargetWords(target));
  }

  /** alpha_words_le_target_tail: words 1 to 7 after a tie on word 0. */
  method WordsLeTargetTail(h: Chain, target: Chain) returns (le: bool)
    ensures le <==> LexLe(Swapped(h)[1..], target[1..])
  {
    ghost var b: seq<u32> := Swapped(h);
    for i := 1 to 8
      invariant LexLe(b[1..], target[1..]) <==> LexLe(b[i..], target[i..])
    {
      var bi := Bswap32(h[i]);
      assert b[i..][1..] == b[i + 1..] && target[i..][1..] == target[i + 1..];
      if bi < target[i] { return true; }
      if bi > target[i] { return false; }
    }
    return true;
  }

  // ---- The kernel's per-nonce work ----

  /** hash <= target, both read as big-endian 256-bit integers. */
  predicate Meets(digest: Bytes32, target: Bytes32) { Value(256, digest) <= Value(256, target) }

  function ReferenceDigest(p: Primitives, f: Fields, nonce: u64): Bytes32 { Hash92(p, Header92(f, nonce)) }

  /** The word path from prepared job constants is the byte path over the serialized header. */
  lemma WordPathIsBytePath(p: Primitives, f: Fields, nonce: u64, jw: JobPre)
    requires Prepared(p, HeaderWords(f), jw.target, jw)
    ensures var cv := Compress(p, IV, WithNonce(jw.m0, nonce % TWO32, nonce / TWO32), 64, CHUNK_START);
            HashWords(p, Header92(f, nonce)) == Compress(p, cv, Block1(jw.m1), 28, CHUNK_END + ROOT)
  {
    HeaderPacking(f, nonce);
    assert WithNonce(jw.m0, nonce % TWO32, nonce / TWO32) == WithNonce(HeaderWords(f)[..16], nonce % TWO32, nonce / TWO32);
  }

  /** alpha_hash92_words followed by the little-endian stores. */
  method HashOne(p: Primitives, f: Fields, jw: JobPre, nonce: u64) returns (digest: Bytes32)
    requires Prepared(p, HeaderWords(f), jw.target, jw)
    ensures digest == ReferenceDigest(p, f, nonce)
  {
    var h0, v := Hash92Head(p, jw, nonce % TWO32, nonce / TWO32);
    ghost var cv := Compress(p, IV, WithNonce(jw.m0, nonce % TWO32, nonce / TWO32), 64, CHUNK_START);
    var h := Hash92Tail(p, jw, cv, v);
    WordPathIsBytePath(p, f, nonce, jw);
    digest := StoreWords(h);
  }

  /** The head's word is the first word of the completed hash. */
  lemma FirstWordOfOutput(p: Primitives, cv: Chain, m: Message)
    ensures var v := HeadState(p, cv, m);
            Compress(p, cv, m, 28, CHUNK_END + ROOT)[0] == p.xor(v[0], v[8])
  {
    HeadThenTail(p, cv, m);
  }

  /** What the kernel computes for one nonce from the job constants alone: reject on the first word,
      otherwise complete the hash and compare; the stored digest if it passes. */
  function WordTest(p: Primitives, jw: JobPre, nonce: u64): Option<seq<byte>>
    requires |jw.m1| == 7
  {
    var v := WordHead(p, jw, nonce % TWO32, nonce / TWO32);
    var b0 := Bswap32(p.xor(v[0], v[8]));
    if b0 > jw.target[0] then None
    else
      var h := WordTail(p, jw, v);
      if b0 < jw.target[0] || TailLe(h, jw.target) then Some(StoreWords(h)) else None
  }

  /** What alpha_words_le_target_tail decides. */
  predicate TailLe(h: Chain, target: Chain) { LexLe(Swapped(h)[1..], target[1..]) }

  /** The words the test works on are those of the reference hash. */
  lemma WordTestWords(p: Primitives, f: Fields, jw: JobPre, nonce: u64) returns (ref: Chain)
    requires Prepared(p, HeaderWords(f), jw.target, jw)
    ensures var v := WordHead(p, jw, nonce % TWO32, nonce / TWO32);
            p.xor(v[0], v[8]) == ref[0] && WordTail(p, jw, v) == ref
    ensures StoreWords(ref) == ReferenceDigest(p, f, nonce)
  {
    var nl, nh := nonce % TWO32, nonce / TWO32;
    var cv := WordChain(p, jw, nl, nh);
    ref := Compress(p, cv, Block1(jw.m1), 28, CHUNK_END + ROOT);
    WordChainIsCompress(p, jw, nl, nh);
    WordHeadIsHeadState(p, jw, nl, nh);
    WordTailIsCompress(p, jw, cv);
    WordPathIsBytePath(p, f, nonce, jw);
    FirstWordOfOutput(p, cv, Block1(jw.m1));
  }

  /** For every job, nonce and target the word test passes exactly the shares, with their digests. */
  lemma WordTestIsShareTest(p: Primitives, f: Fields, target: Bytes32, jw: JobPre, nonce: u64)
    requires Prepared(p, HeaderWords(f), TargetWords(target), jw)
    ensures var digest := ReferenceDigest(p, f, nonce);
            WordTest(p, jw, nonce) == if Meets(digest, target) then Some(digest) else None
  {
    var ref := WordTestWords(p, f, jw, nonce);
    WordCompareIsIntegerCompare(ref, target);
    assert Bswap32(ref[0]) == Swapped(ref)[0];
  }

  /** The loop body of alpha_scan_kernel for one nonce is that test: it accepts exactly the nonces whose
      byte-path digest meets the target. */
  method TestNonce(p: Primitives, f: Fields, target: Bytes32, jw: JobPre, nonce: u64)
    returns (accepted: bool, digest: seq<byte>)
    requires Prepared(p, HeaderWords(f), TargetWords(target), jw)
    ensures accepted <==> Meets(ReferenceDigest(p, f, nonce), target)
    ensures accepted ==> digest == ReferenceDigest(p, f, nonce)
    ensures WordTest(p, jw, nonce) == if accepted then Some(digest) else None
  {
    var h0, v := Hash92Head(p, jw, nonce % TWO32, nonce / TWO32);
    ghost var cv := Compress(p, IV, WithNonce(jw.m0, nonce % TWO32, nonce / TWO32), 64, CHUNK_START);
    ghost var ref := Compress(p, cv, Block1(jw.m1), 28, CHUNK_END + ROOT);
    WordTestIsShareTest(p, f, target, jw, nonce);
    WordPathIsBytePath(p, f, nonce, jw);
    WordCompareIsIntegerCompare(ref, target);
    FirstWordOfOutput(p, cv, Block1(jw.m1));
    var b0 := Bswap32(h0);
    assert b0 == Swapped(ref)[0];
    if b0 > jw.target[0] {
      return false, [];
    }
    var h := Hash92Tail(p, jw, cv, v);
    var tail := WordsLeTargetTail(h, jw.target);
    accepted := b0 < jw.target[0] || tail;
    digest := StoreWords(h);
  }

  // ---- The host's recheck ----

  /** Comparing bytes from the top agrees with the kernel's comparison. */
  lemma HostRecheckAgrees(digest: Bytes32, target: Bytes32)
    ensures LexLe(digest, target) <==> Meets(digest, target)
  {
    LexIsValueOrder(256, digest, target);
  }

  /** hash_le_target_be, the recheck before submitting. */
  method HashLeTarget(hash: Bytes32, target: Bytes32) returns (le: bool)
    ensures le <==> Meets(hash, target)
  {
    HostRecheckAgrees(hash, target);
    for i := 0 to 32
      invariant LexLe(hash, target) <==> LexLe(hash[i..], target[i..])
    {
      assert hash[i..][1..] == hash[i + 1..] && target[i..][1..] == target[i + 1..];
      if hash[i] < target[i] { return true; }
      if hash[i] > target[i] { return false; }
    }
    return true;
  }
}
