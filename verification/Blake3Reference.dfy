/** The byte-path BLAKE3 over the 92-byte header: the plain form the word path must agree with.
    The quarter-round mix and the 32-bit exclusive or are parameters, so every result holds for
    any mix; what is proved concerns schedule, order and state. */
module Blake3Reference {
  import opened Words
  import opened Radix

  datatype Primitives = Primitives(
    mix: (u32, u32, u32, u32, u32, u32) -> (u32, u32, u32, u32),
    xor: (u32, u32) -> u32)

  type State = s: seq<u32> | |s| == 16 witness [0, 0, 0, 0, 0, 0, 0, 0, 0, 0, 0, 0, 0, 0, 0, 0]
  type Message = m: seq<u32> | |m| == 16 witness [0, 0, 0, 0, 0, 0, 0, 0, 0, 0, 0, 0, 0, 0, 0, 0]
  type Chain = c: seq<u32> | |c| == 8 witness [0, 0, 0, 0, 0, 0, 0, 0]

  const CHUNK_START: u32 := 1
  const CHUNK_END: u32 := 2
  const ROOT: u32 := 8
  const IV: Chain := [0x6A09E667, 0xBB67AE85, 0x3C6EF372, 0xA54FF53A, 0x510E527F, 0x9B05688C, 0x1F83D9AB, 0x5BE0CD19]

  predicate Lanes(a: nat, b: nat, c: nat, d: nat) {
    a < 16 && b < 16 && c < 16 && d < 16 && a != b && a != c && a != d && b != c && b != d && c != d
  }

  /** One mix of four state words with two message words. */
  function G(p: Primitives, v: State, a: nat, b: nat, c: nat, d: nat, mx: u32, my: u32): State
    requires Lanes(a, b, c, d)
  {
    var (a', b', c', d') := p.mix(v[a], v[b], v[c], v[d], mx, my);
    v[a := a'][b := b'][c := c'][d := d']
  }

  /** Four columns, then four diagonals, consuming the message words in order. */
  function Columns(p: Primitives, v: State, m: Message): State {
    var v := G(p, v, 0, 4, 8, 12, m[0], m[1]);
    var v := G(p, v, 1, 5, 9, 13, m[2], m[3]);
    var v := G(p, v, 2, 6, 10, 14, m[4], m[5]);
    G(p, v, 3, 7, 11, 15, m[6], m[7])
  }

  function Diagonals(p: Primitives, v: State, m: Message): State {
    var v := G(p, v, 0, 5, 10, 15, m[8], m[9]);
    var v := G(p, v, 1, 6, 11, 12, m[10], m[11]);
    var v := G(p, v, 2, 7, 8, 13, m[12], m[13]);
    G(p, v, 3, 4, 9, 14, m[14], m[15])
  }

  function Round(p: Primitives, v: State, m: Message): State {
    Diagonals(p, Columns(p, v, m), m)
  }

  /** The first n columns: column i mixes the words i, i + 4, i + 8 and i + 12 with message words 2i and 2i + 1. */
  function ColumnsTo(p: Primitives, v: State, m: Message, n: nat): State
    requires n <= 4
  {
    if n == 0 then v
    else
      var i := n - 1;
      G(p, ColumnsTo(p, v, m, i), i, 4 + i, 8 + i, 12 + i, m[2 * i], m[2 * i + 1])
  }

  /** The first n diagonals: diagonal i starts at word i and moves one column on in each row. */
  function DiagonalsTo(p: Primitives, v: State, m: Message, n: nat): State
    requires n <= 4
  {
    if n == 0 then v
    else
      var i := n - 1;
      G(p, DiagonalsTo(p, v, m, i), i, 4 + (i + 1) % 4, 8 + (i + 2) % 4, 12 + (i + 3) % 4, m[8 + 2 * i], m[9 + 2 * i])
  }

  lemma ColumnsByIndex(p: Primitives, v: State, m: Message)
    ensures Columns(p, v, m) == ColumnsTo(p, v, m, 4)
  {
    assert ColumnsTo(p, v, m, 1) == G(p, v, 0, 4, 8, 12, m[0], m[1]);
    assert ColumnsTo(p, v, m, 2) == G(p, ColumnsTo(p, v, m, 1), 1, 5, 9, 13, m[2], m[3]);
    assert ColumnsTo(p, v, m, 3) == G(p, ColumnsTo(p, v, m, 2), 2, 6, 10, 14, m[4], m[5]);
  }

  lemma DiagonalsByIndex(p: Primitives, v: State, m: Message)
    ensures Diagonals(p, v, m) == DiagonalsTo(p, v, m, 4)
  {
    assert DiagonalsTo(p, v, m, 1) == G(p, v, 0, 5, 10, 15, m[8], m[9]);
    assert DiagonalsTo(p, v, m, 2) == G(p, DiagonalsTo(p, v, m, 1), 1, 6, 11, 12, m[10], m[11]);
    assert DiagonalsTo(p, v, m, 3) == G(p, DiagonalsTo(p, v, m, 2), 2, 7, 8, 13, m[12], m[13]);
  }

  /** A round is its four columns and four diagonals by index. */
  lemma RoundByIndex(p: Primitives, v: State, m: Message)
    ensures Round(p, v, m) == DiagonalsTo(p, ColumnsTo(p, v, m, 4), m, 4)
  {
    ColumnsByIndex(p, v, m);
    DiagonalsByIndex(p, ColumnsTo(p, v, m, 4), m);
  }

  const PRIMES: seq<nat> := [2, 3, 5, 7, 11, 13, 17, 19]

  predicate FractionOfRoot(prime: nat, whole: nat, fraction: u32) {
    var x := whole * TWO32 + fraction;
    x * x <= prime * TWO64 < (x + 1) * (x + 1)
  }

  /** The initial chain holds the first 32 fractional bits of the square roots of the first eight primes. */
  lemma IvFromPrimes(i: nat)
    requires i < 8
    ensures exists whole :: FractionOfRoot(PRIMES[i], whole, IV[i])
  {
    var whole := if i == 0 then 1 else if i == 1 then 1 else if i <= 3 then 2 else if i <= 5 then 3 else 4;
    assert FractionOfRoot(PRIMES[i], whole, IV[i]);
  }

  function Permute(m: Message): Message {
    [m[2], m[6], m[3], m[10], m[7], m[0], m[4], m[13], m[1], m[11], m[12], m[5], m[9], m[14], m[15], m[8]]
  }

  /** The message as permuted before round r. */
  function Scheduled(m: Message, r: nat): Message {
    if r == 0 then m else Permute(Scheduled(m, r - 1))
  }

  /** The state after the first n rounds. */
  function Rounds(p: Primitives, v: State, m: Message, n: nat): State {
    if n == 0 then v else Round(p, Rounds(p, v, m, n - 1), Scheduled(m, n - 1))
  }

  /** A zero block counter is the only one a single-chunk hash uses. */
  function InitialState(cv: Chain, blockLen: u32, flags: u32): State {
    cv + IV[..4] + [0, 0, blockLen, flags]
  }

  /** out[0..8] of a compression: lower half xor upper half. */
  function Output(p: Primitives, v: State): Chain {
    seq<u32>(8, i requires 0 <= i < 8 => p.xor(v[i], v[i + 8]))
  }

  function Compress(p: Primitives, cv: Chain, m: Message, blockLen: u32, flags: u32): Chain {
    Output(p, Rounds(p, InitialState(cv, blockLen, flags), m, 7))
  }

  function WordsFromBlock(block: seq<byte>): Message
    requires |block| == 64
  {
    seq<u32>(16, i requires 0 <= i < 16 => Le32(block, 4 * i))
  }

  /** The eight output words of BLAKE3 over exactly 92 bytes: one chunk, two compressions. */
  function HashWords(p: Primitives, input: seq<byte>): Chain
    requires |input| == 92
  {
    var cv := Compress(p, IV, WordsFromBlock(input[..64]), 64, CHUNK_START);
    Compress(p, cv, WordsFromBlock(input[64..] + Zeros(36)), 28, CHUNK_END + ROOT)
  }

  function StoreWords(h: seq<u32>): (r: seq<byte>)
    ensures |r| == 4 * |h|
  {
    if h == [] then [] else Store32(h[0]) + StoreWords(h[1..])
  }

  function Hash92(p: Primitives, input: seq<byte>): (r: seq<byte>)
    requires |input| == 92
    ensures |r| == 32
  {
    StoreWords(HashWords(p, input))
  }

  datatype Fields = Fields(
    blockNumber: u32, previousHash: Bytes32, timestamp: u64, difficulty: u64, merkleRoot: Bytes32)

  /** The consensus serialization of the header with a given nonce. */
  function Header92(f: Fields, nonce: u64): (r: seq<byte>)
    ensures |r| == 92
  {
    Store32(f.blockNumber) + f.previousHash + Store64(f.timestamp) + Store64(nonce) + Store64(f.difficulty) + f.merkleRoot
  }

  /** build_header92: each field is stored at its own offset of the buffer. */
  method BuildHeader92(header: array<byte>, f: Fields, nonce: u64)
    requires header.Length == 92
    modifies header
    ensures header[..] == Header92(f, nonce)
  {
    StoreAt(header, 0, Store32(f.blockNumber));
    StoreAt(header, 4, f.previousHash);
    StoreAt(header, 36, Store64(f.timestamp));
    StoreAt(header, 44, Store64(nonce));
    StoreAt(header, 52, Store64(f.difficulty));
    StoreAt(header, 60, f.merkleRoot);
    assert header[..92] == header[..];
  }

  method StoreAt(buf: array<byte>, at: nat, data: seq<byte>)
    requires at + |data| <= buf.Length
    modifies buf
    ensures buf[..at + |data|] == old(buf[..at]) + data
    ensures buf[at + |data|..] == old(buf[at + |data|..])
  {
    for i := 0 to |data|
      invariant buf[..at + i] == old(buf[..at]) + data[..i]
      invariant buf[at + i..] == old(buf[at + i..])
    {
      buf[at + i] := data[i];
    }
    assert data[..|data|] == data;
  }
}
