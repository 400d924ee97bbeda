/** Streaming MD5 (src/core/Md5.cpp) against the definition in section 3 of RFC 1321. */
module Md5 {

  import opened HexDigits

  type Octet = bv8
  type Word = bv32

  /** The four chaining variables. */
  datatype Chain = Chain(a: Word, b: Word, c: Word, d: Word)

  const INITIAL: Chain := Chain(0x67452301, 0xefcdab89, 0x98badcfe, 0x10325476)

  /** The rotation of each operation: four amounts per round. */
  function Shift(i: nat): (n: bv6)
    ensures n <= 32
  {
    var k := i % 4;
    if i < 16 then (if k == 0 then 7 else if k == 1 then 12 else if k == 2 then 17 else 22)
    else if i < 32 then (if k == 0 then 5 else if k == 1 then 9 else if k == 2 then 14 else 20)
    else if i < 48 then (if k == 0 then 4 else if k == 1 then 11 else if k == 2 then 16 else 23)
    else (if k == 0 then 6 else if k == 1 then 10 else if k == 2 then 15 else 21)
  }

  /** The sine table, one row for each round. */
  const TABLE: seq<seq<Word>> := [
    [0xd76aa478, 0xe8c7b756, 0x242070db, 0xc1bdceee, 0xf57c0faf, 0x4787c62a, 0xa8304613, 0xfd469501,
     0x698098d8, 0x8b44f7af, 0xffff5bb1, 0x895cd7be, 0x6b901122, 0xfd987193, 0xa679438e, 0x49b40821],
    [0xf61e2562, 0xc040b340, 0x265e5a51, 0xe9b6c7aa, 0xd62f105d, 0x02441453, 0xd8a1e681, 0xe7d3fbc8,
     0x21e1cde6, 0xc33707d6, 0xf4d50d87, 0x455a14ed, 0xa9e3e905, 0xfcefa3f8, 0x676f02d9, 0x8d2a4c8a],
    [0xfffa3942, 0x8771f681, 0x6d9d6122, 0xfde5380c, 0xa4beea44, 0x4bdecfa9, 0xf6bb4b60, 0xbebfbc70,
     0x289b7ec6, 0xeaa127fa, 0xd4ef3085, 0x04881d05, 0xd9d4d039, 0xe6db99e5, 0x1fa27cf8, 0xc4ac5665],
    [0xf4292244, 0x432aff97, 0xab9423a7, 0xfc93a039, 0x655b59c3, 0x8f0ccc92, 0xffeff47d, 0x85845dd1,
     0x6fa87e4f, 0xfe2ce6e0, 0xa3014314, 0x4e0811a1, 0xf7537e82, 0xbd3af235, 0x2ad7d2bb, 0xeb86d391]]

  function Sine(i: nat): Word
    requires i < 64
  {
    TABLE[i / 16][i % 16]
  }

  function Rotl(x: Word, n: bv6): Word
    requires n <= 32
  {
    (x << n) | (x >> (32 - n))
  }

  function WordAt(block: seq<Octet>, i: nat): Word
    requires |block| == 64 && i < 16
  {
    (block[4 * i] as Word) | (block[4 * i + 1] as Word << 8) |
    (block[4 * i + 2] as Word << 16) | (block[4 * i + 3] as Word << 24)
  }

  // ----- The definition: section 3.4, with the operand roles rotating

  function F(x: Word, y: Word, z: Word): Word { (x & y) | (!x & z) }
  function G(x: Word, y: Word, z: Word): Word { (x & z) | (y & !z) }
  function H(x: Word, y: Word, z: Word): Word { x ^ y ^ z }
  function I(x: Word, y: Word, z: Word): Word { y ^ (x | !z) }

  /** The message word each operation uses: the four rounds start at words 0, 1, 5
      and 0 and step by 1, 5, 3 and 7, modulo 16. */
  function Order(i: nat): (k: nat)
    ensures k < 16
  {
    if i == 0 || i == 48 then 0
    else if i == 16 then 1
    else if i == 32 then 5
    else (Order(i - 1) + if i < 16 then 1 else if i < 32 then 5 else if i < 48 then 3 else 7) % 16
  }

  function RoundFunction(i: nat, b: Word, c: Word, d: Word): Word {
    if i < 16 then F(b, c, d) else if i < 32 then G(b, c, d) else if i < 48 then H(b, c, d) else I(b, c, d)
  }

  function Mixed(a: Word, b: Word, f: Word, x: Word, t: Word, n: bv6): Word
    requires n <= 32
  {
    b + Rotl(a + f + t + x, n)
  }

  /** One operation `[abcd k s i]`: the new value of its first operand. */
  function Operation(block: seq<Octet>, i: nat, a: Word, b: Word, c: Word, d: Word): Word
    requires |block| == 64 && i < 64
  {
    Mixed(a, b, RoundFunction(i, b, c, d), WordAt(block, Order(i)), Sine(i), Shift(i))
  }

  /** The registers A, B, C, D after the first `n` operations: they run through
      `ABCD`, `DABC`, `CDAB`, `BCDA` in turn, each writing its first operand. */
  function Registers(block: seq<Octet>, s: Chain, n: nat): Chain
    requires |block| == 64 && n <= 64
  {
    if n == 0 then s
    else
      var r := Registers(block, s, n - 1);
      match (n - 1) % 4
      case 0 => r.(a := Operation(block, n - 1, r.a, r.b, r.c, r.d))
      case 1 => r.(d := Operation(block, n - 1, r.d, r.a, r.b, r.c))
      case 2 => r.(c := Operation(block, n - 1, r.c, r.d, r.a, r.b))
      case _ => r.(b := Operation(block, n - 1, r.b, r.c, r.d, r.a))
  }

  function Added(s: Chain, r: Chain): Chain {
    Chain(s.a + r.a, s.b + r.b, s.c + r.c, s.d + r.d)
  }

  /** The digest of one block: the registers after 64 operations, added in. */
  function Compress(s: Chain, block: seq<Octet>): Chain
    requires |block| == 64
  {
    Added(s, Registers(block, s, 64))
  }

  /** The chaining variables after all whole blocks of a message. */
  function Fold(m: seq<Octet>): Chain
    requires |m| % 64 == 0
  {
    if m == [] then INITIAL
    else Compress(Fold(m[..|m| - 64]), m[|m| - 64..])
  }

  function Zeros(n: nat): (r: seq<Octet>)
    ensures |r| == n && forall i :: 0 <= i < n ==> r[i] == 0
  {
    seq(n, _ => 0)
  }

  /** The bytes of a 64-bit count, least significant first. */
  function CountBytes(bits: bv64): (r: seq<Octet>)
    ensures |r| == 8
  {
    [(bits & 0xFF) as Octet, ((bits >> 8) & 0xFF) as Octet, ((bits >> 16) & 0xFF) as Octet,
     ((bits >> 24) & 0xFF) as Octet, ((bits >> 32) & 0xFF) as Octet, ((bits >> 40) & 0xFF) as Octet,
     ((bits >> 48) & 0xFF) as Octet, ((bits >> 56) & 0xFF) as Octet]
  }

  function LengthBytes(bits: nat): (r: seq<Octet>)
    requires bits < 0x1_0000_0000_0000_0000
    ensures |r| == 8
  {
    CountBytes(bits as bv64)
  }

  /** The length in bits, low 64 bits, as section 3.2 asks. */
  function BitCount(len: nat): (n: nat)
    ensures n < 0x1_0000_0000_0000_0000
  {
    8 * len % 0x1_0000_0000_0000_0000
  }

  /** The zero bytes of section 3.1: up to 56 modulo 64, at least none. */
  function PadZeros(len: nat): (k: nat)
    ensures (len + 1 + k) % 64 == 56 && k < 64
  {
    (119 - len % 64) % 64
  }

  function Padded(m: seq<Octet>): (r: seq<Octet>)
    ensures |r| % 64 == 0
  {
    assert (|m| + 1 + PadZeros(|m|) + 8) % 64 == 0;
    m + [0x80] + Zeros(PadZeros(|m|)) + LengthBytes(BitCount(|m|))
  }

  function ByteText(b: Octet): string {
    [HexChar((b >> 4) as int), HexChar((b & 0x0F) as int)]
  }

  function HexText(bytes: seq<Octet>): string {
    if bytes == [] then "" else HexText(bytes[..|bytes| - 1]) + ByteText(bytes[|bytes| - 1])
  }

  function WordBytes(w: Word): seq<Octet> {
    [(w & 0xFF) as Octet, ((w >> 8) & 0xFF) as Octet, ((w >> 16) & 0xFF) as Octet, ((w >> 24) & 0xFF) as Octet]
  }

  /** The digest as 32 hexadecimal characters, low-order byte of A first. */
  function Text(s: Chain): string {
    HexText(WordBytes(s.a) + WordBytes(s.b) + WordBytes(s.c) + WordBytes(s.d))
  }

  function Digest(m: seq<Octet>): string {
    Text(Fold(Padded(m)))
  }

  // ----- The code's round: the variables rotate instead

  /** The code computes the word index; it is the order the definition lists. */
  function WordIndex(i: nat): nat {
    if i < 16 then i else if i < 32 then (5 * i + 1) % 16 else if i < 48 then (3 * i + 5) % 16 else 7 * i % 16
  }

  lemma {:induction false} ModStep(x: nat, k: nat)
    ensures (x % 16 + k) % 16 == (x + k) % 16
  {
  }

  lemma {:induction false} WordIndexIsOrder(i: nat)
    requires i < 64
    ensures WordIndex(i) == Order(i)
  {
    if i != 0 && i != 16 && i != 32 && i != 48 {
      WordIndexIsOrder(i - 1);
      if i < 16 { ModStep(i - 1, 1); }
      else if i < 32 { ModStep(5 * (i - 1) + 1, 5); }
      else if i < 48 { ModStep(3 * (i - 1) + 5, 3); }
      else { ModStep(7 * (i - 1), 7); }
    }
  }

  /** How the code's `a, b, c, d` sit in the registers after `n` operations. */
  function Rotated(r: Chain, n: nat): Chain {
    match n % 4
    case 0 => r
    case 1 => Chain(r.d, r.a, r.b, r.c)
    case 2 => Chain(r.c, r.d, r.a, r.b)
    case _ => Chain(r.b, r.c, r.d, r.a)
  }

  /** The second round as the code writes it. */
  function CodeG(b: Word, c: Word, d: Word): Word { (d & b) | (!d & c) }

  lemma {:induction false} CodeGIsG(b: Word, c: Word, d: Word)
    ensures CodeG(b, c, d) == G(b, c, d)
  {
  }

  function CodeF(i: nat, b: Word, c: Word, d: Word): Word {
    if i < 16 then F(b, c, d) else if i < 32 then CodeG(b, c, d) else if i < 48 then H(b, c, d) else I(b, c, d)
  }

  lemma {:induction false} CodeFIsDefinition(i: nat, b: Word, c: Word, d: Word)
    ensures CodeF(i, b, c, d) == RoundFunction(i, b, c, d)
  {
    hide F, G, H, I, CodeG;
    CodeGIsG(b, c, d);
  }

  lemma {:induction false} NextRegisters(block: seq<Octet>, s: Chain, n: nat)
    requires |block| == 64 && n < 64
    ensures var r, t := Rotated(Registers(block, s, n), n), Rotated(Registers(block, s, n + 1), n + 1);
      t == Chain(r.d, Operation(block, n, r.a, r.b, r.c, r.d), r.b, r.c)
  {
    hide Operation;
    var q := n % 4;
    assert (n + 1) % 4 == if q == 3 then 0 else q + 1;
  }

  /** processBlock: one block into the chaining variables. */
  method ProcessBlock(state: Chain, block: seq<Octet>) returns (r: Chain)
    requires |block| == 64
    ensures r == Compress(state, block)
  {
    hide CodeF, RoundFunction, Mixed, WordAt, Sine, Added, Registers, Rotated, WordIndex, Order;
    var a, b, c, d := state.a, state.b, state.c, state.d;
    Unrotated(state, block);
    for i := 0 to 64
      invariant Chain(a, b, c, d) == Rotated(Registers(block, state, i), i)
    {
      var f := CodeF(i, b, c, d);
      WordIndexIsOrder(i);
      var x := WordAt(block, WordIndex(i));
      CodeFIsDefinition(i, b, c, d);
      NextRegisters(block, state, i);
      a, b, c, d := d, Mixed(a, b, f, x, Sine(i), Shift(i)), b, c;
    }
    r := Added(state, Chain(a, b, c, d));
  }

  lemma {:induction false} Unrotated(s: Chain, block: seq<Octet>)
    requires |block| == 64
    ensures Rotated(Registers(block, s, 0), 0) == s
    ensures forall r: Chain :: Rotated(r, 64) == r
  {
  }

  // ----- The stream

  lemma {:induction false} FoldAppend(m: seq<Octet>, block: seq<Octet>)
    requires |m| % 64 == 0 && |block| == 64
    ensures |m + block| % 64 == 0 && Fold(m + block) == Compress(Fold(m), block)
  {
  }

  /** Bytes fed so far split into folded blocks and a partial block. */
  ghost predicate Split(fed: seq<Octet>, state: Chain, rest: seq<Octet>) {
    && |rest| <= |fed| && (|fed| - |rest|) % 64 == 0
    && fed[|fed| - |rest|..] == rest && state == Fold(fed[..|fed| - |rest|])
  }

  /** A partial block that is full moves into the chaining variables. */
  lemma {:induction false} FullBlock(fed: seq<Octet>, state: Chain, rest: seq<Octet>)
    requires Split(fed, state, rest) && |rest| == 64
    ensures Split(fed, Compress(state, rest), [])
  {
    var done := fed[..|fed| - 64];
    FoldAppend(done, rest);
    assert fed == done + rest && fed[..|fed| - 0] == fed;
  }

  lemma {:induction false} MoreBytes(fed: seq<Octet>, state: Chain, rest: seq<Octet>, more: seq<Octet>)
    requires Split(fed, state, rest)
    ensures Split(fed + more, state, rest + more)
  {
    assert (fed + more)[..|fed| - |rest|] == fed[..|fed| - |rest|];
  }

  lemma {:induction false} PartialBlock(fed: seq<Octet>, state: Chain, rest: seq<Octet>)
    requires Split(fed, state, rest)
    ensures |rest| <= |fed| && (|fed| - |rest|) % 64 == 0
  {
  }

  /** With whole blocks only, everything is folded. */
  lemma {:induction false} WholeBlocks(fed: seq<Octet>, state: Chain, rest: seq<Octet>)
    requires Split(fed, state, rest) && |rest| < 64 && |fed| % 64 == 0
    ensures rest == [] && state == Fold(fed)
  {
    assert fed[..|fed| - 0] == fed;
  }

  class Stream {
    var state: Chain
    var bitCount: nat
    var buffered: nat
    const buffer: array<Octet>
    /** Everything fed since the start. */
    ghost var fed: seq<Octet>

    ghost predicate Valid()
      reads this, buffer
    {
      && buffer.Length == 64 && buffered < 64
      && Split(fed, state, buffer[..buffered])
      && bitCount == BitCount(|fed|)
    }

    constructor ()
      ensures Valid() && fed == [] && fresh(buffer)
    {
      state, bitCount, buffered := INITIAL, 0, 0;
      buffer := new Octet[64](_ => 0);
      fed := [];
    }

    constructor Copy(other: Stream)
      requires other.Valid()
      ensures Valid() && fed == other.fed && bitCount == other.bitCount && buffered == other.buffered && fresh(buffer)
    {
      state, bitCount, buffered := other.state, other.bitCount, other.buffered;
      buffer := new Octet[64](
        i requires 0 <= i < 64 && other.buffer.Length == 64 reads other.buffer => other.buffer[i]);
      fed := other.fed;
      new;
      assert buffer[..buffered] == other.buffer[..buffered];
    }

    /** Top up the partial block; fold it when it is full. */
    method FillPartial(p: seq<Octet>) returns (left: seq<Octet>)
      requires buffer.Length == 64 && 0 < buffered < 64 && Split(fed, state, buffer[..buffered])
      modifies this`state, this`buffered, buffer
      ensures |left| <= |p| && p[|p| - |left|..] == left && buffered < 64 && (buffered == 0 || left == [])
      ensures Split(fed + p[..|p| - |left|], state, buffer[..buffered])
    {
      hide Compress, Split;
      var need := 64 - buffered;
      var take := if |p| < need then |p| else need;
      ghost var rest := buffer[..buffered];
      MoreBytes(fed, state, rest, p[..take]);
      forall i | 0 <= i < take { buffer[buffered + i] := p[i]; }
      buffered := buffered + take;
      assert buffer[..buffered] == rest + p[..take];
      left := p[take..];
      if buffered == 64 {
        assert buffer[..64] == buffer[..];
        FullBlock(fed + p[..take], state, buffer[..]);
        state := ProcessBlock(state, buffer[..]);
        buffered := 0;
        assert buffer[..0] == [];
      }
    }

    /** Feed the next bytes of the stream. */
    method Update(data: seq<Octet>)
      requires Valid()
      modifies this, buffer
      ensures Valid() && fed == old(fed) + data
    {
      hide Compress, Split, BitCount;
      var p := data;
      ghost var all := fed + data;
      AddBits(|fed|, |data|);
      bitCount := (bitCount + 8 * |data|) % 0x1_0000_0000_0000_0000;
      if buffered != 0 {
        p := FillPartial(p);
        assert fed + data[..|data| - |p|] == all[..|all| - |p|];
      } else {
        assert all[..|all| - |p|] == fed;
      }
      p := FoldBlocks(p, all);
      if |p| != 0 { KeepTail(p, all); } else { assert all[..|all|] == all; }
      fed := all;
    }

    /** Keep what does not fill a block. */
    method KeepTail(p: seq<Octet>, ghost all: seq<Octet>)
      requires buffer.Length == 64 && buffered == 0 && |p| < 64
      requires |p| <= |all| && all[|all| - |p|..] == p
      requires Split(all[..|all| - |p|], state, buffer[..buffered])
      modifies this`buffered, buffer
      ensures buffered < 64 && Split(all, state, buffer[..buffered])
    {
      hide Split;
      assert all[..|all| - |p|] + p == all;
      assert buffer[..0] == [] && [] + p == p;
      MoreBytes(all[..|all| - |p|], state, [], p);
      forall i | 0 <= i < |p| { buffer[i] := p[i]; }
      buffered := |p|;
      assert buffer[..buffered] == p;
    }

    /** Fold the whole blocks of what is left. */
    method FoldBlocks(data: seq<Octet>, ghost all: seq<Octet>) returns (p: seq<Octet>)
      requires buffer.Length == 64 && buffered < 64 && (buffered == 0 || data == [])
      requires |data| <= |all| && all[|all| - |data|..] == data
      requires Split(all[..|all| - |data|], state, buffer[..buffered])
      modifies this`state
      ensures |p| < 64 && |p| <= |all| && all[|all| - |p|..] == p && (buffered == 0 || p == [])
      ensures Split(all[..|all| - |p|], state, buffer[..buffered])
    {
      hide Compress, Split;
      p := data;
      while |p| >= 64
        invariant |p| <= |all| && all[|all| - |p|..] == p && (buffered == 0 || p == [])
        invariant Split(all[..|all| - |p|], state, buffer[..buffered])
      {
        ghost var was := all[..|all| - |p|];
        assert buffer[..0] == [] && [] + p[..64] == p[..64];
        assert was + p[..64] == all[..|all| - |p| + 64];
        MoreBytes(was, state, [], p[..64]);
        FullBlock(was + p[..64], state, p[..64]);
        state := ProcessBlock(state, p[..64]);
        p := p[64..];
      }
    }

    /** The digest of everything fed so far; the stream itself is not disturbed. */
    method Hex() returns (s: string)
      requires Valid()
      ensures s == Digest(fed)
    {
      hide Compress, Text, Fold, BitCount, LengthBytes, Padded, PadZeros, Split;
      PartialBlock(fed, state, buffer[..buffered]);
      var tail := new Stream.Copy(this);
      var bits := tail.bitCount;
      var padLen := if tail.buffered <= 55 then 56 - tail.buffered else 120 - tail.buffered;
      PadLength(|fed|, buffered);
      tail.Update([0x80] + Zeros(padLen - 1));
      tail.Update(LengthBytes(bits));
      PaddedInParts(fed);
      WholeBlocks(tail.fed, tail.state, tail.buffer[..tail.buffered]);
      s := WriteText(tail.state);
    }
  }

  method WriteText(c: Chain) returns (s: string)
    ensures s == Text(c)
  {
    hide WordBytes, ByteText;
    var out := WordBytes(c.a) + WordBytes(c.b) + WordBytes(c.c) + WordBytes(c.d);
    s := "";
    for i := 0 to |out|
      invariant s == HexText(out[..i])
    {
      assert out[..i + 1][..i] == out[..i];
      s := s + ByteText(out[i]);
    }
    assert out[..|out|] == out;
  }

  lemma {:induction false} AddBits(len: nat, more: nat)
    ensures (BitCount(len) + 8 * more) % 0x1_0000_0000_0000_0000 == BitCount(len + more)
  {
  }

  /** The code's padding length is the definition's. */
  lemma {:induction false} PadLength(len: nat, buffered: nat)
    requires buffered < 64 && buffered <= len && (len - buffered) % 64 == 0
    ensures buffered == len % 64
    ensures 1 + PadZeros(len) == if buffered <= 55 then 56 - buffered else 120 - buffered
  {
  }

  lemma {:induction false} PaddedInParts(m: seq<Octet>)
    ensures m + ([0x80] + Zeros(PadZeros(|m|))) + LengthBytes(BitCount(|m|)) == Padded(m)
  {
  }

  function Flatten(chunks: seq<seq<Octet>>): seq<Octet> {
    if chunks == [] then [] else Flatten(chunks[..|chunks| - 1]) + chunks[|chunks| - 1]
  }

  /** However a message is cut into updates, empty ones included, the digest is that
      of the whole message. */
  method DigestOfChunks(chunks: seq<seq<Octet>>) returns (s: string)
    ensures s == Digest(Flatten(chunks))
  {
    var md5 := new Stream();
    for i := 0 to |chunks|
      invariant md5.Valid() && fresh(md5) && fresh(md5.buffer)
      invariant md5.fed == Flatten(chunks[..i])
    {
      assert chunks[..i + 1][..i] == chunks[..i];
      md5.Update(chunks[i]);
    }
    assert chunks[..|chunks|] == chunks;
    s := md5.Hex();
  }
}
