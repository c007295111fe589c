/** SHA-1 as written in WsServer.cpp, against the definitions of FIPS 180-4. */
module Sha1 {
  import opened Bits

  type word = bv32

  datatype Hash = Hash(a: word, b: word, c: word, d: word, e: word)

  // ------------------------------------------------ FIPS 180-4, the standard

  /** Section 4.1.1. */
  function Ch(x: word, y: word, z: word): word { (x & y) ^ (!x & z) }

  function Parity(x: word, y: word, z: word): word { x ^ y ^ z }

  function Maj(x: word, y: word, z: word): word { (x & y) ^ (x & z) ^ (y & z) }

  function RoundFunction(t: nat, x: word, y: word, z: word): word {
    if t < 20 then Ch(x, y, z) else if t < 40 then Parity(x, y, z)
    else if t < 60 then Maj(x, y, z) else Parity(x, y, z)
  }

  /** Section 4.2.1. */
  function RoundConstant(t: nat): word {
    if t < 20 then 0x5A827999 else if t < 40 then 0x6ED9EBA1 else if t < 60 then 0x8F1BBCDC else 0xCA62C1D6
  }

  /** Each constant is the square root of 2, 3, 5 or 10, in thirty fractional bits. */
  lemma RoundConstantsAreRoots(t: nat)
    ensures var k := RoundConstant(t) as nat;
            var n := if t < 20 then 2 else if t < 40 then 3 else if t < 60 then 5 else 10;
            k * k <= n * 0x1000_0000_0000_0000 < (k + 1) * (k + 1)
  {
  }

  const INITIAL := Hash(0x67452301, 0xEFCDAB89, 0x98BADCFE, 0x10325476, 0xC3D2E1F0)

  /** Section 5.1.1: a one bit, the fewest zeros that fill the block, and the length in bits. */
  function Pad(data: bytes): bytes {
    data + [0x80] + Zeros((55 - |data|) % 64) + BigEndian(8 * |data|, 8)
  }

  function Zeros(n: nat): (s: bytes)
    ensures |s| == n
  {
    seq(n, i => 0)
  }

  function WordAt(m: bytes, i: nat): word
    requires i + 4 <= |m|
  {
    WordOf(m[i], m[i + 1], m[i + 2], m[i + 3])
  }

  function WordOf(p: byte, q: byte, r: byte, s: byte): word {
    (p as word << 24) | (q as word << 16) | (r as word << 8) | s as word
  }

  /** Section 3.2: the circular left shift. */
  function RotL(v: word, n: nat): word
    requires n < 32
  {
    v.RotateLeft(n)
  }

  /** Section 6.1.2, step 1: the message schedule of one block. */
  function Schedule(block: bytes, t: nat): word
    requires |block| == 64
  {
    if t < 16 then WordAt(block, 4 * t)
    else RotateXor(Schedule(block, t - 3), Schedule(block, t - 8), Schedule(block, t - 14), Schedule(block, t - 16))
  }

  function RotateXor(x: word, y: word, z: word, u: word): word { RotL(x ^ y ^ z ^ u, 1) }

  /** Steps 2 and 3: the working variables after `t` rounds. */
  function Rounds(h: Hash, block: bytes, t: nat): Hash
    requires |block| == 64
  {
    if t == 0 then h
    else
      Round(Rounds(h, block, t - 1), t - 1, Schedule(block, t - 1))
  }

  function Round(p: Hash, t: nat, w: word): Hash {
    Hash(Sum5(RotL(p.a, 5), RoundFunction(t, p.b, p.c, p.d), p.e, RoundConstant(t), w),
         p.a, RotL(p.b, 30), p.c, p.d)
  }

  /** Addition modulo 2^32. */
  function Sum5(x: word, y: word, z: word, u: word, v: word): word { x + y + z + u + v }

  function AddHash(h: Hash, v: Hash): Hash {
    Hash(h.a + v.a, h.b + v.b, h.c + v.c, h.d + v.d, h.e + v.e)
  }

  /** Step 4. */
  function Compress(h: Hash, block: bytes): Hash
    requires |block| == 64
  {
    AddHash(h, Rounds(h, block, 80))
  }

  /** The fold over the first `n` blocks of `m`. */
  function Blocks(m: bytes, n: nat): Hash
    requires 64 * n <= |m|
  {
    if n == 0 then INITIAL else Compress(Blocks(m, n - 1), m[64 * (n - 1)..64 * n])
  }

  function WordBytes(w: word): (s: bytes)
    ensures |s| == 4
  {
    [(w >> 24) as bv8 as byte, ((w >> 16) & 0xFF) as bv8 as byte,
     ((w >> 8) & 0xFF) as bv8 as byte, (w & 0xFF) as bv8 as byte]
  }

  function Digest(data: bytes): (s: bytes)
    ensures |s| == 20
  {
    PadFillsBlocks(data);
    var h := Blocks(Pad(data), |Pad(data)| / 64);
    WordBytes(h.a) + WordBytes(h.b) + WordBytes(h.c) + WordBytes(h.d) + WordBytes(h.e)
  }

  // ------------------------------------------------------------ its padding

  lemma PadFillsBlocks(data: bytes)
    ensures |Pad(data)| % 64 == 0 && |Pad(data)| >= 64
    ensures |Pad(data)| < |data| + 73
  {
    hide BigEndian;
    var z := (55 - |data|) % 64;
    assert |Pad(data)| == |data| + 9 + z;
    assert |data| + 9 + z == 64 * (1 - (55 - |data|) / 64);
  }

  /** Different messages below 2^61 bytes never share a padded form. */
  lemma PadInjective(x: bytes, y: bytes)
    requires |x| < 0x2000_0000_0000_0000 && |y| < 0x2000_0000_0000_0000
    requires Pad(x) == Pad(y)
    ensures x == y
  {
    var n := |Pad(x)|;
    assert Pad(x)[n - 8..] == BigEndian(8 * |x|, 8);
    assert Pad(y)[n - 8..] == BigEndian(8 * |y|, 8);
    Pow2Values();
    BigEndianRoundTrip(8 * |x|, 8);
    BigEndianRoundTrip(8 * |y|, 8);
    assert x == Pad(x)[..|x|] == Pad(y)[..|y|] == y;
  }

  // --------------------------------------------------------------- the code

  function CodeRotl(v: word, n: nat): word
    requires 0 < n < 32
  {
    (v << n) | (v >> (32 - n))
  }

  function ChOr(x: word, y: word, z: word): word { (x & y) | (!x & z) }

  function MajOr(x: word, y: word, z: word): word { (x & y) | (x & z) | (y & z) }

  lemma RotlRotates(v: word)
    ensures CodeRotl(v, 1) == RotL(v, 1)
    ensures CodeRotl(v, 5) == RotL(v, 5)
    ensures CodeRotl(v, 30) == RotL(v, 30)
  {
  }

  /** The OR forms of the code are the XOR forms of the standard. */
  lemma OrForms(x: word, y: word, z: word)
    ensures ChOr(x, y, z) == Ch(x, y, z)
    ensures MajOr(x, y, z) == Maj(x, y, z)
  {
    assert (x & y) | (!x & z) == (x & y) ^ (!x & z);
    assert (x & y) | (x & z) | (y & z) == (x & y) ^ (x & z) ^ (y & z);
  }

  method PadMessage(data: bytes) returns (m: bytes)
    ensures m == Pad(data)
  {
    hide And, Shr, BigEndian;
    m := data + [0x80];
    ghost var zeros := 0;
    while |m| % 64 != 56
      invariant 0 <= zeros <= (55 - |data|) % 64
      invariant m == data + [0x80] + Zeros(zeros)
      decreases (55 - |data|) % 64 - zeros
    {
      m := m + [0];
      assert Zeros(zeros + 1) == Zeros(zeros) + [0];
      zeros := zeros + 1;
    }
    assert zeros == (55 - |data|) % 64;
    var bits := |data| * 8;
    ghost var base := m;
    var i := 8;
    while i > 0
      invariant 0 <= i <= 8
      invariant m == base + BigEndian(bits, 8)[..8 - i]
    {
      i := i - 1;
      BigEndianByte(bits, 8, 7 - i);
      m := m + [Shr(bits, i * 8) % 256];
    }
  }

  method Sha1(data: bytes) returns (out: bytes)
    ensures out == Digest(data)
  {
    hide Schedule, Rounds, Compress, WordAt, RoundFunction, RoundConstant, CodeRotl, WordBytes, Pad;
    var h := INITIAL;
    var m := PadMessage(data);
    PadFillsBlocks(data);
    var i := 0;
    while i < |m|
      invariant 0 <= i <= |m| && i % 64 == 0
      invariant h == Blocks(m, i / 64)
    {
      h := CompressBlock(h, m, i);
      i := i + 64;
    }
    out := WordBytes(h.a) + WordBytes(h.b) + WordBytes(h.c) + WordBytes(h.d) + WordBytes(h.e);
  }

  method CompressBlock(h: Hash, m: bytes, i: nat) returns (r: Hash)
    requires i + 64 <= |m|
    ensures r == Compress(h, m[i..i + 64])
  {
    hide CodeRound, Round, Schedule, AddHash;
    ghost var block := m[i..i + 64];
    var w := FillSchedule(m, i);
    var v := h;
    for j := 0 to 80
      invariant v == Rounds(h, block, j)
    {
      CodeRoundIsRound(v, j, w[j]);
      v := CodeRound(v, j, w[j]);
    }
    r := AddHash(h, v);
  }

  /** The `f` of the round loop of the source. */
  function CodeFunction(j: nat, b: word, c: word, d: word): word {
    if j < 20 then ChOr(b, c, d) else if j < 40 then Parity(b, c, d)
    else if j < 60 then MajOr(b, c, d) else Parity(b, c, d)
  }

  /** One turn of the round loop, on its variables a to e. */
  function CodeRound(v: Hash, j: nat, w: word): Hash {
    Hash(Sum5(CodeRotl(v.a, 5), CodeFunction(j, v.b, v.c, v.d), v.e, RoundConstant(j), w),
         v.a, CodeRotl(v.b, 30), v.c, v.d)
  }

  lemma CodeRoundIsRound(v: Hash, j: nat, w: word)
    ensures CodeRound(v, j, w) == Round(v, j, w)
  {
    hide CodeRotl, RotL, Ch, ChOr, Maj, MajOr, Parity, Sum5, RoundConstant;
    RotlRotates(v.a);
    RotlRotates(v.b);
    OrForms(v.b, v.c, v.d);
  }

  method FillSchedule(m: bytes, i: nat) returns (w: seq<word>)
    requires i + 64 <= |m|
    ensures |w| == 80
    ensures forall t :: 0 <= t < 80 ==> w[t] == Schedule(m[i..i + 64], t)
  {
    hide WordAt, CodeRotateXor, RotateXor;
    ghost var block := m[i..i + 64];
    w := [];
    for j := 0 to 16
      invariant |w| == j
      invariant forall t :: 0 <= t < j ==> w[t] == Schedule(block, t)
    {
      WordAtOffset(m, i, j);
      w := w + [WordAt(m, i + j * 4)];
    }
    for j := 16 to 80
      invariant |w| == j
      invariant forall t :: 0 <= t < j ==> w[t] == Schedule(block, t)
    {
      CodeRotates(w[j - 3], w[j - 8], w[j - 14], w[j - 16]);
      w := w + [CodeRotateXor(w[j - 3], w[j - 8], w[j - 14], w[j - 16])];
    }
  }

  lemma WordAtOffset(m: bytes, i: nat, j: nat)
    requires i + 64 <= |m| && j < 16
    ensures WordAt(m, i + j * 4) == WordAt(m[i..i + 64], 4 * j)
  {
    hide WordOf;
    var block := m[i..i + 64];
    assert block[4 * j] == m[i + j * 4] && block[4 * j + 1] == m[i + j * 4 + 1];
    assert block[4 * j + 2] == m[i + j * 4 + 2] && block[4 * j + 3] == m[i + j * 4 + 3];
  }

  function CodeRotateXor(x: word, y: word, z: word, u: word): word { CodeRotl(x ^ y ^ z ^ u, 1) }

  lemma CodeRotates(x: word, y: word, z: word, u: word)
    ensures CodeRotateXor(x, y, z, u) == RotateXor(x, y, z, u)
  {
    RotlRotates(x ^ y ^ z ^ u);
  }
}
