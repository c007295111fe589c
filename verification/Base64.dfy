/** Base64 of WsServer.cpp, against section 4 of RFC 4648, and the accept key of section 4.2.2 of RFC 6455. */
module Base64 {
  import opened Bits
  import Sha1

  const PADDING: byte := 61
  const MAGIC: bytes := Ascii("258EAFA5-E914-47DA-95CA-C5AB0DC85B11")

  /** "A-Z", "a-z", "0-9", '+' and '/', as the table of the source lists them. */
  function Symbol(i: nat): (c: byte)
    requires i < 64
    ensures c != PADDING
    ensures Index(c) == i
  {
    if i < 26 then 65 + i else if i < 52 then 71 + i else if i < 62 then i - 4 else if i == 62 then 43 else 47
  }

  /** The value of a symbol; 64 when it is none. */
  function Index(c: byte): nat {
    if 65 <= c <= 90 then c - 65 else if 97 <= c <= 122 then c - 71 else if 48 <= c <= 57 then c + 4
    else if c == 43 then 62 else if c == 47 then 63 else 64
  }

  /** Table 1 of RFC 4648. */
  lemma Alphabet(i: nat)
    requires i < 64
    ensures i < 26 ==> Symbol(i) == 'A' as int + i
    ensures 26 <= i < 52 ==> Symbol(i) == 'a' as int + i - 26
    ensures 52 <= i < 62 ==> Symbol(i) == '0' as int + i - 52
    ensures i == 62 ==> Symbol(i) == '+' as int
    ensures i == 63 ==> Symbol(i) == '/' as int
  {
  }

  /** Up to three bytes as four symbols. */
  function Quad(d: bytes): (s: bytes)
    requires 1 <= |d| <= 3
    ensures |s| == 4
  {
    var v := Group(d);
    [Symbol(v / 0x4_0000), Symbol(v / 4096 % 64),
     if |d| > 1 then Symbol(v / 64 % 64) else PADDING,
     if |d| > 2 then Symbol(v % 64) else PADDING]
  }

  function Group(d: bytes): (v: nat)
    requires 1 <= |d| <= 3
    ensures v < 0x100_0000
  {
    d[0] as nat * 0x1_0000 + (if |d| > 1 then d[1] as nat * 256 else 0) + (if |d| > 2 then d[2] as nat else 0)
  }

  function Encode(d: bytes): bytes {
    if d == [] then []
    else if |d| <= 3 then Quad(d)
    else Quad(d[..3]) + Encode(d[3..])
  }

  /** RFC 4648 decoding of one group of four symbols. */
  function DecodeQuad(s: bytes): bytes
    requires |s| == 4
  {
    var v := (Index(s[0]) * 64 + Index(s[1])) * 4096
           + (if s[2] == PADDING then 0 else Index(s[2]) * 64) + (if s[3] == PADDING then 0 else Index(s[3]));
    [v / 0x1_0000 % 256] + (if s[2] == PADDING then [] else [v / 256 % 256])
    + (if s[3] == PADDING then [] else [v % 256])
  }

  function Decode(s: bytes): bytes {
    if |s| < 4 then [] else DecodeQuad(s[..4]) + Decode(s[4..])
  }

  lemma QuadIndices(d: bytes)
    requires 1 <= |d| <= 3
    ensures var s, v := Quad(d), Group(d);
            && Index(s[0]) == v / 0x4_0000 && Index(s[1]) == v / 4096 % 64
            && (if |d| > 1 then s[2] != PADDING && Index(s[2]) == v / 64 % 64 else s[2] == PADDING)
            && (if |d| > 2 then s[3] != PADDING && Index(s[3]) == v % 64 else s[3] == PADDING)
  {
    hide Symbol, Index;
  }

  /** The sextets of a group that are not written are zero, and the others give the bytes back. */
  lemma Sextets(d: bytes)
    requires 1 <= |d| <= 3
    ensures var v := Group(d);
            && (v / 0x4_0000 * 64 + v / 4096 % 64) * 4096 + v / 64 % 64 * 64 + v % 64 == v
            && (|d| < 2 ==> v / 64 % 64 == 0) && (|d| < 3 ==> v % 64 == 0)
            && v / 0x1_0000 % 256 == d[0] as nat
            && (|d| > 1 ==> v / 256 % 256 == d[1] as nat) && (|d| > 2 ==> v % 256 == d[2] as nat)
  {
    SplitSextets(Group(d));
    if |d| == 1 {
      SplitBytes(d[0], 0, 0);
    } else if |d| == 2 {
      SplitBytes(d[0], d[1], 0);
    } else {
      SplitBytes(d[0], d[1], d[2]);
    }
  }

  lemma SplitSextets(v: nat)
    ensures (v / 0x4_0000 * 64 + v / 4096 % 64) * 4096 + v / 64 % 64 * 64 + v % 64 == v
  {
    var a := v / 64;
    var b := a / 64;
    assert v / 4096 == b && v / 0x4_0000 == b / 64;
  }

  lemma SplitBytes(a: byte, b: byte, c: byte)
    ensures var v := a as nat * 0x1_0000 + b as nat * 256 + c as nat;
            && v / 0x1_0000 % 256 == a && v / 256 % 256 == b && v % 256 == c
            && (c == 0 ==> v % 64 == 0) && (b == 0 && c == 0 ==> v / 64 % 64 == 0)
  {
    var v: nat, x: nat, y: nat, z: nat := a * 0x1_0000 + b * 256 + c, a, b, c;
    DivModUnique(v, 0x1_0000, x, y * 256 + z);
    DivModUnique(v, 256, x * 256 + y, z);
    DivModUnique(x * 256 + y, 256, x, y);
    if c == 0 {
      DivModUnique(v, 64, x * 1024 + y * 4, 0);
      if b == 0 {
        DivModUnique(x * 1024, 64, x * 16, 0);
      }
    }
  }

  lemma QuadRoundTrip(d: bytes)
    requires 1 <= |d| <= 3
    ensures DecodeQuad(Quad(d)) == d
  {
    hide Symbol, Index, Quad;
    var v := Group(d);
    var s := Quad(d);
    QuadIndices(d);
    Sextets(d);
    assert DecodeQuad(s)[0] == d[0];
  }

  /** The encoding has a left inverse on every byte string. */
  lemma {:induction false} DecodeEncode(d: bytes)
    ensures Decode(Encode(d)) == d
  {
    hide Quad, DecodeQuad;
    if d == [] {
    } else if |d| <= 3 {
      QuadRoundTrip(d);
      assert Quad(d)[..4] == Quad(d);
    } else {
      QuadRoundTrip(d[..3]);
      DecodeEncode(d[3..]);
      var s := Encode(d);
      assert s[..4] == Quad(d[..3]) && s[4..] == Encode(d[3..]);
    }
  }

  lemma QuadPadding(d: bytes)
    requires 1 <= |d| <= 3
    ensures forall i :: 0 <= i < 4 ==> (Quad(d)[i] == PADDING <==> i > |d|)
  {
    hide Symbol;
  }

  lemma EncodeStep(d: bytes)
    requires d != []
    ensures Encode(d) == if |d| <= 3 then Quad(d) else Quad(d[..3]) + Encode(d[3..])
  {
  }

  /** Four symbols for every three bytes begun; '=' stands only at the end, as often as bytes lack to three. */
  lemma {:induction false} EncodeShape(d: bytes)
    ensures var s := Encode(d);
            var pads := (3 - |d| % 3) % 3;
            && |s| == 4 * ((|d| + 2) / 3)
            && pads <= |s|
            && forall i :: 0 <= i < |s| ==> (s[i] == PADDING <==> i >= |s| - pads)
  {
    hide Quad, Encode;
    if d == [] {
      EncodeEmpty();
    } else {
      EncodeStep(d);
      QuadPadding(if |d| <= 3 then d else d[..3]);
      if |d| > 3 {
        var tail := Encode(d[3..]);
        EncodeShape(d[3..]);
        assert |d[3..]| % 3 == |d| % 3;
        assert forall i :: 4 <= i < |Encode(d)| ==> Encode(d)[i] == tail[i - 4];
      }
    }
  }

  method Base64Encode(data: bytes) returns (out: bytes)
    ensures out == Encode(data)
  {
    hide Encode, Quad, CodeGroup, CodeQuad, From;
    EncodeEnds(data);
    out := [];
    var i := 0;
    while i < |data|
      invariant 0 <= i
      invariant out + Encode(From(data, i)) == Encode(data)
      invariant i >= |data| ==> Encode(From(data, i)) == []
      decreases |data| - i
    {
      var v := Shl64(data[i], 16);
      if i + 1 < |data| { v := Or(v, Shl64(data[i + 1], 8)); }
      if i + 2 < |data| { v := Or(v, data[i + 2]); }
      CodeGroupAt(data, i);
      EncodeAt(data, i);
      QuadBits(Chunk(data, i));
      out := out + CodeQuad(v, i + 1 < |data|, i + 2 < |data|);
      i := i + 3;
      EncodePastEnd(data, i);
    }
  }

  function From(data: bytes, i: nat): bytes {
    if i <= |data| then data[i..] else []
  }

  /** The up to three bytes the loop looks at in the turn at `i`. */
  function Chunk(data: bytes, i: nat): bytes
    requires i < |data|
  {
    if i + 3 <= |data| then data[i..i + 3] else data[i..]
  }

  lemma EncodeEnds(data: bytes)
    ensures Encode(From(data, 0)) == Encode(data)
    ensures data == [] ==> Encode(data) == []
  {
    assert data[0..] == data;
  }

  lemma EncodePastEnd(data: bytes, i: nat)
    ensures i >= |data| ==> Encode(From(data, i)) == []
  {
  }

  lemma CodeGroupAt(data: bytes, i: nat)
    requires i < |data|
    ensures var v0 := Shl64(data[i], 16);
            var v1 := if i + 1 < |data| then Or(v0, Shl64(data[i + 1], 8)) else v0;
            CodeGroup(Chunk(data, i)) == if i + 2 < |data| then Or(v1, data[i + 2]) else v1
  {
    hide Or, Shl64;
  }

  lemma EncodeAt(data: bytes, i: nat)
    requires i < |data|
    ensures Encode(From(data, i)) == Quad(Chunk(data, i)) + Encode(From(data, i + 3))
  {
    var d := data[i..];
    EncodeStep(d);
    hide Quad;
    if |d| <= 3 {
      assert Chunk(data, i) == d && From(data, i + 3) == [];
    } else {
      assert Chunk(data, i) == d[..3] && From(data, i + 3) == d[3..];
    }
  }

  lemma EncodeEmpty()
    ensures Encode([]) == []
  {
  }

  /** `v & 63` */
  function Low6(v: nat): (r: nat)
    ensures r == v % 64
  {
    Pow2Values();
    AndMask(v, 6);
    And(v, 63)
  }

  /** The word the loop gathers from up to three bytes. */
  function CodeGroup(d: bytes): nat
    requires 1 <= |d| <= 3
  {
    var v0 := Shl64(d[0], 16);
    var v1 := if |d| > 1 then Or(v0, Shl64(d[1], 8)) else v0;
    if |d| > 2 then Or(v1, d[2]) else v1
  }

  /** The four symbols the loop appends for the word `v`. */
  function CodeQuad(v: nat, second: bool, third: bool): bytes {
    [Symbol(Low6(Shr(v, 18))), Symbol(Low6(Shr(v, 12))),
     if second then Symbol(Low6(Shr(v, 6))) else PADDING, if third then Symbol(Low6(v)) else PADDING]
  }

  lemma QuadBits(d: bytes)
    requires 1 <= |d| <= 3
    ensures Quad(d) == CodeQuad(CodeGroup(d), |d| > 1, |d| > 2)
  {
    hide Low6, Symbol, CodeGroup, Shr, Group;
    GroupBits(d);
    SymbolBits(Group(d));
  }

  lemma GroupBits(d: bytes)
    requires 1 <= |d| <= 3
    ensures CodeGroup(d) == Group(d)
  {
    hide Or, Pow2;
    Pow2Values();
    var a: nat := d[0];
    assert Shl64(a, 16) == a * 0x1_0000;
    if |d| > 1 {
      var b: nat := d[1];
      assert Shl64(b, 8) == b * 256;
      OrDisjoint(b * 256, a, 16);
      if |d| > 2 {
        OrDisjoint(d[2], a * 256 + b, 8);
      }
    }
  }

  lemma SymbolBits(v: nat)
    requires v < 0x100_0000
    ensures Shr(v, 18) == v / 0x4_0000 < 64
    ensures Shr(v, 12) == v / 4096
    ensures Shr(v, 6) == v / 64
  {
    hide Shr, Pow2;
    Pow2Values();
    ShrDivides(v, 18);
    ShrDivides(v, 12);
    ShrDivides(v, 6);
  }

  // ---------------------------------------------------------- handshake key

  function AcceptKey(key: bytes): bytes {
    Encode(Sha1.Digest(key + MAGIC))
  }

  method DeriveAcceptKey(key: bytes) returns (accept: bytes)
    ensures accept == AcceptKey(key)
  {
    var magic := key + MAGIC;
    var digest := Sha1.Sha1(magic);
    accept := Base64Encode(digest);
  }

  /** Every accept value is 28 characters, ends in exactly one '=', and decodes to the digest of key and magic. */
  lemma AcceptKeyShape(key: bytes)
    ensures var s := AcceptKey(key);
            && |s| == 28 && s[27] == PADDING
            && (forall i :: 0 <= i < 27 ==> s[i] != PADDING)
            && Decode(s) == Sha1.Digest(key + MAGIC)
  {
    hide Sha1.Digest, Encode;
    EncodeShape(Sha1.Digest(key + MAGIC));
    DecodeEncode(Sha1.Digest(key + MAGIC));
  }
}
