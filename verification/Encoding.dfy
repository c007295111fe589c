/** Well-formed UTF-8 (section 4 of RFC 3629), which `json::dump` demands of every string it writes. */
module Encoding {
  import opened Bits

  predicate IsTail(s: bytes, i: nat) {
    i < |s| && 0x80 <= s[i] <= 0xBF
  }

  /** The size of the character at the front of `s`; 0 when there is none. */
  function CharSize(s: bytes): (n: nat)
    ensures n <= |s|
  {
    if s == [] then 0
    else if s[0] <= 0x7F then 1
    else if 0xC2 <= s[0] <= 0xDF && IsTail(s, 1) then 2
    else if 0xE0 <= s[0] <= 0xEF && IsTail(s, 1) && IsTail(s, 2) && NotOverlong(s[0], s[1]) then 3
    else if 0xF0 <= s[0] <= 0xF4 && IsTail(s, 1) && IsTail(s, 2) && IsTail(s, 3) && NotOverlong(s[0], s[1]) then 4
    else 0
  }

  /** The second byte rules out overlong forms, surrogates and values above 0x10FFFF. */
  predicate NotOverlong(first: byte, second: byte) {
    && (first == 0xE0 ==> second >= 0xA0) && (first == 0xED ==> second <= 0x9F)
    && (first == 0xF0 ==> second >= 0x90) && (first == 0xF4 ==> second <= 0x8F)
  }

  predicate Utf8(s: bytes)
    decreases |s|
  {
    s == [] || (CharSize(s) > 0 && Utf8(s[CharSize(s)..]))
  }

  lemma CharSizeLocal(a: bytes, b: bytes)
    requires CharSize(a) > 0
    ensures CharSize(a + b) == CharSize(a)
  {
    var s := a + b;
    assert forall i :: 0 <= i < |a| ==> s[i] == a[i];
  }

  /** Behind a well-formed text, what follows decides. */
  lemma {:induction false} Utf8Append(a: bytes, b: bytes)
    requires Utf8(a)
    ensures Utf8(a + b) <==> Utf8(b)
    decreases |a|
  {
    hide CharSize;
    if a == [] {
      assert a + b == b;
    } else {
      var n := CharSize(a);
      CharSizeLocal(a, b);
      assert (a + b)[n..] == a[n..] + b;
      Utf8Append(a[n..], b);
    }
  }

  lemma {:induction false} AsciiIsUtf8(s: bytes)
    requires forall i :: 0 <= i < |s| ==> s[i] < 0x80
    ensures Utf8(s)
  {
    if s == [] {
    } else {
      AsciiIsUtf8(s[1..]);
    }
  }

  /** Bytes that no well-formed text contains. */
  predicate Forbidden(b: byte) {
    b == 0xC0 || b == 0xC1 || b >= 0xF5
  }

  lemma CharAllowed(s: bytes, i: nat)
    requires i < CharSize(s)
    ensures !Forbidden(s[i])
  {
  }

  lemma {:induction false} ForbiddenByte(s: bytes, i: nat)
    requires i < |s| && Forbidden(s[i])
    ensures !Utf8(s)
    decreases |s|
  {
    hide CharSize;
    var n := CharSize(s);
    if n > 0 {
      if i < n {
        CharAllowed(s, i);
      } else {
        assert s[n..][i - n] == s[i];
        ForbiddenByte(s[n..], i - n);
      }
    }
  }

  // ------------------------------------------------ section 3 of RFC 3629

  /** A Unicode scalar value: a code point that is no surrogate. */
  predicate Scalar(c: nat) {
    c <= 0xD7FF || 0xE000 <= c <= 0x10FFFF
  }

  /** The octets of one character: the bits of its number, six to a byte behind the first. */
  function Encoded(c: nat): (s: bytes)
    requires Scalar(c)
    ensures 1 <= |s| <= 4
  {
    if c < 0x80 then [c]
    else if c < 0x800 then [0xC0 + c / 0x40, 0x80 + c % 0x40]
    else if c < 0x1_0000 then [0xE0 + c / 0x1000, 0x80 + c / 0x40 % 0x40, 0x80 + c % 0x40]
    else [0xF0 + c / 0x4_0000, 0x80 + c / 0x1000 % 0x40, 0x80 + c / 0x40 % 0x40, 0x80 + c % 0x40]
  }

  function EncodedAll(cs: seq<nat>): bytes
    requires forall i :: 0 <= i < |cs| ==> Scalar(cs[i])
  {
    if cs == [] then [] else Encoded(cs[0]) + EncodedAll(cs[1..])
  }

  /** The number of the character at the front of `s`. */
  function Decoded(s: bytes): (c: nat)
    requires CharSize(s) > 0
  {
    var first: nat := s[0];
    if CharSize(s) == 1 then first
    else if CharSize(s) == 2 then Sextets(0, 0, first - 0xC0, Tail(s, 1))
    else if CharSize(s) == 3 then Sextets(0, first - 0xE0, Tail(s, 1), Tail(s, 2))
    else Sextets(first - 0xF0, Tail(s, 1), Tail(s, 2), Tail(s, 3))
  }

  /** The six bits of a tail byte. */
  function Tail(s: bytes, i: nat): (v: nat)
    requires IsTail(s, i)
    ensures v < 0x40 && s[i] == 0x80 + v
  {
    s[i] as nat - 0x80
  }

  function Sextets(p: nat, q: nat, r: nat, t: nat): nat {
    ((p * 0x40 + q) * 0x40 + r) * 0x40 + t
  }

  lemma SextetsApart(p: nat, q: nat, r: nat, t: nat)
    requires q < 0x40 && r < 0x40 && t < 0x40
    ensures var c := Sextets(p, q, r, t);
            c / 0x4_0000 == p && c / 0x1000 % 0x40 == q && c / 0x40 % 0x40 == r && c % 0x40 == t
            && c / 0x40 == (p * 0x40 + q) * 0x40 + r && c / 0x1000 == p * 0x40 + q
  {
    var c := Sextets(p, q, r, t);
    DivModUnique(c, 0x40, (p * 0x40 + q) * 0x40 + r, t);
    DivModUnique(c / 0x40, 0x40, p * 0x40 + q, r);
    DivModUnique(c / 0x1000, 0x40, p, q);
  }

  lemma EncodedThree(c: nat)
    requires Scalar(c) && 0x800 <= c < 0x1_0000
    ensures var first, second := 0xE0 + c / 0x1000, 0x80 + c / 0x40 % 0x40; NotOverlong(first, second) && first <= 0xEF
  {
    var q := c / 0x1000;
    assert c / 0x40 % 0x40 == c / 0x40 - 0x40 * q;
  }

  lemma EncodedFour(c: nat)
    requires Scalar(c) && c >= 0x1_0000
    ensures var first, second := 0xF0 + c / 0x4_0000, 0x80 + c / 0x1000 % 0x40;
            NotOverlong(first, second) && first <= 0xF4
  {
    var q := c / 0x4_0000;
    assert c / 0x1000 % 0x40 == c / 0x1000 - 0x40 * q;
  }

  lemma EncodedSize(c: nat)
    requires Scalar(c)
    ensures CharSize(Encoded(c)) == |Encoded(c)|
  {
    if 0x800 <= c < 0x1_0000 {
      EncodedThree(c);
    } else if c >= 0x1_0000 {
      EncodedFour(c);
    }
    hide NotOverlong;
  }

  lemma EncodedIsChar(c: nat, rest: bytes)
    requires Scalar(c)
    ensures CharSize(Encoded(c) + rest) == |Encoded(c)|
  {
    EncodedSize(c);
    hide CharSize, Encoded;
    CharSizeLocal(Encoded(c), rest);
  }

  lemma TwoBytes(s: bytes)
    requires CharSize(s) == 2
    ensures Scalar(Decoded(s)) && Encoded(Decoded(s)) == s[..2]
  {
    SextetsApart(0, 0, s[0] as nat - 0xC0, Tail(s, 1));
  }

  lemma ThreeBytes(s: bytes)
    requires CharSize(s) == 3
    ensures Scalar(Decoded(s)) && Encoded(Decoded(s)) == s[..3]
  {
    SextetsApart(0, s[0] as nat - 0xE0, Tail(s, 1), Tail(s, 2));
  }

  lemma FourBytes(s: bytes)
    requires CharSize(s) == 4
    ensures Scalar(Decoded(s)) && Encoded(Decoded(s)) == s[..4]
  {
    SextetsApart(s[0] as nat - 0xF0, Tail(s, 1), Tail(s, 2), Tail(s, 3));
  }

  lemma CharIsEncoded(s: bytes)
    requires CharSize(s) > 0
    ensures Scalar(Decoded(s)) && Encoded(Decoded(s)) == s[..CharSize(s)]
  {
    var n := CharSize(s);
    if n == 2 {
      TwoBytes(s);
    } else if n == 3 {
      ThreeBytes(s);
    } else if n == 4 {
      FourBytes(s);
    }
  }

  /** `s` is the text of these characters. */
  predicate Spells(cs: seq<nat>, s: bytes) {
    (forall i :: 0 <= i < |cs| ==> Scalar(cs[i])) && EncodedAll(cs) == s
  }

  lemma {:induction false} SpelledIsUtf8(cs: seq<nat>, s: bytes)
    requires Spells(cs, s)
    ensures Utf8(s)
  {
    hide CharSize, Encoded;
    if cs == [] {
    } else {
      var n := |Encoded(cs[0])|;
      assert s[n..] == EncodedAll(cs[1..]);
      SpelledIsUtf8(cs[1..], s[n..]);
      EncodedIsChar(cs[0], s[n..]);
    }
  }

  lemma {:induction false} Utf8IsSpelled(s: bytes) returns (cs: seq<nat>)
    requires Utf8(s)
    ensures Spells(cs, s)
    decreases |s|
  {
    hide CharSize, Encoded, Decoded;
    if s == [] {
      cs := [];
    } else {
      var n := CharSize(s);
      var rest := Utf8IsSpelled(s[n..]);
      CharIsEncoded(s);
      cs := [Decoded(s)] + rest;
      assert cs[1..] == rest && s[..n] + s[n..] == s;
    }
  }

  /** Text is well-formed exactly when it is the encoding of some sequence of characters. */
  lemma Utf8Exactly(s: bytes)
    ensures Utf8(s) <==> exists cs :: Spells(cs, s)
  {
    hide Utf8, Spells;
    if Utf8(s) {
      var cs := Utf8IsSpelled(s);
    }
    if cs :| Spells(cs, s) {
      SpelledIsUtf8(cs, s);
    }
  }
}
