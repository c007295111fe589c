/** Bytes, 64-bit words and the bitwise operators of the source, on natural numbers. */
module Bits {

  /** A `uint8_t`; also one `char` of a `std::string`. */
  type byte = b: int | 0 <= b < 256
  type bytes = seq<byte>

  const TWO_TO_THE_31: nat := 0x8000_0000
  const TWO_TO_THE_32: nat := 0x1_0000_0000
  const TWO_TO_THE_64: nat := 0x1_0000_0000_0000_0000

  type uint64 = v: int | 0 <= v < TWO_TO_THE_64

  /** A C++ `int`. */
  type int32 = v: int | -0x8000_0000 <= v < 0x8000_0000

  datatype Option<+T> = None | Some(value: T) {
    function GetOr(default: T): T {
      if Some? then value else default
    }
  }

  /** The bytes of a string of ASCII characters. */
  function Ascii(s: string): (r: bytes)
    ensures |r| == |s|
  {
    seq(|s|, i requires 0 <= i < |s| => s[i] as int % 256)
  }

  lemma SomeMember(s: set<int>)
    requires s != {}
    ensures exists x: int :: x in s
  {
    NoMembers(s);
  }

  lemma NoMembers(s: set<int>)
    ensures (forall x: int :: x !in s) ==> s == {}
  {
    if forall x: int :: x !in s {
      assert s == {};
    }
  }

  lemma Associative<T>(a: seq<T>, b: seq<T>, c: seq<T>)
    ensures a + (b + c) == a + b + c
  {
  }

  lemma Neutral<T>(a: seq<T>)
    ensures a + [] == a
  {
  }

  /** Two sequences that agree on a prefix and on the part behind it agree on both together. */
  lemma JoinParts(s: bytes, t: bytes, k: nat, n: nat)
    requires k + n <= |s| && k + n <= |t|
    requires s[..k] == t[..k] && s[k..k + n] == t[k..][..n]
    ensures s[..k + n] == t[..k + n]
  {
    assert s[..k + n] == s[..k] + s[k..k + n];
    assert t[..k + n] == t[..k] + t[k..][..n];
  }

  lemma DropTwice<T>(s: seq<T>, k: nat, n: nat)
    requires k + n <= |s|
    ensures s[k..][n..] == s[k + n..]
  {
  }

  /** A buffer into which the next `n` bytes of the stream were written behind the first `k`. */
  lemma Overwritten(before: bytes, after: bytes, chunk: bytes, stream: bytes, k: nat, n: nat)
    requires |before| == |after| && k + n <= |before| && k + n <= |stream| && |chunk| == n
    requires forall i :: 0 <= i < |before| ==> after[i] == if k <= i < k + n then chunk[i - k] else before[i]
    requires before[..k] == stream[..k] && chunk == stream[k..][..n]
    ensures after[..k + n] == stream[..k + n]
    ensures forall j :: k + n <= j <= |before| ==> after[j..] == before[j..]
  {
    assert after[..k] == before[..k];
    assert after[k..k + n] == chunk;
    JoinParts(after, stream, k, n);
  }

  /** `es` occurs in `q`, in this order, possibly with other elements between. */
  predicate Woven<T(==)>(es: seq<T>, q: seq<T>) {
    es == []
    || (q != [] && Woven(es, q[..|q| - 1]))
    || (q != [] && q[|q| - 1] == es[|es| - 1] && Woven(es[..|es| - 1], q[..|q| - 1]))
  }

  lemma {:induction false} WovenMore<T>(es: seq<T>, q: seq<T>, more: seq<T>)
    requires Woven(es, q)
    ensures Woven(es, q + more)
  {
    if more == [] {
      Neutral(q);
    } else {
      var n := |more| - 1;
      WovenMore(es, q, more[..n]);
      assert (q + more)[..|q + more| - 1] == q + more[..n];
    }
  }

  lemma WovenSnoc<T>(es: seq<T>, q: seq<T>, e: T)
    requires Woven(es, q)
    ensures Woven(es + [e], q + [e])
  {
    assert (es + [e])[..|es|] == es && (q + [e])[..|q|] == q;
  }

  /** The last of the woven elements, and where the others are. */
  lemma {:induction false} WovenLast<T>(es: seq<T>, q: seq<T>) returns (k: nat)
    requires es != [] && Woven(es, q)
    ensures k < |q| && q[k] == es[|es| - 1] && Woven(es[..|es| - 1], q[..k])
  {
    var n := |q| - 1;
    if Woven(es, q[..n]) {
      k := WovenLast(es, q[..n]);
      assert q[..n][..k] == q[..k];
    } else {
      k := n;
    }
  }

  function Pow2(n: nat): (p: nat)
    ensures p > 0
  {
    if n == 0 then 1 else 2 * Pow2(n - 1)
  }

  function Or(a: nat, b: nat): nat
    decreases a + b
  {
    if a == 0 && b == 0 then 0
    else 2 * Or(a / 2, b / 2) + (if a % 2 == 1 || b % 2 == 1 then 1 else 0)
  }

  function And(a: nat, b: nat): nat
    decreases a + b
  {
    if a == 0 && b == 0 then 0
    else 2 * And(a / 2, b / 2) + (if a % 2 == 1 && b % 2 == 1 then 1 else 0)
  }

  function Xor(a: nat, b: nat): nat
    decreases a + b
  {
    if a == 0 && b == 0 then 0
    else 2 * Xor(a / 2, b / 2) + (if a % 2 != b % 2 then 1 else 0)
  }

  /** Bit `k` of `x`. */
  predicate Bit(x: nat, k: nat) {
    x / Pow2(k) % 2 == 1
  }

  lemma BitStep(x: nat, k: nat)
    ensures Bit(x, 0) <==> x % 2 == 1
    ensures Bit(x, k + 1) <==> Bit(x / 2, k)
  {
    assert Pow2(0) == 1 && Pow2(k + 1) == 2 * Pow2(k);
    Halve(x, Pow2(k));
  }

  /** What each operator does to every single bit. */
  lemma {:induction false} BitwiseMeaning(a: nat, b: nat, k: nat)
    ensures Bit(Or(a, b), k) <==> Bit(a, k) || Bit(b, k)
    ensures Bit(And(a, b), k) <==> Bit(a, k) && Bit(b, k)
    ensures Bit(Xor(a, b), k) <==> Bit(a, k) != Bit(b, k)
    decreases k
  {
    hide Bit, Pow2;
    BitwiseHalves(a, b);
    if k == 0 {
      BitStep(a, 0);
      BitStep(b, 0);
      BitStep(Or(a, b), 0);
      BitStep(And(a, b), 0);
      BitStep(Xor(a, b), 0);
    } else {
      BitStep(a, k - 1);
      BitStep(b, k - 1);
      BitStep(Or(a, b), k - 1);
      BitStep(And(a, b), k - 1);
      BitStep(Xor(a, b), k - 1);
      BitwiseMeaning(a / 2, b / 2, k - 1);
    }
  }

  lemma BitwiseHalves(a: nat, b: nat)
    ensures Or(a, b) / 2 == Or(a / 2, b / 2) && (Or(a, b) % 2 == 1 <==> a % 2 == 1 || b % 2 == 1)
    ensures And(a, b) / 2 == And(a / 2, b / 2) && (And(a, b) % 2 == 1 <==> a % 2 == 1 && b % 2 == 1)
    ensures Xor(a, b) / 2 == Xor(a / 2, b / 2) && (Xor(a, b) % 2 == 1 <==> a % 2 != b % 2)
  {
  }

  /** `x << n` on a `uint64_t`: bits shifted past bit 63 are lost. */
  function Shl64(x: nat, n: nat): uint64 {
    x * Pow2(n) % TWO_TO_THE_64
  }

  /** `x >> n`. */
  function Shr(x: nat, n: nat): nat {
    if n == 0 then x else Shr(x / 2, n - 1)
  }

  /** `static_cast<int>` of an unsigned value: the low 32 bits, read as two's complement. */
  function ToInt32(x: nat): (r: int32)
    ensures x < TWO_TO_THE_31 ==> r == x
  {
    var low := x % TWO_TO_THE_32;
    if low < TWO_TO_THE_31 then low else low - TWO_TO_THE_32
  }

  /** The cast keeps the value modulo 2^32. */
  lemma ToInt32Congruent(x: nat)
    ensures (x - ToInt32(x)) % 0x1_0000_0000 == 0
  {
    DivMod(x, 0x1_0000_0000);
    var q := x / 0x1_0000_0000;
    assert x - ToInt32(x) == (if x % 0x1_0000_0000 < 0x8000_0000 then q else q + 1) * 0x1_0000_0000;
  }

  /** `static_cast<uint64_t>` of an `int`. */
  function ToUInt64(x: int32): uint64 {
    if x < 0 then TWO_TO_THE_64 + x else x
  }

  lemma Pow2Values()
    ensures Pow2(1) == 2 && Pow2(3) == 8 && Pow2(6) == 64 && Pow2(7) == 128 && Pow2(8) == 256
    ensures Pow2(12) == 4096 && Pow2(16) == 0x1_0000 && Pow2(18) == 0x4_0000 && Pow2(24) == 0x100_0000
    ensures Pow2(32) == TWO_TO_THE_32 && Pow2(63) == 0x8000_0000_0000_0000 && Pow2(64) == TWO_TO_THE_64
  {
    assert Pow2(1) == 2 * Pow2(0) && Pow2(2) == 2 * Pow2(1) && Pow2(3) == 2 * Pow2(2);
    assert Pow2(64) == 2 * Pow2(63);
    hide Pow2;
    Pow2Add(3, 3);
    Pow2Add(1, 6);
    Pow2Add(1, 7);
    Pow2Add(8, 8);
    Pow2Add(8, 16);
    Pow2Add(16, 16);
    Pow2Add(32, 32);
    Pow2Add(6, 6);
    Pow2Add(6, 12);
  }

  lemma {:induction false} Pow2Add(a: nat, b: nat)
    ensures Pow2(a + b) == Pow2(a) * Pow2(b)
  {
    if a == 0 {
    } else {
      Pow2Add(a - 1, b);
      assert Pow2(a + b) == 2 * Pow2(a - 1 + b);
    }
  }

  lemma Pow2Monotone(a: nat, b: nat)
    requires a <= b
    ensures Pow2(a) <= Pow2(b)
    decreases b
  {
    if a < b { Pow2Monotone(a, b - 1); }
  }

  /** OR of bits that do not overlap is a sum. */
  lemma {:induction false} OrDisjoint(low: nat, high: nat, n: nat)
    requires low < Pow2(n)
    ensures Or(low, high * Pow2(n)) == low + high * Pow2(n)
    ensures Or(high * Pow2(n), low) == low + high * Pow2(n)
    decreases n, high
  {
    if n == 0 {
      if high != 0 {
        OrDisjoint(0, high / 2, 0);
      }
    } else {
      var h := high * Pow2(n - 1);
      assert high * Pow2(n) == 2 * h;
      OrDisjoint(low / 2, high, n - 1);
    }
  }

  /** Shifting right by n divides by 2^n. */
  lemma {:induction false} ShrDivides(x: nat, n: nat)
    ensures Shr(x, n) == x / Pow2(n)
  {
    if n == 0 {
    } else {
      ShrDivides(x / 2, n - 1);
      assert Shr(x, n) == Shr(x / 2, n - 1) && Pow2(n) == 2 * Pow2(n - 1);
      hide Shr, Pow2;
      Halve(x, Pow2(n - 1));
    }
  }

  /** OR of two bytes next to each other, and so on upwards. */
  lemma OrAt(low: nat, high: nat)
    ensures low < 0x100 ==> Or(high * 0x100, low) == high * 0x100 + low
    ensures low < 0x1_0000 ==> Or(high * 0x1_0000, low) == high * 0x1_0000 + low
    ensures low < 0x100_0000 ==> Or(high * 0x100_0000, low) == high * 0x100_0000 + low
  {
    hide Or, Pow2;
    Pow2Values();
    if low < 0x100 { OrDisjoint(low, high, 8); }
    if low < 0x1_0000 { OrDisjoint(low, high, 16); }
    if low < 0x100_0000 { OrDisjoint(low, high, 24); }
  }

  lemma ShlByte(b: byte)
    ensures Shl64(b, 8) == b * 0x100 && Shl64(b, 16) == b * 0x1_0000 && Shl64(b, 24) == b * 0x100_0000
  {
    hide Pow2;
    Pow2Values();
  }

  lemma AndZero(a: nat)
    ensures And(a, 0) == 0
  {
  }

  lemma AndStep(a: nat, b: nat)
    requires b > 0
    ensures And(a, b) == 2 * And(a / 2, b / 2) + (if a % 2 == 1 && b % 2 == 1 then 1 else 0)
  {
  }

  /** Masking with n ones is reduction modulo 2^n. */
  lemma {:induction false} AndMask(a: nat, n: nat)
    ensures And(a, Pow2(n) - 1) == a % Pow2(n)
    decreases n, a
  {
    hide And;
    if n == 0 {
      AndZero(a);
    } else {
      var p := Pow2(n - 1);
      assert Pow2(n) == 2 * p;
      hide Pow2;
      AndMask(a / 2, n - 1);
      AndStep(a, 2 * p - 1);
      assert (2 * p - 1) / 2 == p - 1 && (2 * p - 1) % 2 == 1;
      Halve(a, p);
    }
  }

  /** Masking with a single one tests that bit. */
  lemma {:induction false} AndPow2(a: nat, n: nat)
    requires a < 2 * Pow2(n)
    ensures And(a, Pow2(n)) == if a >= Pow2(n) then Pow2(n) else 0
    decreases n
  {
    if n == 0 {
      assert And(0, 0) == 0;
    } else {
      AndPow2(a / 2, n - 1);
    }
  }

  /** Dividing by 2p is halving and dividing by p. */
  lemma Halve(a: nat, p: nat)
    requires p > 0
    ensures a / (2 * p) == a / 2 / p && a % (2 * p) == 2 * (a / 2 % p) + a % 2
  {
    var h := a / 2;
    var q, r := h / p, h % p;
    DivMod(h, p);
    assert a == 2 * h + a % 2;
    MulRegroup(2, q, p);
    DivModUnique(a, 2 * p, q, 2 * r + a % 2);
  }

  lemma DivMod(a: nat, d: nat)
    requires d > 0
    ensures a == (a / d) * d + a % d && a % d < d
  {
  }

  lemma MulRegroup(k: nat, q: nat, p: nat)
    ensures k * (q * p) == q * (k * p) == (k * q) * p
  {
  }

  lemma MulDistributes(a: nat, b: nat, c: nat)
    ensures (a + b) * c == a * c + b * c && c * (a + b) == c * a + c * b
  {
  }

  lemma MulMonotone(a: nat, b: nat, c: nat)
    requires a <= b
    ensures a * c <= b * c
  {
  }

  lemma DivModUnique(a: nat, d: nat, q: nat, r: nat)
    requires d > 0 && r < d && a == q * d + r
    ensures a / d == q && a % d == r
  {
    var q', r' := a / d, a % d;
    DivMod(a, d);
    if q < q' {
      MulMonotone(q + 1, q', d);
      MulDistributes(q, 1, d);
    } else if q' < q {
      MulMonotone(q' + 1, q, d);
      MulDistributes(q', 1, d);
    }
  }

  lemma XorStep(a: nat, b: nat)
    ensures Xor(0, 0) == 0
    ensures Xor(a, b) == 2 * Xor(a / 2, b / 2) + (if a % 2 != b % 2 then 1 else 0)
  {
  }

  lemma {:induction false} XorSelfInverse(a: nat, b: nat)
    ensures Xor(Xor(a, b), b) == a
    decreases a + b
  {
    if a == 0 && b == 0 {
    } else {
      XorSelfInverse(a / 2, b / 2);
      var x := Xor(a, b);
      assert x / 2 == Xor(a / 2, b / 2);
    }
  }

  lemma {:induction false} XorBound(a: nat, b: nat, n: nat)
    requires a < Pow2(n) && b < Pow2(n)
    ensures Xor(a, b) < Pow2(n)
    decreases n
  {
    if n == 0 {
    } else {
      XorBound(a / 2, b / 2, n - 1);
    }
  }

  /** The XOR of two bytes is a byte. */
  function XorByte(a: byte, b: byte): (r: byte)
    ensures Xor(r, b) == a
  {
    Pow2Values();
    XorBound(a, b, 8);
    XorSelfInverse(a, b);
    Xor(a, b)
  }

  // ------------------------------------------------------- big-endian lengths

  /** `v` in `k` bytes, most significant first; higher bits are dropped. */
  function BigEndian(v: nat, k: nat): (s: bytes)
    ensures |s| == k
  {
    if k == 0 then [] else BigEndian(v / 256, k - 1) + [v % 256]
  }

  function FromBigEndian(s: bytes): nat {
    if s == [] then 0 else FromBigEndian(s[..|s| - 1]) * 256 + s[|s| - 1] as nat
  }

  lemma Pow2Eight(n: nat)
    ensures Pow2(8 * (n + 1)) == 256 * Pow2(8 * n)
  {
    Pow2Add(8, 8 * n);
    assert Pow2(8) == 256 by { Pow2Values(); }
  }

  lemma {:induction false} BigEndianRoundTrip(v: nat, k: nat)
    requires v < Pow2(8 * k)
    ensures FromBigEndian(BigEndian(v, k)) == v
  {
    hide Pow2;
    if k == 0 {
      assert Pow2(8 * 0) == 1 by { Pow2Eight(0); Pow2Values(); }
    } else {
      Pow2Eight(k - 1);
      BigEndianRoundTrip(v / 256, k - 1);
      assert BigEndian(v, k)[..k - 1] == BigEndian(v / 256, k - 1);
    }
  }

  lemma {:induction false} FromBigEndianBound(s: bytes)
    ensures FromBigEndian(s) < Pow2(8 * |s|)
  {
    if s == [] {
    } else {
      Pow2Eight(|s| - 1);
      FromBigEndianBound(s[..|s| - 1]);
    }
  }

  lemma ShrZero(x: nat)
    ensures Shr(x, 0) == x
  {
  }

  /** Byte `i` of the big-endian form is the value shifted right, cut to eight bits. */
  lemma {:induction false} BigEndianByte(v: nat, k: nat, i: nat)
    requires i < k
    ensures And(Shr(v, 8 * (k - 1 - i)), 0xFF) == BigEndian(v, k)[i] == Shr(v, 8 * (k - 1 - i)) % 256
  {
    hide And, Pow2;
    assert Pow2(8) == 256 by { Pow2Values(); }
    if i == k - 1 {
      AndMask(v, 8);
      assert Shr(v, 0) == v;
    } else {
      BigEndianByte(v / 256, k - 1, i);
      ShrEight(v, 8 * (k - 2 - i));
    }
  }

  lemma ShrEight(v: nat, n: nat)
    ensures Shr(v, n + 8) == Shr(v / 256, n)
  {
    assert Shr(v, n + 8) == Shr(v / 2, n + 7) == Shr(v / 2 / 2, n + 6) == Shr(v / 2 / 2 / 2, n + 5)
        == Shr(v / 2 / 2 / 2 / 2, n + 4);
    var w := v / 2 / 2 / 2 / 2;
    assert Shr(w, n + 4) == Shr(w / 2, n + 3) == Shr(w / 2 / 2, n + 2) == Shr(w / 2 / 2 / 2, n + 1)
        == Shr(w / 2 / 2 / 2 / 2, n);
  }

  /** Gathering bytes with shifts and ORs, as the source does, yields the big-endian value. */
  lemma OrByte(high: nat, low: byte)
    requires high < 0x100_0000_0000_0000
    ensures Or(Shl64(high, 8), low) == high * 256 + low
  {
    hide Or, Pow2;
    assert Pow2(8) == 256 by { Pow2Values(); }
    OrDisjoint(low, high, 8);
  }
}
