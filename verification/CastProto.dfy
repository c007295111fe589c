/** The hand-written protobuf codec of the Chromecast module (CastProto.cpp). */
module CastProto {
  import opened Bits

  datatype CastMessage = CastMessage(
    sourceId: bytes, destinationId: bytes, namespaceUri: bytes, payloadUtf8: bytes)

  const EMPTY_MESSAGE := CastMessage([], [], [], [])
  const MAX_VARINT_BYTES: nat := 10

  // ---------------------------------------------------------------- varints

  /** The canonical Base 128 encoding of `v`: seven bits a byte, low group first. */
  function Varint(v: uint64): bytes {
    if v <= 0x7F then [v] else [v % 128 + 128] + Varint(v / 128)
  }

  /** The value of a run of seven-bit groups, continuation bits ignored. */
  function GroupSum(s: bytes): nat {
    if s == [] then 0 else s[0] % 128 + 128 * GroupSum(s[1..])
  }

  /** `s` holds a varint of exactly `n` bytes at its front. */
  predicate EndsAt(s: bytes, n: nat) {
    && 1 <= n <= MAX_VARINT_BYTES && n <= |s|
    && s[n - 1] < 128
    && forall i :: 0 <= i < n - 1 ==> s[i] >= 128
  }

  /** The length of the varint at the front of `s`, looking at no more than `limit` bytes. */
  function VarintLength(s: bytes, limit: nat): Option<nat>
    decreases limit
  {
    if limit == 0 || s == [] then None
    else if s[0] < 128 then Some(1)
    else
      match VarintLength(s[1..], limit - 1)
      case None => None
      case Some(n) => Some(n + 1)
  }

  lemma {:induction false} VarintLengthMeaning(s: bytes, limit: nat)
    ensures var r := VarintLength(s, limit);
            match r
            case Some(n) =>
              && 1 <= n <= limit && n <= |s| && s[n - 1] < 128
              && forall i :: 0 <= i < n - 1 ==> s[i] >= 128
            case None => forall i :: 0 <= i < limit && i < |s| ==> s[i] >= 128
    decreases limit
  {
    if limit == 0 || s == [] {
    } else {
      VarintLengthMeaning(s[1..], limit - 1);
      assert forall i :: 1 <= i < |s| ==> s[i] == s[1..][i - 1];
    }
  }

  /** What readVarint finds at the front of `s`: the value, and how many bytes it takes. */
  function VarintAt(s: bytes): (r: Option<(uint64, nat)>)
    ensures r.Some? ==> EndsAt(s, r.value.1)
  {
    VarintLengthMeaning(s, MAX_VARINT_BYTES);
    match VarintLength(s, MAX_VARINT_BYTES)
    case None => None
    case Some(n) => Some((GroupSum(s[..n]) % TWO_TO_THE_64, n))
  }

  lemma VarintAtEnd(s: bytes, n: nat)
    requires EndsAt(s, n)
    ensures VarintAt(s) == Some((GroupSum(s[..n]) % TWO_TO_THE_64, n))
  {
    VarintLengthMeaning(s, MAX_VARINT_BYTES);
  }

  /** readVarint accepts exactly when a byte without continuation bit is among the first ten. */
  lemma VarintAcceptance(s: bytes)
    ensures VarintAt(s).Some? <==> exists k :: 0 <= k < MAX_VARINT_BYTES && k < |s| && s[k] < 128
  {
    VarintLengthMeaning(s, MAX_VARINT_BYTES);
    if VarintAt(s).Some? {
      var n := VarintAt(s).value.1;
      assert s[n - 1] < 128;
    }
  }

  lemma Pow2Seven(n: nat)
    ensures Pow2(7 * (n + 1)) == 128 * Pow2(7 * n)
  {
    Pow2Add(7, 7 * n);
    assert Pow2(7) == 128 by { Pow2Values(); }
  }

  lemma Distribute(k: nat, x: nat, p: nat, g: nat)
    ensures k * (x + p * g) == k * x + (k * p) * g
  {
  }

  lemma {:induction false} GroupSumAppend(s: bytes, b: byte)
    ensures GroupSum(s + [b]) == GroupSum(s) + Pow2(7 * |s|) * (b % 128)
  {
    if s == [] {
      assert [] + [b] == [b];
      assert GroupSum([b]) == b % 128 + 128 * GroupSum([]);
    } else {
      var tail := s[1..];
      GroupSumAppend(tail, b);
      assert (s + [b])[1..] == tail + [b];
      Pow2Seven(|tail|);
      Distribute(128, GroupSum(tail), Pow2(7 * |tail|), b % 128);
    }
  }

  lemma {:induction false} GroupSumBound(s: bytes)
    ensures GroupSum(s) < Pow2(7 * |s|)
  {
    if s == [] {
    } else {
      GroupSumBound(s[1..]);
      Pow2Seven(|s[1..]|);
    }
  }

  lemma SplitProduct(g: nat, p: nat, q: nat)
    requires 0 < q
    ensures g * p == p * g == (g / q) * (p * q) + (g % q) * p
  {
    var k, r := g / q, g % q;
    DivMod(g, q);
    MulDistributes(k * q, r, p);
    MulRegroup(k, q, p);
  }

  lemma LowPart(acc: nat, r: nat, p: nat, q: nat)
    requires r < q && acc < p
    ensures acc + r * p < p * q
  {
    MulMonotone(r + 1, q, p);
    MulDistributes(r, 1, p);
  }

  /** Shifting `g` up by `p` in a word of size `p * q` keeps its low part. */
  lemma SplitShift(acc: nat, g: nat, p: nat, q: nat)
    requires 0 < q && acc < p
    ensures p * q > 0 && g * p % (p * q) == (g % q) * p
    ensures (acc + p * g) % (p * q) == acc + (g % q) * p
  {
    var k, r, w, low := g / q, g % q, p * q, (g % q) * p;
    SplitProduct(g, p, q);
    LowPart(acc, r, p, q);
    LowPart(0, r, p, q);
    DivModUnique(g * p, w, k, low);
    DivModUnique(acc + p * g, w, k, acc + low);
  }

  lemma Pow2Halves64(shift: nat)
    requires shift < 64
    ensures Pow2(shift) * Pow2(64 - shift) == TWO_TO_THE_64
  {
    hide Pow2;
    Pow2Values();
    Pow2Add(shift, 64 - shift);
  }

  /** Or-ing a group in at `shift` adds it, and drops the bits past bit 63. */
  lemma OrGroup(acc: nat, g: nat, shift: nat)
    requires shift < 64 && acc < Pow2(shift)
    ensures Or(acc, Shl64(g, shift)) == (acc + Pow2(shift) * g) % TWO_TO_THE_64
  {
    hide Or, Pow2;
    var p, q := Pow2(shift), Pow2(64 - shift);
    Pow2Halves64(shift);
    assert Shl64(g, shift) == g * p % TWO_TO_THE_64;
    hide Shl64;
    SplitShift(acc, g, p, q);
    OrDisjoint(acc, g % q, shift);
  }

  method WriteVarint(buf: bytes, v: uint64) returns (out: bytes)
    ensures out == buf + Varint(v)
  {
    hide And, Or, Shr, Pow2;
    Pow2Values();
    out := buf;
    var rest: uint64 := v;
    while rest > 0x7F
      invariant out + Varint(rest) == buf + Varint(v)
    {
      AndMask(rest, 7);
      OrDisjoint(rest % 128, 1, 7);
      ShrDivides(rest, 7);
      out := out + [Or(And(rest, 0x7F), 0x80)];
      rest := Shr(rest, 7);
    }
    out := out + [rest];
  }

  /** One turn of the reading loop: the group of `b` is or-ed in above the groups of `s`. */
  lemma ReadGroup(s: bytes, b: byte)
    requires |s| < MAX_VARINT_BYTES
    ensures And(b, 0x7F) == b % 128
    ensures And(b, 0x80) == 0 <==> b < 128
    ensures Or(GroupSum(s), Shl64(b % 128, 7 * |s|)) == GroupSum(s + [b]) % TWO_TO_THE_64
    ensures |s| < 9 ==> GroupSum(s + [b]) < TWO_TO_THE_64
  {
    assert Pow2(7) == 128 && Pow2(63) < TWO_TO_THE_64 by { Pow2Values(); }
    AndMask(b, 7);
    AndPow2(b, 7);
    GroupSumBound(s);
    GroupSumAppend(s, b);
    OrGroup(GroupSum(s), b % 128, 7 * |s|);
    if |s| < 9 {
      GroupSumBound(s + [b]);
      Pow2Monotone(7 * |s + [b]|, 63);
    }
  }

  /** The same for the byte the loop has come to. */
  lemma ReadTurn(s: bytes, n: nat)
    requires n < |s| && n < MAX_VARINT_BYTES
    ensures And(s[n], 0x80) == 0 <==> s[n] < 128
    ensures Or(GroupSum(s[..n]), Shl64(And(s[n], 0x7F), 7 * n)) == GroupSum(s[..n + 1]) % TWO_TO_THE_64
    ensures n < 9 ==> GroupSum(s[..n + 1]) < TWO_TO_THE_64
  {
    hide Or, And, Shl64, GroupSum;
    ReadGroup(s[..n], s[n]);
    assert s[..n] + [s[n]] == s[..n + 1];
  }

  lemma NoGroups()
    ensures GroupSum([]) == 0
  {
  }

  method ReadVarint(data: bytes, start: nat) returns (ok: bool, pos: nat, out: uint64)
    requires start <= |data|
    ensures start <= pos <= |data|
    ensures ok <==> VarintAt(data[start..]).Some?
    ensures ok ==> VarintAt(data[start..]) == Some((out, pos - start))
  {
    hide Or, And, Shl64, Pow2, VarintLength, VarintAt, GroupSum;
    NoGroups();
    out := 0;
    pos := start;
    var shift := 0;
    ghost var s := data[start..];
    while pos < |data|
      invariant start <= pos <= |data|
      invariant shift == 7 * (pos - start) < 64
      invariant forall i :: 0 <= i < pos - start ==> s[i] >= 128
      invariant out == GroupSum(s[..pos - start])
    {
      var b := data[pos];
      ghost var n := pos - start;
      assert b == s[n];
      ReadTurn(s, n);
      pos := pos + 1;
      out := Or(out, Shl64(And(b, 0x7F), shift));
      if And(b, 0x80) == 0 {
        VarintAtEnd(s, n + 1);
        return true, pos, out;
      }
      shift := shift + 7;
      if shift >= 64 {
        VarintAcceptance(s);
        return false, pos, out;
      }
    }
    VarintAcceptance(s);
    ok := false;
  }

  lemma VarintStep(v: uint64)
    ensures Varint(v) == if v <= 0x7F then [v] else [v % 128 + 128] + Varint(v / 128)
  {
  }

  lemma GroupSumCons(b: byte, tail: bytes)
    ensures GroupSum([b] + tail) == b % 128 + 128 * GroupSum(tail)
    ensures GroupSum([]) == 0
  {
    assert ([b] + tail)[1..] == tail;
  }

  lemma {:induction false} VarintShape(v: uint64, k: nat)
    requires v < Pow2(7 * k) && 1 <= k
    ensures 1 <= |Varint(v)| <= k
    ensures Varint(v)[|Varint(v)| - 1] < 128
    ensures forall i :: 0 <= i < |Varint(v)| - 1 ==> Varint(v)[i] >= 128
    ensures GroupSum(Varint(v)) == v
    decreases k
  {
    hide Pow2, Varint, GroupSum;
    VarintStep(v);
    if v > 0x7F {
      Pow2Seven(k - 1);
      assert Pow2(7 * 0) == 1 by { Pow2Seven(0); Pow2Values(); }
      VarintShape(v / 128, k - 1);
      GroupSumCons(v % 128 + 128, Varint(v / 128));
    } else {
      GroupSumCons(v, []);
      assert [v] + [] == [v];
    }
  }

  /** readVarint inverts writeVarint on every 64-bit value, whatever follows it. */
  lemma VarintRoundTrip(v: uint64, rest: bytes)
    ensures 1 <= |Varint(v)| <= MAX_VARINT_BYTES
    ensures VarintAt(Varint(v) + rest) == Some((v, |Varint(v)|))
  {
    hide Varint, VarintAt, GroupSum, Pow2;
    Pow2Values();
    Pow2Monotone(64, 70);
    VarintShape(v, 10);
    assert (Varint(v) + rest)[..|Varint(v)|] == Varint(v);
    VarintAtEnd(Varint(v) + rest, |Varint(v)|);
  }

  /** No encoded varint is a prefix of another one. */
  lemma VarintPrefixFree(a: uint64, b: uint64)
    requires Varint(a) <= Varint(b)
    ensures a == b
  {
    var rest := Varint(b)[|Varint(a)|..];
    assert Varint(a) + rest == Varint(b) == Varint(b) + [];
    VarintRoundTrip(a, rest);
    VarintRoundTrip(b, []);
  }

  /** writeVarint picks a shortest form among all those readVarint maps to the same value. */
  lemma VarintShortest(s: bytes)
    requires VarintAt(s).Some?
    ensures |Varint(VarintAt(s).value.0)| <= VarintAt(s).value.1 <= MAX_VARINT_BYTES
  {
    assert VarintAt(s).value.1 <= MAX_VARINT_BYTES && VarintAt(s).value.1 <= |s|;
    hide Varint, VarintAt, VarintLength, GroupSum, Pow2, EndsAt;
    var (v, n) := VarintAt(s).value;
    VarintRoundTrip(v, []);
    VarintAtEnd(s, n);
    if n < 10 {
      GroupSumBound(s[..n]);
      SmallVarint(GroupSum(s[..n]), n);
    }
  }

  lemma SmallVarint(g: nat, n: nat)
    requires 1 <= n < MAX_VARINT_BYTES && g < Pow2(7 * n)
    ensures g < TWO_TO_THE_64 && g % TWO_TO_THE_64 == g && |Varint(g)| <= n
  {
    hide Varint, Pow2, GroupSum;
    assert Pow2(7 * n) < TWO_TO_THE_64 by {
      Pow2Values();
      Pow2Monotone(7 * n, 63);
    }
    VarintShape(g, n);
  }

  // ----------------------------------------------------------------- fields

  datatype Field = VarintValue(num: int32, value: uint64) | StringValue(num: int32, text: bytes)

  predicate Known(f: Field) {
    f.StringValue? && f.num in {2, 3, 4, 6}
  }

  function Apply(m: CastMessage, f: Field): CastMessage {
    if !f.StringValue? then m
    else if f.num == 2 then m.(sourceId := f.text)
    else if f.num == 3 then m.(destinationId := f.text)
    else if f.num == 4 then m.(namespaceUri := f.text)
    else if f.num == 6 then m.(payloadUtf8 := f.text)
    else m
  }

  function LengthDelimitedAt(s: bytes): (r: Option<(bytes, nat)>)
    ensures r.Some? ==> 0 < r.value.1 <= |s|
  {
    match VarintAt(s)
    case None => None
    case Some((len, n)) =>
      if n + len > |s| then None else Some((s[n..n + len], n + len))
  }

  /** The field at the front of `s` and its size. A field number is cut to 32 bits, as in the source. */
  function NextField(s: bytes): (r: Option<(Field, nat)>)
    ensures r.Some? ==> 0 < r.value.1 <= |s|
  {
    match VarintAt(s)
    case None => None
    case Some((tag, n)) =>
      var num := ToInt32(tag / 8);
      if tag % 8 == 0 then
        match VarintAt(s[n..])
        case None => None
        case Some((v, k)) => Some((VarintValue(num, v), n + k))
      else if tag % 8 == 2 then
        match LengthDelimitedAt(s[n..])
        case None => None
        case Some((text, k)) => Some((StringValue(num, text), n + k))
      else None
  }

  /** Decoding `s` on top of what is already in `m`. */
  function DecodeFrom(m: CastMessage, s: bytes): Option<CastMessage>
    decreases |s|
  {
    if s == [] then Some(m)
    else
      match NextField(s)
      case None => None
      case Some((f, n)) => DecodeFrom(Apply(m, f), s[n..])
  }

  lemma TagParts(tag: nat)
    ensures Shr(tag, 3) == tag / 8 && And(tag, 0x7) == tag % 8
  {
    assert Pow2(3) == 8 by { Pow2Values(); }
    AndMask(tag, 3);
    ShrDivides(tag, 3);
  }

  method ReadStringField(data: bytes, start: nat) returns (ok: bool, pos: nat, out: bytes)
    requires start <= |data|
    ensures start <= pos <= |data|
    ensures ok <==> LengthDelimitedAt(data[start..]).Some?
    ensures ok ==> LengthDelimitedAt(data[start..]) == Some((out, pos - start))
  {
    out := [];
    var len;
    ok, pos, len := ReadVarint(data, start);
    if !ok { return; }
    if pos + len > |data| { return false, pos, out; }
    out := data[pos..pos + len];
    assert out == data[start..][pos - start..pos - start + len];
    pos := pos + len;
  }

  method DecodeCastMessage(data: bytes) returns (r: Option<CastMessage>)
    ensures r == DecodeFrom(EMPTY_MESSAGE, data)
  {
    hide And, Shr, Pow2, VarintLength, VarintAt, GroupSum, LengthDelimitedAt, EndsAt;
    var msg := EMPTY_MESSAGE;
    var pos := 0;
    while pos < |data|
      invariant pos <= |data|
      invariant DecodeFrom(msg, data[pos..]) == DecodeFrom(EMPTY_MESSAGE, data)
    {
      ghost var rest := data[pos..];
      ghost var begin := pos;
      var ok, tag;
      ok, pos, tag := ReadVarint(data, pos);
      if !ok { return None; }
      assert data[pos..] == rest[pos - begin..];
      TagParts(tag);
      var fieldNum := ToInt32(Shr(tag, 3));
      var wireType := ToInt32(And(tag, 0x7));
      if wireType == 0 {
        var v;
        ok, pos, v := ReadVarint(data, pos);
        if !ok { return None; }
      } else if wireType == 2 {
        var s;
        ok, pos, s := ReadStringField(data, pos);
        if !ok { return None; }
        match fieldNum {
          case 2 => msg := msg.(sourceId := s);
          case 3 => msg := msg.(destinationId := s);
          case 4 => msg := msg.(namespaceUri := s);
          case 6 => msg := msg.(payloadUtf8 := s);
          case _ =>
        }
      } else {
        return None;
      }
      assert data[pos..] == rest[pos - begin..];
    }
    r := Some(msg);
  }

  // ---------------------------------------------------------------- encoder

  /** Field number and wire type in one word; a negative number is sign-extended to 64 bits first. */
  function Tag(num: int32, wireType: nat): uint64
    requires wireType < 8
  {
    if num >= 0 then num * 8 + wireType else TWO_TO_THE_64 + num * 8 + wireType
  }

  function VarintField(num: int32, v: uint64): bytes {
    Varint(Tag(num, 0)) + Varint(v)
  }

  function StringField(num: int32, s: bytes): bytes
    requires |s| < TWO_TO_THE_64
  {
    Varint(Tag(num, 2)) + Varint(|s|) + s
  }

  function Flatten(parts: seq<bytes>): bytes {
    if parts == [] then [] else parts[0] + Flatten(parts[1..])
  }

  /** A `std::string` never holds 2^64 bytes. */
  predicate Encodable(m: CastMessage) {
    && |m.sourceId| < TWO_TO_THE_64 && |m.destinationId| < TWO_TO_THE_64
    && |m.namespaceUri| < TWO_TO_THE_64 && |m.payloadUtf8| < TWO_TO_THE_64
  }

  function Fields(m: CastMessage): seq<bytes>
    requires Encodable(m)
  {
    [VarintField(1, 0), StringField(2, m.sourceId), StringField(3, m.destinationId),
     StringField(4, m.namespaceUri), VarintField(5, 0), StringField(6, m.payloadUtf8)]
  }

  function Encode(m: CastMessage): bytes
    requires Encodable(m)
  {
    Flatten(Fields(m))
  }

  /** A tag is taken apart again into exactly its two parts. */
  lemma TagRoundTrip(num: int32, wireType: nat)
    requires wireType < 8
    ensures Tag(num, wireType) % 8 == wireType && ToInt32(Tag(num, wireType) / 8) == num
  {
    if num < 0 {
      assert Tag(num, wireType) == (0x2000_0000_0000_0000 + num) * 8 + wireType;
      assert (0x2000_0000_0000_0000 + num) % TWO_TO_THE_32 == TWO_TO_THE_32 + num;
    }
  }

  lemma TagBits(field: int32, wireType: nat)
    requires wireType < 8
    ensures Or(Shl64(ToUInt64(field), 3), wireType) == Tag(field, wireType)
  {
    hide Or, Pow2;
    assert Pow2(3) == 8 by { Pow2Values(); }
    var high := if field < 0 then 0x2000_0000_0000_0000 + field else field;
    assert Shl64(ToUInt64(field), 3) == high * 8;
    OrDisjoint(wireType, high, 3);
  }

  method WriteTag(buf: bytes, field: int32, wireType: nat) returns (out: bytes)
    requires wireType < 8
    ensures out == buf + Varint(Tag(field, wireType))
  {
    TagBits(field, wireType);
    out := WriteVarint(buf, Or(Shl64(ToUInt64(field), 3), wireType));
  }

  method WriteVarintField(buf: bytes, field: int32, v: uint64) returns (out: bytes)
    ensures out == buf + VarintField(field, v)
  {
    out := WriteTag(buf, field, 0);
    out := WriteVarint(out, v);
  }

  method WriteStringField(buf: bytes, field: int32, s: bytes) returns (out: bytes)
    requires |s| < TWO_TO_THE_64
    ensures out == buf + StringField(field, s)
  {
    out := WriteTag(buf, field, 2);
    out := WriteVarint(out, |s|);
    out := out + s;
  }

  method EncodeCastMessage(m: CastMessage) returns (buf: bytes)
    requires Encodable(m)
    ensures buf == Encode(m)
  {
    hide Varint, VarintField, StringField, Flatten;
    buf := WriteVarintField([], 1, 0);
    buf := WriteStringField(buf, 2, m.sourceId);
    buf := WriteStringField(buf, 3, m.destinationId);
    buf := WriteStringField(buf, 4, m.namespaceUri);
    buf := WriteVarintField(buf, 5, 0);
    buf := WriteStringField(buf, 6, m.payloadUtf8);
    FlattenSix(VarintField(1, 0), StringField(2, m.sourceId), StringField(3, m.destinationId),
               StringField(4, m.namespaceUri), VarintField(5, 0), StringField(6, m.payloadUtf8));
  }

  lemma FlattenCons(part: bytes, parts: seq<bytes>)
    ensures Flatten([part] + parts) == part + Flatten(parts) && Flatten([]) == []
  {
    assert ([part] + parts)[1..] == parts;
  }

  lemma FlattenSix(a: bytes, b: bytes, c: bytes, d: bytes, e: bytes, f: bytes)
    ensures Flatten([a, b, c, d, e, f]) == a + b + c + d + e + f
  {
    hide Flatten;
    FlattenCons(f, []);
    assert [f] + [] == [f];
    FlattenCons(e, [f]);
    FlattenCons(d, [e] + [f]);
    FlattenCons(c, [d] + ([e] + [f]));
    FlattenCons(b, [c] + ([d] + ([e] + [f])));
    FlattenCons(a, [b] + ([c] + ([d] + ([e] + [f]))));
    assert [a, b, c, d, e, f] == [a] + ([b] + ([c] + ([d] + ([e] + [f]))));
    JoinSix(a, b, c, d, e, f);
  }

  lemma JoinSix(a: bytes, b: bytes, c: bytes, d: bytes, e: bytes, f: bytes)
    ensures a + (b + (c + (d + (e + (f + []))))) == a + b + c + d + e + f
  {
  }

  lemma SmallVarints(v: nat)
    requires v < 0x4000
    ensures Varint(v) == if v < 128 then [v] else [128 + v % 128, v / 128]
  {
    if v >= 128 {
      assert Varint(v / 128) == [v / 128];
    }
  }

  /** The encoded message, with its six tags as they stand on the wire. */
  lemma EncodeBytes(m: CastMessage)
    requires Encodable(m)
    ensures Encode(m) == [0x08, 0x00]
                       + [0x12] + Varint(|m.sourceId|) + m.sourceId
                       + [0x1A] + Varint(|m.destinationId|) + m.destinationId
                       + [0x22] + Varint(|m.namespaceUri|) + m.namespaceUri
                       + [0x28, 0x00]
                       + [0x32] + Varint(|m.payloadUtf8|) + m.payloadUtf8
  {
    SmallVarints(0);
    SmallVarints(8);
    SmallVarints(18);
    SmallVarints(26);
    SmallVarints(34);
    SmallVarints(40);
    SmallVarints(50);
    hide Varint, Flatten;
    var p, q := VarintField(1, 0), VarintField(5, 0);
    var a, b := StringField(2, m.sourceId), StringField(3, m.destinationId);
    var c, d := StringField(4, m.namespaceUri), StringField(6, m.payloadUtf8);
    FlattenSix(p, a, b, c, q, d);
    hide StringField;
    assert p == [0x08, 0x00] && q == [0x28, 0x00];
    assert Encode(m) == p + a + b + c + q + d;
    StringFieldBytes(2, m.sourceId);
    StringFieldBytes(3, m.destinationId);
    StringFieldBytes(4, m.namespaceUri);
    StringFieldBytes(6, m.payloadUtf8);
    Regrouped(p, [0x12], Varint(|m.sourceId|), m.sourceId);
    Regrouped(p + a, [0x1A], Varint(|m.destinationId|), m.destinationId);
    Regrouped(p + a + b, [0x22], Varint(|m.namespaceUri|), m.namespaceUri);
    Regrouped(p + a + b + c + q, [0x32], Varint(|m.payloadUtf8|), m.payloadUtf8);
  }

  lemma StringFieldBytes(num: int32, s: bytes)
    requires |s| < TWO_TO_THE_64
    ensures StringField(num, s) == Varint(Tag(num, 2)) + Varint(|s|) + s
  {
  }

  lemma Regrouped(x: bytes, a: bytes, b: bytes, c: bytes)
    ensures x + (a + b + c) == x + a + b + c
  {
  }

  // ------------------------------------------------------- laws of the codec

  /** A varint is found from its own bytes alone, and from no strict prefix of them. */
  lemma VarintLocal(s: bytes, t: bytes)
    requires VarintAt(s).Some?
    ensures var n := VarintAt(s).value.1;
            && (n <= |t| && t[..n] == s[..n] ==> VarintAt(t) == VarintAt(s))
            && (|t| < n && t <= s ==> VarintAt(t).None?)
  {
    var n := VarintAt(s).value.1;
    VarintAtEnd(s, n);
    if n <= |t| && t[..n] == s[..n] {
      assert forall i :: 0 <= i < n ==> t[i] == t[..n][i] == s[..n][i] == s[i];
      VarintAtEnd(t, n);
    } else if |t| < n && t <= s {
      VarintAcceptance(t);
    }
  }

  lemma PrefixParts(s: bytes, t: bytes, k: nat, n: nat)
    requires k <= n <= |s| && n <= |t| && t[..n] == s[..n]
    ensures t[..k] == s[..k] && t[k..n] == s[k..n] && t[k..][..n - k] == s[k..][..n - k]
  {
    assert t[..k] == t[..n][..k];
    assert s[..k] == s[..n][..k];
    assert t[k..n] == t[..n][k..] == t[k..][..n - k];
    assert s[k..n] == s[..n][k..] == s[k..][..n - k];
  }

  lemma LengthDelimitedLocal(s: bytes, t: bytes)
    requires LengthDelimitedAt(s).Some?
    ensures var n := LengthDelimitedAt(s).value.1;
            && (n <= |t| && t[..n] == s[..n] ==> LengthDelimitedAt(t) == LengthDelimitedAt(s))
            && (|t| < n && t <= s ==> LengthDelimitedAt(t).None?)
  {
    hide VarintLength, VarintAt, GroupSum, EndsAt;
    var n := LengthDelimitedAt(s).value.1;
    var (len, k) := VarintAt(s).value;
    VarintLocal(s, t);
    if n <= |t| && t[..n] == s[..n] {
      PrefixParts(s, t, k, n);
    } else if |t| < n && t <= s && k <= |t| {
      assert t[..k] == s[..k];
    }
  }

  /** So does a field. */
  lemma FieldLocal(s: bytes, t: bytes)
    requires NextField(s).Some?
    ensures var n := NextField(s).value.1;
            && (n <= |t| && t[..n] == s[..n] ==> NextField(t) == NextField(s))
            && (|t| < n && t <= s ==> NextField(t).None?)
  {
    hide VarintLength, VarintAt, GroupSum, LengthDelimitedAt, EndsAt, ToInt32;
    var n := NextField(s).value.1;
    var (tag, k) := VarintAt(s).value;
    VarintLocal(s, t);
    if k <= |t| {
      if n <= |t| && t[..n] == s[..n] {
        PrefixParts(s, t, k, n);
      } else if |t| < n && t <= s {
        assert t[..k] == s[..k];
        assert t[k..] <= s[k..];
      }
      if tag % 8 == 0 {
        VarintLocal(s[k..], t[k..]);
      } else {
        LengthDelimitedLocal(s[k..], t[k..]);
      }
    }
  }

  /** Decoding is a fold over fields: what follows a decodable input continues from its message. */
  lemma {:induction false} DecodeAppend(m: CastMessage, a: bytes, b: bytes)
    requires DecodeFrom(m, a).Some?
    ensures DecodeFrom(m, a + b) == DecodeFrom(DecodeFrom(m, a).value, b)
    decreases |a|
  {
    hide NextField;
    if a == [] {
      assert a + b == b;
    } else {
      var (f, n) := NextField(a).value;
      assert (a + b)[..n] == a[..n];
      FieldLocal(a, a + b);
      assert (a + b)[n..] == a[n..] + b;
      DecodeAppend(Apply(m, f), a[n..], b);
    }
  }

  /** `u` is a run of fields none of which the decoder stores. */
  predicate AllUnknown(u: bytes)
    decreases |u|
  {
    u == [] ||
    match NextField(u)
    case None => false
    case Some((f, n)) => !Known(f) && AllUnknown(u[n..])
  }

  lemma {:induction false} UnknownKeepsMessage(m: CastMessage, u: bytes)
    requires AllUnknown(u)
    ensures DecodeFrom(m, u) == Some(m)
    decreases |u|
  {
    if u == [] {
    } else {
      var (f, n) := NextField(u).value;
      UnknownKeepsMessage(m, u[n..]);
    }
  }

  /** Unknown fields at a field boundary change nothing, whether or not the rest decodes. */
  lemma UnknownFieldsIgnored(a: bytes, u: bytes, b: bytes)
    requires DecodeFrom(EMPTY_MESSAGE, a).Some? && AllUnknown(u)
    ensures DecodeFrom(EMPTY_MESSAGE, a + u + b) == DecodeFrom(EMPTY_MESSAGE, a + b)
  {
    var m := DecodeFrom(EMPTY_MESSAGE, a).value;
    assert a + u + b == a + (u + b);
    UnknownKeepsMessage(m, u);
    DecodeAppend(EMPTY_MESSAGE, a, u + b);
    DecodeAppend(m, u, b);
    DecodeAppend(EMPTY_MESSAGE, a, b);
  }

  lemma VarintFieldParses(num: int32, v: uint64, rest: bytes)
    ensures NextField(VarintField(num, v) + rest) == Some((VarintValue(num, v), |VarintField(num, v)|))
  {
    hide Varint, VarintAt, Tag, ToInt32;
    var tag := Varint(Tag(num, 0));
    TagRoundTrip(num, 0);
    VarintRoundTrip(Tag(num, 0), Varint(v) + rest);
    VarintRoundTrip(v, rest);
    assert VarintField(num, v) + rest == tag + (Varint(v) + rest);
    assert (tag + (Varint(v) + rest))[|tag|..] == Varint(v) + rest;
  }

  lemma LengthDelimitedParses(s: bytes, rest: bytes)
    requires |s| < TWO_TO_THE_64
    ensures LengthDelimitedAt(Varint(|s|) + s + rest) == Some((s, |Varint(|s|)| + |s|))
  {
    hide Varint, VarintAt;
    var len := Varint(|s|);
    VarintRoundTrip(|s|, s + rest);
    assert len + s + rest == len + (s + rest);
    assert (len + (s + rest))[|len|..|len| + |s|] == s;
  }

  lemma StringFieldParses(num: int32, s: bytes, rest: bytes)
    requires |s| < TWO_TO_THE_64
    ensures NextField(StringField(num, s) + rest) == Some((StringValue(num, s), |StringField(num, s)|))
  {
    hide Varint, VarintAt, LengthDelimitedAt, Tag, ToInt32;
    var tag, body := Varint(Tag(num, 2)), Varint(|s|) + s;
    TagRoundTrip(num, 2);
    VarintRoundTrip(Tag(num, 2), body + rest);
    LengthDelimitedParses(s, rest);
    assert StringField(num, s) + rest == tag + (body + rest);
    assert (tag + (body + rest))[|tag|..] == body + rest;
  }

  /** The bytes `c` are one field `f`, wherever they stand. */
  ghost predicate IsField(c: bytes, f: Field) {
    NextField(c) == Some((f, |c|))
  }

  lemma DecodeField(m: CastMessage, c: bytes, f: Field, rest: bytes)
    requires IsField(c, f)
    ensures DecodeFrom(m, c + rest) == DecodeFrom(Apply(m, f), rest)
  {
    assert (c + rest)[..|c|] == c == c[..|c|];
    FieldLocal(c, c + rest);
    assert (c + rest)[|c|..] == rest;
  }

  lemma FieldsAreFields(m: CastMessage)
    requires Encodable(m)
    ensures var fs := Fields(m);
            && IsField(fs[0], VarintValue(1, 0)) && IsField(fs[1], StringValue(2, m.sourceId))
            && IsField(fs[2], StringValue(3, m.destinationId)) && IsField(fs[3], StringValue(4, m.namespaceUri))
            && IsField(fs[4], VarintValue(5, 0)) && IsField(fs[5], StringValue(6, m.payloadUtf8))
  {
    hide NextField, Varint, VarintField, StringField;
    var fs := Fields(m);
    assert forall i :: 0 <= i < 6 ==> fs[i] + [] == fs[i];
    VarintFieldParses(1, 0, []);
    StringFieldParses(2, m.sourceId, []);
    StringFieldParses(3, m.destinationId, []);
    StringFieldParses(4, m.namespaceUri, []);
    VarintFieldParses(5, 0, []);
    StringFieldParses(6, m.payloadUtf8, []);
  }

  /** An encoded message decodes to itself, over whatever an earlier input left behind. */
  lemma EncodeOverrides(before: CastMessage, m: CastMessage)
    requires Encodable(m)
    ensures DecodeFrom(before, Encode(m)) == Some(m)
  {
    hide NextField, Varint, VarintField, StringField;
    var fs := Fields(m);
    FieldsAreFields(m);
    assert fs[6..] == [];
    var m1 := before.(sourceId := m.sourceId);
    var m2 := m1.(destinationId := m.destinationId);
    var m3 := m2.(namespaceUri := m.namespaceUri);
    assert Flatten(fs[5..]) == fs[5] + Flatten(fs[6..]);
    DecodeField(m3, fs[5], StringValue(6, m.payloadUtf8), Flatten(fs[6..]));
    assert Flatten(fs[4..]) == fs[4] + Flatten(fs[5..]);
    DecodeField(m3, fs[4], VarintValue(5, 0), Flatten(fs[5..]));
    assert Flatten(fs[3..]) == fs[3] + Flatten(fs[4..]);
    DecodeField(m2, fs[3], StringValue(4, m.namespaceUri), Flatten(fs[4..]));
    assert Flatten(fs[2..]) == fs[2] + Flatten(fs[3..]);
    DecodeField(m1, fs[2], StringValue(3, m.destinationId), Flatten(fs[3..]));
    assert Flatten(fs[1..]) == fs[1] + Flatten(fs[2..]);
    DecodeField(before, fs[1], StringValue(2, m.sourceId), Flatten(fs[2..]));
    DecodeField(before, fs[0], VarintValue(1, 0), Flatten(fs[1..]));
  }

  /** decode(encode(m)) == m; a decode succeeds only with the cursor exactly on the end. */
  lemma DecodeEncode(m: CastMessage)
    requires Encodable(m)
    ensures DecodeFrom(EMPTY_MESSAGE, Encode(m)) == Some(m)
  {
    EncodeOverrides(EMPTY_MESSAGE, m);
  }

  /** Last One Wins: a later occurrence of a stored field replaces the earlier one. */
  lemma LastOneWins(a: bytes, num: int32, s: bytes)
    requires DecodeFrom(EMPTY_MESSAGE, a).Some? && |s| < TWO_TO_THE_64
    ensures DecodeFrom(EMPTY_MESSAGE, a + StringField(num, s))
         == Some(Apply(DecodeFrom(EMPTY_MESSAGE, a).value, StringValue(num, s)))
  {
    var m, c := DecodeFrom(EMPTY_MESSAGE, a).value, StringField(num, s);
    DecodeAppend(EMPTY_MESSAGE, a, c);
    assert c + [] == c;
    StringFieldParses(num, s, []);
    DecodeField(m, c, StringValue(num, s), []);
  }

  /** `k` is the end of the first so many fields of `s`. */
  predicate IsBoundary(s: bytes, k: nat)
    decreases |s|
  {
    k == 0 ||
    match NextField(s)
    case None => false
    case Some((_, n)) => n <= k && IsBoundary(s[n..], k - n)
  }

  /** A prefix of a decodable input decodes if and only if it is cut at a field boundary. */
  lemma {:induction false} PrefixDecodes(m: CastMessage, s: bytes, k: nat)
    requires DecodeFrom(m, s).Some? && k <= |s|
    ensures DecodeFrom(m, s[..k]).Some? <==> IsBoundary(s, k)
    decreases |s|
  {
    if k == 0 {
    } else {
      var (f, n) := NextField(s).value;
      FieldLocal(s, s[..k]);
      if n <= k {
        assert s[..k][..n] == s[..n];
        assert s[..k][n..] == s[n..][..k - n];
        PrefixDecodes(Apply(m, f), s[n..], k - n);
      }
    }
  }

  function FieldOffset(m: CastMessage, i: nat): nat
    requires Encodable(m) && i <= 6
  {
    |Flatten(Fields(m)[..i])|
  }

  lemma {:induction false} FlattenBoundaries(parts: seq<bytes>, k: nat)
    requires forall i :: 0 <= i < |parts| ==> NextField(parts[i]).Some? && NextField(parts[i]).value.1 == |parts[i]|
    ensures IsBoundary(Flatten(parts), k) <==> exists i :: 0 <= i <= |parts| && k == |Flatten(parts[..i])|
  {
    hide NextField;
    if parts == [] {
      assert parts[..0] == [];
    } else if k == 0 {
      assert |Flatten(parts[..0])| == 0;
    } else {
      var c, tail := parts[0], parts[1..];
      var s := Flatten(parts);
      assert s[..|c|] == c == c[..|c|] && s[|c|..] == Flatten(tail);
      FieldLocal(c, s);
      forall i | 1 <= i <= |parts|
        ensures |Flatten(parts[..i])| == |c| + |Flatten(tail[..i - 1])|
      {
        assert parts[..i][1..] == tail[..i - 1];
      }
      if |c| <= k {
        FlattenBoundaries(tail, k - |c|);
        if i :| 0 <= i <= |tail| && k - |c| == |Flatten(tail[..i])| {
          assert k == |Flatten(parts[..i + 1])|;
        }
      }
    }
  }

  /** A truncated encoding decodes exactly at one of the field ends, and never to a full parse elsewhere. */
  lemma TruncatedEncoding(m: CastMessage, k: nat)
    requires Encodable(m) && k < |Encode(m)|
    ensures DecodeFrom(EMPTY_MESSAGE, Encode(m)[..k]).Some?
       <==> exists i :: 0 <= i < 6 && k == FieldOffset(m, i)
  {
    hide DecodeFrom, NextField, IsBoundary, Varint, VarintField, StringField;
    var fs := Fields(m);
    DecodeEncode(m);
    PrefixDecodes(EMPTY_MESSAGE, Encode(m), k);
    FieldsAreFields(m);
    FlattenBoundaries(fs, k);
    assert fs[..6] == fs;
    forall i | 0 <= i < 6
      ensures FieldOffset(m, i) == |Flatten(fs[..i])|
    {
    }
  }
}
