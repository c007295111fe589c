/** WebSocket frames as WsServer.cpp reads and writes them (sections 5.2 and 5.3 of RFC 6455). */
module WsFrames {
  import opened Bits
  import opened Transport

  const CLOSE: nat := 0x8
  const PING: nat := 0x9
  const PONG_FRAME: bytes := [0x8A, 0x00]
  const TEXT: byte := 0x81

  // ------------------------------------------------------------ wire format

  /** `form` is the number of extended length bytes: 0, 2 or 8. */
  datatype Frame = Frame(first: byte, form: nat, key: Option<bytes>, payload: bytes)

  predicate ValidFrame(f: Frame) {
    && (f.form == 0 ==> |f.payload| < 126)
    && (f.form == 2 ==> |f.payload| < 0x1_0000)
    && (f.form == 8 ==> |f.payload| < TWO_TO_THE_64)
    && (f.form == 8 || f.form == 0 || f.form == 2)
    && (f.key.Some? ==> |f.key.value| == 4)
  }

  /** A frame this program reads: it keeps lengths in an `int`. */
  predicate Readable(f: Frame) {
    ValidFrame(f) && |f.payload| < TWO_TO_THE_31
  }

  /** A text whose frame `writeFrame` can hand to `send` in an `int` length. */
  type WireText = t: bytes | |t| + 10 < TWO_TO_THE_31

  function Opcode(f: Frame): nat {
    f.first % 16
  }

  /** Masking and unmasking: byte `i` against key byte `i % 4`. */
  function Masked(payload: bytes, key: bytes): (r: bytes)
    requires |key| == 4
    ensures |r| == |payload|
  {
    seq(|payload|, i requires 0 <= i < |payload| => XorByte(payload[i], key[i % 4]))
  }

  function Length7(f: Frame): nat
    requires ValidFrame(f)
  {
    if f.form == 0 then |f.payload| else if f.form == 2 then 126 else 127
  }

  function EncodeFrame(f: Frame): bytes
    requires ValidFrame(f)
  {
    [f.first, (if f.key.Some? then 128 else 0) + Length7(f)] + BigEndian(|f.payload|, f.form)
    + if f.key.Some? then f.key.value + Masked(f.payload, f.key.value) else f.payload
  }

  /** What readFrame takes off the front of a stream: opcode, payload and size of the frame. */
  datatype Parsed = Parsed(opcode: nat, payload: bytes, size: nat)

  function FormOf(length7: nat): nat {
    if length7 == 126 then 2 else if length7 == 127 then 8 else 0
  }

  function HeaderSize(second: byte): nat {
    2 + FormOf(second % 128) + if second >= 128 then 4 else 0
  }

  function PayloadSize(s: bytes): nat
    requires |s| >= 2 && |s| >= HeaderSize(s[1])
  {
    var form := FormOf(s[1] % 128);
    if form == 0 then s[1] % 128 else FromBigEndian(s[2..2 + form])
  }

  function ParseFrame(s: bytes): (r: Option<Parsed>)
    ensures r.Some? ==> 2 <= r.value.size <= |s|
  {
    if |s| < 2 || |s| < HeaderSize(s[1]) then None
    else
      var h := HeaderSize(s[1]);
      var len := PayloadSize(s);
      if len >= TWO_TO_THE_31 || |s| < h + len then None
      else Some(Parsed(s[0] % 16, if s[1] >= 128 then Masked(s[h..h + len], s[h - 4..h]) else s[h..h + len], h + len))
  }

  /** Section 5.3 of RFC 6455: each byte on the wire is that byte of the payload XORed with byte i mod 4 of the key. */
  predicate Unmasks(masked: bytes, key: bytes, payload: bytes) {
    && |key| == 4 && |masked| == |payload|
    && forall i :: 0 <= i < |payload| ==> masked[i] == Xor(payload[i], key[i % 4])
  }

  /** Section 5.2: a frame with this opcode, payload and size stands at the front of `s`. */
  predicate FrameAt(s: bytes, opcode: nat, payload: bytes, size: nat) {
    && |s| >= 2
    && var extended := if s[1] % 128 == 126 then 2 else if s[1] % 128 == 127 then 8 else 0;
       var h := 2 + extended + if s[1] >= 128 then 4 else 0;
       && opcode == s[0] % 16
       && size == h + |payload| <= |s|
       && |payload| == (if extended == 0 then s[1] % 128 else FromBigEndian(s[2..2 + extended]))
       && if s[1] >= 128 then Unmasks(s[h..size], s[h - 4..h], payload) else payload == s[h..size]
  }

  lemma UnmasksIsMasked(masked: bytes, key: bytes, payload: bytes)
    requires |key| == 4
    ensures Unmasks(masked, key, payload) <==> payload == Masked(masked, key)
  {
    if |masked| == |payload| {
      forall i | 0 <= i < |payload|
        ensures payload[i] == Masked(masked, key)[i] <==> masked[i] == Xor(payload[i], key[i % 4])
      {
        XorSelfInverse(payload[i], key[i % 4]);
      }
    }
  }

  /** readFrame takes exactly the frame that stands there, if it is below 2 GiB. */
  lemma ParseIsFrameAt(s: bytes, opcode: nat, payload: bytes, size: nat)
    ensures ParseFrame(s) == Some(Parsed(opcode, payload, size))
       <==> FrameAt(s, opcode, payload, size) && |payload| < 0x8000_0000
  {
    hide FromBigEndian, Masked, Unmasks;
    if |s| >= 2 && s[1] >= 128 && HeaderSize(s[1]) + |payload| <= |s| {
      var h := HeaderSize(s[1]);
      UnmasksIsMasked(s[h..h + |payload|], s[h - 4..h], payload);
    }
  }

  lemma ShortMaskedFrame(first: byte, key: bytes, masked: bytes, payload: bytes)
    requires |payload| < 126 && Unmasks(masked, key, payload)
    ensures ParseFrame([first, 128 + |payload|] + key + masked) == Some(Parsed(first % 16, payload, 6 + |payload|))
  {
    var s := [first, 128 + |payload|] + key + masked;
    assert |masked| == |payload| && |key| == 4;
    HeadKeyRest([first, 128 + |payload|], key, masked);
    hide *;
    ShortFrameAt(s, payload);
    ParseIsFrameAt(s, first % 16, payload, 6 + |payload|);
  }

  lemma HeadKeyRest(head: bytes, key: bytes, rest: bytes)
    requires |head| == 2 && |key| == 4
    ensures var s := head + key + rest;
            s[0] == head[0] && s[1] == head[1] && s[2..6] == key && s[6..6 + |rest|] == rest
  {
  }

  lemma ShortFrameAt(s: bytes, payload: bytes)
    requires |payload| < 126 && |s| == 6 + |payload| && s[1] == 128 + |payload|
    requires Unmasks(s[6..6 + |payload|], s[2..6], payload)
    ensures FrameAt(s, s[0] % 16, payload, 6 + |payload|)
  {
    hide Unmasks, FromBigEndian;
  }

  /** The masked example of section 5.7 of RFC 6455: header, key, and the five bytes on the wire. */
  lemma MaskedHello()
    ensures ParseFrame([0x81, 0x85] + [0x37, 0xFA, 0x21, 0x3D] + [0x7F, 0x9F, 0x4D, 0x51, 0x58])
         == Some(Parsed(1, Ascii("Hello"), 11))
  {
    hide Xor, ParseFrame;
    var payload: bytes := [0x48, 0x65, 0x6C, 0x6C, 0x6F];
    assert Ascii("Hello") == payload;
    HelloBytes();
    ShortMaskedFrame(0x81, [0x37, 0xFA, 0x21, 0x3D], [0x7F, 0x9F, 0x4D, 0x51, 0x58], payload);
  }

  lemma HelloBytes()
    ensures Xor(0x48, 0x37) == 0x7F && Xor(0x65, 0xFA) == 0x9F && Xor(0x6C, 0x21) == 0x4D
    ensures Xor(0x6C, 0x3D) == 0x51 && Xor(0x6F, 0x37) == 0x58
  {
    hide Xor;
    XorStep(1, 0); XorStep(2, 1); XorStep(4, 3); XorStep(9, 6); XorStep(18, 13); XorStep(36, 27); XorStep(72, 55);
    XorStep(0, 1); XorStep(1, 3); XorStep(3, 7); XorStep(6, 15); XorStep(12, 31); XorStep(25, 62); XorStep(50, 125);
    XorStep(101, 250);
    XorStep(3, 1); XorStep(6, 2); XorStep(13, 4); XorStep(27, 8); XorStep(54, 16); XorStep(108, 33);
    XorStep(6, 3); XorStep(13, 7); XorStep(27, 15); XorStep(54, 30); XorStep(108, 61);
    XorStep(13, 6); XorStep(27, 13); XorStep(55, 27); XorStep(111, 55);
  }

  lemma MaskedTwice(payload: bytes, key: bytes)
    requires |key| == 4
    ensures Masked(Masked(payload, key), key) == payload
  {
    forall i | 0 <= i < |payload|
      ensures Masked(Masked(payload, key), key)[i] == payload[i]
    {
      XorSelfInverse(payload[i], key[i % 4]);
    }
  }

  /** The header of an encoded frame announces exactly its payload. */
  lemma EncodedHeader(f: Frame, rest: bytes)
    requires ValidFrame(f)
    ensures var s := EncodeFrame(f) + rest;
            var h := 2 + f.form + if f.key.Some? then 4 else 0;
            && |s| >= h && s[0] == f.first && (s[1] >= 128 <==> f.key.Some?)
            && HeaderSize(s[1]) == h && PayloadSize(s) == |f.payload|
            && |EncodeFrame(f)| == h + |f.payload|
            && (f.key.Some? ==> s[h - 4..h] == f.key.value)
            && s[h..h + |f.payload|] == if f.key.Some? then Masked(f.payload, f.key.value) else f.payload
  {
    hide BigEndian, FromBigEndian, Masked;
    var s := EncodeFrame(f) + rest;
    assert s[1] % 128 == Length7(f);
    assert s[2..2 + f.form] == BigEndian(|f.payload|, f.form);
    if f.form != 0 {
      ExtendedLengthRoundTrip(f);
    }
  }

  lemma ExtendedLengthRoundTrip(f: Frame)
    requires ValidFrame(f) && f.form != 0
    ensures FromBigEndian(BigEndian(|f.payload|, f.form)) == |f.payload|
  {
    hide BigEndian, FromBigEndian, Pow2;
    Pow2Values();
    if f.form == 2 {
      BigEndianRoundTrip(|f.payload|, 2);
    } else {
      BigEndianRoundTrip(|f.payload|, 8);
    }
  }

  /** readFrame takes back exactly the frame that was written, in every length form, masked or not. */
  lemma ParseEncoded(f: Frame, rest: bytes)
    requires Readable(f)
    ensures ParseFrame(EncodeFrame(f) + rest) == Some(Parsed(Opcode(f), f.payload, |EncodeFrame(f)|))
  {
    hide EncodeFrame, HeaderSize, PayloadSize, Masked;
    EncodedHeader(f, rest);
    if f.key.Some? {
      MaskedTwice(f.payload, f.key.value);
    }
  }

  // ---------------------------------------------------------------- writing

  function TextFrame(payload: bytes): Frame {
    Frame(TEXT, if |payload| < 126 then 0 else if |payload| < 0x1_0000 then 2 else 8, None, payload)
  }

  /** The bytes of a text frame, in the three forms of section 5.2 of RFC 6455. */
  lemma TextFrameBytes(payload: bytes)
    requires |payload| < TWO_TO_THE_64
    ensures ValidFrame(TextFrame(payload))
    ensures var n, s := |payload|, EncodeFrame(TextFrame(payload));
            && (n < 126 ==> s == [0x81, n] + payload)
            && (126 <= n < 65536 ==> s == [0x81, 126, n / 256, n % 256] + payload)
            && (n >= 65536 ==> s == [0x81, 127] + BigEndian(n, 8) + payload)
  {
    var n := |payload|;
    if 126 <= n < 65536 {
      TwoBytes(n);
    }
    hide BigEndian;
  }

  lemma TwoBytes(n: nat)
    requires n < 65536
    ensures BigEndian(n, 2) == [n / 256, n % 256]
  {
    assert BigEndian(n, 2) == BigEndian(n / 256, 1) + [n % 256];
    assert BigEndian(n / 256, 1) == BigEndian(n / 256 / 256, 0) + [n / 256 % 256];
  }

  /** writeFrame uses the shortest of all frames that carry the payload. */
  lemma TextFrameMinimal(payload: bytes, f: Frame)
    requires |payload| < TWO_TO_THE_64 && ValidFrame(f) && f.payload == payload
    ensures ValidFrame(TextFrame(payload))
    ensures |EncodeFrame(TextFrame(payload))| <= |EncodeFrame(f)|
  {
    hide EncodeFrame;
    EncodedHeader(TextFrame(payload), []);
    EncodedHeader(f, []);
  }

  /** A `std::string` holds fewer than 2^64 bytes. */
  method BuildFrame(payload: bytes) returns (frame: bytes)
    requires |payload| < TWO_TO_THE_64
    ensures frame == EncodeFrame(TextFrame(payload))
  {
    hide Shr, BigEndian;
    frame := [0x81];
    var len := |payload|;
    ghost var f := TextFrame(payload);
    if len < 126 {
      frame := frame + [len];
      assert frame == [f.first, Length7(f)] + BigEndian(len, f.form);
    } else if len < 65536 {
      frame := frame + [126];
      TwoLengthBytes(len);
      frame := frame + [Shr(len, 8) % 256, len % 256];
      assert frame == [f.first, Length7(f)] + BigEndian(len, f.form);
    } else {
      frame := frame + [127];
      var i := 8;
      while i > 0
        invariant 0 <= i <= 8
        invariant frame == [f.first, Length7(f)] + BigEndian(len, 8)[..8 - i]
      {
        i := i - 1;
        BigEndianByte(len, 8, 7 - i);
        frame := frame + [Shr(len, i * 8) % 256];
      }
      assert BigEndian(len, 8)[..8] == BigEndian(len, 8);
    }
    frame := frame + payload;
  }

  /** The frame written for a text. */
  function FrameOf(text: WireText): (s: bytes)
    ensures 0 < |s| < TWO_TO_THE_31
  {
    EncodeFrame(TextFrame(text))
  }

  method WriteFrame(sock: Socket, payload: WireText) returns (ok: bool)
    modifies sock`outbox
    ensures ok ==> sock.outbox == old(sock.outbox) + FrameOf(payload)
    ensures !ok ==> exists k :: 0 <= k < |FrameOf(payload)| && sock.outbox == old(sock.outbox) + FrameOf(payload)[..k]
    ensures sock.reliable ==> ok
  {
    var frame := BuildFrame(payload);
    assert frame == FrameOf(payload);
    hide FrameOf;
    var n := sock.Send(frame);
    ok := n == |frame|;
    if ok {
      assert frame[..n] == frame;
    } else {
      ghost var k := if n > 0 then n else 0;
      assert frame[..0] == [];
      assert sock.outbox == old(sock.outbox) + frame[..k];
    }
  }

  lemma TwoLengthBytes(len: nat)
    ensures [Shr(len, 8) % 256, len % 256] == BigEndian(len, 2)
  {
    hide And, Shr, BigEndian;
    BigEndianByte(len, 2, 0);
    BigEndianByte(len, 2, 1);
    ShrZero(len);
  }

  // ---------------------------------------------------------------- reading

  /** `n` bytes of the stream in order, however the reads are cut, or failure. */
  method RecvAll(sock: Socket, n: nat) returns (ok: bool, buf: array<byte>)
    modifies sock`inbox
    ensures fresh(buf) && buf.Length == n
    ensures ok ==> n <= |old(sock.inbox)| && buf[..] == old(sock.inbox)[..n] && sock.inbox == old(sock.inbox)[n..]
    ensures sock.reliable && n < TWO_TO_THE_31 ==> (ok <==> n <= |old(sock.inbox)|)
  {
    ghost var stream := sock.inbox;
    buf := new byte[n];
    var got := 0;
    while got < n
      invariant 0 <= got <= n && got <= |stream|
      invariant sock.inbox == stream[got..]
      invariant buf[..][..got] == stream[..got]
    {
      var r, chunk := sock.Read(ToInt32(n - got));
      if r <= 0 { return false, buf; }
      assert r <= n - got;
      ghost var before := buf[..];
      forall i | 0 <= i < r {
        buf[got + i] := chunk[i];
      }
      Overwritten(before, buf[..], chunk, stream, got, r);
      DropTwice(stream, got, r);
      got := got + r;
    }
    assert buf[..] == buf[..n];
    ok := true;
  }

  /** The two bits and the seven-bit length readFrame picks out of the second header byte. */
  lemma SecondByte(b: byte)
    ensures And(b, 0x0F) == b % 16 && And(b, 0x7F) == b % 128 && (And(b, 0x80) != 0 <==> b >= 128)
  {
    Pow2Values();
    assert Pow2(4) == 2 * Pow2(3);
    hide Pow2, And;
    AndMask(b, 4);
    AndMask(b, 7);
    AndPow2(b, 7);
  }

  /** Reads the extended length of `form` bytes. */
  method ReadLength(sock: Socket, form: nat) returns (ok: bool, len: nat)
    requires form == 2 || form == 8
    modifies sock`inbox
    ensures ok ==> form <= |old(sock.inbox)| && len == FromBigEndian(old(sock.inbox)[..form])
                   && sock.inbox == old(sock.inbox)[form..]
    ensures sock.reliable ==> (ok <==> form <= |old(sock.inbox)|)
  {
    hide Or, Shl64, FromBigEndian;
    var e;
    ok, e := RecvAll(sock, form);
    len := 0;
    if !ok { return; }
    ghost var s := e[..];
    assert FromBigEndian(s[..0]) == 0 by { FromBigEndianEmpty(); }
    for i := 0 to form
      invariant e[..] == s && sock.inbox == old(sock.inbox)[form..]
      invariant len == FromBigEndian(s[..i])
    {
      FromBigEndianPrefix(s, i);
      assert e[i] == e[..][i] == s[i];
      OrByte(len, e[i]);
      len := Or(Shl64(len, 8), e[i]);
    }
    assert s[..form] == s;
  }

  lemma FromBigEndianEmpty()
    ensures FromBigEndian([]) == 0
  {
  }

  lemma FromBigEndianPrefix(s: bytes, i: nat)
    requires i < |s| <= 8
    ensures FromBigEndian(s[..i + 1]) == FromBigEndian(s[..i]) * 256 + s[i] as nat
    ensures FromBigEndian(s[..i]) < 0x100_0000_0000_0000
  {
    assert s[..i + 1][..i] == s[..i];
    FromBigEndianBound(s[..i]);
    Pow2Monotone(8 * i, 56);
    Pow2Values();
    Pow2Add(24, 32);
  }

  /** The header of a frame up to its payload; `mask` is empty when the frame is not masked. */
  method ReadHeader(sock: Socket) returns (ok: bool, opcode: nat, mask: bytes, plen: nat)
    modifies sock`inbox
    ensures ok ==> var s := old(sock.inbox);
                   && |s| >= 2 && |s| >= HeaderSize(s[1]) && sock.inbox == s[HeaderSize(s[1])..]
                   && opcode == s[0] % 16 && plen == PayloadSize(s)
                   && mask == if s[1] >= 128 then s[HeaderSize(s[1]) - 4..HeaderSize(s[1])] else []
    ensures sock.reliable ==> (ok <==> |old(sock.inbox)| >= 2 && |old(sock.inbox)| >= HeaderSize(old(sock.inbox)[1]))
  {
    hide And, FromBigEndian;
    ghost var s := sock.inbox;
    mask, plen, opcode := [], 0, 0;
    var hdr;
    ok, hdr := RecvAll(sock, 2);
    if !ok { return; }
    assert hdr[..] == s[..2] && s[0] == s[..2][0] == hdr[..][0] && s[1] == s[..2][1] == hdr[..][1];
    SecondByte(hdr[0]);
    SecondByte(hdr[1]);
    opcode := And(hdr[0], 0x0F);
    var masked := And(hdr[1], 0x80) != 0;
    plen := And(hdr[1], 0x7F);
    ghost var form := FormOf(plen);
    if plen == 126 {
      ok, plen := ReadLength(sock, 2);
      if !ok { return; }
    } else if plen == 127 {
      ok, plen := ReadLength(sock, 8);
      if !ok { return; }
    }
    assert s[2..][..form] == s[2..2 + form] && sock.inbox == s[2 + form..];
    if masked {
      var m;
      ok, m := RecvAll(sock, 4);
      if !ok { return; }
      mask := m[..];
      assert mask == s[2 + form..][..4] == s[2 + form..2 + form + 4];
    }
  }

  /**
   * One frame off the stream. The caller sees a close frame, the end of the stream or an error as `closed`;
   * a ping is answered and read as an empty message.
   */
  method ReadFrame(sock: Socket) returns (closed: bool, msg: bytes)
    modifies sock`inbox, sock`outbox
    ensures !closed ==> var p := ParseFrame(old(sock.inbox));
                        && p.Some? && FrameAt(old(sock.inbox), p.value.opcode, p.value.payload, p.value.size)
                        && p.value.opcode != 8
                        && msg == (if p.value.opcode == 9 then [] else p.value.payload)
                        && sock.inbox == old(sock.inbox)[p.value.size..]
    ensures sock.reliable && !closed && ParseFrame(old(sock.inbox)).value.opcode == 9
        ==> sock.outbox == old(sock.outbox) + [0x8A, 0x00]
    ensures closed || ParseFrame(old(sock.inbox)).value.opcode != 9 ==> sock.outbox == old(sock.outbox)
    ensures sock.reliable ==> (closed <==> ParseFrame(old(sock.inbox)).None?
                                           || ParseFrame(old(sock.inbox)).value.opcode == 8)
  {
    hide Masked, HeaderSize, PayloadSize, FrameAt;
    ghost var s := sock.inbox;
    FrameRead(s);
    var ok, opcode, mask, plen := ReadHeader(sock);
    if !ok { return true, []; }
    ghost var h := HeaderSize(s[1]);
    assert h >= 2 && (s[1] >= 128 ==> h >= 6) by { HeaderSizeBounds(s[1]); }
    if plen >= TWO_TO_THE_31 { return true, []; }
    var payload;
    ok, payload := RecvAll(sock, plen);
    if !ok { return true, []; }
    assert payload[..] == s[h..h + plen] && sock.inbox == s[h + plen..];
    if mask != [] {
      Unmask(payload, mask);
    }
    if opcode == CLOSE { return true, []; }
    if opcode == PING {
      var n := sock.Send(PONG_FRAME);
      assert PONG_FRAME[..2] == PONG_FRAME;
      return false, [];
    }
    closed, msg := false, payload[..];
  }

  lemma FrameRead(s: bytes)
    ensures var p := ParseFrame(s); p.Some? ==> FrameAt(s, p.value.opcode, p.value.payload, p.value.size)
  {
    hide ParseFrame, FrameAt;
    if ParseFrame(s).Some? {
      var p := ParseFrame(s).value;
      ParseIsFrameAt(s, p.opcode, p.payload, p.size);
    }
  }

  lemma HeaderSizeBounds(b: byte)
    ensures HeaderSize(b) >= 2 && (b >= 128 ==> HeaderSize(b) >= 6)
  {
  }

  method Unmask(payload: array<byte>, mask: bytes)
    requires |mask| == 4
    modifies payload
    ensures payload[..] == Masked(old(payload[..]), mask)
    ensures forall i :: 0 <= i < payload.Length ==> payload[i] == Xor(old(payload[i]), mask[i % 4])
  {
    for i := 0 to payload.Length
      invariant forall j :: 0 <= j < i ==> payload[j] == XorByte(old(payload[j]), mask[j % 4])
      invariant forall j :: i <= j < payload.Length ==> payload[j] == old(payload[j])
    {
      payload[i] := XorByte(payload[i], mask[i % 4]);
    }
  }

  // ------------------------------------------------------------ client loop

  /** The messages the message handler is called with, for the bytes a client sends. */
  function Messages(stream: bytes): seq<bytes>
    decreases |stream|
  {
    match ParseFrame(stream)
    case None => []
    case Some(p) =>
      if p.opcode == CLOSE then []
      else (if p.opcode != PING && p.payload != [] then [p.payload] else []) + Messages(stream[p.size..])
  }

  /** What the next frame adds. */
  lemma MessagesStep(stream: bytes)
    ensures match ParseFrame(stream)
            case None => Messages(stream) == []
            case Some(p) =>
              (p.opcode == CLOSE ==> Messages(stream) == []) &&
              (p.opcode != CLOSE ==>
                 Messages(stream) == if p.opcode != PING && p.payload != []
                                       then [p.payload] + Messages(stream[p.size..]) else Messages(stream[p.size..]))
  {
    hide ParseFrame;
  }

  /**
   * Delivers messages until a read fails, a close frame comes, or the server stops: `stopped` says that one of
   * the two looks at `_running` found it cleared.
   */
  method ClientLoop(sock: Socket) returns (delivered: seq<bytes>, stopped: bool)
    modifies sock`inbox, sock`outbox
    ensures delivered <= Messages(old(sock.inbox))
    ensures sock.reliable && !stopped ==> delivered == Messages(old(sock.inbox))
  {
    hide ParseFrame, Messages;
    delivered, stopped := [], false;
    var closed := false;
    while !closed && !stopped
      invariant !closed && !stopped ==> Messages(old(sock.inbox)) == delivered + Messages(sock.inbox)
      invariant delivered <= Messages(old(sock.inbox))
      invariant closed && !stopped && sock.reliable ==> Messages(old(sock.inbox)) == delivered
      decreases !closed && !stopped, |sock.inbox|
    {
      stopped := *;
      if !stopped {
        var msg;
        MessagesStep(sock.inbox);
        closed, msg := ReadFrame(sock);
        stopped := *;
        if !closed && !stopped && msg != [] {
          Associative(delivered, [msg], Messages(sock.inbox));
          delivered := delivered + [msg];
        }
      }
    }
  }

  function EncodeFrames(fs: seq<Frame>): bytes
    requires AllReadable(fs)
  {
    if fs == [] then [] else EncodeFrame(fs[0]) + EncodeFrames(fs[1..])
  }

  predicate AllReadable(fs: seq<Frame>) {
    forall i :: 0 <= i < |fs| ==> Readable(fs[i])
  }

  /** The non-empty payloads of frames that are neither close nor ping, up to the first close. */
  function PayloadsBeforeClose(fs: seq<Frame>): seq<bytes> {
    if fs == [] || fs[0].first % 16 == 8 then []
    else (if fs[0].first % 16 != 9 && fs[0].payload != [] then [fs[0].payload] else []) + PayloadsBeforeClose(fs[1..])
  }

  /** clientLoop delivers exactly those payloads, in order, for every stream made of frames. */
  lemma {:induction false} FramesDelivered(fs: seq<Frame>)
    requires AllReadable(fs)
    ensures Messages(EncodeFrames(fs)) == PayloadsBeforeClose(fs)
  {
    hide EncodeFrame, ParseFrame, ValidFrame;
    if fs == [] {
      assert ParseFrame([]).None? by { ParseEmpty(); }
    } else {
      var s, rest := EncodeFrames(fs), EncodeFrames(fs[1..]);
      ParseEncoded(fs[0], rest);
      assert s[|EncodeFrame(fs[0])|..] == rest;
      FramesDelivered(fs[1..]);
    }
  }

  lemma ParseEmpty()
    ensures ParseFrame([]).None?
  {
  }

  // ------------------------------------------------------ what a client gets

  const PONG := Frame(0x8A, 0, None, [])
  const TEXT_OPCODE: nat := 0x1

  lemma PongIsFrame()
    ensures Readable(PONG) && EncodeFrame(PONG) == PONG_FRAME && TextOf(PONG) == []
  {
  }

  function TextOf(f: Frame): seq<bytes> {
    if Opcode(f) == TEXT_OPCODE then [f.payload] else []
  }

  /** The payloads of the text frames. */
  function TextsOf(fs: seq<Frame>): seq<bytes> {
    if fs == [] then [] else TextOf(fs[0]) + TextsOf(fs[1..])
  }

  /** The payloads of the text frames a reader finds on a stream. */
  function Texts(stream: bytes): seq<bytes>
    decreases |stream|
  {
    match ParseFrame(stream)
    case None => []
    case Some(p) => (if p.opcode == TEXT_OPCODE then [p.payload] else []) + Texts(stream[p.size..])
  }

  /** Text frames, with pongs or anything else between them, are read back as exactly their texts, in order. */
  lemma {:induction false} TextsReadBack(fs: seq<Frame>)
    requires AllReadable(fs)
    ensures Texts(EncodeFrames(fs)) == TextsOf(fs)
  {
    hide EncodeFrame, ParseFrame, ValidFrame;
    if fs == [] {
      assert ParseFrame([]).None? by { ParseEmpty(); }
    } else {
      var s, rest := EncodeFrames(fs), EncodeFrames(fs[1..]);
      ParseEncoded(fs[0], rest);
      assert s[|EncodeFrame(fs[0])|..] == rest;
      TextsReadBack(fs[1..]);
    }
  }

  lemma {:induction false} FramesAppend(fs: seq<Frame>, f: Frame)
    requires AllReadable(fs) && Readable(f)
    ensures AllReadable(fs + [f])
    ensures EncodeFrames(fs + [f]) == EncodeFrames(fs) + EncodeFrame(f)
    ensures TextsOf(fs + [f]) == TextsOf(fs) + TextOf(f)
  {
    hide EncodeFrame, ValidFrame, TextOf;
    if fs == [] {
      assert [] + [f] == [f] && [f][1..] == [];
      Neutral(EncodeFrame(f));
      Neutral(TextOf(f));
    } else {
      var tail := fs[1..];
      FramesAppend(tail, f);
      assert (fs + [f])[1..] == tail + [f];
      Associative(EncodeFrame(fs[0]), EncodeFrames(tail), EncodeFrame(f));
      Associative(TextOf(fs[0]), TextsOf(tail), TextOf(f));
    }
  }

  /** What one more text does to the stream of a client. */
  lemma TextFrameAppends(fs: seq<Frame>, text: WireText)
    requires AllReadable(fs)
    ensures var more := fs + [TextFrame(text)];
            && AllReadable(more) && EncodeFrames(more) == EncodeFrames(fs) + FrameOf(text)
            && TextsOf(more) == TextsOf(fs) + [text]
  {
    FramesAppend(fs, TextFrame(text));
  }
}
