/** TLS socket loops and length-prefixed framing of the Chromecast channel (TlsSocket.cpp, CastChannel.cpp). */
module CastChannel {
  import opened Bits
  import opened CastProto
  import opened Transport

  const MAX_MESSAGE_SIZE: nat := 1_000_000
  const NS_HEARTBEAT: bytes := Ascii("urn:x-cast:com.google.cast.tp.heartbeat")
  const PONG: bytes := Ascii("{\"type\":\"PONG\"}")

  // ---------------------------------------------------------------- framing

  lemma BigEndianRoundTrip4(len: nat)
    requires len < TWO_TO_THE_32
    ensures FromBigEndian(BigEndian(len, 4)) == len
  {
    Pow2Values();
    BigEndianRoundTrip(len, 4);
  }

  function Packet(m: CastMessage): bytes
    requires Encodable(m)
  {
    BigEndian(|Encode(m)| % TWO_TO_THE_32, 4) + Encode(m)
  }

  /** The message a peer reads off the front of `stream`, and what is left of the stream. */
  function ReadOne(stream: bytes): (r: Option<(CastMessage, bytes)>)
    ensures r.Some? ==> |r.value.1| < |stream|
  {
    if |stream| < 4 then None
    else
      var len := FromBigEndian(stream[..4]);
      if len == 0 || len > 1_000_000 || |stream| < 4 + len then None
      else
        match DecodeFrom(EMPTY_MESSAGE, stream[4..4 + len])
        case None => None
        case Some(m) => Some((m, stream[4 + len..]))
  }

  /** Every message read before the first read that fails. */
  function ReadAll(stream: bytes): seq<CastMessage>
    decreases |stream|
  {
    match ReadOne(stream)
    case None => []
    case Some((m, rest)) => [m] + ReadAll(rest)
  }

  /** A message a peer of this channel accepts: it fits the receiver's limit. */
  predicate Fits(m: CastMessage) {
    Encodable(m) && |Encode(m)| <= 1_000_000
  }

  predicate AllEncodable(ms: seq<CastMessage>) {
    forall i :: 0 <= i < |ms| ==> Encodable(ms[i])
  }

  predicate AllFit(ms: seq<CastMessage>) {
    forall i :: 0 <= i < |ms| ==> Fits(ms[i])
  }

  function Packets(ms: seq<CastMessage>): bytes
    requires AllEncodable(ms)
  {
    if ms == [] then [] else Packet(ms[0]) + Packets(ms[1..])
  }

  lemma {:induction false} PacketsAppend(ms: seq<CastMessage>, m: CastMessage)
    requires AllEncodable(ms) && Encodable(m)
    ensures Packets(ms + [m]) == Packets(ms) + Packet(m)
  {
    hide Packet;
    if ms == [] {
      assert [] + [m] == [m];
      assert Packets([m]) == Packet(m) + Packets([]);
    } else {
      PacketsAppend(ms[1..], m);
      assert (ms + [m])[1..] == ms[1..] + [m];
    }
  }

  lemma EncodeNonEmpty(m: CastMessage)
    requires Encodable(m)
    ensures |Encode(m)| > 0
  {
    VarintRoundTrip(8, []);
  }

  lemma ReadOnePacket(m: CastMessage, rest: bytes)
    requires Fits(m)
    ensures ReadOne(Packet(m) + rest) == Some((m, rest))
  {
    hide Encode, DecodeFrom, BigEndian, FromBigEndian;
    var body, header := Encode(m), BigEndian(|Encode(m)|, 4);
    var s := Packet(m) + rest;
    assert s[..4] == header && s[4..4 + |body|] == body && s[4 + |body|..] == rest;
    BigEndianRoundTrip4(|body|);
    EncodeNonEmpty(m);
    DecodeEncode(m);
  }

  lemma ReadOneTruncated(m: CastMessage, k: nat)
    requires Fits(m) && k < |Packet(m)|
    ensures ReadOne(Packet(m)[..k]).None?
  {
    hide Encode, DecodeFrom, BigEndian, FromBigEndian;
    var s := Packet(m)[..k];
    if k >= 4 {
      assert s[..4] == BigEndian(|Encode(m)|, 4);
      BigEndianRoundTrip4(|Encode(m)|);
    }
  }

  /** Whole frames followed by at most one truncated one read back as exactly the whole frames. */
  lemma {:induction false} ReadAllPackets(ms: seq<CastMessage>, m: CastMessage, k: nat)
    requires AllFit(ms) && Fits(m) && k < |Packet(m)|
    ensures AllEncodable(ms)
    ensures ReadAll(Packets(ms) + Packet(m)[..k]) == ms
  {
    hide Encode, BigEndian, ReadOne;
    var torn := Packet(m)[..k];
    if ms == [] {
      assert Packets(ms) + torn == torn;
      ReadOneTruncated(m, k);
    } else {
      var rest := Packets(ms[1..]) + torn;
      ReadOnePacket(ms[0], rest);
      assert Packets(ms) + torn == Packet(ms[0]) + rest;
      ReadAllPackets(ms[1..], m, k);
    }
  }

  // ------------------------------------------------------------- TLS socket

  ghost function Sum(cuts: seq<nat>): nat {
    if cuts == [] then 0 else Sum(cuts[..|cuts| - 1]) + cuts[|cuts| - 1]
  }

  ghost predicate AllPositive(cuts: seq<nat>) {
    forall i :: 0 <= i < |cuts| ==> cuts[i] >= 1
  }

  lemma NoCuts()
    ensures Sum([]) == 0 && AllPositive([])
  {
  }

  lemma OneMoreCut(cuts: seq<nat>, n: nat)
    requires AllPositive(cuts) && n >= 1
    ensures Sum(cuts + [n]) == Sum(cuts) + n && AllPositive(cuts + [n])
  {
    assert (cuts + [n])[..|cuts|] == cuts;
  }

  class TlsSocket {
    const conn: Socket
    var connected: bool

    constructor (conn: Socket)
      ensures this.conn == conn && connected
    {
      this.conn, connected := conn, true;
    }

    /**
     * All of `data` is written, or a strict prefix of it and the connection is given up.
     * `cuts` are the sizes of the writes that succeeded, in order.
     */
    method SendAll(data: bytes) returns (ok: bool, ghost cuts: seq<nat>)
      modifies this`connected, conn`outbox
      ensures !old(connected) ==> !ok && !connected && cuts == []
      ensures old(connected) ==> connected == ok
      ensures AllPositive(cuts) && Sum(cuts) <= |data|
      ensures old(connected) ==> (ok <==> Sum(cuts) == |data|)
      ensures conn.outbox == old(conn.outbox) + data[..Sum(cuts)]
      ensures conn.reliable && old(connected) && |data| < TWO_TO_THE_31 ==> ok
    {
      hide Sum, AllPositive;
      cuts := [];
      NoCuts();
      if !connected { return false, cuts; }
      var sent := 0;
      while sent < |data|
        invariant 0 <= sent <= |data| && AllPositive(cuts) && Sum(cuts) == sent
        invariant conn.outbox == old(conn.outbox) + data[..sent]
        invariant connected
      {
        var room := ToInt32(|data| - sent);
        ToInt32NotLarger(|data| - sent);
        var n := conn.Write(data[sent..], room);
        if n <= 0 {
          connected := false;
          return false, cuts;
        }
        assert data[..sent] + data[sent..][..n] == data[..sent + n];
        sent := sent + n;
        OneMoreCut(cuts, n);
        cuts := cuts + [n];
      }
      ok := true;
    }

    /** `size` bytes arrive in `buf` in stream order, or the connection is given up. */
    method RecvAll(buf: array<byte>, size: nat) returns (ok: bool)
      requires size <= buf.Length
      modifies this`connected, conn`inbox, buf
      ensures ok ==> old(connected) && connected
      ensures ok ==> size <= |old(conn.inbox)| && buf[..size] == old(conn.inbox)[..size]
                     && conn.inbox == old(conn.inbox)[size..]
      ensures buf[size..] == old(buf[size..])
      ensures !ok ==> !connected && |conn.inbox| <= |old(conn.inbox)|
                      && conn.inbox == old(conn.inbox)[|old(conn.inbox)| - |conn.inbox|..]
      ensures conn.reliable && old(connected) && size < TWO_TO_THE_31 ==> (ok <==> size <= |old(conn.inbox)|)
    {
      if !connected { return false; }
      ghost var stream := conn.inbox;
      var got := 0;
      while got < size
        invariant 0 <= got <= size && got <= |stream|
        invariant conn.inbox == stream[got..]
        invariant buf[..][..got] == stream[..got]
        invariant buf[..][size..] == old(buf[..])[size..]
        invariant connected
      {
        var n, chunk := conn.Read(ToInt32(size - got));
        ToInt32NotLarger(size - got);
        if n <= 0 {
          connected := false;
          return false;
        }
        ghost var before := buf[..];
        forall i | 0 <= i < n {
          buf[got + i] := chunk[i];
        }
        Overwritten(before, buf[..], chunk, stream, got, n);
        DropTwice(stream, got, n);
        got := got + n;
      }
      ok := true;
    }
  }

  lemma ToInt32NotLarger(x: nat)
    ensures ToInt32(x) <= x
  {
  }

  // ---------------------------------------------------------------- channel

  lemma LengthBytes(len: nat)
    requires len < TWO_TO_THE_32
    ensures [And(Shr(len, 24), 0xFF), And(Shr(len, 16), 0xFF), And(Shr(len, 8), 0xFF), And(len, 0xFF)]
         == BigEndian(len, 4)
  {
    hide And, BigEndian;
    BigEndianByte(len, 4, 0);
    BigEndianByte(len, 4, 1);
    BigEndianByte(len, 4, 2);
    BigEndianByte(len, 4, 3);
    assert Shr(len, 0) == len;
  }

  lemma FromBigEndianOfFour(s: bytes)
    requires |s| == 4
    ensures FromBigEndian(s) == ((s[0] as nat * 256 + s[1] as nat) * 256 + s[2] as nat) * 256 + s[3] as nat
  {
    assert s[..3][..2] == s[..2] && s[..2][..1] == s[..1] && s[..1][..0] == [];
    assert FromBigEndian(s[..3]) == FromBigEndian(s[..2]) * 256 + s[2] as nat;
    assert FromBigEndian(s[..2]) == FromBigEndian(s[..1]) * 256 + s[1] as nat;
    assert FromBigEndian(s[..1]) == FromBigEndian([]) * 256 + s[0] as nat;
  }

  lemma LengthFromBytes(s: bytes)
    requires |s| == 4
    ensures Or(Or(Or(Shl64(s[0], 24), Shl64(s[1], 16)), Shl64(s[2], 8)), s[3]) == FromBigEndian(s)
  {
    hide Or, Shl64, FromBigEndian;
    FromBigEndianOfFour(s);
    var a: nat, b: nat, c: nat := s[0], s[1], s[2];
    ShlByte(s[0]);
    ShlByte(s[1]);
    ShlByte(s[2]);
    OrAt(b * 0x1_0000, a);
    OrAt(c * 0x100, a * 0x100 + b);
    OrAt(s[3], (a * 0x100 + b) * 0x100 + c);
  }

  /** The answer to a heartbeat PING. */
  function Pong(ping: CastMessage): CastMessage {
    CastMessage(ping.destinationId, ping.sourceId, Ascii("urn:x-cast:com.google.cast.tp.heartbeat"),
                Ascii("{\"type\":\"PONG\"}"))
  }

  predicate IsHeartbeatPing(m: CastMessage, isPing: bytes -> bool) {
    m.namespaceUri == Ascii("urn:x-cast:com.google.cast.tp.heartbeat") && isPing(m.payloadUtf8)
  }

  lemma PingMeans(m: CastMessage, isPing: bytes -> bool)
    ensures IsHeartbeatPing(m, isPing) <==> m.namespaceUri == NS_HEARTBEAT && isPing(m.payloadUtf8)
  {
  }

  function Kept(m: CastMessage, isPing: bytes -> bool): seq<CastMessage> {
    if IsHeartbeatPing(m, isPing) then [] else [m]
  }

  function Answer(m: CastMessage, isPing: bytes -> bool): seq<CastMessage> {
    if IsHeartbeatPing(m, isPing) then [Pong(m)] else []
  }

  /** The messages handed to the application. */
  function Delivered(ms: seq<CastMessage>, isPing: bytes -> bool): seq<CastMessage> {
    if ms == [] then [] else Kept(ms[0], isPing) + Delivered(ms[1..], isPing)
  }

  /** The answers written to the peer. */
  function Pongs(ms: seq<CastMessage>, isPing: bytes -> bool): seq<CastMessage> {
    if ms == [] then [] else Answer(ms[0], isPing) + Pongs(ms[1..], isPing)
  }

  lemma NextFieldBounded(s: bytes)
    ensures NextField(s).Some? && NextField(s).value.0.StringValue? ==> |NextField(s).value.0.text| <= |s|
  {
    hide VarintAt;
  }

  lemma {:induction false} DecodedTextsBounded(m: CastMessage, s: bytes, bound: nat)
    requires DecodeFrom(m, s).Some? && |s| <= bound
    requires |m.sourceId| <= bound && |m.destinationId| <= bound
    ensures |DecodeFrom(m, s).value.sourceId| <= bound && |DecodeFrom(m, s).value.destinationId| <= bound
    decreases |s|
  {
    NextFieldBounded(s);
    hide NextField;
    if s == [] {
    } else {
      var (f, n) := NextField(s).value;
      DecodedTextsBounded(Apply(m, f), s[n..], bound);
    }
  }

  lemma ReadMessageAnswerable(stream: bytes)
    requires ReadOne(stream).Some?
    ensures Encodable(Pong(ReadOne(stream).value.0))
    ensures |Packet(Pong(ReadOne(stream).value.0))| < TWO_TO_THE_31
  {
    hide Packet, Pong, Encode, DecodeFrom, FromBigEndian;
    var len := FromBigEndian(stream[..4]);
    var m := ReadOne(stream).value.0;
    PongTexts(m);
    DecodedTextsBounded(EMPTY_MESSAGE, stream[4..4 + len], MAX_MESSAGE_SIZE);
    PacketSize(Pong(m), MAX_MESSAGE_SIZE);
  }

  /** A PONG goes back the way the PING came, on the heartbeat namespace. */
  lemma PongTexts(ping: CastMessage)
    ensures var p := Pong(ping);
            && p.sourceId == ping.destinationId && p.destinationId == ping.sourceId
            && p.namespaceUri == Ascii("urn:x-cast:com.google.cast.tp.heartbeat")
            && p.payloadUtf8 == Ascii("{\"type\":\"PONG\"}")
            && |p.namespaceUri| <= 100 && |p.payloadUtf8| <= 100
  {
  }

  lemma PacketSize(m: CastMessage, bound: nat)
    requires |m.sourceId| <= bound && |m.destinationId| <= bound && |m.namespaceUri| <= bound
    requires |m.payloadUtf8| <= bound < TWO_TO_THE_64
    ensures |Packet(m)| <= 4 * bound + 144
  {
    FlattenSix(VarintField(1, 0), StringField(2, m.sourceId), StringField(3, m.destinationId),
               StringField(4, m.namespaceUri), VarintField(5, 0), StringField(6, m.payloadUtf8));
    hide Flatten, VarintField, StringField, BigEndian;
    VarintFieldSize(1, 0);
    VarintFieldSize(5, 0);
    StringFieldSize(2, m.sourceId);
    StringFieldSize(3, m.destinationId);
    StringFieldSize(4, m.namespaceUri);
    StringFieldSize(6, m.payloadUtf8);
  }

  lemma VarintFieldSize(num: int32, v: uint64)
    ensures |VarintField(num, v)| <= 20
  {
    hide Varint, VarintAt;
    VarintRoundTrip(Tag(num, 0), []);
    VarintRoundTrip(v, []);
  }

  lemma StringFieldSize(num: int32, s: bytes)
    requires |s| < TWO_TO_THE_64
    ensures |StringField(num, s)| <= 20 + |s|
  {
    hide Varint, VarintAt;
    VarintRoundTrip(Tag(num, 2), []);
    VarintRoundTrip(|s|, []);
  }

  class CastChannel {
    const socket: TlsSocket
    var running: bool

    constructor (socket: TlsSocket)
      ensures this.socket == socket && running
    {
      this.socket, running := socket, true;
    }

    /** The send mutex is held throughout, so a call is one unit for every other sender. */
    method Send(m: CastMessage) returns (ok: bool, ghost cuts: seq<nat>)
      requires Encodable(m)
      modifies socket`connected, socket.conn`outbox
      ensures !old(socket.connected) ==> !ok && !socket.connected && cuts == []
      ensures old(socket.connected) ==> socket.connected == ok
      ensures AllPositive(cuts) && Sum(cuts) <= |Packet(m)|
      ensures old(socket.connected) ==> (ok <==> Sum(cuts) == |Packet(m)|)
      ensures socket.conn.outbox == old(socket.conn.outbox) + Packet(m)[..Sum(cuts)]
      ensures socket.conn.reliable && old(socket.connected) && |Packet(m)| < TWO_TO_THE_31 ==> ok
    {
      hide And, Shr, Encode, BigEndian;
      var body := EncodeCastMessage(m);
      var len := |body| % TWO_TO_THE_32;
      LengthBytes(len);
      var hdr := [And(Shr(len, 24), 0xFF), And(Shr(len, 16), 0xFF), And(Shr(len, 8), 0xFF), And(len, 0xFF)];
      var packet := hdr + body;
      assert packet == Packet(m);
      ok, cuts := socket.SendAll(packet);
    }

    /** One message is read off the stream exactly when the stream has one at its front. */
    method ReadMessage() returns (r: Option<CastMessage>)
      modifies socket`connected, socket.conn`inbox
      ensures socket.connected ==> old(socket.connected)
      ensures r.Some? ==> socket.connected
      ensures r.Some? ==> ReadOne(old(socket.conn.inbox)) == Some((r.value, socket.conn.inbox))
      ensures socket.conn.reliable && old(socket.connected) ==> (r.Some? <==> ReadOne(old(socket.conn.inbox)).Some?)
    {
      hide Or, Shl64, DecodeFrom;
      ghost var stream := socket.conn.inbox;
      var hdr := new byte[4];
      var ok := socket.RecvAll(hdr, 4);
      if !ok { return None; }
      assert hdr[..] == hdr[..4] == stream[..4];
      LengthFromBytes(hdr[..]);
      var len := Or(Or(Or(Shl64(hdr[0], 24), Shl64(hdr[1], 16)), Shl64(hdr[2], 8)), hdr[3]);
      if len == 0 || len > MAX_MESSAGE_SIZE { return None; }
      var body := new byte[len];
      ok := socket.RecvAll(body, len);
      if !ok { return None; }
      assert body[..] == body[..len] == stream[4..4 + len];
      r := DecodeCastMessage(body[..]);
    }

    /** The answer is built field by field; `sent` bytes of it go out. */
    method AnswerPing(ping: CastMessage) returns (ghost sent: nat)
      requires Encodable(Pong(ping))
      modifies socket`connected, socket.conn`outbox
      ensures sent <= |Packet(Pong(ping))|
      ensures socket.conn.outbox == old(socket.conn.outbox) + Packet(Pong(ping))[..sent]
      ensures socket.connected ==> old(socket.connected) && sent == |Packet(Pong(ping))|
      ensures socket.conn.reliable && old(socket.connected) && |Packet(Pong(ping))| < TWO_TO_THE_31 ==> socket.connected
    {
      hide Packet, Sum;
      var pong := EMPTY_MESSAGE;
      pong := pong.(sourceId := ping.destinationId);
      pong := pong.(destinationId := ping.sourceId);
      pong := pong.(namespaceUri := NS_HEARTBEAT);
      pong := pong.(payloadUtf8 := PONG);
      var ok, cuts := Send(pong);
      sent := Sum(cuts);
    }

    /**
     * Runs until a read fails, or until another thread clears `running_` after `stopAfter` messages.
     * Heartbeat PINGs are answered and withheld, every other message is delivered, all in stream order.
     * `seen` are the messages read and `sent` counts the bytes of the answers written: all of them unless a
     * write fails, after which nothing more is read or written.
     */
    method ReceiveLoop(isPing: bytes -> bool, stopAfter: nat)
      returns (delivered: seq<CastMessage>, ghost seen: seq<CastMessage>, ghost sent: nat)
      modifies this`running, socket`connected, socket.conn`inbox, socket.conn`outbox
      ensures seen <= ReadAll(old(socket.conn.inbox)) && |seen| <= stopAfter
      ensures Answered(isPing, seen, delivered, sent, old(socket.conn.outbox), socket.conn.outbox)
      ensures socket.connected ==> AllAnswered(isPing, seen, sent)
      ensures socket.conn.reliable && old(running) && old(socket.connected) ==>
                var all := ReadAll(old(socket.conn.inbox));
                && seen == (if |all| <= stopAfter then all else all[..stopAfter])
                && AllAnswered(isPing, seen, sent)
      ensures !running
    {
      hide ReadOne, ReadAll, Packet, Encodable, IsHeartbeatPing, Pong, Answered, AllAnswered;
      ghost var was, all := socket.conn.outbox, ReadAll(socket.conn.inbox);
      ghost var sound := socket.conn.reliable && running && socket.connected;
      seen, sent, delivered := [], 0, [];
      NothingSeen(isPing, was);
      var turns := 0;
      while running
        invariant turns == |seen| <= stopAfter && seen <= all
        invariant running && socket.connected ==> all == seen + ReadAll(socket.conn.inbox)
        invariant Answered(isPing, seen, delivered, sent, was, socket.conn.outbox)
        invariant socket.connected || sound ==> AllAnswered(isPing, seen, sent)
        invariant sound && running ==> socket.connected
        invariant sound && !running ==> seen == all || (stopAfter < |all| && seen == all[..stopAfter])
        decreases running, |socket.conn.inbox|
      {
        if turns == stopAfter {
          running := false;  // another thread called disconnect
          break;
        }
        ghost var stream, now, seen0, delivered0, sent0 := socket.conn.inbox, socket.conn.outbox, seen, delivered, sent;
        ReadAllStep(stream);
        var m := ReadMessage();
        if m.None? {
          running := false;
          break;
        }
        ReadMessageAnswerable(stream);
        ghost var rest := socket.conn.inbox;
        Regroup(seen0, m.value, ReadAll(rest));
        seen, turns := seen + [m.value], turns + 1;
        PingMeans(m.value, isPing);
        if m.value.namespaceUri == NS_HEARTBEAT && isPing(m.value.payloadUtf8) {
          ghost var n := AnswerPing(m.value);
          assert socket.conn.inbox == rest;
          AnsweredPing(isPing, seen0, m.value, delivered0, sent0, was, now, n);
          sent := sent + n;
          continue;
        }
        AnsweredOther(isPing, seen0, m.value, delivered0, sent0, was, now);
        delivered := delivered + [m.value];
      }
    }
  }

  /** For the messages `seen`: those delivered, and the first `sent` bytes of their answers on the wire behind `was`. */
  ghost predicate Answered(isPing: bytes -> bool, seen: seq<CastMessage>, delivered: seq<CastMessage>, sent: nat,
                           was: bytes, now: bytes) {
    && delivered == Delivered(seen, isPing)
    && AllEncodable(Pongs(seen, isPing))
    && sent <= |Packets(Pongs(seen, isPing))|
    && now == was + Packets(Pongs(seen, isPing))[..sent]
  }

  ghost predicate AllAnswered(isPing: bytes -> bool, seen: seq<CastMessage>, sent: nat) {
    AllEncodable(Pongs(seen, isPing)) && sent == |Packets(Pongs(seen, isPing))|
  }

  lemma NothingSeen(isPing: bytes -> bool, was: bytes)
    ensures Answered(isPing, [], [], 0, was, was) && AllAnswered(isPing, [], 0)
  {
  }

  /** A PING read after all answers so far went out, and `n` bytes of its own answer. */
  lemma AnsweredPing(isPing: bytes -> bool, seen: seq<CastMessage>, m: CastMessage,
                     delivered: seq<CastMessage>, sent: nat, was: bytes, now: bytes, n: nat)
    requires Answered(isPing, seen, delivered, sent, was, now) && AllAnswered(isPing, seen, sent)
    requires IsHeartbeatPing(m, isPing) && Encodable(Pong(m)) && n <= |Packet(Pong(m))|
    ensures Answered(isPing, seen + [m], delivered, sent + n, was, now + Packet(Pong(m))[..n])
    ensures n == |Packet(Pong(m))| ==> AllAnswered(isPing, seen + [m], sent + n)
  {
    hide Packet, Packets, IsHeartbeatPing, Pong, Delivered, Pongs;
    DeliveredAppend(seen, m, isPing);
    var a, b := Packets(Pongs(seen, isPing)), Packet(Pong(m));
    PacketsAppend(Pongs(seen, isPing), Pong(m));
    assert (a + b)[..sent + n] == a[..sent] + b[..n];
  }

  lemma AnsweredOther(isPing: bytes -> bool, seen: seq<CastMessage>, m: CastMessage,
                      delivered: seq<CastMessage>, sent: nat, was: bytes, now: bytes)
    requires Answered(isPing, seen, delivered, sent, was, now) && !IsHeartbeatPing(m, isPing)
    ensures Answered(isPing, seen + [m], delivered + [m], sent, was, now)
    ensures AllAnswered(isPing, seen, sent) ==> AllAnswered(isPing, seen + [m], sent)
  {
    hide Packets, IsHeartbeatPing, Delivered, Pongs;
    DeliveredAppend(seen, m, isPing);
    assert Pongs(seen + [m], isPing) == Pongs(seen, isPing);
  }

  lemma Regroup(a: seq<CastMessage>, m: CastMessage, b: seq<CastMessage>)
    ensures a + ([m] + b) == a + [m] + b && a + [m] <= a + ([m] + b)
  {
  }

  lemma ReadAllStep(stream: bytes)
    ensures var r := ReadOne(stream);
            ReadAll(stream) == if r.None? then [] else [r.value.0] + ReadAll(r.value.1)
  {
    hide ReadOne;
  }

  lemma {:induction false} DeliveredAppend(ms: seq<CastMessage>, m: CastMessage, isPing: bytes -> bool)
    ensures Delivered(ms + [m], isPing) == Delivered(ms, isPing) + Kept(m, isPing)
    ensures Pongs(ms + [m], isPing) == Pongs(ms, isPing) + Answer(m, isPing)
  {
    hide Kept, Answer;
    if ms == [] {
      assert [] + [m] == [m];
      assert Delivered([m][1..], isPing) == [] && Pongs([m][1..], isPing) == [];
    } else {
      DeliveredAppend(ms[1..], m, isPing);
      assert (ms + [m])[1..] == ms[1..] + [m];
    }
  }

  /** Of the messages read, each is either delivered or answered, once, behind those of its kind before it. */
  lemma {:induction false} EachMessageOnce(ms: seq<CastMessage>, i: nat, isPing: bytes -> bool)
    requires i < |ms|
    ensures |Delivered(ms, isPing)| + |Pongs(ms, isPing)| == |ms|
    ensures var k, n := |Delivered(ms[..i], isPing)|, |Pongs(ms[..i], isPing)|;
            && k + n == i
            && if ms[i].namespaceUri == Ascii("urn:x-cast:com.google.cast.tp.heartbeat") && isPing(ms[i].payloadUtf8)
                 then n < |Pongs(ms, isPing)| && Pongs(ms, isPing)[n] == Pong(ms[i])
                 else k < |Delivered(ms, isPing)| && Delivered(ms, isPing)[k] == ms[i]
  {
    hide Delivered, Pongs, Pong;
    var front, last := ms[..|ms| - 1], ms[|ms| - 1];
    assert front + [last] == ms;
    DeliveredAppend(front, last, isPing);
    if i < |front| {
      assert front[..i] == ms[..i] && front[i] == ms[i];
      EachMessageOnce(front, i, isPing);
    } else {
      assert ms[..i] == front;
      AllCounted(front, isPing);
    }
  }

  lemma AllCounted(ms: seq<CastMessage>, isPing: bytes -> bool)
    ensures |Delivered(ms, isPing)| + |Pongs(ms, isPing)| == |ms|
  {
    if ms == [] {
    } else {
      AllCounted(ms[1..], isPing);
    }
  }
}
