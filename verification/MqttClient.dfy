/** PUBLISH packets as MQTTClient.cpp builds and reads them. */
module MqttClient {
  import opened Bits
  import opened EventBus

  const PREFIX: bytes := Ascii("mqtt:")
  const MESSAGE_EVENT: bytes := Ascii("mqtt:message")
  const PUBLISH_TYPE: nat := 3

  function EncodedString(s: bytes): bytes {
    BigEndian(|s|, 2) + s
  }

  /** Section 3.3 of MQTT 3.1.1 at QoS 0: fixed header of one length byte, topic name, payload. */
  function PublishPacket(first: byte, topic: bytes, payload: bytes): bytes {
    [first, (2 + |topic| + |payload|) % 256] + EncodedString(topic) + payload
  }

  /** The two events a packet puts on the bus. */
  function EventsFor(topic: bytes, payload: bytes): seq<Event> {
    [Event(Ascii("mqtt:") + topic, Text(payload)), Event(Ascii("mqtt:message"), Pair(topic, payload))]
  }

  /** What handlePacket publishes for a buffer. */
  function PacketEvents(data: bytes): seq<Event> {
    if |data| < 4 || !(0x30 <= data[0] < 0x40) then []
    else
      var len := FromBigEndian(data[2..4]);
      if 4 + len > |data| then [] else EventsFor(data[4..4 + len], data[4 + len..])
  }

  method EncodeString(s: bytes) returns (out: bytes)
    ensures out == EncodedString(s)
  {
    hide And, Shr, BigEndian;
    BigEndianByte(|s|, 2, 0);
    BigEndianByte(|s|, 2, 1);
    ShrZero(|s|);
    out := [And(Shr(|s|, 8), 0xFF)];
    out := out + [And(|s|, 0xFF)];
    assert out == BigEndian(|s|, 2);
    out := out + s;
  }

  method BuildPublish(topic: bytes, payload: bytes) returns (pkt: bytes)
    ensures pkt == PublishPacket(0x30, topic, payload)
  {
    hide BigEndian;
    pkt := [0x30];
    var body := EncodeString(topic);
    body := body + payload;
    pkt := pkt + [|body| % 256];
    pkt := pkt + body;
  }

  /** A packet built from a topic below 2^16 bytes is read back as exactly its topic and payload. */
  lemma PublishRoundTrip(first: byte, topic: bytes, payload: bytes)
    requires 0x30 <= first < 0x40 && |topic| < 0x1_0000
    ensures PacketEvents(PublishPacket(first, topic, payload)) == EventsFor(topic, payload)
  {
    hide BigEndian, FromBigEndian;
    var data := PublishPacket(first, topic, payload);
    Pow2Values();
    BigEndianRoundTrip(|topic|, 2);
    assert data[2..4] == BigEndian(|topic|, 2);
    assert data[4..4 + |topic|] == topic && data[4 + |topic|..] == payload;
  }

  lemma TwoByteValue(high: byte, low: byte)
    ensures FromBigEndian([high, low]) == high * 256 + low
  {
    assert [high, low][..1] == [high] && [high][..0] == [];
    assert FromBigEndian([high]) == FromBigEndian([]) * 256 + high as nat;
  }

  /** Which buffers are taken for a message: PUBLISH packets that hold their topic. */
  lemma PacketAcceptance(data: bytes)
    ensures PacketEvents(data) != []
       <==> |data| >= 4 && 0x30 <= data[0] < 0x40 && 4 + data[2] * 256 + data[3] <= |data|
  {
    hide FromBigEndian;
    if |data| >= 4 {
      assert data[2..4] == [data[2], data[3]];
      TwoByteValue(data[2], data[3]);
    }
  }

  /** A QoS 0 PUBLISH on the wire: type and flags, the low eight bits of the length, and the topic behind its size. */
  lemma PublishBytes(topic: bytes, payload: bytes)
    ensures PublishPacket(0x30, topic, payload)
         == [0x30, (2 + |topic| + |payload|) % 256, |topic| / 256 % 256, |topic| % 256] + topic + payload
  {
    var n := |topic|;
    assert BigEndian(n, 2) == BigEndian(n / 256, 1) + [n % 256];
    assert BigEndian(n / 256, 1) == BigEndian(n / 256 / 256, 0) + [n / 256 % 256];
    hide BigEndian;
  }

  /** A body of at most 127 bytes is announced truthfully by the one length byte. */
  lemma RemainingLengthTruthful(topic: bytes, payload: bytes)
    ensures var data := PublishPacket(0x30, topic, payload);
            |data| - 2 <= 127 ==> data[1] as int == |data| - 2
  {
    hide BigEndian;
  }

  lemma PacketTypeBits(first: byte)
    ensures Shr(first, 4) == first / 16
    ensures first / 16 == 3 <==> 0x30 <= first < 0x40
  {
    Pow2Values();
    Pow2Add(1, 3);
    ShrDivides(first, 4);
  }

  lemma GrownBy<T>(q: seq<T>, mid: seq<T>, e: T, now: seq<T>)
    requires q <= mid && mid + [e] <= now
    ensures q <= now && now[|q|..] == mid[|q|..] + [e] + now[|mid| + 1..]
  {
  }

  lemma OneMoreWoven<T>(es: seq<T>, q: seq<T>, mid: seq<T>, e: T, now: seq<T>)
    requires q <= mid && mid + [e] <= now && Woven(es, mid[|q|..])
    ensures q <= now && Woven(es + [e], now[|q|..])
  {
    hide Woven;
    GrownBy(q, mid, e, now);
    WovenSnoc(es, mid[|q|..], e);
    WovenMore(es + [e], mid[|q|..] + [e], now[|mid| + 1..]);
  }

  /** A queue that grew on and on, twice by an event of ours. */
  lemma TwoWoven<T>(q: seq<T>, q1: seq<T>, q2: seq<T>, q3: seq<T>, e1: T, e2: T)
    requires q <= q1 && q1 + [e1] <= q2 && q2 + [e2] <= q3
    ensures q <= q3 && Woven([e1, e2], q3[|q|..])
  {
    assert Woven([], q1[|q|..]);
    hide Woven;
    assert [] + [e1] == [e1] && [e1] + [e2] == [e1, e2];
    OneMoreWoven([], q, q1, e1, q2);
    OneMoreWoven([e1], q, q2, e2, q3);
  }

  class MqttClient {
    const eventBus: EventBus
    /** Every event this client has published. */
    ghost var published: seq<Event>

    constructor (bus: EventBus)
      ensures eventBus == bus && published == []
    {
      eventBus, published := bus, [];
    }

    /**
     * A PUBLISH must have at least its length byte; every other malformed buffer is dropped. Between the two
     * publications other threads have their turn; unless they shut the bus down, both events are queued, in
     * this order.
     */
    method HandlePacket(data: bytes)
      requires eventBus.Valid()
      requires data != [] && 0x30 <= data[0] < 0x40 ==> |data| >= 2
      modifies this, eventBus
      ensures published == old(published) + PacketEvents(data)
      ensures eventBus.Valid() && old(eventBus.run) <= eventBus.run
      ensures eventBus.isShuttingDown
              || (old(eventBus.eventQueue) <= eventBus.eventQueue
                  && Woven(PacketEvents(data), eventBus.eventQueue[|old(eventBus.eventQueue)|..]))
      ensures Last(eventBus.run).phase == Last(old(eventBus.run)).phase
      ensures Last(eventBus.run).finished == Last(old(eventBus.run)).finished
      ensures Last(eventBus.run).begun == Last(old(eventBus.run)).begun
      ensures Last(eventBus.run).calls == Last(old(eventBus.run)).calls
    {
      hide IsRun, FromBigEndian, Published, Shr;
      Neutral(published);
      if data == [] { return; }
      PacketTypeBits(data[0]);
      var packetType := Shr(data[0], 4);
      if packetType == PUBLISH_TYPE {
        var pos := 1;
        var remainingLength := data[pos];
        pos := pos + 1;
        if pos + 2 > |data| { return; }
        var topicLen := TopicLength(data[pos], data[pos + 1]);
        assert data[2..4] == [data[2], data[3]];
        pos := pos + 2;
        if pos + topicLen > |data| { return; }
        var topic := data[pos..pos + topicLen];
        pos := pos + topicLen;
        var payload := [];
        if pos < |data| {
          payload := data[pos..];
        }
        assert payload == data[pos..];
        PublishTwo(PREFIX + topic, payload, topic);
      }
    }

    method PublishTwo(name: bytes, payload: bytes, topic: bytes)
      requires eventBus.Valid()
      modifies this, eventBus
      ensures published == old(published) + [Event(name, Text(payload)), Event(MESSAGE_EVENT, Pair(topic, payload))]
      ensures eventBus.Valid() && old(eventBus.run) <= eventBus.run
      ensures eventBus.isShuttingDown
              || (old(eventBus.eventQueue) <= eventBus.eventQueue
                  && Woven([Event(name, Text(payload)), Event(MESSAGE_EVENT, Pair(topic, payload))],
                           eventBus.eventQueue[|old(eventBus.eventQueue)|..]))
      ensures Last(eventBus.run).phase == Last(old(eventBus.run)).phase
      ensures Last(eventBus.run).finished == Last(old(eventBus.run)).finished
      ensures Last(eventBus.run).begun == Last(old(eventBus.run)).begun
      ensures Last(eventBus.run).calls == Last(old(eventBus.run)).calls
    {
      hide IsRun, Woven;
      var e1, e2 := Event(name, Text(payload)), Event(MESSAGE_EVENT, Pair(topic, payload));
      eventBus.Others();
      ghost var q1 := eventBus.eventQueue;
      PublishOne(e1);
      eventBus.Others();
      ghost var q2 := eventBus.eventQueue;
      PublishOne(e2);
      eventBus.Others();
      if !eventBus.isShuttingDown {
        TwoWoven(old(eventBus.eventQueue), q1, q2, eventBus.eventQueue, e1, e2);
      }
    }

    method PublishOne(e: Event)
      requires eventBus.Valid()
      modifies this, eventBus
      ensures published == old(published) + [e]
      ensures eventBus.Valid() && old(eventBus.run) <= eventBus.run
      ensures eventBus.isShuttingDown == old(eventBus.isShuttingDown)
      ensures eventBus.isShuttingDown || eventBus.eventQueue == old(eventBus.eventQueue) + [e]
      ensures Last(eventBus.run).phase == Last(old(eventBus.run)).phase
      ensures Last(eventBus.run).finished == Last(old(eventBus.run)).finished
      ensures Last(eventBus.run).begun == Last(old(eventBus.run)).begun
      ensures Last(eventBus.run).calls == Last(old(eventBus.run)).calls
    {
      hide IsRun;
      eventBus.Publish(e);
      published := published + [e];
    }
  }

  /** `(high << 8) | low` */
  function TopicLength(high: byte, low: byte): (n: nat)
    ensures n == FromBigEndian([high, low])
  {
    OrByte(high, low);
    TwoByteValue(high, low);
    Or(Shl64(high, 8), low)
  }
}
