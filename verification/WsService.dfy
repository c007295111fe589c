/** The MQTT to WebSocket bridge (WsService.cpp): who listens to which filter, and the fan-out. */
module WsService {
  import opened Bits
  import opened TopicFilter
  import opened EventBus
  import opened Encoding
  import opened WsFrames
  import opened WsServer
  import opened ClientMessages

  // -------------------------------------------------------------- the index

  datatype Index = Index(subs: map<int, set<bytes>>, filters: map<bytes, set<int>>)

  const EMPTY_INDEX := Index(map[], map[])

  function Subs(ix: Index, c: int): set<bytes> {
    if c in ix.subs then ix.subs[c] else {}
  }

  function Clients(ix: Index, f: bytes): set<int> {
    if f in ix.filters then ix.filters[f] else {}
  }

  /** The two maps are inverse to each other, and no filter is kept without a client. */
  ghost predicate Mutual(ix: Index) {
    && (forall c, f :: f in Subs(ix, c) <==> c in Clients(ix, f))
    && forall f :: f in ix.filters ==> ix.filters[f] != {}
  }

  function WithSub(ix: Index, c: int, f: bytes): Index {
    Index(ix.subs[c := Subs(ix, c) + {f}], ix.filters[f := Clients(ix, f) + {c}])
  }

  function DropClient(filters: map<bytes, set<int>>, f: bytes, c: int): map<bytes, set<int>> {
    var rest := (if f in filters then filters[f] else {}) - {c};
    if rest == {} then filters - {f} else filters[f := rest]
  }

  function WithoutSub(ix: Index, c: int, f: bytes): Index {
    Index(ix.subs[c := Subs(ix, c) - {f}], DropClient(ix.filters, f, c))
  }

  lemma WithSubKeepsMutual(ix: Index, c: int, f: bytes)
    requires Mutual(ix)
    ensures Mutual(WithSub(ix, c, f))
    ensures forall d, g :: g in Subs(WithSub(ix, c, f), d) <==> g in Subs(ix, d) || (d == c && g == f)
  {
    var jx := WithSub(ix, c, f);
    forall d, g
      ensures g in Subs(jx, d) <==> d in Clients(jx, g)
    {
      assert g in Subs(ix, d) <==> d in Clients(ix, g);
    }
    assert c in jx.filters[f];
  }

  lemma WithoutSubKeepsMutual(ix: Index, c: int, f: bytes)
    requires Mutual(ix)
    ensures Mutual(WithoutSub(ix, c, f))
    ensures forall d, g :: g in Subs(WithoutSub(ix, c, f), d) <==> g in Subs(ix, d) && !(d == c && g == f)
  {
    var jx := WithoutSub(ix, c, f);
    forall d, g
      ensures g in Subs(jx, d) <==> d in Clients(jx, g)
    {
      assert g in Subs(ix, d) <==> d in Clients(ix, g);
    }
  }

  /** Client `c` is nowhere in the index. */
  ghost predicate Absent(ix: Index, c: int) {
    c !in ix.subs && forall f :: f in ix.filters ==> c !in ix.filters[f]
  }

  /** What onWsClose must leave behind: everything of `c` gone, everything else as it was. */
  ghost predicate ClosedIndex(ix: Index, jx: Index, c: int) {
    && jx.subs == ix.subs - {c}
    && Absent(jx, c)
    && (forall f :: Clients(jx, f) == Clients(ix, f) - {c})
    && forall f :: f in jx.filters ==> jx.filters[f] != {}
  }

  ghost predicate NoneEmpty(ix: Index) {
    forall f :: f in ix.filters ==> ix.filters[f] != {}
  }

  /** After the loop over the client's filters, and the erasure of its own entry. */
  lemma Closed(ix: Index, jx: Index, c: int)
    requires Mutual(ix) && c in ix.subs && jx.subs == ix.subs - {c} && NoneEmpty(jx)
    requires forall f :: Clients(jx, f) == Clients(ix, f) - (if f in ix.subs[c] then {c} else {})
    ensures ClosedIndex(ix, jx, c)
  {
    forall f
      ensures Clients(jx, f) == Clients(ix, f) - {c}
    {
      assert f in Subs(ix, c) <==> c in Clients(ix, f);
    }
    forall f | f in jx.filters
      ensures c !in jx.filters[f]
    {
      assert Clients(jx, f) == jx.filters[f];
    }
  }

  lemma ClosedKeepsMutual(ix: Index, jx: Index, c: int)
    requires Mutual(ix) && ClosedIndex(ix, jx, c)
    ensures Mutual(jx)
  {
    forall d, f
      ensures f in Subs(jx, d) <==> d in Clients(jx, f)
    {
      assert Clients(jx, f) == Clients(ix, f) - {c};
      assert Subs(jx, d) == if d == c then {} else Subs(ix, d);
    }
  }

  lemma AbsentWithoutSubs(ix: Index, c: int)
    requires Mutual(ix) && c !in ix.subs
    ensures Absent(ix, c)
  {
    forall f | f in ix.filters
      ensures c !in ix.filters[f]
    {
      assert f !in Subs(ix, c);
      assert c !in Clients(ix, f);
    }
  }

  // ------------------------------------------------------------- the fan-out

  function Repeat(x: bytes, n: nat): seq<bytes> {
    seq(n, i => x)
  }

  /** The filters of `c` that match the topic. */
  function Matching(ix: Index, c: int, topic: bytes): set<bytes> {
    set f | f in Subs(ix, c) && Scan(f, topic)
  }

  /** Those among `seen` under which the fan-out finds `c`. */
  function FoundUnder(ix: Index, seen: set<bytes>, c: int, topic: bytes): set<bytes> {
    set f | f in seen && Scan(f, topic) && c in Clients(ix, f)
  }

  /** `frame.dump()` of the JSON record with a topic and a payload: it throws on a string that is not UTF-8. */
  type Dump = (bytes, bytes) -> Option<WireText>

  ghost predicate ThrowsOnNonUtf8(dump: Dump) {
    forall topic, payload :: dump(topic, payload).Some? <==> Utf8(topic) && Utf8(payload)
  }

  class WsService {
    const server: WsServer
    const dump: Dump
    var clientSubs: map<int, set<bytes>>
    var filterClients: map<bytes, set<int>>
    /** The indexes this service has had, the present one last. */
    ghost var past: seq<Index>

    constructor (server: WsServer, dump: Dump)
      requires ThrowsOnNonUtf8(dump)
      ensures this.server == server && this.dump == dump && State() == EMPTY_INDEX && Valid()
    {
      this.server, this.dump, clientSubs, filterClients := server, dump, map[], map[];
      past := [EMPTY_INDEX];
    }

    function State(): Index
      reads this
    {
      Index(clientSubs, filterClients)
    }

    ghost predicate Valid()
      reads this
    {
      Mutual(State()) && past != [] && past[|past| - 1] == State() && ThrowsOnNonUtf8(dump)
    }

    method OnSubscribe(c: int, topic: bytes)
      modifies this`clientSubs, this`filterClients
      ensures State() == if topic == [] then old(State()) else WithSub(old(State()), c, topic)
    {
      if topic == [] { return; }
      clientSubs := clientSubs[c := (if c in clientSubs then clientSubs[c] else {}) + {topic}];
      filterClients := filterClients[topic := (if topic in filterClients then filterClients[topic] else {}) + {c}];
    }

    method OnUnsubscribe(c: int, topic: bytes)
      modifies this`clientSubs, this`filterClients
      ensures State() == if topic == [] then old(State()) else WithoutSub(old(State()), c, topic)
    {
      if topic == [] { return; }
      clientSubs := clientSubs[c := (if c in clientSubs then clientSubs[c] else {}) - {topic}];
      filterClients := filterClients[topic := (if topic in filterClients then filterClients[topic] else {}) - {c}];
      if filterClients[topic] == {} {
        filterClients := filterClients - {topic};
      }
      assert State() == WithoutSub(old(State()), c, topic);
    }

    /**
     * A message of client `c`, parsed if it can be. Only a subscribe or unsubscribe changes the index. `threw`:
     * an exception leaves the handler, which nothing on the client's thread catches. `published` is what is handed
     * to the MQTT client.
     */
    method OnWsMessage(c: int, parsed: Option<Json>) returns (threw: bool, published: Option<(bytes, bytes)>)
      requires Valid()
      modifies this
      ensures Valid() && old(past) <= past
      ensures threw <==> parsed.Some? && BadMessage(parsed.value)
      ensures parsed.None? ==> State() == old(State()) && published.None?
      ensures parsed.Some? ==>
                && State() == (
                     if Asks(parsed.value, Ascii("subscribe")) then
                       WithSub(old(State()), c, TopicOf(parsed.value, Ascii("subscribe")))
                     else if Asks(parsed.value, Ascii("unsubscribe")) then
                       WithoutSub(old(State()), c, TopicOf(parsed.value, Ascii("unsubscribe")))
                     else old(State()))
                && published == Publication(parsed.value)
    {
      hide Value, BadMessage, Asks, TopicOf, Publication, Mutual, WithSub, WithoutSub;
      ThrowsIffBad(parsed);
      published := None;
      if parsed.None? { return false, published; }
      var msg := parsed.value;
      CommandCases(msg);
      var name := Value(msg, TYPE);
      if name.None? { return true, published; }
      if name.value == SUBSCRIBE {
        var topic := Value(msg, TOPIC);
        if topic.None? { return true, published; }
        WithSubKeepsMutual(State(), c, topic.value);
        OnSubscribe(c, topic.value);
        past := past + [State()];
      } else if name.value == UNSUBSCRIBE {
        var topic := Value(msg, TOPIC);
        if topic.None? { return true, published; }
        WithoutSubKeepsMutual(State(), c, topic.value);
        OnUnsubscribe(c, topic.value);
        past := past + [State()];
      } else if name.value == PUBLISH {
        var topic := Value(msg, TOPIC);
        if topic.None? { return true, published; }
        var payload := Value(msg, PAYLOAD);
        if payload.None? { return true, published; }
        if topic.value != [] {
          published := Some((topic.value, payload.value));
        }
      }
      threw := false;
    }

    method OnClose(c: int)
      requires Valid()
      modifies this
      ensures Valid() && old(past) <= past && Absent(State(), c)
      ensures if c in old(clientSubs) then ClosedIndex(old(State()), State(), c) else State() == old(State())
    {
      ghost var ix := State();
      if c !in clientSubs {
        AbsentWithoutSubs(ix, c);
        return;
      }
      var todo := clientSubs[c];
      while todo != {}
        invariant clientSubs == ix.subs && todo <= ix.subs[c] && past == old(past)
        invariant forall f ::
                    Clients(State(), f) == Clients(ix, f) - (if f in ix.subs[c] && f !in todo then {c} else {})
        invariant NoneEmpty(State())
        decreases todo
      {
        var f :| f in todo;
        DropFrom(f, c);
        todo := todo - {f};
      }
      clientSubs := clientSubs - {c};
      Closed(ix, State(), c);
      ClosedKeepsMutual(ix, State(), c);
      past := past + [State()];
    }

    /** One turn of the loop: the client leaves a filter, and a filter left empty goes. */
    method DropFrom(f: bytes, c: int)
      requires NoneEmpty(State())
      modifies this`filterClients
      ensures NoneEmpty(State())
      ensures forall g :: Clients(State(), g) == Clients(old(State()), g) - (if g == f then {c} else {})
    {
      filterClients := filterClients[f := (if f in filterClients then filterClients[f] else {}) - {c}];
      if filterClients[f] == {} {
        filterClients := filterClients - {f};
      }
    }

    /** What client threads do to the index while its mutex is free. */
    method Others()
      requires Valid()
      modifies this
      ensures Valid() && old(past) <= past
    {
      var n: nat := *;
      while n > 0
        invariant Valid() && old(past) <= past
      {
        var c: int, parsed: Option<Json> := *, *;
        if * {
          var threw, published := OnWsMessage(c, parsed);
        } else {
          OnClose(c);
        }
        n := n - 1;
      }
    }

    /**
     * Sends `text` once for every filter and client the index holds together and the topic matches,
     * while other threads connect and disconnect clients.
     */
    method FanOut(topic: bytes, text: WireText)
      requires Mutual(State()) && server.Valid()
      modifies server
      ensures server.Valid() && server.nextId >= old(server.nextId)
      ensures forall c :: c in server.Up() ==> c in old(server.Up()) || c >= old(server.nextId)
      ensures forall c :: c in server.Up() && c in old(server.Up()) ==>
                server.Sent(c) == old(server.Sent(c)) + Repeat(text, |Matching(State(), c, topic)|)
    {
      hide Delivered, Hit, Mutual, Matching, Repeat, IsStream, TextsOf;
      ghost var ix := State();
      FanOutEnds(ix, topic, text);
      var filters := filterClients.Keys;
      ghost var seen: set<bytes> := {};
      while filters != {}
        invariant server.Valid() && server.nextId >= old(server.nextId)
        invariant filters !! seen && filters + seen == filterClients.Keys
        invariant forall c :: c in server.Up() ==> c in old(server.Up()) || c >= old(server.nextId)
        invariant forall c :: c in server.Up() && c in old(server.Up()) ==>
                    server.Sent(c) == old(server.Sent(c)) + Delivered(ix, seen, c, topic, text)
        decreases filters
      {
        var filter :| filter in filters;
        FanOutFilter(filter, topic, text);
        DeliveredOneMore(ix, seen, filter, topic, text);
        filters, seen := filters - {filter}, seen + {filter};
      }
      assert seen == ix.filters.Keys;
    }

    /** One turn of the outer loop. */
    method FanOutFilter(filter: bytes, topic: bytes, text: WireText)
      requires server.Valid() && filter in filterClients
      modifies server
      ensures server.Valid() && server.nextId >= old(server.nextId)
      ensures forall c :: c in server.Up() ==> c in old(server.Up()) || c >= old(server.nextId)
      ensures forall c :: c in server.Up() && c in old(server.Up()) ==>
                server.Sent(c) == old(server.Sent(c)) + Hit(State(), filter, c, topic, text)
    {
      hide Scan;
      var matches := TopicMatches(filter, topic);
      if matches {
        SendAll(filterClients[filter], text);
      }
    }

    /** The inner loop: one send for every client of a filter. */
    method SendAll(to: set<int>, text: WireText)
      requires server.Valid()
      modifies server
      ensures server.Valid() && server.nextId >= old(server.nextId)
      ensures forall c :: c in server.Up() ==> c in old(server.Up()) || c >= old(server.nextId)
      ensures forall c :: c in server.Up() && c in old(server.Up()) ==>
                server.Sent(c) == old(server.Sent(c)) + if c in to then [text] else []
    {
      hide IsStream, TextsOf;
      var clients := to;
      while clients != {}
        invariant server.Valid() && server.nextId >= old(server.nextId) && clients <= to
        invariant forall c :: c in server.Up() ==> c in old(server.Up()) || c >= old(server.nextId)
        invariant forall c :: c in server.Up() && c in old(server.Up()) ==>
                    server.Sent(c) == old(server.Sent(c)) + if c in to && c !in clients then [text] else []
        decreases clients
      {
        SomeMember(clients);
        var clientId: int :| clientId in clients;
        SendOne(clientId, text);
        clients := clients - {clientId};
      }
    }

    /** Other threads have their turn, then one client is sent the text. */
    method SendOne(clientId: int, text: WireText)
      requires server.Valid()
      modifies server
      ensures server.Valid() && server.nextId >= old(server.nextId)
      ensures forall c :: c in server.Up() ==> c in old(server.Up()) || c >= old(server.nextId)
      ensures forall c :: c in server.Up() && c in old(server.Up()) ==>
                server.Sent(c) == old(server.Sent(c)) + if c == clientId then [text] else []
    {
      hide IsStream, TextsOf;
      server.Others();
      var ok := server.Send(clientId, text);
    }

    /** The "mqtt:message" handler; data that is no pair fails the cast, text that is not UTF-8 the dump: swallowed. */
    method OnMqttMessage(event: Event)
      requires Mutual(State()) && server.Valid()
      modifies server
      ensures server.Valid() && server.nextId >= old(server.nextId)
      ensures forall c :: c in server.Up() ==> c in old(server.Up()) || c >= old(server.nextId)
      ensures forall c :: c in server.Up() && c in old(server.Up()) ==>
                server.Sent(c) == old(server.Sent(c)) + Copies(dump, State(), event, c)
    {
      if event.data.Pair? {
        var text := dump(event.data.topic, event.data.payload);
        if text.Some? {
          FanOut(event.data.topic, text.value);
        }
      }
    }
  }

  /** What one event adds to the texts of a client that stays connected. */
  function Copies(dump: Dump, ix: Index, event: Event, c: int): seq<bytes> {
    if !event.data.Pair? then []
    else
      match dump(event.data.topic, event.data.payload)
      case None => []
      case Some(text) => Repeat(text, |Matching(ix, c, event.data.topic)|)
  }

  /**
   * A client with a matching filter gets its frames if and only if topic and payload are UTF-8, and otherwise
   * nothing at all.
   */
  lemma DeliveredIffUtf8(dump: Dump, ix: Index, c: int, name: bytes, topic: bytes, payload: bytes)
    requires ThrowsOnNonUtf8(dump) && Matching(ix, c, topic) != {}
    ensures var got := Copies(dump, ix, Event(name, Pair(topic, payload)), c);
            && (|got| == |Matching(ix, c, topic)| <==> Utf8(topic) && Utf8(payload))
            && (got != [] <==> Utf8(topic) && Utf8(payload))
  {
    hide Matching, Utf8;
    assert dump(topic, payload).Some? <==> Utf8(topic) && Utf8(payload);
  }

  /** The one-byte payload 0xFF on topic "a": the subscriber of "a" gets nothing. */
  lemma LoneByteLost(dump: Dump, c: int)
    requires ThrowsOnNonUtf8(dump)
    ensures var topic: bytes := [97];
            var ix := WithSub(EMPTY_INDEX, c, topic);
            && Mutual(ix) && Matching(ix, c, topic) == {topic}
            && Copies(dump, ix, Event(Ascii("mqtt:message"), Pair(topic, [0xFF])), c) == []
  {
    var topic: bytes := [97];
    var ix := WithSub(EMPTY_INDEX, c, topic);
    WithSubKeepsMutual(EMPTY_INDEX, c, topic);
    assert Scan(topic, topic);
    assert Matching(ix, c, topic) == {topic};
    ForbiddenByte([0xFF], 0);
    DeliveredIffUtf8(dump, ix, c, Ascii("mqtt:message"), topic, [0xFF]);
  }

  /** What the filters in `seen` bring client `c`. */
  function Delivered(ix: Index, seen: set<bytes>, c: int, topic: bytes, text: bytes): seq<bytes> {
    Repeat(text, |FoundUnder(ix, seen, c, topic)|)
  }

  function Hit(ix: Index, filter: bytes, c: int, topic: bytes, text: bytes): seq<bytes> {
    if Scan(filter, topic) && c in Clients(ix, filter) then [text] else []
  }

  lemma DeliveredOneMore(ix: Index, seen: set<bytes>, filter: bytes, topic: bytes, text: bytes)
    requires filter !in seen
    ensures forall c :: Delivered(ix, seen + {filter}, c, topic, text)
                     == Delivered(ix, seen, c, topic, text) + Hit(ix, filter, c, topic, text)
  {
    hide Scan;
    forall c
      ensures Delivered(ix, seen + {filter}, c, topic, text)
           == Delivered(ix, seen, c, topic, text) + Hit(ix, filter, c, topic, text)
    {
      var was, now := FoundUnder(ix, seen, c, topic), FoundUnder(ix, seen + {filter}, c, topic);
      if Scan(filter, topic) && c in Clients(ix, filter) {
        assert now == was + {filter};
      } else {
        assert now == was;
      }
    }
  }

  lemma FanOutEnds(ix: Index, topic: bytes, text: bytes)
    requires Mutual(ix)
    ensures forall c :: Delivered(ix, {}, c, topic, text) == []
    ensures forall c :: Delivered(ix, ix.filters.Keys, c, topic, text) == Repeat(text, |Matching(ix, c, topic)|)
  {
    hide Scan;
    forall c
      ensures FoundUnder(ix, {}, c, topic) == {}
      ensures FoundUnder(ix, ix.filters.Keys, c, topic) == Matching(ix, c, topic)
    {
      FoundUnderAll(ix, c, topic);
    }
  }

  lemma FoundUnderAll(ix: Index, c: int, topic: bytes)
    requires Mutual(ix)
    ensures FoundUnder(ix, ix.filters.Keys, c, topic) == Matching(ix, c, topic)
  {
    hide Scan;
    forall f
      ensures f in ix.filters.Keys && c in Clients(ix, f) <==> f in Subs(ix, c)
    {
      assert f in Subs(ix, c) <==> c in Clients(ix, f);
    }
  }
}
