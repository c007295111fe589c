/** From a received MQTT packet to WebSocket frames: the whole bridge, end to end. */
module Bridge {
  import opened Bits
  import opened Encoding
  import opened WsFrames
  import opened TopicFilter
  import opened EventBus
  import opened WsServer
  import opened WsService
  import opened MqttClient
  import opened Registration

  /** What a run of callbacks adds to the frames of a client that stays connected; `at[i]` is the index call `i` saw. */
  function Owed(dump: Dump, calls: seq<Call>, at: seq<Index>, c: int): seq<bytes>
    requires |calls| == |at|
  {
    if calls == [] then []
    else
      var n := |calls| - 1;
      Owed(dump, calls[..n], at[..n], c) + Contribution(dump, calls[n], at[n], c)
  }

  function Contribution(dump: Dump, call: Call, ix: Index, c: int): seq<bytes> {
    if call.listener.cb == FanOut then Copies(dump, ix, call.event, c) else []
  }

  /** `ix` is the index the service had at some moment, from the given one on. */
  predicate HeldSince(past: seq<Index>, from: int, ix: Index) {
    exists i :: 0 <= i < |past| && from <= i && past[i] == ix
  }

  /** All contributions but one are empty. */
  lemma {:induction false} OwedOnly(dump: Dump, calls: seq<Call>, at: seq<Index>, c: int, k: nat)
    requires |calls| == |at| && k < |calls|
    requires forall i :: 0 <= i < |calls| && i != k ==> Contribution(dump, calls[i], at[i], c) == []
    ensures Owed(dump, calls, at, c) == Contribution(dump, calls[k], at[k], c)
  {
    hide Contribution;
    var n := |calls| - 1;
    if k == n {
      OwedNothing(dump, calls[..n], at[..n], c);
    } else {
      OwedOnly(dump, calls[..n], at[..n], c, k);
    }
  }

  lemma {:induction false} OwedNothing(dump: Dump, calls: seq<Call>, at: seq<Index>, c: int)
    requires |calls| == |at|
    requires forall i :: 0 <= i < |calls| ==> Contribution(dump, calls[i], at[i], c) == []
    ensures Owed(dump, calls, at, c) == []
  {
    hide Contribution;
    if calls != [] {
      var n := |calls| - 1;
      OwedNothing(dump, calls[..n], at[..n], c);
    }
  }

  // ------------------------------------------------------- events, one by one

  /** What one dispatched event brings client `c`, when the handler answers it at index `ix`. */
  function Forwarded(dump: Dump, e: Event, ix: Index, c: int): seq<bytes> {
    if e.name == MESSAGE_EVENT then Copies(dump, ix, e, c) else []
  }

  function AllForwarded(dump: Dump, batch: seq<Event>, at: seq<Index>, c: int): seq<bytes>
    requires |batch| == |at|
  {
    if batch == [] then []
    else
      var n := |batch| - 1;
      AllForwarded(dump, batch[..n], at[..n], c) + Forwarded(dump, batch[n], at[n], c)
  }

  lemma {:induction false} OwedAppend(dump: Dump, x: seq<Call>, y: seq<Call>, at: seq<Index>, bt: seq<Index>, c: int)
    requires |x| == |at| && |y| == |bt|
    ensures Owed(dump, x + y, at + bt, c) == Owed(dump, x, at, c) + Owed(dump, y, bt, c)
  {
    hide Contribution;
    if y == [] {
      Neutral(x);
      Neutral(at);
    } else {
      var n := |y| - 1;
      OwedAppend(dump, x, y[..n], at, bt[..n], c);
      assert (x + y)[..|x| + n] == x + y[..n] && (at + bt)[..|x| + n] == at + bt[..n];
      Associative(Owed(dump, x, at, c), Owed(dump, y[..n], bt[..n], c), Contribution(dump, y[n], bt[n], c));
    }
  }

  /** The position of the one call that reaches the handler, for an event it is registered for. */
  lemma HandlerCall(b: Begun) returns (k: nat)
    requires HandlerOnce(b) && b.event.name == MESSAGE_EVENT
    ensures k < |b.registered| && OnlyFanOut(b.registered, k)
  {
    k :| 0 <= k < |b.registered| && OnlyFanOut(b.registered, k);
  }

  /** All calls of one event together bring a client what the handler's one call does, at the index that one saw. */
  lemma OwedByEvent(dump: Dump, b: Begun, at: seq<Index>) returns (ix: Index)
    requires HandlerOnce(b) && |at| == |b.registered|
    ensures forall c :: Owed(dump, CallsFor(b.event, b.registered), at, c) == Forwarded(dump, b.event, ix, c)
    ensures b.event.name == MESSAGE_EVENT ==> ix in at
  {
    hide Copies, Owed;
    var calls := CallsFor(b.event, b.registered);
    ix := EMPTY_INDEX;
    if b.event.name == MESSAGE_EVENT {
      var k := HandlerCall(b);
      ix := at[k];
      forall c
        ensures Owed(dump, calls, at, c) == Forwarded(dump, b.event, ix, c)
      {
        OwedOnly(dump, calls, at, c, k);
      }
    } else {
      assert NoFanOut(b.registered);
      forall c
        ensures Owed(dump, calls, at, c) == []
      {
        OwedNothing(dump, calls, at, c);
      }
    }
  }

  lemma CallsOfAllSplit(begun: seq<Begun>)
    requires begun != []
    ensures var n := |begun| - 1;
            && CallsOfAll(begun) == CallsOfAll(begun[..n]) + CallsFor(begun[n].event, begun[n].registered)
            && EventsOf(begun) == EventsOf(begun[..n]) + [begun[n].event]
  {
    hide CallsOfAll, CallsFor, EventsOf;
    var front, b := begun[..|begun| - 1], begun[|begun| - 1];
    assert begun == front + [b];
    CallsOfAllSnoc(front, b.event, b.registered);
    EventsOfSnoc(front, b.event, b.registered);
  }

  lemma AllForwardedSnoc(dump: Dump, batch: seq<Event>, e: Event, at: seq<Index>, ix: Index)
    requires |batch| == |at|
    ensures forall c :: AllForwarded(dump, batch + [e], at + [ix], c)
                     == AllForwarded(dump, batch, at, c) + Forwarded(dump, e, ix, c)
  {
    hide Forwarded;
    assert (batch + [e])[..|batch|] == batch && (at + [ix])[..|at|] == at;
  }

  lemma NothingBegun(dump: Dump)
    ensures CallsOfAll([]) == [] && EventsOf([]) == []
    ensures forall c :: Owed(dump, [], [], c) == AllForwarded(dump, [], [], c)
  {
  }

  /** The same for a whole batch: one index for every event, and for the handler's events one a call has seen. */
  lemma {:induction false} OwedByBatch(dump: Dump, begun: seq<Begun>, at: seq<Index>) returns (ixs: seq<Index>)
    requires HandlerStays(begun) && |at| == |CallsOfAll(begun)|
    ensures |ixs| == |begun| == |EventsOf(begun)|
    ensures forall c :: Owed(dump, CallsOfAll(begun), at, c) == AllForwarded(dump, EventsOf(begun), ixs, c)
    ensures forall i :: 0 <= i < |begun| && begun[i].event.name == MESSAGE_EVENT ==> ixs[i] in at
  {
    hide HandlerOnce, Owed, AllForwarded, CallsFor, CallsOfAll, EventsOf;
    if begun == [] {
      NothingBegun(dump);
      ixs := [];
    } else {
      var n := |begun| - 1;
      var front, b := begun[..n], begun[n];
      CallsOfAllSplit(begun);
      var m := |CallsOfAll(front)|;
      CallsForSize(b);
      var init := OwedByBatch(dump, front, at[..m]);
      var ix := OwedByEvent(dump, b, at[m..]);
      ixs := init + [ix];
      AllForwardedSnoc(dump, EventsOf(front), b.event, init, ix);
      assert at[..m] + at[m..] == at;
      forall c
        ensures Owed(dump, CallsOfAll(begun), at, c) == AllForwarded(dump, EventsOf(begun), ixs, c)
      {
        OwedAppend(dump, CallsOfAll(front), CallsFor(b.event, b.registered), at[..m], at[m..], c);
      }
    }
  }

  lemma CallsForSize(b: Begun)
    ensures |CallsFor(b.event, b.registered)| == |b.registered|
  {
  }

  lemma {:induction false} ForwardedAppend(dump: Dump, x: seq<Event>, y: seq<Event>, at: seq<Index>, bt: seq<Index>,
                                           c: int)
    requires |x| == |at| && |y| == |bt|
    ensures AllForwarded(dump, x + y, at + bt, c) == AllForwarded(dump, x, at, c) + AllForwarded(dump, y, bt, c)
  {
    hide Forwarded;
    if y == [] {
      Neutral(x);
      Neutral(at);
    } else {
      var n := |y| - 1;
      ForwardedAppend(dump, x, y[..n], at, bt[..n], c);
      assert (x + y)[..|x| + n] == x + y[..n] && (at + bt)[..|x| + n] == at + bt[..n];
      Associative(AllForwarded(dump, x, at, c), AllForwarded(dump, y[..n], bt[..n], c),
                  Forwarded(dump, y[n], bt[n], c));
    }
  }

  /** What comes before event `k`, what it brings, and what comes after it. */
  lemma ForwardedAround(dump: Dump, batch: seq<Event>, at: seq<Index>, c: int, k: nat)
    requires |batch| == |at| && k < |batch|
    ensures AllForwarded(dump, batch, at, c)
         == AllForwarded(dump, batch[..k], at[..k], c) + Forwarded(dump, batch[k], at[k], c)
            + AllForwarded(dump, batch[k + 1..], at[k + 1..], c)
  {
    hide Forwarded;
    assert batch[..k + 1][..k] == batch[..k] && at[..k + 1][..k] == at[..k];
    assert AllForwarded(dump, batch[..k + 1], at[..k + 1], c)
        == AllForwarded(dump, batch[..k], at[..k], c) + Forwarded(dump, batch[k], at[k], c);
    assert batch[..k + 1] + batch[k + 1..] == batch && at[..k + 1] + at[k + 1..] == at;
    ForwardedAppend(dump, batch[..k + 1], batch[k + 1..], at[..k + 1], at[k + 1..], c);
  }

  /** If event `k` is the only message of the batch, nothing comes before or after what it brings. */
  lemma LoneMessage(dump: Dump, batch: seq<Event>, at: seq<Index>, c: int, k: nat)
    requires |batch| == |at| && k < |batch| && OnlyMessage(batch, k)
    ensures AllForwarded(dump, batch[..k], at[..k], c) == [] && AllForwarded(dump, batch[k + 1..], at[k + 1..], c) == []
    ensures AllForwarded(dump, batch, at, c) == Forwarded(dump, batch[k], at[k], c)
  {
    hide IsMessage, Forwarded;
    var front, rest := batch[..k], batch[k + 1..];
    assert forall i :: 0 <= i < k ==> front[i] == batch[i];
    forall i | 0 <= i < |rest|
      ensures !IsMessage(rest[i])
    {
      assert rest[i] == batch[k + 1 + i];
    }
    NoMessage(dump, batch[..k], at[..k], c);
    NoMessage(dump, batch[k + 1..], at[k + 1..], c);
    ForwardedAround(dump, batch, at, c, k);
  }

  lemma {:induction false} NoMessage(dump: Dump, batch: seq<Event>, at: seq<Index>, c: int)
    requires |batch| == |at|
    requires forall i :: 0 <= i < |batch| ==> !IsMessage(batch[i])
    ensures AllForwarded(dump, batch, at, c) == []
  {
    hide IsMessage, Forwarded;
    if batch != [] {
      var n := |batch| - 1;
      assert forall i :: 0 <= i < n ==> batch[..n][i] == batch[i];
      NothingForwarded(dump, batch[n], at[n], c);
      NoMessage(dump, batch[..n], at[..n], c);
    }
  }

  lemma NothingForwarded(dump: Dump, e: Event, ix: Index, c: int)
    requires !IsMessage(e)
    ensures Forwarded(dump, e, ix, c) == []
  {
  }

  /** An event the handler makes frames of. */
  predicate IsMessage(e: Event) {
    e.name == MESSAGE_EVENT && e.data.Pair?
  }

  predicate OnlyMessage(batch: seq<Event>, k: nat) {
    forall i :: 0 <= i < |batch| && i != k ==> !IsMessage(batch[i])
  }

  // -------------------------------------------------------------- the bridge

  /** `begun` are the events begun after position `from` of the run. */
  predicate BegunSince(begun: seq<Begun>, run: seq<Sys>, from: int) {
    && 0 <= from < |run| && run[from].begun <= Last(run).begun
    && begun == Last(run).begun[|run[from].begun|..]
  }

  /** Moving the position back over steps that begin nothing. */
  lemma SameSince(begun: seq<Begun>, first: seq<Sys>, mid: seq<Sys>, run: seq<Sys>)
    requires first != [] && first <= mid <= run && Last(mid).begun == Last(first).begun
    requires BegunSince(begun, run, |mid| - 1)
    ensures BegunSince(begun, run, |first| - 1)
  {
    assert run[|first| - 1] == Last(first) && run[|mid| - 1] == Last(mid);
  }

  /** One handler at the call, and no step since that ends the registration: every event of the batch finds it. */
  lemma HandlerFound(begun: seq<Begun>, run: seq<Sys>, from: nat)
    requires IsRun(run) && BegunSince(begun, run, from) && OneHandler(run[from].bus) && Undisturbed(run, from)
    ensures HandlerStays(begun)
  {
    HandlerHolds(run, from);
  }

  /**
   * One complete dispatch, and the service's answers to the calls made to it, while clients connect, disconnect,
   * subscribe and unsubscribe. The handler neither reads nor writes the bus, so its calls are carried out after
   * the dispatch, in their order.
   */
  method DispatchAndAnswer(bus: EventBus, service: WsService)
    returns (ghost begun: seq<Begun>, invoked: seq<Call>, ghost at: seq<Index>)
    requires bus.Valid() && Last(bus.run).phase.Idle?
    requires service.Valid() && service.server.Valid()
    modifies bus, service, service.server
    ensures bus.Valid() && Last(bus.run).phase.Idle? && (old(bus.isShuttingDown) ==> bus.isShuttingDown)
    ensures old(bus.run) <= bus.run && BegunSince(begun, bus.run, |old(bus.run)| - 1)
    ensures service.Valid() && old(service.past) <= service.past && service.server.Valid()
    ensures EventsOf(begun) == if old(bus.isShuttingDown) then [] else old(bus.eventQueue)
    ensures invoked == CallsOfAll(begun) && |at| == |invoked|
    ensures forall i :: 0 <= i < |at| ==> HeldSince(service.past, |old(service.past)| - 1, at[i])
    ensures forall c :: c in service.server.Up() && c in old(service.server.Up()) ==>
              service.server.Sent(c) == old(service.server.Sent(c)) + Owed(service.dump, invoked, at, c)
  {
    hide IsRun, CallsOfAll, EventsOf, Owed, HeldSince, WsService.Valid, WsServer.Valid, TextsOf;
    ghost var before := bus.run;
    invoked := bus.DispatchPending();
    begun := Last(bus.run).begun[|Last(before).begun|..];
    at := Answer(service, invoked);
  }

  /**
   * Handles one buffer and runs the next dispatch to its end, while other threads use bus, service and server.
   * Unless the bus is shut down first, the batch holds what was queued before and then, in order, the events of
   * the packet; and every event of the batch brings every client that stays connected what the service's handler
   * makes of it at one index the service had meanwhile, and nothing else.
   */
  method DeliverBuffer(client: MqttClient, service: WsService, data: bytes)
    returns (ghost begun: seq<Begun>, ghost ixs: seq<Index>)
    requires client.eventBus.Valid() && Last(client.eventBus.run).phase.Idle?
    requires service.Valid() && service.server.Valid()
    requires data != [] && 0x30 <= data[0] < 0x40 ==> |data| >= 2
    modifies client, client.eventBus, service, service.server
    ensures client.eventBus.Valid() && service.Valid() && old(service.past) <= service.past && service.server.Valid()
    ensures old(client.eventBus.run) <= client.eventBus.run
    ensures BegunSince(begun, client.eventBus.run, |old(client.eventBus.run)| - 1)
    ensures (begun == [] && client.eventBus.isShuttingDown)
            || (old(client.eventBus.eventQueue) <= EventsOf(begun)
                && Woven(PacketEvents(data), EventsOf(begun)[|old(client.eventBus.eventQueue)|..]))
    ensures |ixs| == |begun|
    ensures old(OneHandler(client.eventBus.State())) && Undisturbed(client.eventBus.run, |old(client.eventBus.run)| - 1)
            ==> HandlerStays(begun)
    ensures HandlerStays(begun) ==>
              && (forall i :: 0 <= i < |begun| && begun[i].event.name == MESSAGE_EVENT ==>
                    HeldSince(service.past, |old(service.past)| - 1, ixs[i]))
              && forall c :: c in service.server.Up() && c in old(service.server.Up()) ==>
                   service.server.Sent(c) == old(service.server.Sent(c))
                     + AllForwarded(service.dump, EventsOf(begun), ixs, c)
  {
    hide IsRun, PacketEvents, Woven, HandlerStays, CallsOfAll, EventsOf, Owed, AllForwarded, HeldSince;
    hide WsService.Valid, WsServer.Valid, TextsOf, OneHandler, Undisturbed, BegunSince;
    var bus := client.eventBus;
    ghost var first := |bus.run| - 1;
    client.HandlePacket(data);
    ghost var q := bus.eventQueue;
    bus.Others();
    if !bus.isShuttingDown {
      LaterWoven(PacketEvents(data), old(bus.eventQueue), q, bus.eventQueue);
    }
    ghost var before := bus.run;
    var invoked;
    ghost var at;
    begun, invoked, at := DispatchAndAnswer(bus, service);
    NothingBegunNone(begun);
    SameSince(begun, old(bus.run), before, bus.run);
    if OneHandler(old(bus.State())) && Undisturbed(bus.run, first) {
      HandlerFound(begun, bus.run, first);
    }
    ixs := seq(|begun|, i => EMPTY_INDEX);
    if HandlerStays(begun) {
      ixs := OwedByBatch(service.dump, begun, at);
    }
  }

  lemma NothingBegunNone(begun: seq<Begun>)
    ensures |EventsOf(begun)| == |begun|
    ensures EventsOf(begun) == [] ==> begun == []
  {
  }

  lemma LaterWoven<T>(es: seq<T>, q: seq<T>, mid: seq<T>, now: seq<T>)
    requires q <= mid <= now && Woven(es, mid[|q|..])
    ensures q <= now && Woven(es, now[|q|..])
  {
    hide Woven;
    WovenMore(es, mid[|q|..], now[|mid|..]);
    assert mid[|q|..] + now[|mid|..] == now[|q|..];
  }

  method Answer(service: WsService, invoked: seq<Call>) returns (ghost at: seq<Index>)
    requires service.Valid() && service.server.Valid()
    modifies service, service.server
    ensures |at| == |invoked| && old(service.past) <= service.past && service.Valid() && service.server.Valid()
    ensures forall i :: 0 <= i < |at| ==> HeldSince(service.past, |old(service.past)| - 1, at[i])
    ensures service.server.nextId >= old(service.server.nextId)
    ensures forall c :: c in service.server.Up() ==> c in old(service.server.Up()) || c >= old(service.server.nextId)
    ensures forall c :: c in service.server.Up() && c in old(service.server.Up()) ==>
              service.server.Sent(c) == old(service.server.Sent(c)) + Owed(service.dump, invoked, at, c)
    decreases |invoked|
  {
    hide Mutual, Contribution, Owed, IsStream, TextsOf, ThrowsOnNonUtf8, HeldSince;
    OwedByNone(service.dump);
    at := [];
    if invoked != [] {
      var n := |invoked| - 1;
      assert forall c :: c in service.server.Up() ==> c < service.server.nextId;
      ghost var from := |service.past| - 1;
      ghost var front := Answer(service, invoked[..n]);
      ghost var past := service.past;
      hide WsServer.Valid;
      ghost var ix := AnswerNext(service, invoked[n]);
      at := front + [ix];
      HeldLonger(past, service.past, from, front);
      HeldNow(service.past, from);
      forall c | c in service.server.Up() && c in old(service.server.Up())
        ensures service.server.Sent(c) == old(service.server.Sent(c)) + Owed(service.dump, invoked, at, c)
      {
        OwedOneMore(service.dump, invoked, front, ix, c);
        Associative(old(service.server.Sent(c)), Owed(service.dump, invoked[..n], front, c),
                    Contribution(service.dump, invoked[n], ix, c));
      }
    }
  }

  lemma HeldNow(past: seq<Index>, from: int)
    requires past != [] && from < |past|
    ensures HeldSince(past, from, past[|past| - 1])
  {
  }

  lemma HeldLonger(past: seq<Index>, now: seq<Index>, from: int, at: seq<Index>)
    requires past <= now && forall i :: 0 <= i < |at| ==> HeldSince(past, from, at[i])
    ensures forall i :: 0 <= i < |at| ==> HeldSince(now, from, at[i])
  {
    forall i | 0 <= i < |at|
      ensures HeldSince(now, from, at[i])
    {
      var k :| 0 <= k < |past| && from <= k && past[k] == at[i];
      assert now[k] == at[i];
    }
  }

  lemma OwedByNone(dump: Dump)
    ensures forall c :: Owed(dump, [], [], c) == []
  {
  }

  /** Other threads get their turn, then the handler answers one call. */
  method AnswerNext(service: WsService, call: Call) returns (ghost ix: Index)
    requires service.Valid() && service.server.Valid()
    modifies service, service.server
    ensures service.Valid() && old(service.past) <= service.past && ix == service.past[|service.past| - 1]
    ensures service.server.Valid() && service.server.nextId >= old(service.server.nextId)
    ensures forall c :: c in service.server.Up() ==> c in old(service.server.Up()) || c >= old(service.server.nextId)
    ensures forall c :: c in service.server.Up() && c in old(service.server.Up()) ==>
              service.server.Sent(c) == old(service.server.Sent(c)) + Contribution(service.dump, call, ix, c)
  {
    hide Mutual, Contribution;
    service.Others();
    service.server.Others();
    ix := service.State();
    AnswerOne(service, call);
  }

  method AnswerOne(service: WsService, call: Call)
    requires service.Valid() && service.server.Valid()
    modifies service.server
    ensures service.server.Valid() && service.server.nextId >= old(service.server.nextId)
    ensures forall c :: c in service.server.Up() ==> c in old(service.server.Up()) || c >= old(service.server.nextId)
    ensures forall c :: c in service.server.Up() && c in old(service.server.Up()) ==>
              service.server.Sent(c) == old(service.server.Sent(c))
                                        + Contribution(service.dump, call, service.State(), c)
  {
    hide Mutual, Copies;
    if call.listener.cb == FanOut {
      service.OnMqttMessage(call.event);
    }
  }

  lemma OwedOneMore(dump: Dump, calls: seq<Call>, front: seq<Index>, ix: Index, c: int)
    requires |calls| == |front| + 1
    ensures var n := |front|;
            Owed(dump, calls, front + [ix], c) == Owed(dump, calls[..n], front, c) + Contribution(dump, calls[n], ix, c)
  {
    hide Contribution;
    assert (front + [ix])[..|front|] == front;
  }

  /** The same for one well-formed PUBLISH packet, whose message is event `k` of the batch. */
  method DeliverPacket(client: MqttClient, service: WsService, first: byte, topic: bytes, payload: bytes)
    returns (ghost begun: seq<Begun>, ghost ixs: seq<Index>, ghost k: nat)
    requires client.eventBus.Valid() && Last(client.eventBus.run).phase.Idle?
    requires service.Valid() && service.server.Valid()
    requires 0x30 <= first < 0x40 && |topic| < 0x1_0000
    modifies client, client.eventBus, service, service.server
    ensures client.eventBus.Valid() && service.Valid() && old(service.past) <= service.past && service.server.Valid()
    ensures |ixs| == |EventsOf(begun)| == |begun| && old(client.eventBus.run) <= client.eventBus.run
    ensures (begun == [] && client.eventBus.isShuttingDown)
            || (|old(client.eventBus.eventQueue)| <= k < |begun| && begun[k].event == MessageOf(topic, payload)
                && EventsOf(begun)[k] == MessageOf(topic, payload))
    ensures old(OneHandler(client.eventBus.State())) && Undisturbed(client.eventBus.run, |old(client.eventBus.run)| - 1)
            ==> HandlerStays(begun)
    ensures HandlerStays(begun) && k < |begun| ==> HeldSince(service.past, |old(service.past)| - 1, ixs[k])
    ensures HandlerStays(begun) ==>
              forall c :: c in service.server.Up() && c in old(service.server.Up()) ==>
                service.server.Sent(c) == old(service.server.Sent(c))
                                          + AllForwarded(service.dump, EventsOf(begun), ixs, c)
  {
    hide IsRun, PacketEvents, PublishPacket, EventsOf, HandlerStays, HeldSince, AllForwarded, Woven;
    hide OneHandler, Undisturbed, BegunSince, WsService.Valid, WsServer.Valid, TextsOf;
    PacketLength(first, topic, payload);
    PublishRoundTrip(first, topic, payload);
    begun, ixs := DeliverBuffer(client, service, PublishPacket(first, topic, payload));
    NothingBegunNone(begun);
    k := 0;
    if begun != [] || !client.eventBus.isShuttingDown {
      k := MessageAt(old(client.eventBus.eventQueue), EventsOf(begun), topic, payload);
      EventAt(begun, k);
    }
  }

  /**
   * One well-formed PUBLISH packet, end to end. Unless the bus is shut down first, its message is event `k` of the
   * next batch; and every client that stays connected reads off its socket what it read before, then what the
   * messages before it in the batch bring, then for every filter of its own that matches the topic one frame - if and
   * only if topic and payload are UTF-8, and otherwise nothing - and then what the messages after it bring. The
   * filters are counted at one index the service had meanwhile. All this while the service's handler stays
   * registered: it was the one handler at the call, and no step of the bus since unsubscribed it, added another one
   * or shut the bus down.
   */
  method DeliverPublish(client: MqttClient, service: WsService, first: byte, topic: bytes, payload: bytes)
    returns (ghost begun: seq<Begun>, ghost ixs: seq<Index>, ghost k: nat)
    requires client.eventBus.Valid() && Last(client.eventBus.run).phase.Idle?
    requires service.Valid() && service.server.Valid()
    requires 0x30 <= first < 0x40 && |topic| < 0x1_0000
    modifies client, client.eventBus, service, service.server
    ensures |ixs| == |EventsOf(begun)| == |begun| && old(client.eventBus.run) <= client.eventBus.run
    ensures (begun == [] && client.eventBus.isShuttingDown)
            || (|old(client.eventBus.eventQueue)| <= k < |begun| && begun[k].event == MessageOf(topic, payload))
    ensures old(OneHandler(client.eventBus.State())) && Undisturbed(client.eventBus.run, |old(client.eventBus.run)| - 1)
            ==> HandlerStays(begun)
    ensures HandlerStays(begun) && k < |begun| ==>
              && HeldSince(service.past, |old(service.past)| - 1, ixs[k])
              && forall c :: c in service.server.Up() && c in old(service.server.Up()) ==>
                   Texts(service.server.Received(c)) == Texts(old(service.server.Received(c)))
                     + AllForwarded(service.dump, EventsOf(begun)[..k], ixs[..k], c)
                     + (if Utf8(topic) && Utf8(payload)
                          then Repeat(service.dump(topic, payload).value, |Matching(ixs[k], c, topic)|) else [])
                     + AllForwarded(service.dump, EventsOf(begun)[k + 1..], ixs[k + 1..], c)
  {
    hide EventsOf, Matching, HandlerStays, HeldSince, Utf8, Texts, AllForwarded, OneHandler, Undisturbed;
    ReadBackAll(service.server);
    PublishedCopies(service.dump, topic, payload);
    hide WsService.Valid, WsServer.Valid, TextsOf, Copies, ThrowsOnNonUtf8, IsRun;
    begun, ixs, k := DeliverPacket(client, service, first, topic, payload);
    ReadBackAll(service.server);
    if k < |begun| && HandlerStays(begun) {
      forall c | c in service.server.Up() && c in old(service.server.Up())
        ensures service.server.Sent(c) == old(service.server.Sent(c))
                  + AllForwarded(service.dump, EventsOf(begun)[..k], ixs[..k], c)
                  + Copies(service.dump, ixs[k], MessageOf(topic, payload), c)
                  + AllForwarded(service.dump, EventsOf(begun)[k + 1..], ixs[k + 1..], c)
      {
        AddedAround(old(service.server.Sent(c)), service.dump, EventsOf(begun), ixs, c, k);
      }
    }
  }

  lemma AddedAround(sent: seq<bytes>, dump: Dump, batch: seq<Event>, at: seq<Index>, c: int, k: nat)
    requires |batch| == |at| && k < |batch| && batch[k].name == MESSAGE_EVENT
    ensures sent + AllForwarded(dump, batch, at, c)
         == sent + AllForwarded(dump, batch[..k], at[..k], c) + Copies(dump, at[k], batch[k], c)
            + AllForwarded(dump, batch[k + 1..], at[k + 1..], c)
  {
    var x, y := AllForwarded(dump, batch[..k], at[..k], c), Copies(dump, at[k], batch[k], c);
    var z := AllForwarded(dump, batch[k + 1..], at[k + 1..], c);
    hide Copies, AllForwarded;
    ForwardedAround(dump, batch, at, c, k);
    Associative(sent, x + y, z);
    Associative(sent, x, y);
  }

  lemma PublishedCopies(dump: Dump, topic: bytes, payload: bytes)
    requires ThrowsOnNonUtf8(dump)
    ensures forall ix, c :: Copies(dump, ix, MessageOf(topic, payload), c)
                         == if Utf8(topic) && Utf8(payload)
                              then Repeat(dump(topic, payload).value, |Matching(ix, c, topic)|) else []
  {
    hide Utf8, Matching;
    assert dump(topic, payload).Some? <==> Utf8(topic) && Utf8(payload);
  }

  /** The event of a packet that the service's handler is registered for. */
  function MessageOf(topic: bytes, payload: bytes): Event {
    Event(MESSAGE_EVENT, Pair(topic, payload))
  }

  lemma EventAt(begun: seq<Begun>, k: nat)
    requires k < |begun|
    ensures |EventsOf(begun)| == |begun| && EventsOf(begun)[k] == begun[k].event
  {
  }

  lemma ReadBackAll(server: WsServer)
    requires server.Valid()
    ensures forall c :: c in server.Up() ==> Texts(server.Received(c)) == server.Sent(c)
  {
    forall c | c in server.Up()
      ensures Texts(server.Received(c)) == server.Sent(c)
    {
      ReadBack(server, c);
    }
  }

  /** Where the message of a packet is in a batch that holds its events in order. */
  lemma MessageAt(before: seq<Event>, batch: seq<Event>, topic: bytes, payload: bytes) returns (k: nat)
    requires before <= batch && Woven(EventsFor(topic, payload), batch[|before|..])
    ensures |before| <= k < |batch| && batch[k] == MessageOf(topic, payload)
    ensures exists j :: |before| <= j < k && batch[j] == Event(PREFIX + topic, Text(payload))
  {
    var es, rest := EventsFor(topic, payload), batch[|before|..];
    var i := WovenLast(es, rest);
    k := |before| + i;
    var j := WovenLast(es[..1], rest[..i]);
    assert batch[|before| + j] == rest[j] == rest[..i][j] == es[0];
  }

  lemma PacketLength(first: byte, topic: bytes, payload: bytes)
    ensures |PublishPacket(first, topic, payload)| >= 4 && PublishPacket(first, topic, payload)[0] == first
  {
    hide BigEndian;
  }

  /** For valid filters and a topic that is not empty and does not end in '/', the frames follow the standard. */
  lemma MatchingIsStandard(ix: Index, c: int, topic: bytes)
    requires forall f :: f in Subs(ix, c) ==> ValidFilter(f)
    requires topic != [] && topic[|topic| - 1] != SLASH
    ensures Matching(ix, c, topic) == set f | f in Subs(ix, c) && StandardMatch(f, topic)
  {
    hide Scan, StandardMatch, ValidFilter;
    forall f | f in Subs(ix, c)
      ensures Scan(f, topic) <==> StandardMatch(f, topic)
    {
      MatchIsExact(f, topic);
    }
  }
}
