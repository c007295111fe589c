/** The service's registration for incoming MQTT messages (WsService.cpp start) over the life of a bus. */
module Registration {
  import opened Bits
  import opened EventBus
  import opened MqttClient

  // ------------------------------------------------------------- at one moment

  /** The handler is registered once for its event and for no other, whenever an event is processed. */
  predicate HandlerStays(begun: seq<Begun>) {
    forall i :: 0 <= i < |begun| ==> HandlerOnce(begun[i])
  }

  predicate HandlerOnce(b: Begun) {
    if b.event.name == MESSAGE_EVENT
      then exists k :: 0 <= k < |b.registered| && OnlyFanOut(b.registered, k)
      else NoFanOut(b.registered)
  }

  predicate OnlyFanOut(ls: seq<Listener>, k: nat)
    requires k < |ls|
  {
    ls[k].cb == FanOut && forall j :: 0 <= j < |ls| && j != k ==> ls[j].cb != FanOut
  }

  predicate NoFanOut(ls: seq<Listener>) {
    forall k :: 0 <= k < |ls| ==> ls[k].cb != FanOut
  }

  /** `l` is the one handler on the bus. */
  ghost predicate IsHandler(b: Bus, l: Listener) {
    && l.cb == FanOut && l in Registered(b, MESSAGE_EVENT)
    && forall name, x :: x in Registered(b, name) && x.cb == FanOut ==> name == MESSAGE_EVENT && x == l
  }

  ghost predicate OneHandler(b: Bus) {
    exists l :: IsHandler(b, l)
  }

  /** Starting the service on a bus that has no handler yet registers the one. */
  lemma StartRegisters(b: Bus)
    requires !b.down && forall name, x :: x in Registered(b, name) ==> x.cb != FanOut
    ensures OneHandler(Subscribed(b, MESSAGE_EVENT, FanOut))
  {
    var c, l := Subscribed(b, MESSAGE_EVENT, FanOut), Listener(b.nextId, FanOut);
    SubscribedListeners(b, MESSAGE_EVENT, FanOut);
    assert IsHandler(c, l);
  }

  lemma HandlerAt(b: Bus, e: Event)
    requires WellOrdered(b) && OneHandler(b)
    ensures HandlerOnce(Begun(e, Registered(b, e.name)))
  {
    var l :| IsHandler(b, l);
    var ls := Registered(b, e.name);
    RegisteredInOrder(b, e.name);
    hide WellOrdered, Registered;
    if e.name == MESSAGE_EVENT {
      var k :| 0 <= k < |ls| && ls[k] == l;
      forall j | 0 <= j < |ls| && j != k
        ensures ls[j].cb != FanOut
      {
        assert ls[j] in ls;
        assert ls[j].id != ls[k].id;
      }
      assert OnlyFanOut(ls, k);
    } else {
      assert forall k :: 0 <= k < |ls| ==> ls[k] in ls;
    }
  }

  // --------------------------------------------------------------- over a run

  /** Steps that end the registration: shutdown, a second handler, or the handler's own unsubscription. */
  ghost predicate Disturbs(s: Sys, t: Sys) {
    || ShutdownStep(s, t)
    || (!s.bus.down && exists name :: SubscribeStep(s, t, name, FanOut))
    || (exists l :: IsHandler(s.bus, l) && UnsubscribeStep(s, t, MESSAGE_EVENT, l.id))
  }

  lemma SubscribeKeepsHandler(s: Sys, t: Sys, name: bytes, cb: Callback, l: Listener)
    requires SubscribeStep(s, t, name, cb) && IsHandler(s.bus, l) && (s.bus.down || cb != FanOut)
    ensures IsHandler(t.bus, l)
  {
    if !s.bus.down {
      SubscribedListeners(s.bus, name, cb);
      hide Registered, Subscribed;
    }
  }

  lemma UnsubscribeKeepsHandler(s: Sys, t: Sys, name: bytes, id: int, l: Listener)
    requires UnsubscribeStep(s, t, name, id) && IsHandler(s.bus, l) && !(name == MESSAGE_EVENT && id == l.id)
    ensures IsHandler(t.bus, l)
  {
    UnsubscribedListeners(s.bus, name, id);
    hide Registered, Unsubscribed;
  }

  lemma SameListeners(b: Bus, c: Bus, l: Listener)
    requires IsHandler(b, l) && c.listeners == b.listeners
    ensures IsHandler(c, l)
  {
    assert forall n :: Registered(c, n) == Registered(b, n);
    hide Registered;
  }

  lemma DispatcherKeepsListeners(s: Sys, t: Sys)
    requires DispatcherStep(s, t)
    ensures t.bus.listeners == s.bus.listeners
  {
    hide Registered;
  }

  lemma StepKeepsHandler(s: Sys, t: Sys)
    requires Next(s, t) && OneHandler(s.bus) && !Disturbs(s, t)
    ensures OneHandler(t.bus)
  {
    var l :| IsHandler(s.bus, l);
    hide IsHandler, Subscribed, Unsubscribed, DispatcherStep;
    if DispatcherStep(s, t) {
      DispatcherKeepsListeners(s, t);
      SameListeners(s.bus, t.bus, l);
    } else if name, cb :| SubscribeStep(s, t, name, cb) {
      SubscribeKeepsHandler(s, t, name, cb, l);
    } else if name, id :| UnsubscribeStep(s, t, name, id) {
      UnsubscribeKeepsHandler(s, t, name, id, l);
    } else {
      assert exists e :: PublishStep(s, t, e);
      SameListeners(s.bus, t.bus, l);
    }
  }

  lemma ShutdownEndsIt(s: Sys, t: Sys)
    requires ShutdownStep(s, t)
    ensures !OneHandler(t.bus)
  {
    assert Registered(t.bus, MESSAGE_EVENT) == [];
  }

  lemma UnsubscriptionEndsIt(s: Sys, t: Sys, h: Listener)
    requires IsHandler(s.bus, h) && UnsubscribeStep(s, t, MESSAGE_EVENT, h.id)
    ensures !OneHandler(t.bus)
  {
    forall l: Listener
      ensures l in Registered(t.bus, MESSAGE_EVENT) ==> l.cb != FanOut
    {
      WithoutMembers(Registered(s.bus, MESSAGE_EVENT), h.id);
      hide Without;
    }
    hide Registered, Unsubscribed;
  }

  lemma SecondHandlerEndsIt(s: Sys, t: Sys, name: bytes, h: Listener)
    requires WellOrdered(s.bus) && IsHandler(s.bus, h) && !s.bus.down && SubscribeStep(s, t, name, FanOut)
    ensures !OneHandler(t.bus)
  {
    SubscribedListeners(s.bus, name, FanOut);
    IdsBelow(s.bus, MESSAGE_EVENT, h);
    hide WellOrdered, Registered, Subscribed;
    var second := Listener(s.bus.nextId, FanOut);
    assert h in Registered(t.bus, MESSAGE_EVENT) && second in Registered(t.bus, name) && h != second;
  }

  lemma DisturbanceEndsIt(s: Sys, t: Sys)
    requires WellOrdered(s.bus) && OneHandler(s.bus) && Disturbs(s, t)
    ensures !OneHandler(t.bus)
  {
    var h :| IsHandler(s.bus, h);
    hide IsHandler, OneHandler, WellOrdered, ShutdownStep, SubscribeStep, UnsubscribeStep;
    if ShutdownStep(s, t) {
      ShutdownEndsIt(s, t);
    } else if l :| IsHandler(s.bus, l) && UnsubscribeStep(s, t, MESSAGE_EVENT, l.id) {
      UnsubscriptionEndsIt(s, t, l);
    } else {
      var name :| SubscribeStep(s, t, name, FanOut);
      SecondHandlerEndsIt(s, t, name, h);
    }
  }

  /** A step keeps the one handler if and only if it is none of the three that end the registration. */
  lemma HandlerKeptIff(s: Sys, t: Sys)
    requires WellOrdered(s.bus) && Next(s, t) && OneHandler(s.bus)
    ensures OneHandler(t.bus) <==> !Disturbs(s, t)
  {
    if Disturbs(s, t) {
      DisturbanceEndsIt(s, t);
    } else {
      StepKeepsHandler(s, t);
    }
  }

  ghost predicate Undisturbed(run: seq<Sys>, from: int) {
    forall k :: 0 <= k < |run| - 1 && from <= k ==> !Disturbs(run[k], run[k + 1])
  }

  lemma {:induction false} HandlerThroughout(run: seq<Sys>, i: nat, j: nat)
    requires IsRun(run) && i <= j < |run| && OneHandler(run[i].bus) && Undisturbed(run, i)
    ensures OneHandler(run[j].bus)
    decreases j
  {
    if i < j {
      var k := j - 1;
      HandlerThroughout(run, i, k);
      StepAt(run, j);
      assert !Disturbs(run[k], run[k + 1]);
      hide *;
      StepKeepsHandler(run[k], run[j]);
    }
  }

  lemma StepBegins(s: Sys, t: Sys)
    requires Next(s, t)
    ensures t.begun == s.begun
            || exists e: Event :: t.begun == s.begun + [Begun(e, Registered(s.bus, e.name))]
  {
    hide Registered;
    if OtherStep(s, t) {
      OtherKeepsRest(s, t);
    } else if BeginStep(s, t) {
      var e := s.phase.batch[0];
      assert t.begun == s.begun + [Begun(e, Registered(s.bus, e.name))];
    }
  }

  lemma OrderedAt(run: seq<Sys>, k: nat)
    requires IsRun(run) && k < |run|
    ensures WellOrdered(run[k].bus)
  {
    RunKeepsInv(run[..k + 1]);
  }

  lemma StaysMore(begun: seq<Begun>, n: nat, b: Begun)
    requires n <= |begun| && HandlerStays(begun[n..]) && HandlerOnce(b)
    ensures HandlerStays((begun + [b])[n..])
  {
    hide HandlerOnce;
    assert (begun + [b])[n..] == begun[n..] + [b];
  }

  /** While the bus has its one handler, every event that begins finds it, and finds it once. */
  lemma {:induction false} HandlerKept(run: seq<Sys>, i: nat, j: nat)
    requires IsRun(run) && i <= j < |run|
    requires forall k :: i <= k < j ==> OneHandler(run[k].bus)
    ensures run[i].begun <= run[j].begun && HandlerStays(run[j].begun[|run[i].begun|..])
    decreases j
  {
    if i == j {
      assert run[j].begun[|run[i].begun|..] == [];
    } else {
      var k := j - 1;
      HandlerKept(run, i, k);
      StepAt(run, j);
      OrderedAt(run, k);
      assert OneHandler(run[k].bus);
      hide *;
      StepBegins(run[k], run[j]);
      if run[j].begun != run[k].begun {
        var e: Event :| run[j].begun == run[k].begun + [Begun(e, Registered(run[k].bus, e.name))];
        HandlerAt(run[k].bus, e);
        StaysMore(run[k].begun, |run[i].begun|, Begun(e, Registered(run[k].bus, e.name)));
      }
    }
  }

  /** From one handler at position `i`, and no step that ends the registration since. */
  lemma HandlerHolds(run: seq<Sys>, i: nat)
    requires IsRun(run) && i < |run| && OneHandler(run[i].bus) && Undisturbed(run, i)
    ensures run[i].begun <= Last(run).begun && HandlerStays(Last(run).begun[|run[i].begun|..])
  {
    hide IsRun, OneHandler, Undisturbed, HandlerStays;
    forall k | i <= k < |run| - 1
      ensures OneHandler(run[k].bus)
    {
      HandlerThroughout(run, i, k);
    }
    HandlerKept(run, i, |run| - 1);
  }
}
