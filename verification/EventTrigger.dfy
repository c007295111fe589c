/** Move-only ownership of bus subscriptions (EventTrigger.cpp). */
module EventTrigger {
  import opened Bits
  import opened EventBus

  // --------------------------------------------------------------- on values

  /** One subscription a trigger holds. */
  datatype Held = Held(name: bytes, id: int, task: nat)

  /**
   * The task listeners on the bus are exactly the held subscriptions, each running its task.
   * Only triggers register task listeners.
   */
  ghost predicate Bijective(b: Bus, held: set<Held>) {
    && (forall h :: h in held ==> h.id != -1 && Listener(h.id, RunTask(h.task)) in Registered(b, h.name))
    && (forall h, k :: h in held && k in held && h.id == k.id ==> h == k)
    && (forall name, l :: l in Registered(b, name) && l.cb.RunTask? ==> Held(name, l.id, l.cb.task) in held)
  }

  lemma SubscribeKeeps(b: Bus, held: set<Held>, name: bytes, task: nat)
    requires WellOrdered(b) && !b.down && Bijective(b, held)
    ensures Bijective(Subscribed(b, name, RunTask(task)), held + {Held(name, b.nextId, task)})
    ensures !Subscribed(b, name, RunTask(task)).down
  {
    assert b.nextId >= 1;
    hide WellOrdered, IncreasingIds;
    var c, more := Subscribed(b, name, RunTask(task)), held + {Held(name, b.nextId, task)};
    forall h | h in held
      ensures h.id < b.nextId && Listener(h.id, RunTask(h.task)) in Registered(c, h.name)
    {
      IdsBelow(b, h.name, Listener(h.id, RunTask(h.task)));
    }
    forall n, l | l in Registered(c, n) && l.cb.RunTask?
      ensures Held(n, l.id, l.cb.task) in more
    {
      if l !in Registered(b, n) {
        assert n == name && l == Listener(b.nextId, RunTask(task));
      }
    }
  }

  lemma UnsubscribeKeeps(b: Bus, held: set<Held>, h: Held)
    requires WellOrdered(b) && Bijective(b, held) && h in held
    ensures Bijective(Unsubscribed(b, h.name, h.id), held - {h})
  {
    var c := Unsubscribed(b, h.name, h.id);
    UnsubscribedListeners(b, h.name, h.id);
    forall n, l | l in Registered(c, n) && l.cb.RunTask?
      ensures Held(n, l.id, l.cb.task) in held - {h}
    {
      assert l in Registered(b, n);
      assert Held(n, l.id, l.cb.task) in held;
    }
  }

  /** Listeners that run no task come and go without touching the correspondence. */
  lemma OtherSubscribeKeeps(b: Bus, held: set<Held>, name: bytes, cb: Callback)
    requires Bijective(b, held) && !cb.RunTask?
    ensures Bijective(Subscribed(b, name, cb), held)
  {
    var c := Subscribed(b, name, cb);
    assert forall n, l :: l in Registered(c, n) ==> l in Registered(b, n) || l.cb == cb;
    assert forall n, l :: l in Registered(b, n) ==> l in Registered(c, n);
    hide Registered, Subscribed;
  }

  lemma OtherUnsubscribeKeeps(b: Bus, held: set<Held>, name: bytes, id: int)
    requires Bijective(b, held) && forall h :: h in held ==> h.id != id
    ensures Bijective(Unsubscribed(b, name, id), held)
  {
    UnsubscribedListeners(b, name, id);
    hide Registered, Unsubscribed;
  }

  // -------------------------------------------------------------- on objects

  /** The subscriptions the live triggers hold. */
  ghost function HeldBy(live: set<EventTrigger>): set<Held>
    reads live
  {
    set t | t in live && t.eventId != -1 && t.task.Some? :: Held(t.eventName, t.eventId, t.task.value)
  }

  /**
   * The bus and its live triggers: a trigger either has no subscription or exactly one of its own,
   * and every task listener on the bus belongs to exactly one of them.
   */
  ghost predicate Owned(b: EventBus, live: set<EventTrigger>)
    reads b, live
  {
    && b.Valid() && !b.isShuttingDown && WellOrdered(b.State())
    && OneEach(b, live) && Bijective(b.State(), HeldBy(live))
  }

  ghost predicate OneEach(b: EventBus, live: set<EventTrigger>)
    reads live
  {
    && (forall t :: t in live ==> (t.eventId != -1 ==> t.bus == b && t.task.Some?) && (t.bus != null ==> t.bus == b))
    && forall t, u :: t in live && u in live && t != u && t.eventId != -1 ==> t.eventId != u.eventId
  }

  /** One more trigger, with a subscription of its own. */
  lemma OneMore(b: EventBus, live: set<EventTrigger>, t: EventTrigger)
    requires OneEach(b, live) && t !in live && t.bus == b && t.eventId != -1 && t.task.Some?
    requires forall u :: u in live ==> u.eventId != t.eventId
    ensures OneEach(b, live + {t})
    ensures HeldBy(live + {t}) == HeldBy(live) + {Held(t.eventName, t.eventId, t.task.value)}
  {
    var all, more := HeldBy(live + {t}), HeldBy(live) + {Held(t.eventName, t.eventId, t.task.value)};
    assert t in live + {t};
    assert all <= more && more <= all;
  }

  lemma BusWellOrdered(b: EventBus)
    requires b.Valid()
    ensures WellOrdered(b.State())
  {
    RunKeepsInv(b.run);
  }

  class EventTrigger {
    var bus: EventBus?
    var task: Option<nat>
    var eventName: bytes
    var eventId: int

    constructor (b: EventBus, name: bytes, task: nat, ghost live: set<EventTrigger>)
      requires Owned(b, live)
      modifies b
      ensures Owned(b, live + {this})
      ensures bus == b && this.task == Some(task) && eventName == name && eventId == old(b.nextId)
      ensures b.State() == Subscribed(old(b.State()), name, RunTask(task))
    {
      bus, this.task, eventName, eventId := b, Some(task), name, -1;
      new;
      hide Bijective, WellOrdered, EventBus.Valid, IsRun, SubscribeStep, UnsubscribeStep, Subscribed, Unsubscribed;
      ghost var was, held := b.State(), HeldBy(live);
      var id := b.Subscribe(name, RunTask(task));
      eventId := id;
      SubscribeKeeps(was, held, name, task);
      BusWellOrdered(b);
      assert this !in live;
      assert HeldBy(live) == held;
      NewIdIsFresh(was, held, live);
      OneMore(b, live, this);
      hide OneEach;
    }

    constructor Move(other: EventTrigger, ghost b: EventBus, ghost live: set<EventTrigger>)
      requires other in live && Owned(b, live)
      modifies other
      ensures Owned(b, live + {this})
      ensures bus == old(other.bus) && task == old(other.task)
              && eventName == old(other.eventName) && eventId == old(other.eventId)
      ensures other.bus == null && other.task.None? && other.eventId == -1 && b.State() == old(b.State())
    {
      bus, task, eventName, eventId := null, None, [], -1;
      new;
      TakeOver(other, b, live);
    }

    /** The destructor; the trigger is not used afterwards. */
    method Destroy(ghost b: EventBus, ghost live: set<EventTrigger>)
      requires this in live && Owned(b, live)
      modifies b
      ensures Owned(b, live - {this})
      ensures b.State() == if eventId == -1 then old(b.State()) else Unsubscribed(old(b.State()), eventName, eventId)
    {
      ghost var was, held := b.State(), HeldBy(live);
      if bus != null && eventId != -1 {
        ghost var mine := Held(eventName, eventId, task.value);
        bus.Unsubscribe(eventName, eventId);
        hide Bijective, WellOrdered, EventBus.Valid, IsRun, SubscribeStep, UnsubscribeStep, Subscribed, Unsubscribed;
        UnsubscribeKeeps(was, held, mine);
        BusWellOrdered(b);
        assert HeldBy(live - {this}) == held - {mine};
      } else {
        assert HeldBy(live - {this}) == held;
      }
    }

    /** Move assignment gives up the own subscription, then takes over the other's. */
    method MoveAssign(other: EventTrigger, ghost b: EventBus, ghost live: set<EventTrigger>)
      requires this in live && other in live && Owned(b, live)
      modifies this, other, b
      ensures Owned(b, live)
      ensures this == other ==> bus == old(bus) && task == old(task)
                                && eventName == old(eventName) && eventId == old(eventId)
      ensures this != other ==>
        && bus == old(other.bus) && task == old(other.task)
              && eventName == old(other.eventName) && eventId == old(other.eventId)
        && other.bus == null && other.task.None? && other.eventId == -1
      ensures b.State() == if this == other || old(eventId) == -1 then old(b.State())
                           else Unsubscribed(old(b.State()), old(eventName), old(eventId))
    {
      hide Bijective, WellOrdered, EventBus.Valid, IsRun, SubscribeStep, UnsubscribeStep, Subscribed, Unsubscribed;
      if this != other {
        Destroy(b, live);
        TakeOver(other, b, live - {this});
        assert live - {this} + {this} == live;
      }
    }

    method TakeOver(other: EventTrigger, ghost b: EventBus, ghost rest: set<EventTrigger>)
      requires this !in rest && other in rest && Owned(b, rest)
      modifies this, other
      ensures Owned(b, rest + {this})
      ensures bus == old(other.bus) && task == old(other.task)
              && eventName == old(other.eventName) && eventId == old(other.eventId)
      ensures other.bus == null && other.task.None? && other.eventId == -1
    {
      hide Bijective, WellOrdered, EventBus.Valid;
      ghost var held := HeldBy(rest);
      bus, task, eventName, eventId := other.bus, other.task, other.eventName, other.eventId;
      other.bus, other.task, other.eventId := null, None, -1;
      assert OneEach(b, rest + {this});
      hide OneEach;
      assert HeldBy(rest + {this}) == held;
    }
  }

  lemma NewIdIsFresh(b: Bus, held: set<Held>, live: set<EventTrigger>)
    requires WellOrdered(b) && Bijective(b, held) && held == HeldBy(live)
    ensures forall t :: t in live && t.eventId != -1 && t.task.Some? ==> t.eventId < b.nextId
    ensures b.nextId >= 1
  {
    forall t | t in live && t.eventId != -1 && t.task.Some?
      ensures t.eventId < b.nextId
    {
      assert Held(t.eventName, t.eventId, t.task.value) in held;
      IdsBelow(b, t.eventName, Listener(t.eventId, RunTask(t.task.value)));
    }
  }

  // ---------------------------------------------------------- whole programs

  /** One step of a program over numbered trigger variables, or of other code on the same bus. */
  datatype Op =
    | Construct(dst: nat, name: bytes, task: nat)
    | MoveConstruct(dst: nat, src: nat)
    | Assign(dst: nat, src: nat)
    | Delete(dst: nat)
    | OtherSubscribe(name: bytes, cb: Callback)
    | OtherUnsubscribe(name: bytes, id: int)
    | OtherPublish(e: Event)

  /** Other code registers no trigger tasks, and unsubscribes no id a trigger holds: it never learns one. */
  predicate OtherCode(op: Op, live: set<EventTrigger>)
    reads live
  {
    match op
    case OtherSubscribe(_, cb) => !cb.RunTask?
    case OtherUnsubscribe(_, id) => forall t :: t in live ==> t.eventId != id
    case OtherPublish(_) => true
    case _ => false
  }

  /** A step of other code, between two steps of the program. */
  method Interleave(b: EventBus, op: Op, ghost live: set<EventTrigger>)
    requires Owned(b, live) && OtherCode(op, live)
    modifies b
    ensures Owned(b, live)
  {
    hide Bijective, WellOrdered, EventBus.Valid, IsRun, SubscribeStep, UnsubscribeStep, PublishStep;
    ghost var was, held := b.State(), HeldBy(live);
    if op.OtherSubscribe? {
      var id := b.Subscribe(op.name, op.cb);
      OtherSubscribeKeeps(was, held, op.name, op.cb);
    } else if op.OtherUnsubscribe? {
      b.Unsubscribe(op.name, op.id);
      OtherUnsubscribeKeeps(was, held, op.name, op.id);
    } else {
      b.Publish(op.e);
      PublishKeeps(was, held, op.e);
    }
    BusWellOrdered(b);
  }

  lemma PublishKeeps(b: Bus, held: set<Held>, e: Event)
    requires Bijective(b, held)
    ensures Bijective(Published(b, e), held)
  {
    assert forall n :: Registered(Published(b, e), n) == Registered(b, n);
  }

  /**
   * Any sequence of constructions, moves and destructions, with other code subscribing, unsubscribing and
   * publishing in between, leaves the bus and the live triggers in correspondence. A step that names a variable
   * wrongly is no program and is passed over.
   */
  method Execute(b: EventBus, ops: seq<Op>) returns (vars: map<nat, EventTrigger>)
    requires Owned(b, {})
    modifies b
    ensures Owned(b, vars.Values) && Distinct(vars)
  {
    vars := map[];
    for k := 0 to |ops|
      invariant fresh(vars.Values)
      invariant Owned(b, vars.Values) && Distinct(vars)
    {
      hide Owned;
      var op := ops[k];
      if op.Construct? && op.dst !in vars {
        var t := new EventTrigger(b, op.name, op.task, vars.Values);
        ValuesInsert(vars, op.dst, t);
        vars := vars[op.dst := t];
      } else if op.MoveConstruct? && op.dst !in vars && op.src in vars {
        var u := vars[op.src];
        assert u in vars.Values;
        var t := new EventTrigger.Move(u, b, vars.Values);
        ValuesInsert(vars, op.dst, t);
        vars := vars[op.dst := t];
      } else if op.Assign? && op.dst in vars && op.src in vars {
        var t, u := vars[op.dst], vars[op.src];
        assert t in vars.Values && u in vars.Values;
        t.MoveAssign(u, b, vars.Values);
      } else if op.Delete? && op.dst in vars {
        vars[op.dst].Destroy(b, vars.Values);
        ValuesRemove(vars, op.dst);
        vars := vars - {op.dst};
      } else if OtherCode(op, vars.Values) {
        Interleave(b, op, vars.Values);
      }
    }
  }

  /** Different variables are different objects. */
  predicate Distinct(vars: map<nat, EventTrigger>) {
    forall i, j :: i in vars && j in vars && i != j ==> vars[i] != vars[j]
  }

  lemma ValuesInsert(vars: map<nat, EventTrigger>, k: nat, t: EventTrigger)
    requires k !in vars && t !in vars.Values && Distinct(vars)
    ensures vars[k := t].Values == vars.Values + {t} && Distinct(vars[k := t])
  {
    var m := vars[k := t];
    assert m[k] == t;
    forall u | u in vars.Values
      ensures u in m.Values
    {
      var i :| i in vars && vars[i] == u;
      assert m[i] == u;
    }
  }

  lemma ValuesRemove(vars: map<nat, EventTrigger>, k: nat)
    requires k in vars && Distinct(vars)
    ensures (vars - {k}).Values == vars.Values - {vars[k]} && Distinct(vars - {k})
  {
    var m := vars - {k};
    forall u | u in vars.Values - {vars[k]}
      ensures u in m.Values
    {
      var i :| i in vars && vars[i] == u;
      assert m[i] == u;
    }
  }
}
