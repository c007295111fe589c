/**
 * The event bus (EventBus.cpp). Each lock section is one atomic step of a state machine; the class
 * below runs those steps, and keeps in `run` the machine run it has made so far.
 */
module EventBus {
  import opened Bits

  /** The `std::any` payload: what its receivers can cast it to. */
  datatype Data = Text(text: bytes) | Pair(topic: bytes, payload: bytes) | Opaque(tag: nat)
  datatype Event = Event(name: bytes, data: Data)

  /** The callbacks the repository registers: a trigger's task, the MQTT to WebSocket handler, any other. */
  datatype Callback = RunTask(task: nat) | FanOut | Custom(tag: nat)
  datatype Listener = Listener(id: int, cb: Callback)

  datatype Bus = Bus(listeners: map<bytes, seq<Listener>>, queue: seq<Event>, nextId: int, down: bool)

  // ------------------------------------------------------------ lock sections

  function Registered(b: Bus, name: bytes): seq<Listener> {
    if name in b.listeners then b.listeners[name] else []
  }

  function Subscribed(b: Bus, name: bytes, cb: Callback): Bus {
    if b.down then b
    else b.(listeners := b.listeners[name := Registered(b, name) + [Listener(b.nextId, cb)]], nextId := b.nextId + 1)
  }

  function Without(ls: seq<Listener>, id: int): seq<Listener> {
    if ls == [] then [] else (if ls[0].id == id then [] else [ls[0]]) + Without(ls[1..], id)
  }

  function Unsubscribed(b: Bus, name: bytes, id: int): Bus {
    if name !in b.listeners then b
    else if Without(b.listeners[name], id) == [] then b.(listeners := b.listeners - {name})
    else b.(listeners := b.listeners[name := Without(b.listeners[name], id)])
  }

  function Published(b: Bus, e: Event): Bus {
    if b.down then b else b.(queue := b.queue + [e])
  }

  function ShutDown(b: Bus): Bus {
    b.(down := true, queue := [], listeners := map[])
  }

  // ------------------------------------------------------------ state machine

  datatype Call = Call(event: Event, listener: Listener)
  datatype Begun = Begun(event: Event, registered: seq<Listener>)

  /** Where the one dispatching thread stands. */
  datatype Phase =
    | Idle
    | Between(batch: seq<Event>)
    | Calling(batch: seq<Event>, snapshot: seq<Listener>, done: nat)

  datatype Sys = Sys(
    bus: Bus,
    phase: Phase,
    accepted: seq<Event>,   // publications that entered the queue
    finished: seq<Event>,   // events completely dispatched
    dropped: seq<Event>,    // events cleared out by shutdown
    begun: seq<Begun>,      // events whose processing began, with the listeners registered at that moment
    calls: seq<Call>,       // every callback invocation
    before: seq<Call>,      // the calls made when shutdown came
    owed: seq<Call>)        // the calls a copied snapshot still held then

  const EMPTY_BUS := Bus(map[], [], 1, false)
  const START := Sys(EMPTY_BUS, Idle, [], [], [], [], [], [], [])

  function InHand(p: Phase): seq<Event> {
    if p.Idle? then [] else p.batch
  }

  function CallsFor(e: Event, ls: seq<Listener>): seq<Call> {
    seq(|ls|, i requires 0 <= i < |ls| => Call(e, ls[i]))
  }

  /** The calls of the current snapshot that are still to be made. */
  function Remaining(p: Phase): seq<Call> {
    if p.Calling? && p.batch != [] && p.done <= |p.snapshot| then CallsFor(p.batch[0], p.snapshot)[p.done..] else []
  }

  predicate SubscribeStep(s: Sys, t: Sys, name: bytes, cb: Callback) {
    t == s.(bus := Subscribed(s.bus, name, cb))
  }

  predicate UnsubscribeStep(s: Sys, t: Sys, name: bytes, id: int) {
    t == s.(bus := Unsubscribed(s.bus, name, id))
  }

  predicate PublishStep(s: Sys, t: Sys, e: Event) {
    t == s.(bus := Published(s.bus, e), accepted := if s.bus.down then s.accepted else s.accepted + [e])
  }

  predicate ShutdownStep(s: Sys, t: Sys) {
    t == s.(bus := ShutDown(s.bus), dropped := s.dropped + s.bus.queue,
            before := if s.bus.down then s.before else s.calls,
            owed := if s.bus.down then s.owed else Remaining(s.phase))
  }

  /** dispatchPending swaps the queue out. */
  predicate SwapStep(s: Sys, t: Sys) {
    s.phase.Idle? && !s.bus.down && t == s.(bus := s.bus.(queue := []), phase := Between(s.bus.queue))
  }

  /** It copies the callbacks of its front event. */
  predicate BeginStep(s: Sys, t: Sys) {
    && s.phase.Between? && s.phase.batch != []
    && var e := s.phase.batch[0];
       t == s.(phase := Calling(s.phase.batch, Registered(s.bus, e.name), 0),
               begun := s.begun + [Begun(e, Registered(s.bus, e.name))])
  }

  /** It calls the next copied callback; a throw is caught and changes nothing here. */
  predicate InvokeStep(s: Sys, t: Sys) {
    && s.phase.Calling? && s.phase.done < |s.phase.snapshot| && s.phase.batch != []
    && t == s.(phase := s.phase.(done := s.phase.done + 1),
               calls := s.calls + [Call(s.phase.batch[0], s.phase.snapshot[s.phase.done])])
  }

  predicate FinishStep(s: Sys, t: Sys) {
    && s.phase.Calling? && s.phase.done == |s.phase.snapshot| && s.phase.batch != []
    && t == s.(phase := Between(s.phase.batch[1..]), finished := s.finished + [s.phase.batch[0]])
  }

  predicate EndStep(s: Sys, t: Sys) {
    s.phase == Between([]) && t == s.(phase := Idle)
  }

  /** What callbacks and other threads may do to the bus at any moment. */
  ghost predicate OtherStep(s: Sys, t: Sys) {
    || (exists name, cb :: SubscribeStep(s, t, name, cb))
    || (exists name, id :: UnsubscribeStep(s, t, name, id))
    || (exists e :: PublishStep(s, t, e))
    || ShutdownStep(s, t)
  }

  predicate DispatcherStep(s: Sys, t: Sys) {
    SwapStep(s, t) || BeginStep(s, t) || InvokeStep(s, t) || FinishStep(s, t) || EndStep(s, t)
  }

  ghost predicate Next(s: Sys, t: Sys) {
    OtherStep(s, t) || DispatcherStep(s, t)
  }

  ghost predicate IsRun(run: seq<Sys>) {
    run != [] && run[0] == START && forall i :: 0 <= i < |run| - 1 ==> Next(run[i], run[i + 1])
  }

  function Last(run: seq<Sys>): Sys
    requires run != []
  {
    run[|run| - 1]
  }

  // --------------------------------------------------------------- invariants

  predicate Increasing(ls: seq<Listener>) {
    forall i, j :: 0 <= i < j < |ls| ==> ls[i].id < ls[j].id
  }

  predicate IncreasingIds(ls: seq<Listener>, below: int) {
    && Increasing(ls)
    && forall i :: 0 <= i < |ls| ==> ls[i].id < below
  }

  /** Ids grow along every listener list, and no list is empty. */
  predicate WellOrdered(b: Bus) {
    && b.nextId >= 1
    && forall name :: name in b.listeners ==> b.listeners[name] != [] && IncreasingIds(b.listeners[name], b.nextId)
  }

  function CallsOfAll(begun: seq<Begun>): seq<Call> {
    if begun == [] then []
    else CallsOfAll(begun[..|begun| - 1]) + CallsFor(begun[|begun| - 1].event, begun[|begun| - 1].registered)
  }

  function EventsOf(begun: seq<Begun>): seq<Event> {
    seq(|begun|, i requires 0 <= i < |begun| => begun[i].event)
  }

  /** A phase that calls callbacks has an event and has not run past its snapshot. */
  predicate PhaseInv(s: Sys) {
    s.phase.Calling? ==> s.phase.batch != [] && s.phase.done <= |s.phase.snapshot|
  }

  predicate QueueInv(s: Sys) {
    && s.accepted == s.finished + InHand(s.phase) + s.bus.queue + s.dropped
    && (!s.bus.down ==> s.dropped == [])
  }

  /** The calls made and those the current snapshot still holds are those of all events begun. */
  predicate CallsInv(s: Sys) {
    s.calls + Remaining(s.phase) == CallsOfAll(s.begun)
  }

  predicate BegunInv(s: Sys) {
    EventsOf(s.begun) == s.finished + Front(s.phase)
  }

  function Front(p: Phase): seq<Event> {
    if p.Calling? && p.batch != [] then [p.batch[0]] else []
  }

  predicate SnapshotsInv(s: Sys) {
    forall i :: 0 <= i < |s.begun| ==> Increasing(s.begun[i].registered)
  }

  predicate DownInv(s: Sys) {
    s.bus.down ==> s.bus.listeners == map[] && s.bus.queue == []
                   && s.calls + Remaining(s.phase) == s.before + s.owed && s.before <= s.calls
  }

  ghost predicate Inv(s: Sys) {
    WellOrdered(s.bus) && PhaseInv(s) && QueueInv(s) && CallsInv(s) && BegunInv(s) && SnapshotsInv(s) && DownInv(s)
  }

  lemma {:induction false} WithoutMembers(ls: seq<Listener>, id: int)
    ensures forall l :: l in Without(ls, id) <==> l in ls && l.id != id
  {
    if ls == [] {
    } else {
      WithoutMembers(ls[1..], id);
      assert ls == [ls[0]] + ls[1..];
    }
  }

  lemma {:induction false} WithoutKeepsOrder(ls: seq<Listener>, id: int, below: int)
    requires IncreasingIds(ls, below)
    ensures IncreasingIds(Without(ls, id), below)
  {
    if ls == [] {
    } else {
      var tail := ls[1..];
      assert forall i :: 0 <= i < |tail| ==> tail[i] == ls[i + 1];
      WithoutKeepsOrder(tail, id, below);
      WithoutMembers(tail, id);
      var w := Without(tail, id);
      assert Without(ls, id) == w || Without(ls, id) == [ls[0]] + w;
      hide Without;
      assert forall i :: 0 <= i < |w| ==> w[i] in tail;
      assert forall i :: 0 <= i < |w| ==> ls[0].id < w[i].id;
      PrependKeepsOrder(ls[0], w, below);
    }
  }

  lemma PrependKeepsOrder(l: Listener, w: seq<Listener>, below: int)
    requires IncreasingIds(w, below) && l.id < below
    requires forall i :: 0 <= i < |w| ==> l.id < w[i].id
    ensures IncreasingIds([l] + w, below)
  {
  }

  lemma SubscribedKeepsOrder(b: Bus, name: bytes, cb: Callback)
    requires WellOrdered(b)
    ensures WellOrdered(Subscribed(b, name, cb))
  {
    var t := Subscribed(b, name, cb);
    forall n | n in t.listeners
      ensures t.listeners[n] != [] && IncreasingIds(t.listeners[n], t.nextId)
    {
      if n in b.listeners {
        assert IncreasingIds(b.listeners[n], b.nextId);
      }
    }
  }

  lemma UnsubscribedKeepsOrder(b: Bus, name: bytes, id: int)
    requires WellOrdered(b)
    ensures WellOrdered(Unsubscribed(b, name, id))
  {
    if name in b.listeners {
      WithoutKeepsOrder(b.listeners[name], id, b.nextId);
      hide Without, IncreasingIds;
      assert WellOrdered(Unsubscribed(b, name, id));
    }
  }

  lemma SubscribedListeners(b: Bus, name: bytes, cb: Callback)
    requires !b.down
    ensures var c := Subscribed(b, name, cb);
            forall n, x :: x in Registered(c, n)
                      <==> x in Registered(b, n) || (n == name && x == Listener(b.nextId, cb))
  {
  }

  lemma UnsubscribedListeners(b: Bus, name: bytes, id: int)
    ensures var c := Unsubscribed(b, name, id);
            forall n, x :: x in Registered(c, n) <==> x in Registered(b, n) && !(n == name && x.id == id)
  {
    WithoutMembers(Registered(b, name), id);
    var c := Unsubscribed(b, name, id);
    assert Registered(c, name) == Without(Registered(b, name), id);
    hide Without;
    assert forall n :: n != name ==> Registered(c, n) == Registered(b, n);
  }

  lemma IdsBelow(b: Bus, name: bytes, l: Listener)
    requires WellOrdered(b) && l in Registered(b, name)
    ensures l.id < b.nextId
  {
  }

  lemma OtherKeepsOrder(s: Sys, t: Sys)
    requires WellOrdered(s.bus) && OtherStep(s, t)
    ensures WellOrdered(t.bus)
  {
    hide IncreasingIds, Subscribed, Unsubscribed;
    if name, cb :| SubscribeStep(s, t, name, cb) {
      SubscribedKeepsOrder(s.bus, name, cb);
    } else if name, id :| UnsubscribeStep(s, t, name, id) {
      UnsubscribedKeepsOrder(s.bus, name, id);
    }
  }

  /** A subscribe or unsubscribe, of which only the listeners of a running bus take notice. */
  predicate ListenersStep(s: Sys, t: Sys) {
    && t == s.(bus := t.bus) && t.bus.queue == s.bus.queue && t.bus.down == s.bus.down
    && (s.bus.down && s.bus.listeners == map[] ==> t.bus.listeners == map[])
  }

  lemma OtherSteps(s: Sys, t: Sys)
    requires OtherStep(s, t)
    ensures ListenersStep(s, t) || ShutdownStep(s, t) || exists e :: PublishStep(s, t, e)
  {
  }

  lemma OtherKeepsQueue(s: Sys, t: Sys)
    requires QueueInv(s) && DownInv(s) && OtherStep(s, t)
    ensures QueueInv(t)
  {
    OtherSteps(s, t);
    assert s.dropped == [] || s.bus.queue == [];
    hide OtherStep, InHand, DownInv;
    var held := s.finished + InHand(s.phase);
    if ShutdownStep(s, t) {
      assert held + s.bus.queue + s.dropped == held + [] + (s.dropped + s.bus.queue);
    } else if e :| PublishStep(s, t, e) {
      assert !s.bus.down ==> held + s.bus.queue + [] + [e] == held + (s.bus.queue + [e]) + [];
    }
  }

  lemma OtherKeepsDown(s: Sys, t: Sys)
    requires DownInv(s) && OtherStep(s, t)
    ensures DownInv(t)
  {
    OtherSteps(s, t);
    hide OtherStep, Remaining;
  }

  lemma OtherKeepsRest(s: Sys, t: Sys)
    requires OtherStep(s, t)
    ensures t.phase == s.phase && t.calls == s.calls && t.begun == s.begun && t.finished == s.finished
  {
    hide Subscribed, Unsubscribed, Published, ShutDown, Remaining;
  }

  lemma OtherKeepsInv(s: Sys, t: Sys)
    requires Inv(s) && OtherStep(s, t)
    ensures Inv(t)
  {
    hide WellOrdered, QueueInv, DownInv, OtherStep, CallsOfAll, EventsOf, Increasing, Remaining, Front;
    OtherKeepsOrder(s, t);
    OtherKeepsQueue(s, t);
    OtherKeepsDown(s, t);
    OtherKeepsRest(s, t);
  }

  lemma CallsOfAllSnoc(begun: seq<Begun>, e: Event, ls: seq<Listener>)
    ensures CallsOfAll(begun + [Begun(e, ls)]) == CallsOfAll(begun) + CallsFor(e, ls)
  {
    hide CallsFor;
    assert (begun + [Begun(e, ls)])[..|begun|] == begun;
  }

  lemma EventsOfSnoc(begun: seq<Begun>, e: Event, ls: seq<Listener>)
    ensures EventsOf(begun + [Begun(e, ls)]) == EventsOf(begun) + [e]
  {
  }

  lemma RegisteredInOrder(b: Bus, name: bytes)
    requires WellOrdered(b)
    ensures Increasing(Registered(b, name))
  {
    if name in b.listeners {
      assert IncreasingIds(b.listeners[name], b.nextId);
    }
  }

  lemma SnapshotsMore(s: Sys, t: Sys, e: Event, ls: seq<Listener>)
    requires SnapshotsInv(s) && Increasing(ls) && t.begun == s.begun + [Begun(e, ls)]
    ensures SnapshotsInv(t)
  {
    hide Increasing;
  }

  lemma NothingCalledYet(e: Event, batch: seq<Event>, ls: seq<Listener>)
    requires batch != [] && batch[0] == e
    ensures Remaining(Calling(batch, ls, 0)) == CallsFor(e, ls) && Front(Calling(batch, ls, 0)) == [e]
  {
  }

  lemma BeginKeepsCalls(s: Sys, t: Sys)
    requires CallsInv(s) && BegunInv(s) && DownInv(s) && BeginStep(s, t)
    ensures CallsInv(t) && BegunInv(t) && DownInv(t)
  {
    var e, ls := s.phase.batch[0], Registered(s.bus, s.phase.batch[0].name);
    CallsOfAllSnoc(s.begun, e, ls);
    EventsOfSnoc(s.begun, e, ls);
    NothingCalledYet(e, s.phase.batch, ls);
    assert ls == [] ==> CallsFor(e, ls) == [];
    hide CallsOfAll, EventsOf, CallsFor;
    assert Remaining(s.phase) == [] && Front(s.phase) == [];
    hide Remaining, Front;
  }

  lemma BeginKeepsInv(s: Sys, t: Sys)
    requires Inv(s) && BeginStep(s, t)
    ensures Inv(t)
  {
    var e, ls := s.phase.batch[0], Registered(s.bus, s.phase.batch[0].name);
    RegisteredInOrder(s.bus, e.name);
    SnapshotsMore(s, t, e, ls);
    BeginKeepsCalls(s, t);
    hide WellOrdered, CallsInv, BegunInv, DownInv, SnapshotsInv, Increasing, Registered;
  }

  /** The call made is the first of those that remained. */
  lemma OneCallLess(batch: seq<Event>, ls: seq<Listener>, done: nat)
    requires batch != [] && done < |ls|
    ensures Remaining(Calling(batch, ls, done)) == [Call(batch[0], ls[done])] + Remaining(Calling(batch, ls, done + 1))
  {
    var all := CallsFor(batch[0], ls);
    assert all[done..] == [all[done]] + all[done + 1..];
  }

  lemma InvokeKeepsInv(s: Sys, t: Sys)
    requires Inv(s) && InvokeStep(s, t)
    ensures Inv(t)
  {
    var p := s.phase;
    OneCallLess(p.batch, p.snapshot, p.done);
    hide WellOrdered, CallsOfAll, Increasing, EventsOf, CallsFor, Remaining;
    SameCalls(s.calls, Call(p.batch[0], p.snapshot[p.done]), Remaining(t.phase));
    assert InHand(t.phase) == InHand(p) && Front(t.phase) == Front(p);
    hide InHand, Front;
  }

  lemma SameCalls(made: seq<Call>, c: Call, rest: seq<Call>)
    ensures made + ([c] + rest) == made + [c] + rest && made <= made + [c]
  {
  }

  lemma FinishKeepsInv(s: Sys, t: Sys)
    requires Inv(s) && FinishStep(s, t)
    ensures Inv(t)
  {
    assert Remaining(s.phase) == [] && Remaining(t.phase) == [];
    hide WellOrdered, CallsOfAll, Increasing, EventsOf, CallsFor, Remaining;
    var e, rest := s.phase.batch[0], s.phase.batch[1..];
    assert s.phase.batch == [e] + rest;
    assert s.finished + ([e] + rest) + s.bus.queue == s.finished + [e] + rest + s.bus.queue;
    assert s.finished + [e] == s.finished + [e] + [];
  }

  lemma SwapOrEndKeepsInv(s: Sys, t: Sys)
    requires Inv(s) && (SwapStep(s, t) || EndStep(s, t))
    ensures Inv(t)
  {
    assert Remaining(s.phase) == [] && Remaining(t.phase) == [];
    hide CallsOfAll, Increasing, EventsOf, CallsFor, IncreasingIds, Remaining;
    assert s.finished + [] + s.bus.queue == s.finished + s.bus.queue + [];
  }

  lemma DispatcherKeepsInv(s: Sys, t: Sys)
    requires Inv(s) && DispatcherStep(s, t)
    ensures Inv(t)
  {
    hide Inv, SwapStep, BeginStep, InvokeStep, FinishStep, EndStep;
    if BeginStep(s, t) {
      BeginKeepsInv(s, t);
    } else if InvokeStep(s, t) {
      InvokeKeepsInv(s, t);
    } else if FinishStep(s, t) {
      FinishKeepsInv(s, t);
    } else {
      SwapOrEndKeepsInv(s, t);
    }
  }

  lemma {:induction false} RunKeepsInv(run: seq<Sys>)
    requires IsRun(run)
    ensures Inv(Last(run))
  {
    hide Inv;
    if |run| == 1 {
      StartInv();
    } else {
      var front := run[..|run| - 1];
      RunKeepsInv(front);
      if OtherStep(Last(front), Last(run)) {
        OtherKeepsInv(Last(front), Last(run));
      } else {
        DispatcherKeepsInv(Last(front), Last(run));
      }
    }
  }

  lemma StartInv()
    ensures Inv(START)
  {
  }

  // -------------------------------------------------------------- main results

  /** First in, first out; nothing accepted is lost or repeated, except what shutdown clears. */
  lemma FifoConservation(run: seq<Sys>)
    requires IsRun(run)
    ensures var s := Last(run);
            && (!s.bus.down ==> s.accepted == s.finished + InHand(s.phase) + s.bus.queue)
            && (s.bus.down ==> s.accepted == s.finished + InHand(s.phase) + s.dropped)
  {
    RunKeepsInv(run);
    hide WellOrdered, CallsOfAll, EventsOf, IncreasingIds, Remaining;
  }

  /**
   * Every event begun has called exactly the listeners registered when its processing began, each once,
   * in increasing id order; the last one possibly only the first `done` of them so far.
   */
  lemma CallsAreSnapshots(run: seq<Sys>)
    requires IsRun(run)
    ensures var s := Last(run);
            && s.calls <= CallsOfAll(s.begun)
            && (!s.phase.Calling? ==> s.calls == CallsOfAll(s.begun) && EventsOf(s.begun) == s.finished)
            && (s.phase.Calling? ==> |CallsOfAll(s.begun)| - |s.calls| == |s.phase.snapshot| - s.phase.done)
            && forall i :: 0 <= i < |s.begun| ==> Increasing(s.begun[i].registered)
  {
    RunKeepsInv(run);
  }

  /** After shutdown the only calls still made are, in order, those of a snapshot copied before it. */
  lemma ShutdownSilences(run: seq<Sys>)
    requires IsRun(run) && Last(run).bus.down
    ensures var s := Last(run);
            && s.bus.listeners == map[] && s.bus.queue == []
            && s.before <= s.calls && s.calls[|s.before|..] <= s.owed
  {
    RunKeepsInv(run);
    var s := Last(run);
    assert s.calls == s.before + s.calls[|s.before|..];
    assert (s.calls + Remaining(s.phase))[|s.before|..] == s.calls[|s.before|..] + Remaining(s.phase);
    assert (s.before + s.owed)[|s.before|..] == s.owed;
  }

  /** Shutdown is final for the rest of the run, and fixes once and for all what may still be called. */
  lemma {:induction false} ShutdownIsFinal(run: seq<Sys>, i: nat, j: nat)
    requires IsRun(run) && i <= j < |run| && run[i].bus.down
    ensures var s, t := run[i], run[j];
            t.bus.down && t.before == s.before && t.owed == s.owed && t.accepted == s.accepted
    decreases j
  {
    hide *;
    if i < j {
      ShutdownIsFinal(run, i, j - 1);
      StepAt(run, j);
      DownStaysDown(run[j - 1], run[j]);
    }
  }

  lemma StepAt(run: seq<Sys>, j: nat)
    requires IsRun(run) && 0 < j < |run|
    ensures Next(run[j - 1], run[j])
  {
    hide Next;
    var i := j - 1;
    assert Next(run[i], run[i + 1]);
  }

  lemma DownStaysDown(s: Sys, t: Sys)
    requires Next(s, t) && s.bus.down
    ensures t.bus.down && t.before == s.before && t.owed == s.owed && t.accepted == s.accepted
  {
    hide Remaining;
  }

  /**
   * Only a swap moves events into the dispatcher's hands: until the next one, what is in hand later is what is
   * left of what was in hand before, so everything published meanwhile waits for the next batch.
   */
  lemma {:induction false} PublishedWaits(run: seq<Sys>, i: nat, j: nat)
    requires IsRun(run) && i <= j < |run|
    requires forall k :: i <= k < j ==> !SwapStep(run[k], run[k + 1])
    ensures var s, t := run[i], run[j];
            s.finished <= t.finished && InHand(s.phase) == t.finished[|s.finished|..] + InHand(t.phase)
    decreases j
  {
    hide *;
    if i == j {
      assert run[i].finished[|run[i].finished|..] == [];
    } else {
      PublishedWaits(run, i, j - 1);
      StepAt(run, j);
      var k := j - 1;
      assert !SwapStep(run[k], run[k + 1]);
      NoSwapKeepsBatch(run[j - 1], run[j]);
      TakenTogether(run[i].finished, run[j - 1].finished, run[j].finished,
                    InHand(run[i].phase), InHand(run[j - 1].phase), InHand(run[j].phase));
    }
  }

  lemma TakenTogether<T>(f: seq<T>, g: seq<T>, h: seq<T>, x: seq<T>, y: seq<T>, z: seq<T>)
    requires f <= g <= h && x == g[|f|..] + y && y == h[|g|..] + z
    ensures f <= h && x == h[|f|..] + z
  {
    assert h[|f|..] == g[|f|..] + h[|g|..];
  }

  lemma NoSwapKeepsBatch(s: Sys, t: Sys)
    requires Next(s, t) && !SwapStep(s, t)
    ensures s.finished <= t.finished && InHand(s.phase) == t.finished[|s.finished|..] + InHand(t.phase)
  {
    hide Remaining, SwapStep;
    if FinishStep(s, t) {
      assert t.finished[|s.finished|..] == [s.phase.batch[0]];
      assert s.phase.batch == [s.phase.batch[0]] + s.phase.batch[1..];
    } else {
      BatchUnchanged(s, t);
      assert t.finished[|s.finished|..] == [];
    }
  }

  lemma BatchUnchanged(s: Sys, t: Sys)
    requires Next(s, t) && !SwapStep(s, t) && !FinishStep(s, t)
    ensures t.finished == s.finished && InHand(t.phase) == InHand(s.phase)
  {
    if OtherStep(s, t) {
      OtherKeepsRest(s, t);
    }
  }

  lemma NoCalls()
    ensures CallsOfAll([]) == []
  {
  }

  lemma {:induction false} CallsOfAllAppend(x: seq<Begun>, y: seq<Begun>)
    ensures CallsOfAll(x + y) == CallsOfAll(x) + CallsOfAll(y)
  {
    hide CallsOfAll, CallsFor;
    if y == [] {
      NoCalls();
      Neutral(x);
      Neutral(CallsOfAll(x));
    } else {
      var front, b := y[..|y| - 1], y[|y| - 1];
      CallsOfAllAppend(x, front);
      CallsOfAllSnoc(front, b.event, b.registered);
      CallsOfAllSnoc(x + front, b.event, b.registered);
      assert y == front + [b];
      Associative(x, front, [b]);
      Associative(CallsOfAll(x), CallsOfAll(front), CallsFor(b.event, b.registered));
    }
  }

  /** A complete dispatch calls exactly the snapshots of the events it began, and began exactly those it finished. */
  lemma DispatchedCalls(before: seq<Sys>, after: seq<Sys>, invoked: seq<Call>, batch: seq<Event>)
    requires IsRun(before) && IsRun(after) && Last(before).phase.Idle? && Last(after).phase.Idle?
    requires Last(before).begun <= Last(after).begun
    requires Last(after).calls == Last(before).calls + invoked
    requires Last(after).finished == Last(before).finished + batch
    ensures var begun := Last(after).begun[|Last(before).begun|..];
            invoked == CallsOfAll(begun) && EventsOf(begun) == batch
  {
    CallsAreSnapshots(before);
    CallsAreSnapshots(after);
    var s, t := Last(before), Last(after);
    var begun := t.begun[|s.begun|..];
    assert t.begun == s.begun + begun;
    assert EventsOf(t.begun) == EventsOf(s.begun) + EventsOf(begun);
    CallsOfAllAppend(s.begun, begun);
    hide IsRun, CallsOfAll, EventsOf, Increasing;
    SameRest(s.calls, invoked, CallsOfAll(begun));
    SameRest(s.finished, batch, EventsOf(begun));
  }

  lemma SameRest<T>(a: seq<T>, x: seq<T>, y: seq<T>)
    requires a + x == a + y
    ensures x == y
  {
    assert (a + x)[|a|..] == x && (a + y)[|a|..] == y;
  }

  // -------------------------------------------------------------------- class

  class EventBus {
    var listeners: map<bytes, seq<Listener>>
    var eventQueue: seq<Event>
    var nextId: int
    var isShuttingDown: bool
    /** The machine states this bus has gone through. */
    ghost var run: seq<Sys>

    ghost function State(): Bus
      reads this
    {
      Bus(listeners, eventQueue, nextId, isShuttingDown)
    }

    ghost predicate Valid()
      reads this
    {
      run != [] && IsRun(run) && Last(run).bus == State()
    }

    constructor ()
      ensures Valid() && run == [START]
    {
      listeners, eventQueue, nextId, isShuttingDown := map[], [], 1, false;
      run := [START];
    }

    ghost method Step(s: Sys)
      requires IsRun(run) && Next(Last(run), s)
      modifies this`run
      ensures run == old(run) + [s] && IsRun(run)
    {
      hide Next;
      run := run + [s];
    }

    method Subscribe(name: bytes, cb: Callback) returns (id: int)
      requires Valid()
      modifies this
      ensures Valid() && State() == Subscribed(old(State()), name, cb)
      ensures id == if old(isShuttingDown) then -1 else old(nextId)
      ensures |run| == |old(run)| + 1 && old(run) <= run && SubscribeStep(old(Last(run)), Last(run), name, cb)
    {
      if isShuttingDown {
        id := -1;
      } else {
        id := nextId;
        nextId := nextId + 1;
        var vec := if name in listeners then listeners[name] else [];
        listeners := listeners[name := vec + [Listener(id, cb)]];
      }
      ghost var s := Last(run).(bus := State());
      assert SubscribeStep(Last(run), s, name, cb);
      Step(s);
    }

    method Unsubscribe(name: bytes, id: int)
      requires Valid()
      modifies this
      ensures Valid() && State() == Unsubscribed(old(State()), name, id)
      ensures |run| == |old(run)| + 1 && old(run) <= run && UnsubscribeStep(old(Last(run)), Last(run), name, id)
    {
      if name in listeners {
        var vec := Without(listeners[name], id);
        listeners := listeners[name := vec];
        if vec == [] {
          listeners := listeners - {name};
        }
      }
      assert State() == Unsubscribed(old(State()), name, id);
      ghost var s := Last(run).(bus := State());
      assert UnsubscribeStep(Last(run), s, name, id);
      Step(s);
    }

    method Publish(e: Event)
      requires Valid()
      modifies this
      ensures Valid() && State() == Published(old(State()), e)
      ensures |run| == |old(run)| + 1 && old(run) <= run && PublishStep(old(Last(run)), Last(run), e)
    {
      if !isShuttingDown {
        eventQueue := eventQueue + [e];
      }
      ghost var s := Last(run).(bus := State());
      if !isShuttingDown {
        s := s.(accepted := s.accepted + [e]);
      }
      assert PublishStep(Last(run), s, e);
      Step(s);
    }

    method Shutdown()
      requires Valid()
      modifies this
      ensures Valid() && State() == ShutDown(old(State()))
      ensures |run| == |old(run)| + 1 && old(run) <= run && ShutdownStep(old(Last(run)), Last(run))
    {
      ghost var s := Last(run);
      ghost var t := s.(bus := ShutDown(s.bus), dropped := s.dropped + s.bus.queue,
                        before := if s.bus.down then s.before else s.calls,
                        owed := if s.bus.down then s.owed else Remaining(s.phase));
      isShuttingDown := true;
      while eventQueue != []
        invariant isShuttingDown && listeners == old(listeners) && nextId == old(nextId) && run == old(run)
        decreases |eventQueue|
      {
        eventQueue := eventQueue[1..];
      }
      listeners := map[];
      assert ShutdownStep(s, t);
      Step(t);
    }

    /** Whatever callbacks and other threads do between two lock sections of the dispatcher. */
    method Others()
      requires Valid()
      modifies this
      ensures Valid() && old(run) <= run
      ensures Last(run).phase == old(Last(run).phase) && Last(run).finished == old(Last(run).finished)
      ensures Last(run).begun == old(Last(run).begun) && Last(run).calls == old(Last(run).calls)
      ensures isShuttingDown || (!old(isShuttingDown) && old(eventQueue) <= eventQueue)
    {
      var n: nat := *;
      while n > 0
        invariant Valid() && old(run) <= run
        invariant Last(run).phase == old(Last(run).phase) && Last(run).finished == old(Last(run).finished)
        invariant Last(run).begun == old(Last(run).begun) && Last(run).calls == old(Last(run).calls)
        invariant isShuttingDown || (!old(isShuttingDown) && old(eventQueue) <= eventQueue)
      {
        var name: bytes, id: int, cb: Callback, e: Event := *, *, *, *;
        if * {
          var x := Subscribe(name, cb);
        } else if * {
          Unsubscribe(name, id);
        } else if * {
          Publish(e);
        } else {
          Shutdown();
        }
        n := n - 1;
      }
    }

    /** The run is extended by one dispatcher step that leaves the bus as the fields now have it. */
    ghost method Dispatch(s: Sys)
      requires IsRun(run) && DispatcherStep(Last(run), s) && s.bus == State()
      modifies this`run
      ensures Valid() && run == old(run) + [s]
    {
      hide DispatcherStep;
      Step(s);
    }

    ghost method Begin(batch: seq<Event>, ls: seq<Listener>)
      requires Valid() && Last(run).phase == Between(batch) && batch != [] && ls == Registered(State(), batch[0].name)
      modifies this`run
      ensures Valid() && old(run) <= run && Last(run).phase == Calling(batch, ls, 0)
      ensures Last(run).finished == old(Last(run)).finished && Last(run).calls == old(Last(run)).calls
      ensures old(Last(run)).begun <= Last(run).begun
    {
      hide IsRun, Registered;
      Dispatch(Last(run).(phase := Calling(batch, ls, 0), begun := Last(run).begun + [Begun(batch[0], ls)]));
    }

    ghost method Invoke(batch: seq<Event>, ls: seq<Listener>, i: nat)
      requires Valid() && Last(run).phase == Calling(batch, ls, i) && i < |ls| && batch != []
      modifies this`run
      ensures Valid() && old(run) <= run && Last(run).phase == Calling(batch, ls, i + 1)
      ensures Last(run).finished == old(Last(run)).finished && Last(run).begun == old(Last(run)).begun
      ensures Last(run).calls == old(Last(run)).calls + [Call(batch[0], ls[i])]
    {
      hide IsRun, Registered;
      Dispatch(Last(run).(phase := Calling(batch, ls, i + 1), calls := Last(run).calls + [Call(batch[0], ls[i])]));
    }

    ghost method Finish(batch: seq<Event>, ls: seq<Listener>)
      requires Valid() && Last(run).phase == Calling(batch, ls, |ls|) && batch != []
      modifies this`run
      ensures Valid() && old(run) <= run && Last(run).phase == Between(batch[1..])
      ensures Last(run).finished == old(Last(run)).finished + [batch[0]]
      ensures Last(run).calls == old(Last(run)).calls && Last(run).begun == old(Last(run)).begun
    {
      hide IsRun, Registered;
      Dispatch(Last(run).(phase := Between(batch[1..]), finished := Last(run).finished + [batch[0]]));
    }

    /** Calls the copied callbacks one by one, without the lock. */
    method CallAll(temp: seq<Event>, callbacks: seq<Listener>) returns (called: seq<Call>)
      requires Valid() && temp != [] && Last(run).phase == Calling(temp, callbacks, 0)
      modifies this
      ensures Valid() && old(run) <= run && Last(run).phase == Calling(temp, callbacks, |callbacks|)
      ensures called == CallsFor(temp[0], callbacks) && Last(run).calls == old(Last(run)).calls + called
      ensures Last(run).finished == old(Last(run)).finished && Last(run).begun == old(Last(run)).begun
    {
      hide IsRun;
      called := [];
      for i := 0 to |callbacks|
        invariant Valid() && old(run) <= run && Last(run).phase == Calling(temp, callbacks, i)
        invariant called == CallsFor(temp[0], callbacks)[..i]
        invariant Last(run).calls == old(Last(run)).calls + called
        invariant Last(run).finished == old(Last(run)).finished && Last(run).begun == old(Last(run)).begun
      {
        Invoke(temp, callbacks, i);
        called := called + [Call(temp[0], callbacks[i])];
        Others();
      }
    }

    /** One turn of the dispatch loop: the front event is announced to the listeners it finds. */
    method DispatchFront(temp: seq<Event>) returns (called: seq<Call>)
      requires Valid() && temp != [] && Last(run).phase == Between(temp)
      modifies this
      ensures Valid() && old(run) <= run && Last(run).phase == Between(temp[1..])
      ensures Last(run).finished == old(Last(run)).finished + [temp[0]]
      ensures Last(run).calls == old(Last(run)).calls + called
      ensures old(Last(run)).begun <= Last(run).begun
    {
      hide IsRun, Registered, CallsFor;
      Others();
      var event := temp[0];
      var callbacksCopy := if event.name in listeners then listeners[event.name] else [];
      RegisteredDef(State(), event.name);
      Begin(temp, callbacksCopy);
      called := CallAll(temp, callbacksCopy);
      Finish(temp, callbacksCopy);
    }

    /**
     * Dispatches exactly the events queued at the call, in order, whatever the callbacks do meanwhile;
     * it ends because the swapped batch is finite. `invoked` lists the callbacks it called: for every event,
     * the listeners registered when its processing began.
     */
    method DispatchPending() returns (invoked: seq<Call>)
      requires Valid() && Last(run).phase.Idle?
      modifies this
      ensures Valid() && old(run) <= run && Last(run).phase.Idle?
      ensures Last(run).finished == old(Last(run)).finished + if old(isShuttingDown) then [] else old(eventQueue)
      ensures Last(run).calls == old(Last(run)).calls + invoked
      ensures old(Last(run)).begun <= Last(run).begun && (old(isShuttingDown) ==> isShuttingDown)
      ensures var begun := Last(run).begun[|old(Last(run)).begun|..];
              invoked == CallsOfAll(begun) && EventsOf(begun) == if old(isShuttingDown) then [] else old(eventQueue)
    {
      hide IsRun, Registered, CallsOfAll, EventsOf;
      ghost var was := run;
      ghost var batch := if isShuttingDown then [] else eventQueue;
      invoked := [];
      if !isShuttingDown {
        var temp := eventQueue;
        eventQueue := [];
        Dispatch(Last(run).(bus := State(), phase := Between(temp)));
        invoked := DispatchAll(temp);
      }
      DispatchedCalls(was, run, invoked, batch);
    }

    /** The dispatch loop over the swapped batch. */
    method DispatchAll(batch: seq<Event>) returns (invoked: seq<Call>)
      requires Valid() && Last(run).phase == Between(batch)
      modifies this
      ensures Valid() && old(run) <= run && Last(run).phase.Idle?
      ensures Last(run).finished == old(Last(run)).finished + batch
      ensures Last(run).calls == old(Last(run)).calls + invoked
      ensures old(Last(run)).begun <= Last(run).begun
    {
      hide IsRun, Registered, CallsOfAll, EventsOf;
      invoked := [];
      var temp := batch;
      while temp != []
        invariant Valid() && old(run) <= run && Last(run).phase == Between(temp)
        invariant Last(run).finished + temp == old(Last(run)).finished + batch
        invariant Last(run).calls == old(Last(run)).calls + invoked
        invariant old(Last(run)).begun <= Last(run).begun
        decreases |temp|
      {
        var called := DispatchFront(temp);
        invoked := invoked + called;
        assert temp == [temp[0]] + temp[1..];
        temp := temp[1..];
      }
      Dispatch(Last(run).(phase := Idle));
    }
  }

  lemma RegisteredDef(b: Bus, name: bytes)
    ensures Registered(b, name) == if name in b.listeners then b.listeners[name] else []
  {
  }
}
