/** Ownership of libraries through moves, vector growth and erase (Module.cpp, ModuleManager.cpp, ModuleLoader.cpp). */
module ModuleManager {
  import opened Bits

  // ------------------------------------------------------------ specification

  /** What happens to one library handle and to the instance made from it. */
  datatype LibEvent = Opened(handle: nat) | Created(handle: nat) | Destroyed(handle: nat) | Closed(handle: nat)

  /** How the operating system and the library answer one load. */
  datatype Outcome = NoLibrary | NoFactory | NoInstance | Loads(reported: bytes)

  datatype Entry = Entry(name: bytes, path: bytes, handle: nat)
  datatype Manager = Manager(entries: seq<Entry>, store: seq<bytes>, log: seq<LibEvent>, next: nat)

  /** The position of the first module called `name`; the number of modules when there is none. */
  function Find(entries: seq<Entry>, name: bytes): (i: nat)
    ensures i <= |entries|
    ensures i < |entries| ==> entries[i].name == name
    ensures forall j :: 0 <= j < i ==> entries[j].name != name
  {
    if entries == [] || entries[0].name == name then 0 else 1 + Find(entries[1..], name)
  }

  function Dropped(entries: seq<Entry>, i: nat): seq<Entry>
    requires i < |entries|
  {
    entries[..i] + entries[i + 1..]
  }

  lemma DroppedAt(entries: seq<Entry>, i: nat)
    requires i < |entries|
    ensures |Dropped(entries, i)| == |entries| - 1
    ensures forall k :: 0 <= k < |entries| - 1 ==> Dropped(entries, i)[k] == entries[if k < i then k else k + 1]
  {
  }

  predicate IsLoaded(m: Manager, name: bytes) {
    Find(m.entries, name) < |m.entries|
  }

  function Added(store: seq<bytes>, name: bytes): seq<bytes> {
    if name in store then store else store + [name]
  }

  function Removed(store: seq<bytes>, name: bytes): seq<bytes> {
    if store == [] then [] else (if store[0] == name then [] else [store[0]]) + Removed(store[1..], name)
  }

  /** A load that is attempted: the loader runs, and a module that comes out is appended. */
  function Attempted(m: Manager, name: bytes, o: Outcome): Manager {
    match o
    case NoLibrary => m
    case NoFactory => m.(log := m.log + [Opened(m.next), Closed(m.next)], next := m.next + 1)
    case NoInstance => m.(log := m.log + [Opened(m.next), Closed(m.next)], next := m.next + 1)
    case Loads(reported) => m.(entries := m.entries + [Entry(reported, name, m.next)],
                               log := m.log + [Opened(m.next), Created(m.next)], next := m.next + 1)
  }

  function Loaded(m: Manager, name: bytes, o: Outcome): Manager {
    if IsLoaded(m, name) then m
    else if o.Loads? then Attempted(m, name, o).(store := Added(m.store, name))
    else Attempted(m, name, o)
  }

  function Restored(m: Manager, names: seq<bytes>, answer: bytes -> Outcome): Manager
    decreases |names|
  {
    if names == [] then m
    else Restored(if IsLoaded(m, names[0]) then m else Attempted(m, names[0], answer(names[0])), names[1..], answer)
  }

  function Unloaded(m: Manager, name: bytes): Manager {
    var i := Find(m.entries, name);
    if i == |m.entries| then m
    else m.(entries := Dropped(m.entries, i), store := Removed(m.store, name),
            log := m.log + [Destroyed(m.entries[i].handle), Closed(m.entries[i].handle)])
  }

  /** The end of the program: every module left is destroyed. */
  function TornDown(m: Manager): Manager
    decreases |m.entries|
  {
    if m.entries == [] then m
    else TornDown(m.(entries := m.entries[1..],
                     log := m.log + [Destroyed(m.entries[0].handle), Closed(m.entries[0].handle)]))
  }

  // ------------------------------------------------------------- the ledger

  /** The events of one handle, in order. */
  function History(log: seq<LibEvent>, h: nat): seq<LibEvent> {
    if log == [] then []
    else History(log[..|log| - 1], h) + if log[|log| - 1].handle == h then [log[|log| - 1]] else []
  }

  predicate Held(m: Manager, h: nat) {
    exists i :: 0 <= i < |m.entries| && m.entries[i].handle == h
  }

  /**
   * Each handle has never been opened, or is held by one module in the vector and is open with its instance
   * alive, or has been closed exactly once, after its instance (if one was made) was destroyed.
   */
  ghost predicate Ledger(m: Manager) {
    && (forall i, j :: 0 <= i < j < |m.entries| ==> m.entries[i].handle != m.entries[j].handle)
    && (forall i :: 0 <= i < |m.entries| ==> m.entries[i].handle < m.next)
    && forall h :: HandleState(m, h)
  }

  predicate HandleState(m: Manager, h: nat) {
    var past := History(m.log, h);
    if h >= m.next then past == []
    else if Held(m, h) then past == [Opened(h), Created(h)]
    else past == [Opened(h), Closed(h)] || past == [Opened(h), Created(h), Destroyed(h), Closed(h)]
  }

  lemma HistoryTwo(log: seq<LibEvent>, a: LibEvent, b: LibEvent, h: nat)
    ensures History(log + [a, b], h)
         == History(log, h) + (if a.handle == h then [a] else []) + (if b.handle == h then [b] else [])
  {
    var l2 := log + [a, b];
    assert l2[..|l2| - 1] == log + [a];
    assert (log + [a])[..|log|] == log;
    assert History(log + [a], h) == History(log, h) + if a.handle == h then [a] else [];
  }

  lemma AttemptedKeepsLedger(m: Manager, name: bytes, o: Outcome)
    requires Ledger(m)
    ensures Ledger(Attempted(m, name, o))
  {
    var t := Attempted(m, name, o);
    if !o.NoLibrary? {
      forall h: nat
        ensures HandleState(t, h)
      {
        assert HandleState(m, h);
        HistoryTwo(m.log, t.log[|m.log|], t.log[|m.log| + 1], h);
        assert t.log == m.log + [t.log[|m.log|], t.log[|m.log| + 1]];
        if o.Loads? {
          HeldAfterAppend(m, t, h);
        } else {
          assert Held(t, h) <==> Held(m, h);
        }
      }
    }
  }

  lemma HeldAfterAppend(m: Manager, t: Manager, h: nat)
    requires |t.entries| == |m.entries| + 1 && t.entries[..|m.entries|] == m.entries
    ensures Held(t, h) <==> Held(m, h) || t.entries[|m.entries|].handle == h
  {
    forall i | 0 <= i < |m.entries|
      ensures t.entries[i] == m.entries[i]
    {
      assert t.entries[i] == t.entries[..|m.entries|][i];
    }
    if Held(m, h) {
      var i :| 0 <= i < |m.entries| && m.entries[i].handle == h;
      assert t.entries[i].handle == h;
    }
  }

  lemma LoadedKeepsLedger(m: Manager, name: bytes, o: Outcome)
    requires Ledger(m)
    ensures Ledger(Loaded(m, name, o))
  {
    AttemptedKeepsLedger(m, name, o);
    var a, t := Attempted(m, name, o), Loaded(m, name, o);
    forall h: nat
      ensures HandleState(t, h)
    {
      assert HandleState(m, h) && HandleState(a, h);
      assert !IsLoaded(m, name) ==> (Held(t, h) <==> Held(a, h));
    }
  }

  lemma {:induction false} RestoredKeepsLedger(m: Manager, names: seq<bytes>, answer: bytes -> Outcome)
    requires Ledger(m)
    ensures Ledger(Restored(m, names, answer))
    decreases |names|
  {
    hide Ledger, Attempted, IsLoaded;
    if names == [] {
    } else {
      AttemptedKeepsLedger(m, names[0], answer(names[0]));
      var t := if IsLoaded(m, names[0]) then m else Attempted(m, names[0], answer(names[0]));
      RestoredKeepsLedger(t, names[1..], answer);
    }
  }

  /** Taking one module out and closing its handle. */
  lemma DroppedKeepsLedger(m: Manager, i: nat, t: Manager)
    requires Ledger(m) && i < |m.entries|
    requires t.entries == Dropped(m.entries, i) && t.next == m.next
    requires t.log == m.log + [Destroyed(m.entries[i].handle), Closed(m.entries[i].handle)]
    ensures Ledger(t)
  {
    var gone := m.entries[i].handle;
    forall j | 0 <= j < |t.entries|
      ensures t.entries[j] == m.entries[if j < i then j else j + 1]
    {
    }
    forall h: nat
      ensures HandleState(t, h)
    {
      assert HandleState(m, h);
      HistoryTwo(m.log, Destroyed(gone), Closed(gone), h);
      HeldAfterDrop(m, i, t, h);
    }
  }

  lemma HeldAfterDrop(m: Manager, i: nat, t: Manager, h: nat)
    requires Ledger(m) && i < |m.entries| && t.entries == Dropped(m.entries, i)
    ensures Held(t, h) <==> Held(m, h) && h != m.entries[i].handle
    ensures Held(m, m.entries[i].handle)
  {
    forall j | 0 <= j < |t.entries|
      ensures t.entries[j] == m.entries[if j < i then j else j + 1]
    {
    }
    if Held(m, h) && h != m.entries[i].handle {
      var j :| 0 <= j < |m.entries| && m.entries[j].handle == h;
      assert t.entries[if j < i then j else j - 1].handle == h;
    }
  }

  lemma UnloadedKeepsLedger(m: Manager, name: bytes)
    requires Ledger(m)
    ensures Ledger(Unloaded(m, name))
  {
    var i := Find(m.entries, name);
    if i < |m.entries| {
      DroppedKeepsLedger(m, i, Unloaded(m, name));
    }
  }

  /** unload frees the handle of the first module of that name, and no other handle changes at all. */
  lemma UnloadFreesOne(m: Manager, name: bytes, h: nat)
    requires Ledger(m) && IsLoaded(m, name)
    ensures var gone := m.entries[Find(m.entries, name)].handle;
            var t := Unloaded(m, name);
            && (h == gone ==> !Held(t, h) && History(t.log, h) == [Opened(h), Created(h), Destroyed(h), Closed(h)])
            && (h != gone ==> History(t.log, h) == History(m.log, h) && (Held(t, h) <==> Held(m, h)))
  {
    var i := Find(m.entries, name);
    var gone := m.entries[i].handle;
    HistoryTwo(m.log, Destroyed(gone), Closed(gone), h);
    HeldAfterDrop(m, i, Unloaded(m, name), h);
    assert HandleState(m, h);
  }

  /** Nothing leaks: once the manager is gone, every handle ever opened has been closed exactly once. */
  lemma {:induction false} TearDownClosesAll(m: Manager)
    requires Ledger(m)
    ensures var t := TornDown(m);
            Ledger(t) && t.entries == [] && t.next == m.next
            && forall h: nat :: h < m.next ==> ClosedOnce(t, h)
    decreases |m.entries|
  {
    if m.entries == [] {
      NothingHeldMeansClosed(m);
    } else {
      var h := m.entries[0].handle;
      var t := m.(entries := m.entries[1..], log := m.log + [Destroyed(h), Closed(h)]);
      DroppedKeepsLedger(m, 0, t);
      hide Ledger, Held, History, ClosedOnce;
      TearDownClosesAll(t);
    }
  }

  predicate ClosedOnce(m: Manager, h: nat) {
    !Held(m, h) && (History(m.log, h) == [Opened(h), Closed(h)]
                    || History(m.log, h) == [Opened(h), Created(h), Destroyed(h), Closed(h)])
  }

  lemma NothingHeldMeansClosed(m: Manager)
    requires Ledger(m) && m.entries == []
    ensures forall h: nat :: h < m.next ==> ClosedOnce(m, h)
  {
    forall h: nat | h < m.next
      ensures ClosedOnce(m, h)
    {
      assert HandleState(m, h);
    }
  }

  datatype Op = DoLoad(name: bytes, outcome: Outcome) | DoUnload(name: bytes) | DoRestore(answer: bytes -> Outcome)

  function Run(m: Manager, ops: seq<Op>): Manager {
    if ops == [] then m
    else
      var p := Run(m, ops[..|ops| - 1]);
      match ops[|ops| - 1]
      case DoLoad(name, o) => Loaded(p, name, o)
      case DoUnload(name) => Unloaded(p, name)
      case DoRestore(answer) => Restored(p, p.store, answer)
  }

  /** Any program of loads, unloads and restores keeps the ledger. */
  lemma {:induction false} RunKeepsLedger(store: seq<bytes>, ops: seq<Op>)
    ensures Ledger(Run(Manager([], store, [], 0), ops))
  {
    var start := Manager([], store, [], 0);
    if ops == [] {
      assert forall h :: HandleState(start, h);
    } else {
      RunKeepsLedger(store, ops[..|ops| - 1]);
      var p := Run(start, ops[..|ops| - 1]);
      hide Ledger;
      match ops[|ops| - 1] {
        case DoLoad(name, o) => LoadedKeepsLedger(p, name, o);
        case DoUnload(name) => UnloadedKeepsLedger(p, name);
        case DoRestore(answer) => RestoredKeepsLedger(p, p.store, answer);
      }
    }
  }

  /** While every module reports its file name, no name is loaded twice. */
  predicate NamesUnique(m: Manager) {
    && (forall i, j :: 0 <= i < j < |m.entries| ==> m.entries[i].name != m.entries[j].name)
    && forall i :: 0 <= i < |m.entries| ==> m.entries[i].name == m.entries[i].path
  }

  lemma LoadKeepsNamesUnique(m: Manager, name: bytes, o: Outcome)
    requires NamesUnique(m) && (o.Loads? ==> o.reported == name)
    ensures NamesUnique(Loaded(m, name, o))
    ensures IsLoaded(Loaded(m, name, o), name) <==> IsLoaded(m, name) || o.Loads?
  {
    var t := Loaded(m, name, o);
    if !IsLoaded(m, name) && o.Loads? {
      assert t.entries[|m.entries|].name == name;
    }
  }

  /** The place of the first occurrence of `n`; the number of names when there is none. */
  function FirstAt(names: seq<bytes>, n: bytes): nat {
    if names == [] || names[0] == n then 0 else 1 + FirstAt(names[1..], n)
  }

  /** `t` has the modules of `m`, and behind them new ones, in the order in which `names` lists them first. */
  predicate GrownInOrder(m: Manager, t: Manager, names: seq<bytes>) {
    && m.entries <= t.entries
    && forall i, j :: |m.entries| <= i < j < |t.entries| ==>
         FirstAt(names, t.entries[i].name) < FirstAt(names, t.entries[j].name)
  }

  /**
   * What a restore achieves when libraries report their file names: every name of the store whose library loads is
   * loaded, whatever became of the names before it, and nothing else is; the store stays as it is.
   */
  lemma {:induction false} RestoreLoadsAll(m: Manager, names: seq<bytes>, answer: bytes -> Outcome)
    requires NamesUnique(m) && forall n :: answer(n).Loads? ==> answer(n).reported == n
    ensures var t := Restored(m, names, answer);
            && NamesUnique(t) && t.store == m.store && GrownInOrder(m, t, names)
            && forall n :: IsLoaded(t, n) <==> IsLoaded(m, n) || (n in names && answer(n).Loads?)
    decreases |names|
  {
    if names == [] {
    } else {
      var name, rest := names[0], names[1..];
      var m' := if IsLoaded(m, name) then m else Attempted(m, name, answer(name));
      RestoreOne(m, name, answer(name));
      hide NamesUnique, IsLoaded, Attempted, GrownInOrder;
      RestoreLoadsAll(m', rest, answer);
      GrownFurther(m, m', Restored(m', rest, answer), names, answer(name).Loads?);
    }
  }

  lemma RestoreOne(m: Manager, name: bytes, o: Outcome)
    requires NamesUnique(m) && (o.Loads? ==> o.reported == name)
    ensures var m' := if IsLoaded(m, name) then m else Attempted(m, name, o);
            && NamesUnique(m') && m'.store == m.store
            && (m'.entries == m.entries || m'.entries == m.entries + [Entry(name, name, m.next)])
            && forall n :: IsLoaded(m', n) <==> IsLoaded(m, n) || (n == name && o.Loads?)
  {
    var m' := if IsLoaded(m, name) then m else Attempted(m, name, o);
    forall n
      ensures IsLoaded(m', n) <==> IsLoaded(m, n) || (n == name && o.Loads?)
    {
      LoadedMeans(m, n);
      LoadedMeans(m', n);
      if m'.entries != m.entries {
        assert m'.entries[|m.entries|].name == name;
        assert forall i :: 0 <= i < |m.entries| ==> m'.entries[i] == m.entries[i];
      }
    }
  }

  lemma LoadedMeans(m: Manager, n: bytes)
    ensures IsLoaded(m, n) <==> exists i :: 0 <= i < |m.entries| && m.entries[i].name == n
  {
  }

  /** The names loaded later stand later in `names` than its first one. */
  lemma GrownFurther(m: Manager, m': Manager, t: Manager, names: seq<bytes>, loads: bool)
    requires names != [] && NamesUnique(t) && GrownInOrder(m', t, names[1..])
    requires m'.entries == m.entries || m'.entries == m.entries + [Entry(names[0], names[0], m.next)]
    requires IsLoaded(m', names[0]) || !IsLoaded(t, names[0])
    ensures GrownInOrder(m, t, names)
  {
    forall j | |m'.entries| <= j < |t.entries|
      ensures FirstAt(names, t.entries[j].name) == 1 + FirstAt(names[1..], t.entries[j].name)
    {
      LoadedMeans(m', names[0]);
      LoadedMeans(t, names[0]);
    }
    assert |m'.entries| > |m.entries| ==> t.entries[|m.entries|] == m'.entries[|m.entries|];
  }

  lemma FindNone(entries: seq<Entry>, name: bytes)
    requires forall j :: 0 <= j < |entries| ==> entries[j].name != name
    ensures Find(entries, name) == |entries|
  {
  }

  lemma UnloadKeepsNamesUnique(m: Manager, name: bytes)
    requires NamesUnique(m)
    ensures NamesUnique(Unloaded(m, name)) && !IsLoaded(Unloaded(m, name), name)
  {
    var i, t := Find(m.entries, name), Unloaded(m, name);
    if i < |m.entries| {
      DroppedAt(m.entries, i);
      assert t.entries == Dropped(m.entries, i);
      hide Dropped, Unloaded, Find;
      assert forall j :: 0 <= j < |t.entries| ==> t.entries[j].name != name;
      FindNone(t.entries, name);
    }
  }

  lemma AddedMeans(store: seq<bytes>, name: bytes)
    ensures store <= Added(store, name)
    ensures forall n :: n in Added(store, name) <==> n in store || n == name
    ensures (forall i, j :: 0 <= i < j < |store| ==> store[i] != store[j])
        ==> forall i, j :: 0 <= i < j < |Added(store, name)| ==> Added(store, name)[i] != Added(store, name)[j]
  {
  }

  lemma {:induction false} RemovedSnoc(store: seq<bytes>, last: bytes, name: bytes)
    ensures Removed(store + [last], name) == Removed(store, name) + if last == name then [] else [last]
  {
    if store == [] {
      assert [] + [last] == [last] && [last][1..] == [];
    } else {
      RemovedSnoc(store[1..], last, name);
      assert (store + [last])[1..] == store[1..] + [last];
    }
  }

  lemma {:induction false} RemovedCounts(store: seq<bytes>, name: bytes)
    ensures multiset(Removed(store, name)) == multiset(store)[name := 0]
  {
    if store == [] {
    } else {
      RemovedCounts(store[1..], name);
      assert store == [store[0]] + store[1..];
    }
  }

  lemma {:induction false} RemovedInOrder(store: seq<bytes>, name: bytes)
    ensures Woven(Removed(store, name), store)
  {
    if store == [] {
    } else {
      var front, last := store[..|store| - 1], store[|store| - 1];
      assert store == front + [last];
      RemovedInOrder(front, name);
      RemovedSnoc(front, last, name);
      hide Woven, Removed;
      if last == name {
        WovenMore(Removed(front, name), front, [last]);
        Neutral(Removed(front, name));
      } else {
        WovenSnoc(Removed(front, name), front, last);
      }
    }
  }

  /** remove takes out every copy of the name; the others stay, as often as before and in their order. */
  lemma RemovedTakesAll(store: seq<bytes>, name: bytes)
    ensures var r := Removed(store, name);
            && multiset(r) == multiset(store)[name := 0] && Woven(r, store)
            && forall n :: n in r <==> n in store && n != name
  {
    hide Removed, Woven;
    RemovedCounts(store, name);
    RemovedInOrder(store, name);
    var r := Removed(store, name);
    assert forall n :: n in r <==> n in multiset(r);
  }

  /** Libraries report their file names. */
  ghost predicate Honest(op: Op) {
    match op
    case DoLoad(name, o) => o.Loads? ==> o.reported == name
    case DoUnload(_) => true
    case DoRestore(answer) => forall n :: answer(n).Loads? ==> answer(n).reported == n
  }

  /** Every loaded name is in the store; what else is there was there at the start. */
  ghost predicate StoreCovers(m: Manager, start: seq<bytes>) {
    forall n :: (IsLoaded(m, n) ==> n in m.store) && (n in m.store ==> IsLoaded(m, n) || n in start)
  }

  lemma LoadKeepsCover(m: Manager, name: bytes, o: Outcome, start: seq<bytes>)
    requires NamesUnique(m) && StoreCovers(m, start) && (o.Loads? ==> o.reported == name)
    ensures StoreCovers(Loaded(m, name, o), start)
  {
    RestoreOne(m, name, o);
    AddedMeans(m.store, name);
    hide IsLoaded, Added;
    var t := Loaded(m, name, o);
    forall n
      ensures IsLoaded(t, n) <==> IsLoaded(m, n) || (n == name && o.Loads?)
    {
      SameEntriesLoaded(t, if IsLoaded(m, name) then m else Attempted(m, name, o), n);
    }
  }

  lemma SameEntriesLoaded(a: Manager, b: Manager, n: bytes)
    requires a.entries == b.entries
    ensures IsLoaded(a, n) <==> IsLoaded(b, n)
  {
  }

  lemma UnloadLoses(m: Manager, name: bytes, n: bytes)
    requires NamesUnique(m)
    ensures IsLoaded(Unloaded(m, name), n) <==> IsLoaded(m, n) && n != name
  {
    var i, t := Find(m.entries, name), Unloaded(m, name);
    LoadedMeans(m, n);
    LoadedMeans(t, n);
    if i < |m.entries| {
      DroppedAt(m.entries, i);
      assert t.entries == Dropped(m.entries, i);
      hide Dropped, Unloaded, Find, IsLoaded;
      if k :| 0 <= k < |m.entries| && m.entries[k].name == n && k != i {
        assert t.entries[if k < i then k else k - 1].name == n;
      }
    }
  }

  lemma UnloadKeepsCover(m: Manager, name: bytes, start: seq<bytes>)
    requires NamesUnique(m) && StoreCovers(m, start)
    ensures StoreCovers(Unloaded(m, name), start)
  {
    var t := Unloaded(m, name);
    assert t.store == m.store || t.store == Removed(m.store, name);
    RemovedTakesAll(m.store, name);
    hide Unloaded, IsLoaded, Removed, Woven, NamesUnique;
    forall n
      ensures IsLoaded(t, n) <==> IsLoaded(m, n) && n != name
    {
      UnloadLoses(m, name, n);
    }
    UnloadStore(m, name);
  }

  lemma UnloadStore(m: Manager, name: bytes)
    ensures Unloaded(m, name).store == if IsLoaded(m, name) then Removed(m.store, name) else m.store
  {
  }

  lemma {:induction false} RunKeepsCover(start: seq<bytes>, ops: seq<Op>)
    requires forall i :: 0 <= i < |ops| ==> Honest(ops[i])
    ensures var m := Run(Manager([], start, [], 0), ops); NamesUnique(m) && StoreCovers(m, start)
  {
    if ops == [] {
    } else {
      var last := ops[|ops| - 1];
      RunKeepsCover(start, ops[..|ops| - 1]);
      var p := Run(Manager([], start, [], 0), ops[..|ops| - 1]);
      assert Honest(last);
      hide NamesUnique, StoreCovers;
      match last {
        case DoLoad(name, o) =>
          LoadKeepsNamesUnique(p, name, o);
          LoadKeepsCover(p, name, o, start);
        case DoUnload(name) =>
          UnloadKeepsNamesUnique(p, name);
          UnloadKeepsCover(p, name, start);
        case DoRestore(answer) =>
          RestoreLoadsAll(p, p.store, answer);
          RestoreKeepsCover(p, Restored(p, p.store, answer), start);
      }
    }
  }

  lemma RestoreKeepsCover(m: Manager, t: Manager, start: seq<bytes>)
    requires StoreCovers(m, start) && t.store == m.store
    requires forall n :: (IsLoaded(m, n) ==> IsLoaded(t, n)) && (IsLoaded(t, n) ==> IsLoaded(m, n) || n in m.store)
    ensures StoreCovers(t, start)
  {
  }

  /**
   * A restart: after any run, a new manager that restores the store has loaded again every module that was loaded
   * and still loads, and nothing that was neither loaded nor in the store when the run began.
   */
  lemma RestartRestores(start: seq<bytes>, ops: seq<Op>, answer: bytes -> Outcome)
    requires forall i :: 0 <= i < |ops| ==> Honest(ops[i])
    requires forall n :: answer(n).Loads? ==> answer(n).reported == n
    ensures var m := Run(Manager([], start, [], 0), ops);
            var t := Restored(Manager([], m.store, [], 0), m.store, answer);
            && NamesUnique(t) && t.store == m.store
            && (forall n :: IsLoaded(m, n) && answer(n).Loads? ==> IsLoaded(t, n))
            && forall n :: IsLoaded(t, n) ==> answer(n).Loads? && (IsLoaded(m, n) || n in start)
  {
    RunKeepsCover(start, ops);
    var m := Run(Manager([], start, [], 0), ops);
    RestoreLoadsAll(Manager([], m.store, [], 0), m.store, answer);
  }

  // -------------------------------------------------------------------- code

  /** The library operations the loader works through, with a record of what they did. */
  class Library {
    var log: seq<LibEvent>
    var next: nat

    constructor ()
      ensures log == [] && next == 0
    {
      log, next := [], 0;
    }
  }

  class Module {
    var name: bytes
    var path: bytes
    /** The owned IModule, named by the handle it came from. */
    var instance: Option<nat>
    /** The callback that closes the library; empty after a move. */
    var handleFree: Option<nat>

    constructor (name: bytes, path: bytes, handle: nat)
      ensures this.name == name && this.path == path && instance == handleFree == Some(handle)
    {
      this.name, this.path, instance, handleFree := name, path, Some(handle), Some(handle);
    }

    constructor Move(other: Module)
      modifies other
      ensures name == old(other.name) && path == old(other.path)
      ensures instance == old(other.instance) && handleFree == old(other.handleFree)
      ensures other.instance == other.handleFree == None
    {
      name, path, instance, handleFree := other.name, other.path, other.instance, other.handleFree;
      new;
      other.instance, other.handleFree := None, None;
    }

    /** Destroys the instance, then frees the library. */
    method Release(lib: Library)
      modifies this`instance, lib`log
      ensures instance == None
      ensures lib.log == old(lib.log) + (if old(instance).Some? then [Destroyed(old(instance).value)] else [])
                                      + (if handleFree.Some? then [Closed(handleFree.value)] else [])
    {
      if instance.Some? {
        lib.log := lib.log + [Destroyed(instance.value)];
        instance := None;
      }
      if handleFree.Some? {
        lib.log := lib.log + [Closed(handleFree.value)];
      }
    }

    method MoveAssign(other: Module, lib: Library)
      modifies this, other, lib`log
      ensures this == other ==> name == old(name) && path == old(path) && instance == old(instance)
                                && handleFree == old(handleFree) && lib.log == old(lib.log)
      ensures this != other ==>
        && name == old(other.name) && path == old(other.path)
        && instance == old(other.instance) && handleFree == old(other.handleFree)
        && other.instance == other.handleFree == None
        && lib.log == old(lib.log) + (if old(instance).Some? then [Destroyed(old(instance).value)] else [])
                                   + (if old(handleFree).Some? then [Closed(old(handleFree).value)] else [])
    {
      if this != other {
        Release(lib);
        name, path, instance, handleFree := other.name, other.path, other.instance, other.handleFree;
        other.instance, other.handleFree := None, None;
      }
    }
  }

  /** A module that owns a library. */
  predicate Owns(m: Module)
    reads m
  {
    m.instance.Some? && m.handleFree == m.instance
  }

  predicate MovedFrom(m: Module)
    reads m
  {
    m.instance.None? && m.handleFree.None?
  }

  function EntryOf(m: Module): Entry
    reads m
  {
    Entry(m.name, m.path, m.instance.GetOr(0))
  }

  function EntriesOf(ms: seq<Module>): (es: seq<Entry>)
    reads ms
    ensures |es| == |ms|
    ensures forall i :: 0 <= i < |ms| ==> es[i] == EntryOf(ms[i])
  {
    if ms == [] then [] else [EntryOf(ms[0])] + EntriesOf(ms[1..])
  }

  predicate AllOwn(ms: seq<Module>)
    reads ms
  {
    Distinct(ms) && forall i :: 0 <= i < |ms| ==> Owns(ms[i])
  }

  predicate Distinct(ms: seq<Module>) {
    forall i, j :: 0 <= i < j < |ms| ==> ms[i] != ms[j]
  }

  /** Loads one library; every failure after opening closes it again. */
  method LoadLibrary(lib: Library, name: bytes, o: Outcome) returns (r: Module?)
    modifies lib
    ensures r != null <==> o.Loads?
    ensures r != null ==> fresh(r) && Owns(r) && EntryOf(r) == Entry(o.reported, name, old(lib.next))
    ensures lib.next == old(lib.next) + if o.NoLibrary? then 0 else 1
    ensures lib.log == old(lib.log) + match o {
                         case NoLibrary => []
                         case Loads(_) => [Opened(old(lib.next)), Created(old(lib.next))]
                         case _ => [Opened(old(lib.next)), Closed(old(lib.next))] }
  {
    if o.NoLibrary? { return null; }
    var handle := lib.next;
    lib.next := lib.next + 1;
    lib.log := lib.log + [Opened(handle)];
    if !o.Loads? {
      lib.log := lib.log + [Closed(handle)];
      return null;
    }
    lib.log := lib.log + [Created(handle)];
    r := new Module(o.reported, name, handle);
  }

  /** Every element behind position `i` is move-assigned one place down. */
  method ShiftDown(ms: seq<Module>, i: nat, lib: Library)
    requires AllOwn(ms) && i < |ms|
    modifies ms, lib`log
    ensures var last := |ms| - 1;
            && var h := old(ms[i].instance);
            && ms[last].instance == ms[last].handleFree == (if i == last then h else None)
            && lib.log == old(lib.log) + (if i == last then [] else [Destroyed(h.value), Closed(h.value)])
            && forall k :: 0 <= k < last ==> Owns(ms[k]) && EntryOf(ms[k]) == Dropped(old(EntriesOf(ms)), i)[k]
  {
    hide EntriesOf, AllOwn, Distinct, Dropped;
    AllOwnAt(ms);
    var j := i;
    ghost var h := ms[i].instance.value;
    ghost var entries := EntriesOf(ms);
    ghost var target := Dropped(entries, i);
    assert |target| == |ms| - 1 && forall k :: 0 <= k < i ==> target[k] == entries[k] by { DroppedAt(entries, i); }
    assert Some(h) == old(ms[i].instance);
    while j + 1 < |ms|
      invariant i <= j < |ms|
      invariant ms[j].instance == ms[j].handleFree == (if j == i then Some(h) else None)
      invariant lib.log == old(lib.log) + (if j == i then [] else [Destroyed(h), Closed(h)])
      invariant forall k :: 0 <= k < j ==> Owns(ms[k]) && EntryOf(ms[k]) == target[k]
      invariant forall k :: j < k < |ms| ==> Owns(ms[k]) && EntryOf(ms[k]) == entries[k]
    {
      assert target[j] == entries[j + 1] by { DroppedAt(entries, i); }
      DistinctFrom(ms, j);
      DistinctFrom(ms, j + 1);
      ms[j].MoveAssign(ms[j + 1], lib);
      j := j + 1;
    }
    assert j == |ms| - 1;
  }

  lemma AllOwnAt(ms: seq<Module>)
    requires AllOwn(ms)
    ensures Distinct(ms) && forall i :: 0 <= i < |ms| ==> Owns(ms[i]) && EntriesOf(ms)[i] == EntryOf(ms[i])
  {
  }

  /** Whatever is distinct and owns throughout is in order, however it came about. */
  lemma AllOwnFrom(ms: seq<Module>)
    requires Distinct(ms) && forall i :: 0 <= i < |ms| ==> Owns(ms[i])
    ensures AllOwn(ms)
  {
  }

  lemma DistinctParts(ms: seq<Module>, n: nat, m: Module)
    requires Distinct(ms) && n <= |ms|
    ensures Distinct(ms[..n])
    ensures m !in ms ==> Distinct(ms + [m])
  {
  }

  lemma NoneIsDistinct()
    ensures Distinct([])
  {
  }

  lemma DistinctFrom(ms: seq<Module>, j: nat)
    requires Distinct(ms) && j < |ms|
    ensures forall k :: 0 <= k < |ms| && k != j ==> ms[k] != ms[j]
  {
  }

  lemma SameEntries(ms: seq<Module>, es: seq<Entry>)
    requires |ms| == |es| && forall k :: 0 <= k < |ms| ==> EntryOf(ms[k]) == es[k]
    ensures EntriesOf(ms) == es
  {
    hide EntryOf;
  }

  /** Every element is move-constructed into new storage. */
  method MoveAll(source: seq<Module>) returns (storage: seq<Module>)
    requires AllOwn(source)
    modifies source
    ensures AllOwn(storage) && EntriesOf(storage) == old(EntriesOf(source))
    ensures forall i :: 0 <= i < |storage| ==> fresh(storage[i])
    ensures forall i :: 0 <= i < |source| ==> MovedFrom(source[i])
  {
    hide EntriesOf, AllOwn, Distinct;
    storage := [];
    ghost var entries := EntriesOf(source);
    AllOwnAt(source);
    NoneIsDistinct();
    for i := 0 to |source|
      invariant |storage| == i && Distinct(storage)
      invariant forall j :: 0 <= j < i ==> fresh(storage[j]) && Owns(storage[j]) && EntryOf(storage[j]) == entries[j]
      invariant forall j :: 0 <= j < i ==> MovedFrom(source[j])
      invariant forall j :: i <= j < |source| ==> Owns(source[j]) && EntryOf(source[j]) == entries[j]
    {
      DistinctFrom(source, i);
      var m := new Module.Move(source[i]);
      DistinctParts(storage, 0, m);
      storage := storage + [m];
    }
    AllOwnFrom(storage);
    SameEntries(storage, entries);
  }

  /** Destroying what was moved from touches no library. */
  method DestroyMoved(ms: seq<Module>, lib: Library)
    requires forall i :: 0 <= i < |ms| ==> MovedFrom(ms[i])
    modifies ms, lib`log
    ensures lib.log == old(lib.log)
    ensures forall i :: 0 <= i < |ms| ==> MovedFrom(ms[i])
  {
    for i := 0 to |ms|
      invariant lib.log == old(lib.log)
      invariant forall j :: 0 <= j < |ms| ==> MovedFrom(ms[j])
    {
      ms[i].Release(lib);
    }
  }

  /** The last element is destroyed; the others keep what they own. */
  method DestroyLast(ms: seq<Module>, lib: Library)
    requires ms != [] && Distinct(ms)
    modifies ms[|ms| - 1], lib`log
    ensures forall k :: 0 <= k < |ms| - 1 ==> Owns(ms[k]) == old(Owns(ms[k])) && EntryOf(ms[k]) == old(EntryOf(ms[k]))
    ensures var m := ms[|ms| - 1];
            lib.log == old(lib.log) + (if old(m.instance).Some? then [Destroyed(old(m.instance).value)] else [])
                                    + (if old(m.handleFree).Some? then [Closed(old(m.handleFree).value)] else [])
  {
    var last := |ms| - 1;
    assert forall k :: 0 <= k < last ==> ms[k] != ms[last];
    ms[last].Release(lib);
  }

  class ModuleManager {
    const lib: Library
    var loaded: seq<Module>
    var stateStore: seq<bytes>

    constructor (lib: Library, store: seq<bytes>)
      ensures this.lib == lib && loaded == [] && stateStore == store
    {
      this.lib, loaded, stateStore := lib, [], store;
    }

    function State(): Manager
      reads this, lib, loaded
    {
      Manager(EntriesOf(loaded), stateStore, lib.log, lib.next)
    }

    predicate Valid()
      reads this, loaded
    {
      AllOwn(loaded)
    }

    method IndexOf(name: bytes) returns (i: nat)
      ensures i == Find(EntriesOf(loaded), name)
    {
      i := 0;
      while i < |loaded| && loaded[i].name != name
        invariant 0 <= i <= |loaded|
        invariant forall j :: 0 <= j < i ==> loaded[j].name != name
      {
        i := i + 1;
      }
    }

    /** The vector moves to new storage: every element is move-constructed there and its source destroyed. */
    method Grow()
      requires Valid()
      modifies this`loaded, loaded, lib`log
      ensures Valid() && EntriesOf(loaded) == old(EntriesOf(loaded)) && lib.log == old(lib.log)
      ensures forall i :: 0 <= i < |loaded| ==> fresh(loaded[i])
    {
      hide EntriesOf, AllOwn;
      var storage := MoveAll(loaded);
      DestroyMoved(loaded, lib);
      loaded := storage;
    }

    /** push_back by move; whether the storage grows is the vector's affair. */
    method PushBack(m: Module)
      requires Valid() && Owns(m) && m !in loaded
      modifies this`loaded, loaded, m, lib`log
      ensures Valid() && EntriesOf(loaded) == old(EntriesOf(loaded)) + [old(EntryOf(m))]
      ensures MovedFrom(m) && lib.log == old(lib.log)
      ensures forall x :: x in loaded ==> x in old(loaded) || fresh(x)
    {
      hide EntriesOf, AllOwn, Distinct;
      if * {
        Grow();
      }
      assert m !in loaded;
      ghost var entries := EntriesOf(loaded);
      AllOwnAt(loaded);
      var slot := new Module.Move(m);
      DistinctParts(loaded, 0, slot);
      loaded := loaded + [slot];
      AllOwnFrom(loaded);
      SameEntries(loaded, entries + [EntryOf(slot)]);
    }

    /** The loader runs, and the module it returns is moved to the end of the vector. */
    method Append(name: bytes, o: Outcome) returns (ok: bool)
      requires Valid()
      modifies this`loaded, loaded, lib
      ensures Valid() && State() == Attempted(old(State()), name, o)
      ensures ok <==> o.Loads?
      ensures forall x :: x in loaded ==> x in old(loaded) || fresh(x)
    {
      hide EntriesOf, AllOwn;
      var m := LoadLibrary(lib, name, o);
      if m == null { return false; }
      PushBack(m);
      m.Release(lib);
      ok := true;
    }

    method Load(name: bytes, o: Outcome) returns (ok: bool)
      requires Valid()
      modifies this, loaded, lib
      ensures Valid() && State() == Loaded(old(State()), name, o)
      ensures ok <==> !IsLoaded(old(State()), name) && o.Loads?
      ensures forall x :: x in loaded ==> x in old(loaded) || fresh(x)
    {
      hide EntriesOf, Find, AllOwn;
      var i := IndexOf(name);
      if i < |loaded| { return false; }
      ok := Append(name, o);
      if ok && name !in stateStore {
        stateStore := stateStore + [name];
      }
    }

    method LoadFromState(answer: bytes -> Outcome)
      requires Valid()
      modifies this, loaded, lib
      ensures Valid() && State() == Restored(old(State()), old(stateStore), answer)
    {
      hide EntriesOf, Find, AllOwn, Attempted;
      ghost var target := Restored(State(), stateStore, answer);
      var names := stateStore;
      for k := 0 to |names|
        invariant Valid() && (forall x: object :: x in loaded ==> x in old(loaded) || fresh(x))
        invariant Restored(State(), names[k..], answer) == target
      {
        assert names[k..][1..] == names[k + 1..];
        var i := IndexOf(names[k]);
        if i == |loaded| {
          assert forall j :: 0 <= j < |loaded| ==> loaded[j] in loaded;
          var ok := Append(names[k], answer(names[k]));
        }
      }
    }

    /** erase: the tail is shifted down and the last element destroyed. */
    method Erase(i: nat)
      requires Valid() && i < |loaded|
      modifies this`loaded, loaded, lib`log
      ensures Valid()
      ensures EntriesOf(loaded) == Dropped(old(EntriesOf(loaded)), i)
      ensures var h := old(EntriesOf(loaded))[i].handle; lib.log == old(lib.log) + [Destroyed(h), Closed(h)]
      ensures forall x :: x in loaded ==> x in old(loaded)
    {
      hide EntriesOf, Dropped, AllOwn, Distinct;
      var storage := loaded;
      AllOwnAt(storage);
      ghost var entries := EntriesOf(storage);
      assert entries[i] == EntryOf(storage[i]);
      DroppedAt(entries, i);
      ShiftDown(storage, i, lib);
      var last := |storage| - 1;
      DestroyLast(storage, lib);
      DistinctParts(storage, last, storage[last]);
      loaded := storage[..last];
      AllOwnFrom(loaded);
      SameEntries(loaded, Dropped(entries, i));
    }

    method Unload(name: bytes) returns (ok: bool)
      requires Valid()
      modifies this, loaded, lib
      ensures Valid() && State() == Unloaded(old(State()), name)
      ensures ok == IsLoaded(old(State()), name)
    {
      hide EntriesOf, Find, Removed;
      var i := IndexOf(name);
      if i == |loaded| { return false; }
      assert EntriesOf(loaded)[i] == EntryOf(loaded[i]);
      Erase(i);
      stateStore := Removed(stateStore, name);
      ok := true;
    }

    /** The destructor. */
    method Destroy()
      requires Valid()
      modifies this, loaded, lib
      ensures loaded == [] && lib.log == TornDown(old(State())).log
    {
      ghost var target := TornDown(State());
      ghost var entries := EntriesOf(loaded);
      for i := 0 to |loaded|
        invariant loaded == old(loaded)
        invariant forall k :: i <= k < |loaded| ==> Owns(loaded[k]) && EntryOf(loaded[k]) == entries[k]
        invariant TornDown(Manager(entries[i..], stateStore, lib.log, lib.next)) == target
      {
        assert entries[i..][1..] == entries[i + 1..];
        ghost var h := entries[i].handle;
        ghost var log := lib.log;
        loaded[i].Release(lib);
        assert lib.log == log + [Destroyed(h), Closed(h)];
      }
      loaded := [];
    }
  }
}
