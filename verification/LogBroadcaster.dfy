/** The log ring buffer, its backfill and the live stream (LogBroadcaster.cpp), under every interleaving. */
module LogBroadcaster {
  import opened Bits
  import opened Encoding
  import opened WsFrames
  import opened WsServer

  const BUFFER_MAX: nat := 500
  const BACKFILL_COUNT: nat := 100

  datatype LogEntry = LogEntry(level: bytes, source: bytes, message: bytes, timestamp: bytes)

  // -------------------------------------------------------------- entry to JSON

  /** `entryToJson`, the dump of the entry's JSON record: it throws on a string that is not UTF-8. */
  type ToJson = LogEntry -> Option<WireText>

  predicate WellFormed(e: LogEntry) {
    Utf8(e.level) && Utf8(e.source) && Utf8(e.message) && Utf8(e.timestamp)
  }

  ghost predicate ThrowsOnNonUtf8(toJson: ToJson) {
    forall e :: toJson(e).Some? <==> WellFormed(e)
  }

  /** As every result of `nowIso` is. */
  predicate IsAscii(s: bytes) {
    forall i :: 0 <= i < |s| ==> s[i] < 0x80
  }

  /** An entry becomes JSON if and only if its level, source and message are UTF-8. */
  lemma DumpsIffUtf8(toJson: ToJson, e: LogEntry)
    requires ThrowsOnNonUtf8(toJson) && IsAscii(e.timestamp)
    ensures toJson(e).Some? <==> Utf8(e.level) && Utf8(e.source) && Utf8(e.message)
  {
    assert toJson(e).Some? <==> WellFormed(e);
    AsciiIsUtf8(e.timestamp);
    hide Utf8;
  }

  /** The one-byte message 0xFF does not, whatever else the entry says. */
  lemma LoneByteThrows(toJson: ToJson, level: bytes, source: bytes, timestamp: bytes)
    requires ThrowsOnNonUtf8(toJson)
    ensures toJson(LogEntry(level, source, [0xFF], timestamp)).None?
  {
    ForbiddenByte([0xFF], 0);
    hide Utf8;
    assert !WellFormed(LogEntry(level, source, [0xFF], timestamp));
  }

  ghost predicate AllDump(toJson: ToJson, entries: seq<LogEntry>) {
    forall i :: 0 <= i < |entries| ==> toJson(entries[i]).Some?
  }

  // ---------------------------------------------------------------- the buffer

  function LastOf(s: seq<LogEntry>, n: nat): seq<LogEntry> {
    if |s| <= n then s else s[|s| - n..]
  }

  function Pushed(buffer: seq<LogEntry>, e: LogEntry): seq<LogEntry> {
    (if |buffer| >= BUFFER_MAX then buffer[1..] else buffer) + [e]
  }

  /** The ring buffer holds the last 500 entries of the history. */
  lemma PushKeepsLast(history: seq<LogEntry>, e: LogEntry)
    ensures Pushed(LastOf(history, 500), e) == LastOf(history + [e], 500)
  {
  }

  // ------------------------------------------------------------- state machine

  /** A call of `log`: stored, then writing to the clients it `found` in the table, of which `todo` are left. */
  datatype Stage = Stored | Writing(found: set<int>, todo: set<int>)

  /** A client's backfill: the number of entries logged at its snapshot, the snapshot, and how much is sent. */
  datatype Backfill = Backfill(count: nat, snapshot: seq<LogEntry>, sent: nat)

  datatype Sys = Sys(
    history: seq<LogEntry>,         // every entry stored
    buffer: seq<LogEntry>,
    stages: seq<Stage>,             // the call that stored the entry at each position
    clients: set<int>,
    nextId: int,
    broken: set<int>,               // clients a write to which came short
    fills: map<int, Backfill>,
    got: map<int, seq<nat>>,        // the positions of the entries written whole to each client, in order
    live: multiset<(int, nat)>,     // (client, position) pairs among them written by the live stream
    filled: multiset<(int, nat)>)   // and by a backfill

  const START := Sys([], [], [], {}, 0, {}, map[], map[], multiset{}, multiset{})

  function Got(s: Sys, c: int): seq<nat> {
    if c in s.got then s.got[c] else []
  }

  /** How often the pair stands in the record. */
  function At(record: multiset<(int, nat)>, c: int, i: nat): nat {
    record[(c, i)]
  }

  /** How often `i` stands among the positions. */
  function Count(at: seq<nat>, i: nat): nat {
    if at == [] then 0 else Count(at[..|at| - 1], i) + if at[|at| - 1] == i then 1 else 0
  }

  lemma {:induction false} CountIs(at: seq<nat>, i: nat)
    ensures Count(at, i) == multiset(at)[i]
  {
    if at == [] {
    } else {
      CountIs(at[..|at| - 1], i);
      assert at == at[..|at| - 1] + [at[|at| - 1]];
    }
  }

  function First(count: nat): nat {
    if count <= 100 then 0 else count - 100
  }

  /** The entry at position `i` is written to client `c`: whole, or the client's stream breaks off. */
  function Taken(s: Sys, c: int, i: nat, whole: bool): Sys {
    if whole then s.(got := s.got[c := Got(s, c) + [i]]) else s.(broken := s.broken + {c})
  }

  function StoreNext(s: Sys, e: LogEntry): Sys {
    s.(history := s.history + [e], buffer := Pushed(s.buffer, e), stages := s.stages + [Stored])
  }

  /** broadcast copies the client table. */
  predicate CopyStep(s: Sys, t: Sys, i: nat) {
    i < |s.stages| && s.stages[i].Stored? && t == s.(stages := s.stages[i := Writing(s.clients, s.clients)])
  }

  predicate CanWrite(s: Sys, i: nat, c: int) {
    i < |s.stages| && s.stages[i].Writing? && c in s.stages[i].todo
  }

  /** It writes the entry to one of the clients copied. */
  function WriteNext(s: Sys, i: nat, c: int, whole: bool): Sys
    requires CanWrite(s, i, c)
  {
    Taken(s, c, i, whole).(stages := s.stages[i := Writing(s.stages[i].found, s.stages[i].todo - {c})],
                           live := if whole then s.live + multiset{(c, i)} else s.live)
  }

  predicate ConnectStep(s: Sys, t: Sys) {
    t == s.(clients := s.clients + {s.nextId}, nextId := s.nextId + 1)
  }

  predicate DisconnectStep(s: Sys, t: Sys, c: int) {
    t == s.(clients := s.clients - {c})
  }

  /** Another write to the client comes short, a pong's. */
  predicate BreakStep(s: Sys, t: Sys, c: int) {
    c < s.nextId && t == s.(broken := s.broken + {c})
  }

  /** onClientConnect takes its snapshot; it runs once per client. */
  predicate SnapshotStep(s: Sys, t: Sys, c: int) {
    && 0 <= c < s.nextId && c !in s.fills
    && t == s.(fills := s.fills[c := Backfill(|s.history|, LastOf(s.buffer, BACKFILL_COUNT), 0)])
  }

  predicate CanFill(s: Sys, c: int) {
    c in s.fills && s.fills[c].sent < |s.fills[c].snapshot|
  }

  /** It sends the next entry of the snapshot; `send` drops it when the client has left the table. */
  function FillNext(s: Sys, c: int, whole: bool): Sys
    requires CanFill(s, c)
  {
    var b := s.fills[c];
    var fills := s.fills[c := b.(sent := b.sent + 1)];
    var i := First(b.count) + b.sent;
    if c in s.clients then
      Taken(s, c, i, whole).(fills := fills, filled := if whole then s.filled + multiset{(c, i)} else s.filled)
    else s.(fills := fills)
  }

  predicate StoreStep(s: Sys, t: Sys, e: LogEntry) {
    t == StoreNext(s, e)
  }

  predicate WriteStep(s: Sys, t: Sys, i: nat, c: int, whole: bool) {
    CanWrite(s, i, c) && t == WriteNext(s, i, c, whole)
  }

  predicate FillStep(s: Sys, t: Sys, c: int, whole: bool) {
    CanFill(s, c) && t == FillNext(s, c, whole)
  }

  ghost predicate Next(s: Sys, t: Sys) {
    || (exists e :: StoreStep(s, t, e))
    || (exists i :: CopyStep(s, t, i))
    || (exists i, c, whole :: WriteStep(s, t, i, c, whole))
    || ConnectStep(s, t)
    || (exists c :: DisconnectStep(s, t, c))
    || (exists c :: BreakStep(s, t, c))
    || (exists c :: SnapshotStep(s, t, c))
    || (exists c, whole :: FillStep(s, t, c, whole))
  }

  ghost predicate IsRun(run: seq<Sys>) {
    run != [] && run[0] == START && forall i :: 0 <= i < |run| - 1 ==> Next(run[i], run[i + 1])
  }

  function Last(run: seq<Sys>): Sys
    requires run != []
  {
    run[|run| - 1]
  }

  // ---------------------------------------------------------------- invariant

  /**
   * The live stream and client `c`: nothing twice; everything to those found, as far as the call has come and
   * their writes went through; and those with a snapshot taken before the entry was stored are found.
   */
  ghost predicate LiveInv(s: Sys, i: nat, c: int)
    requires i < |s.stages|
  {
    var stage := s.stages[i];
    && At(s.live, c, i) <= 1
    && (stage.Stored? || c in stage.todo || c !in stage.found ==> At(s.live, c, i) == 0)
    && (stage.Writing? && c in stage.todo ==> c in stage.found && c < s.nextId)
    && (stage.Writing? && c in stage.found && c !in stage.todo && c !in s.broken ==> At(s.live, c, i) == 1)
    && (stage.Writing? && c in s.clients && c in s.fills && i >= s.fills[c].count ==> c in stage.found)
  }

  ghost predicate FillInv(s: Sys, c: int)
    requires c in s.fills
  {
    var b := s.fills[c];
    && c < s.nextId && b.count <= |s.history| && b.sent <= |b.snapshot|
    && b.snapshot == s.history[First(b.count)..b.count]
    && (forall i: nat :: At(s.filled, c, i) <= if First(b.count) <= i < First(b.count) + b.sent then 1 else 0)
    && (c in s.clients && c !in s.broken ==>
          forall i: nat :: First(b.count) <= i < First(b.count) + b.sent ==> At(s.filled, c, i) == 1)
  }

  ghost predicate GotInv(s: Sys, c: int) {
    && (forall i: nat :: Count(Got(s, c), i) == At(s.live, c, i) + At(s.filled, c, i))
    && InRange(Got(s, c), |s.history|)
  }

  predicate InRange(at: seq<nat>, n: nat) {
    forall k :: 0 <= k < |at| ==> at[k] < n
  }

  ghost predicate Shape(s: Sys) {
    && |s.stages| == |s.history|
    && s.buffer == LastOf(s.history, BUFFER_MAX)
    && forall c :: c in s.clients ==> c < s.nextId
  }

  ghost predicate LiveAll(s: Sys) {
    && (forall i: nat, c :: i < |s.stages| ==> LiveInv(s, i, c))
    && forall i: nat, c :: i >= |s.stages| ==> At(s.live, c, i) == 0
  }

  ghost predicate FillAll(s: Sys) {
    && (forall c :: c in s.fills ==> FillInv(s, c))
    && forall c, i: nat :: c !in s.fills ==> At(s.filled, c, i) == 0
  }

  ghost predicate GotAll(s: Sys) {
    forall c :: GotInv(s, c)
  }

  /** The positions from `a` up to `b`. */
  function Range(a: nat, b: nat): seq<nat> {
    if a <= b then seq(b - a, k requires 0 <= k < b - a => a + k) else []
  }

  /** What the backfill has sent so far stands in order among what the client got. */
  ghost predicate OrderInv(s: Sys, c: int)
    requires c in s.fills
  {
    var b := s.fills[c];
    c in s.clients && c !in s.broken ==> Woven(Range(First(b.count), First(b.count) + b.sent), Got(s, c))
  }

  ghost predicate OrderAll(s: Sys) {
    forall c :: c in s.fills ==> OrderInv(s, c)
  }

  ghost predicate Inv(s: Sys) {
    Shape(s) && LiveAll(s) && FillAll(s) && GotAll(s) && OrderAll(s)
  }

  lemma OrderUnchanged(s: Sys, t: Sys)
    requires OrderAll(s) && t.got == s.got && t.fills == s.fills && s.broken <= t.broken
    requires forall c :: c in t.clients && c in t.fills ==> c in s.clients
    ensures OrderAll(t)
  {
    hide Woven, Range;
    forall c | c in t.fills
      ensures OrderInv(t, c)
    {
      assert OrderInv(s, c);
    }
  }

  lemma TakenKeepsOrder(s: Sys, t: Sys, c: int, i: nat, whole: bool)
    requires OrderAll(s) && t.fills == s.fills && t.clients == s.clients
    requires t.got == Taken(s, c, i, whole).got && t.broken == Taken(s, c, i, whole).broken
    ensures OrderAll(t)
  {
    forall d | d in t.fills
      ensures OrderInv(t, d)
    {
      assert OrderInv(s, d);
      hide Woven, Range;
      if whole && d == c && d in s.clients && d !in s.broken {
        var b := s.fills[d];
        WovenMore(Range(First(b.count), First(b.count) + b.sent), Got(s, d), [i]);
      }
    }
  }

  lemma RangeSnoc(a: nat, b: nat)
    requires a <= b
    ensures Range(a, b + 1) == Range(a, b) + [b]
  {
  }

  lemma FillGot(s: Sys, t: Sys, c: int, whole: bool, d: int)
    requires FillStep(s, t, c, whole) && d in s.fills
    ensures var i := First(s.fills[c].count) + s.fills[c].sent;
            && d in t.fills && t.clients == s.clients
            && t.fills[d] == (if d == c then s.fills[d].(sent := s.fills[d].sent + 1) else s.fills[d])
            && t.broken == (if c in s.clients && !whole then s.broken + {c} else s.broken)
            && Got(t, d) == if whole && c in s.clients && d == c then Got(s, d) + [i] else Got(s, d)
  {
  }

  lemma FillKeepsOrderAt(s: Sys, t: Sys, c: int, whole: bool, d: int)
    requires FillStep(s, t, c, whole) && d in s.fills && OrderInv(s, d)
    ensures d in t.fills && OrderInv(t, d)
  {
    hide FillStep, Woven, Range, Got, First;
    FillGot(s, t, c, whole, d);
    if d == c && c in t.clients && c !in t.broken {
      var a, n := First(s.fills[c].count), s.fills[c].sent;
      RangeSnoc(a, a + n);
      WovenSnoc(Range(a, a + n), Got(s, c), a + n);
    }
  }

  lemma FillKeepsOrder(s: Sys, t: Sys, c: int, whole: bool)
    requires OrderAll(s) && FillStep(s, t, c, whole)
    ensures OrderAll(t)
  {
    assert t.fills.Keys == s.fills.Keys;
    hide FillStep, OrderInv;
    forall d | d in t.fills
      ensures OrderInv(t, d)
    {
      FillKeepsOrderAt(s, t, c, whole, d);
    }
  }

  lemma SnapshotKeepsOrder(s: Sys, t: Sys, c: int)
    requires OrderAll(s) && SnapshotStep(s, t, c)
    ensures OrderAll(t)
  {
    hide LastOf;
    forall d | d in t.fills
      ensures OrderInv(t, d)
    {
      if d != c {
        assert OrderInv(s, d);
        hide Woven, Range;
      } else {
        assert Range(First(|s.history|), First(|s.history|) + 0) == [];
      }
    }
  }

  lemma SnapshotIsHistory(history: seq<LogEntry>)
    ensures LastOf(LastOf(history, BUFFER_MAX), BACKFILL_COUNT) == history[First(|history|)..|history|]
  {
  }

  /** What the other parts of the invariant do not look at. */
  lemma GotUnchanged(s: Sys, t: Sys)
    requires GotAll(s) && t.got == s.got && t.live == s.live && t.filled == s.filled && s.history <= t.history
    ensures GotAll(t)
  {
    forall c
      ensures GotInv(t, c)
    {
      assert GotInv(s, c) && Got(t, c) == Got(s, c);
      hide Count;
    }
  }

  lemma LiveUnchanged(s: Sys, t: Sys)
    requires LiveAll(s) && t.live == s.live && t.stages == s.stages && s.nextId <= t.nextId && s.broken <= t.broken
    requires forall c :: c in t.clients && c in t.fills ==>
               || (c in s.clients && c in s.fills && t.fills[c].count == s.fills[c].count)
               || t.fills[c].count >= |t.stages|
    ensures LiveAll(t)
  {
    forall i: nat, c | i < |t.stages|
      ensures LiveInv(t, i, c)
    {
      assert LiveInv(s, i, c);
    }
  }

  lemma FillUnchanged(s: Sys, t: Sys)
    requires FillAll(s) && t.filled == s.filled && t.fills == s.fills && s.nextId <= t.nextId && s.broken <= t.broken
    requires s.history <= t.history && forall c :: c in t.clients && c in t.fills ==> c in s.clients
    ensures FillAll(t)
  {
    forall c | c in t.fills
      ensures FillInv(t, c)
    {
      assert FillInv(s, c);
      var b := s.fills[c];
      assert t.history[First(b.count)..b.count] == s.history[First(b.count)..b.count];
    }
  }

  lemma StoreKeepsInv(s: Sys, t: Sys, e: LogEntry)
    requires Inv(s) && StoreStep(s, t, e)
    ensures Inv(t)
  {
    PushKeepsLast(s.history, e);
    GotUnchanged(s, t);
    FillUnchanged(s, t);
    OrderUnchanged(s, t);
    hide FillAll, GotAll, OrderAll, LastOf, Pushed;
    forall i: nat, c | i < |t.stages|
      ensures LiveInv(t, i, c)
    {
      if i < |s.stages| { assert LiveInv(s, i, c); }
    }
  }

  lemma CopyKeepsInv(s: Sys, t: Sys, i: nat)
    requires Inv(s) && CopyStep(s, t, i)
    ensures Inv(t)
  {
    GotUnchanged(s, t);
    FillUnchanged(s, t);
    OrderUnchanged(s, t);
    hide FillAll, GotAll, OrderAll, LastOf;
    forall j: nat, c | j < |t.stages|
      ensures LiveInv(t, j, c)
    {
      assert LiveInv(s, j, c);
    }
  }

  lemma GotOfTaken(s: Sys, t: Sys, c: int, i: nat, whole: bool, d: int)
    requires t.got == Taken(s, c, i, whole).got
    ensures Got(t, d) == if whole && d == c then Got(s, d) + [i] else Got(s, d)
  {
  }

  lemma CountSnoc(at: seq<nat>, i: nat, j: nat)
    ensures Count(at + [i], j) == Count(at, j) + if i == j then 1 else 0
  {
    assert (at + [i])[..|at|] == at;
  }

  lemma InRangeSnoc(at: seq<nat>, i: nat, n: nat)
    requires InRange(at, n) && i < n
    ensures InRange(at + [i], n)
  {
  }

  lemma TakenKeepsGotAt(s: Sys, t: Sys, c: int, i: nat, whole: bool, d: int)
    requires GotInv(s, d) && i < |s.history| && t.history == s.history && t.got == Taken(s, c, i, whole).got
    requires forall j: nat :: At(t.live, d, j) + At(t.filled, d, j)
                           == At(s.live, d, j) + At(s.filled, d, j) + if whole && d == c && j == i then 1 else 0
    ensures GotInv(t, d)
  {
    GotOfTaken(s, t, c, i, whole, d);
    InRangeSnoc(Got(s, d), i, |s.history|);
    hide Taken, Got, Count, At, InRange;
    forall j: nat
      ensures Count(Got(t, d), j) == At(t.live, d, j) + At(t.filled, d, j)
    {
      CountSnoc(Got(s, d), i, j);
      assert Count(Got(s, d), j) == At(s.live, d, j) + At(s.filled, d, j);
    }
  }

  lemma TakenKeepsGot(s: Sys, t: Sys, c: int, i: nat, whole: bool)
    requires GotAll(s) && i < |s.history| && t.history == s.history && t.got == Taken(s, c, i, whole).got
    requires forall d, j: nat :: At(t.live, d, j) + At(t.filled, d, j)
                              == At(s.live, d, j) + At(s.filled, d, j) + if whole && d == c && j == i then 1 else 0
    ensures GotAll(t)
  {
    hide Taken;
    forall d
      ensures GotInv(t, d)
    {
      assert GotInv(s, d);
      TakenKeepsGotAt(s, t, c, i, whole, d);
    }
  }

  lemma OneMore(m: multiset<(int, nat)>, c: int, i: nat, d: int, j: nat)
    ensures At(m + multiset{(c, i)}, d, j) == At(m, d, j) + if d == c && j == i then 1 else 0
  {
  }

  lemma WriteKeepsLive(s: Sys, t: Sys, i: nat, c: int, whole: bool)
    requires LiveAll(s) && WriteStep(s, t, i, c, whole)
    ensures LiveAll(t)
  {
    forall j: nat, d
      ensures At(t.live, d, j) == At(s.live, d, j) + if whole && d == c && j == i then 1 else 0
    {
      OneMore(s.live, c, i, d, j);
    }
    forall j: nat, d | j < |t.stages|
      ensures LiveInv(t, j, d)
    {
      assert LiveInv(s, j, d);
    }
  }

  lemma WriteKeepsInv(s: Sys, t: Sys, i: nat, c: int, whole: bool)
    requires Inv(s) && WriteStep(s, t, i, c, whole)
    ensures Inv(t)
  {
    WriteKeepsLive(s, t, i, c, whole);
    hide LiveAll;
    forall j: nat, d
      ensures At(t.live, d, j) + At(t.filled, d, j)
           == At(s.live, d, j) + At(s.filled, d, j) + if whole && d == c && j == i then 1 else 0
    {
      OneMore(s.live, c, i, d, j);
    }
    TakenKeepsGot(s, t, c, i, whole);
    TakenKeepsOrder(s, t, c, i, whole);
    FillUnchanged(s, t);
    hide FillAll, GotAll, OrderAll;
  }

  lemma TableKeepsInv(s: Sys, t: Sys, c: int)
    requires Inv(s) && (ConnectStep(s, t) || DisconnectStep(s, t, c) || BreakStep(s, t, c))
    ensures Inv(t)
  {
    forall d | d in s.fills
      ensures d < s.nextId
    {
      assert FillInv(s, d);
    }
    GotUnchanged(s, t);
    LiveUnchanged(s, t);
    FillUnchanged(s, t);
    OrderUnchanged(s, t);
    hide GotAll, LiveAll, FillAll, OrderAll, LastOf;
  }

  lemma SnapshotKeepsInv(s: Sys, t: Sys, c: int)
    requires Inv(s) && SnapshotStep(s, t, c)
    ensures Inv(t)
  {
    SnapshotIsHistory(s.history);
    GotUnchanged(s, t);
    LiveUnchanged(s, t);
    SnapshotKeepsOrder(s, t, c);
    hide GotAll, LiveAll, OrderAll, LastOf;
    forall d | d in t.fills
      ensures FillInv(t, d)
    {
      if d != c { assert FillInv(s, d); }
    }
  }

  lemma FillCounts(s: Sys, t: Sys, c: int, whole: bool, d: int, j: nat)
    requires FillStep(s, t, c, whole)
    ensures var i := First(s.fills[c].count) + s.fills[c].sent;
            At(t.filled, d, j) == At(s.filled, d, j) + if whole && c in s.clients && d == c && j == i then 1 else 0
  {
    OneMore(s.filled, c, First(s.fills[c].count) + s.fills[c].sent, d, j);
  }

  lemma FillKeepsFillAt(s: Sys, t: Sys, c: int, whole: bool, d: int)
    requires FillStep(s, t, c, whole) && d in s.fills && FillInv(s, d)
    ensures FillInv(t, d)
  {
    var i := First(s.fills[c].count) + s.fills[c].sent;
    forall j: nat
      ensures At(t.filled, d, j) == At(s.filled, d, j) + if whole && c in s.clients && d == c && j == i then 1 else 0
    {
      FillCounts(s, t, c, whole, d, j);
    }
  }

  lemma FillKeepsFill(s: Sys, t: Sys, c: int, whole: bool)
    requires FillAll(s) && FillStep(s, t, c, whole)
    ensures FillAll(t)
  {
    assert t.fills.Keys == s.fills.Keys;
    forall d | d in t.fills
      ensures FillInv(t, d)
    {
      FillKeepsFillAt(s, t, c, whole, d);
    }
    forall d, j: nat | d !in t.fills
      ensures At(t.filled, d, j) == 0
    {
      FillCounts(s, t, c, whole, d, j);
    }
    hide FillInv, FillStep;
  }

  lemma FillKeepsInv(s: Sys, t: Sys, c: int, whole: bool)
    requires Inv(s) && FillStep(s, t, c, whole)
    ensures Inv(t)
  {
    var b := s.fills[c];
    assert FillInv(s, c);
    FillKeepsFill(s, t, c, whole);
    FillKeepsOrder(s, t, c, whole);
    LiveUnchanged(s, t);
    hide LiveAll, FillAll, OrderAll;
    if c in s.clients {
      var i := First(b.count) + b.sent;
      forall d, j: nat
        ensures At(t.live, d, j) + At(t.filled, d, j)
             == At(s.live, d, j) + At(s.filled, d, j) + if whole && d == c && j == i then 1 else 0
      {
        OneMore(s.filled, c, i, d, j);
      }
      TakenKeepsGot(s, t, c, i, whole);
    } else {
      GotUnchanged(s, t);
    }
  }

  lemma NextKeepsInv(s: Sys, t: Sys)
    requires Inv(s) && Next(s, t)
    ensures Inv(t)
  {
    hide Inv, StoreStep, CopyStep, WriteStep, ConnectStep, DisconnectStep, BreakStep, SnapshotStep, FillStep;
    if e :| StoreStep(s, t, e) {
      StoreKeepsInv(s, t, e);
    } else if i :| CopyStep(s, t, i) {
      CopyKeepsInv(s, t, i);
    } else if i, c, whole :| WriteStep(s, t, i, c, whole) {
      WriteKeepsInv(s, t, i, c, whole);
    } else if ConnectStep(s, t) {
      TableKeepsInv(s, t, 0);
    } else if c :| DisconnectStep(s, t, c) || BreakStep(s, t, c) {
      TableKeepsInv(s, t, c);
    } else if c :| SnapshotStep(s, t, c) {
      SnapshotKeepsInv(s, t, c);
    } else if c, whole :| FillStep(s, t, c, whole) {
      FillKeepsInv(s, t, c, whole);
    }
  }

  lemma StartInv()
    ensures Inv(START)
  {
  }

  lemma {:induction false} RunKeepsInv(run: seq<Sys>)
    requires IsRun(run)
    ensures Inv(Last(run))
  {
    hide Inv, Next;
    if |run| == 1 {
      StartInv();
    } else {
      var front := run[..|run| - 1];
      RunKeepsInv(front);
      NextKeepsInv(Last(front), Last(run));
    }
  }

  // -------------------------------------------------------------- main results

  /** No log call is still writing to the client and its backfill is through. */
  predicate Settled(s: Sys, c: int) {
    && c in s.fills && s.fills[c].sent == |s.fills[c].snapshot|
    && forall i :: 0 <= i < |s.stages| ==> s.stages[i].Writing? && c !in s.stages[i].todo
  }

  /**
   * Whatever the interleaving of log calls, connects, backfills and short writes: nobody gets an entry more than
   * twice, and a client that is still connected and no write to which came short, with `count` entries logged at
   * its snapshot, has in the end got every entry from position max(0, count - 100) on, and those logged after the
   * snapshot exactly once.
   */
  lemma NoEntryMissed(run: seq<Sys>, c: int, i: nat)
    requires IsRun(run) && i < |Last(run).history|
    ensures var s := Last(run);
            && multiset(Got(s, c))[i] <= 2
            && (c in s.clients && c !in s.broken && Settled(s, c) ==>
                  && (i + 100 >= s.fills[c].count ==> 1 <= multiset(Got(s, c))[i])
                  && (i >= s.fills[c].count ==> multiset(Got(s, c))[i] == 1))
  {
    RunKeepsInv(run);
    var s := Last(run);
    CountIs(Got(s, c), i);
    assert LiveInv(s, i, c) && GotInv(s, c);
    if c in s.fills {
      assert FillInv(s, c);
    }
  }

  /** A log call that has returned wrote its entry live once to each client it found, and to nobody else. */
  lemma BroadcastOnce(run: seq<Sys>, c: int, i: nat)
    requires IsRun(run) && i < |Last(run).stages|
    requires Last(run).stages[i].Writing? && Last(run).stages[i].todo == {}
    ensures var s := Last(run);
            && (c !in s.stages[i].found ==> At(s.live, c, i) == 0)
            && (c in s.stages[i].found && c !in s.broken ==> At(s.live, c, i) == 1)
  {
    RunKeepsInv(run);
    assert LiveInv(Last(run), i, c);
  }

  /**
   * A backfill that is through sent the last min(n, 100) of the `n` entries logged at its snapshot, once each and in
   * order, to a client that is still connected and no write to which came short.
   */
  lemma BackfillInOrder(run: seq<Sys>, c: int)
    requires IsRun(run) && c in Last(run).fills && Last(run).fills[c].sent == |Last(run).fills[c].snapshot|
    requires c in Last(run).clients && c !in Last(run).broken
    ensures var s := Last(run);
            var b := s.fills[c];
            var first := if b.count <= 100 then 0 else b.count - 100;
            && b.count <= |s.history| && b.snapshot == s.history[first..b.count]
            && Woven(Range(first, b.count), Got(s, c))
            && forall i: nat :: At(s.filled, c, i) == if first <= i < b.count then 1 else 0
  {
    RunKeepsInv(run);
    assert FillInv(Last(run), c) && OrderInv(Last(run), c);
    hide Woven, Range;
  }

  /** The buffer is the last min(n, 500) entries of the history, in order. */
  lemma BufferIsTail(run: seq<Sys>)
    requires IsRun(run)
    ensures var s := Last(run);
            && |s.buffer| == (if |s.history| < 500 then |s.history| else 500)
            && s.buffer == s.history[|s.history| - |s.buffer|..]
  {
    RunKeepsInv(run);
  }

  // -------------------------------------------------------------------- class

  function Line(toJson: ToJson, history: seq<LogEntry>, i: nat): bytes {
    if i < |history| then toJson(history[i]).GetOr([]) else []
  }

  /** The texts of the entries at these positions. */
  function Lines(toJson: ToJson, history: seq<LogEntry>, at: seq<nat>): seq<bytes> {
    seq(|at|, k requires 0 <= k < |at| => Line(toJson, history, at[k]))
  }

  lemma LinesSnoc(toJson: ToJson, history: seq<LogEntry>, at: seq<nat>, i: nat)
    ensures Lines(toJson, history, at + [i]) == Lines(toJson, history, at) + [Line(toJson, history, i)]
  {
  }

  lemma LinesMore(toJson: ToJson, history: seq<LogEntry>, at: seq<nat>, e: LogEntry)
    requires forall k :: 0 <= k < |at| ==> at[k] < |history|
    ensures Lines(toJson, history + [e], at) == Lines(toJson, history, at)
  {
  }

  /** The server's table is the machine's, and every unbroken client was sent what the machine says it got. */
  ghost predicate Reflects(ws: WsServer, toJson: ToJson, s: Sys)
    reads ws
  {
    && ws.Valid() && ws.clients == s.clients && ws.nextId == s.nextId && ws.broken == s.broken
    && forall c :: c !in s.broken ==> ws.Sent(c) == Lines(toJson, s.history, Got(s, c))
  }

  /** What a thread in the midst of the log call `call`, or of the backfill of client `filling`, can rely on. */
  ghost predicate Calm(s: Sys, t: Sys, call: int, filling: int) {
    && s.history <= t.history && |s.stages| <= |t.stages| && s.nextId <= t.nextId && s.broken <= t.broken
    && (0 <= call < |s.stages| ==> t.stages[call] == s.stages[call])
    && (filling in t.fills <==> filling in s.fills) && (filling in s.fills ==> t.fills[filling] == s.fills[filling])
    && forall c :: c in t.clients ==> c in s.clients || c >= s.nextId
  }

  lemma CalmTransitive(s: Sys, t: Sys, u: Sys, call: int, filling: int)
    requires Calm(s, t, call, filling) && Calm(t, u, call, filling)
    ensures Calm(s, u, call, filling)
  {
  }

  lemma SameTable(ws: WsServer, toJson: ToJson, s: Sys, t: Sys)
    requires Reflects(ws, toJson, s) && t.clients == s.clients && t.nextId == s.nextId && t.broken == s.broken
    requires t.history == s.history && t.got == s.got
    ensures Reflects(ws, toJson, t)
  {
    hide Lines, WsServer.Valid, TextsOf;
  }

  /** The entry at position `i` goes to the socket of client `c`. */
  method WriteEntry(ws: WsServer, ghost toJson: ToJson, ghost s: Sys, c: int, ghost i: nat, frame: WireText)
    returns (whole: bool)
    requires Reflects(ws, toJson, s) && c < s.nextId && i < |s.history| && toJson(s.history[i]) == Some(frame)
    modifies ws
    ensures Reflects(ws, toJson, Taken(s, c, i, whole))
  {
    hide Lines, TextsOf, EncodeFrame, IsStream;
    var bs := BuildFrame(frame);
    assert Line(toJson, s.history, i) == frame && TextOf(TextFrame(frame)) == [frame];
    var k := ws.WriteTo(c, bs, TextFrame(frame));
    whole := k == |bs|;
    ghost var t := Taken(s, c, i, whole);
    hide Line, TextOf, TextFrame, FrameOf, WsServer.Valid;
    forall d | d !in t.broken
      ensures ws.Sent(d) == Lines(toJson, t.history, Got(t, d))
    {
      LinesSnoc(toJson, s.history, Got(s, d), i);
    }
  }

  /** The same through `send`, which drops it when the client has left the table. */
  method SendEntry(ws: WsServer, ghost toJson: ToJson, ghost s: Sys, c: int, ghost i: nat, frame: WireText)
    returns (whole: bool)
    requires Reflects(ws, toJson, s) && i < |s.history| && toJson(s.history[i]) == Some(frame)
    modifies ws
    ensures Reflects(ws, toJson, if c in s.clients then Taken(s, c, i, whole) else s)
  {
    hide Lines, TextsOf, EncodeFrame, IsStream;
    whole := ws.Send(c, frame);
    LinesSnoc(toJson, s.history, Got(s, c), i);
    assert Line(toJson, s.history, i) == frame;
  }

  /** What the invariant says of a client a write is about to go to. */
  lemma WriteIsKnown(run: seq<Sys>, i: nat, c: int)
    requires IsRun(run) && CanWrite(Last(run), i, c)
    ensures c < Last(run).nextId && i < |Last(run).history|
  {
    RunKeepsInv(run);
    assert LiveInv(Last(run), i, c);
  }

  lemma FillIsKnown(run: seq<Sys>, c: int)
    requires IsRun(run) && CanFill(Last(run), c)
    ensures var s := Last(run);
            var b := s.fills[c];
            && c < s.nextId && First(b.count) + b.sent < |s.history|
            && s.history[First(b.count) + b.sent] == b.snapshot[b.sent]
  {
    RunKeepsInv(run);
    assert FillInv(Last(run), c);
  }

  lemma GotIsKnown(run: seq<Sys>)
    requires IsRun(run)
    ensures var s := Last(run);
            forall c, k :: 0 <= k < |Got(s, c)| ==> Got(s, c)[k] < |s.history|
  {
    RunKeepsInv(run);
    var s := Last(run);
    forall c, k | 0 <= k < |Got(s, c)|
      ensures Got(s, c)[k] < |s.history|
    {
      assert GotInv(s, c);
    }
  }

  lemma FillFields(s: Sys, c: int, whole: bool)
    requires CanFill(s, c)
    ensures var t := FillNext(s, c, whole);
            var u := if c in s.clients then Taken(s, c, First(s.fills[c].count) + s.fills[c].sent, whole) else s;
            && FillStep(s, t, c, whole) && Next(s, t) && t.history == s.history && t.buffer == s.buffer
            && t.clients == u.clients && t.nextId == u.nextId && t.broken == u.broken && t.got == u.got
            && u.history == s.history
  {
    hide LastOf, Pushed, Got;
    assert FillStep(s, FillNext(s, c, whole), c, whole);
    hide StoreStep, CopyStep, WriteStep, ConnectStep, DisconnectStep, BreakStep, SnapshotStep, FillStep;
  }

  lemma KnownTable(ws: WsServer, toJson: ToJson, s: Sys)
    requires Reflects(ws, toJson, s)
    ensures ws.clients == s.clients && ws.nextId == s.nextId && ws.broken == s.broken
  {
  }

  lemma FillReflects(ws: WsServer, toJson: ToJson, s: Sys, c: int, whole: bool)
    requires CanFill(s, c)
    requires Reflects(ws, toJson,
                      if c in s.clients then Taken(s, c, First(s.fills[c].count) + s.fills[c].sent, whole) else s)
    ensures Reflects(ws, toJson, FillNext(s, c, whole))
  {
    hide Reflects;
    FillFields(s, c, whole);
    SameTable(ws, toJson, if c in s.clients then Taken(s, c, First(s.fills[c].count) + s.fills[c].sent, whole) else s,
              FillNext(s, c, whole));
  }

  /** The buffer, and so every snapshot, holds entries of the history only. */
  lemma BufferDumps(run: seq<Sys>, toJson: ToJson)
    requires IsRun(run) && AllDump(toJson, Last(run).history)
    ensures AllDump(toJson, Last(run).buffer) && AllDump(toJson, LastOf(Last(run).buffer, BACKFILL_COUNT))
  {
    RunKeepsInv(run);
  }

  lemma StoreReflects(ws: WsServer, toJson: ToJson, s: Sys, e: LogEntry)
    requires Reflects(ws, toJson, s)
    requires forall c, k :: 0 <= k < |Got(s, c)| ==> Got(s, c)[k] < |s.history|
    ensures Reflects(ws, toJson, StoreNext(s, e))
  {
    hide Lines, WsServer.Valid, TextsOf, Pushed;
    forall c | c !in s.broken
      ensures ws.Sent(c) == Lines(toJson, s.history + [e], Got(s, c))
    {
      LinesMore(toJson, s.history, Got(s, c), e);
    }
  }

  /** A client that is still connected and no write to which came short reads exactly the entries it got. */
  lemma ClientReads(b: LogBroadcaster, c: int, i: nat)
    requires b.Valid() && c in b.ws.Up() && Settled(Last(b.run), c) && i < |Last(b.run).history|
    ensures var s := Last(b.run);
            && Texts(b.ws.Received(c)) == Lines(b.entryToJson, s.history, Got(s, c))
            && (i + 100 >= s.fills[c].count ==> 1 <= multiset(Got(s, c))[i] <= 2)
            && (i >= s.fills[c].count ==> multiset(Got(s, c))[i] == 1)
  {
    var s := Last(b.run);
    assert c in s.clients && c !in s.broken;
    NoEntryMissed(b.run, c, i);
    ReadBack(b.ws, c);
    hide Lines, TextsOf, Texts, WsServer.Valid, Settled, IsRun;
  }

  lemma RunMore(run: seq<Sys>, t: Sys)
    requires IsRun(run) && Next(Last(run), t)
    ensures IsRun(run + [t])
  {
    hide Next;
  }

  /** The next write of a backfill, on the server and on the machine. */
  method FillWrite(ws: WsServer, ghost toJson: ToJson, s: Sys, c: int, frame: WireText) returns (t: Sys, whole: bool)
    requires Reflects(ws, toJson, s) && CanFill(s, c)
    requires var b := s.fills[c];
             First(b.count) + b.sent < |s.history| && toJson(s.history[First(b.count) + b.sent]) == Some(frame)
    modifies ws
    ensures FillStep(s, t, c, whole) && Next(s, t) && t.history == s.history && t.buffer == s.buffer
    ensures Reflects(ws, toJson, t)
  {
    hide Reflects, First, Next, FillStep, Taken, FillNext;
    whole := SendEntry(ws, toJson, s, c, First(s.fills[c].count) + s.fills[c].sent, frame);
    FillFields(s, c, whole);
    FillReflects(ws, toJson, s, c, whole);
    t := FillNext(s, c, whole);
  }

  lemma WriteFields(s: Sys, i: nat, c: int, whole: bool)
    requires CanWrite(s, i, c)
    ensures var t := WriteNext(s, i, c, whole);
            var u := Taken(s, c, i, whole);
            && WriteStep(s, t, i, c, whole) && Next(s, t) && t.history == s.history && t.buffer == s.buffer
            && t.clients == u.clients && t.nextId == u.nextId && t.broken == u.broken && t.got == u.got
            && u.history == s.history
  {
    hide LastOf, Pushed, Got;
    assert WriteStep(s, WriteNext(s, i, c, whole), i, c, whole);
    hide StoreStep, CopyStep, WriteStep, ConnectStep, DisconnectStep, BreakStep, SnapshotStep, FillStep;
  }

  /** The next write of a broadcast, on the server and on the machine. */
  method LiveWrite(ws: WsServer, ghost toJson: ToJson, s: Sys, i: nat, c: int, frame: WireText)
    returns (t: Sys, whole: bool)
    requires Reflects(ws, toJson, s) && CanWrite(s, i, c) && c < s.nextId
    requires i < |s.history| && toJson(s.history[i]) == Some(frame)
    modifies ws
    ensures WriteStep(s, t, i, c, whole) && Next(s, t) && t.history == s.history && t.buffer == s.buffer
    ensures Reflects(ws, toJson, t)
  {
    hide Reflects, Next, WriteStep, Taken, WriteNext;
    whole := WriteEntry(ws, toJson, s, c, i, frame);
    WriteFields(s, i, c, whole);
    t := WriteNext(s, i, c, whole);
    SameTable(ws, toJson, Taken(s, c, i, whole), t);
  }

  class LogBroadcaster {
    const ws: WsServer
    const entryToJson: ToJson
    var buffer: seq<LogEntry>
    /** The machine states so far; what the threads hold in their local variables is in the last one. */
    var run: seq<Sys>

    ghost predicate Valid()
      reads this, ws
    {
      && ThrowsOnNonUtf8(entryToJson) && run != [] && IsRun(run) && buffer == Last(run).buffer
      && AllDump(entryToJson, Last(run).history) && Reflects(ws, entryToJson, Last(run))
    }

    constructor (ws: WsServer, entryToJson: ToJson)
      requires ThrowsOnNonUtf8(entryToJson)
      requires ws.Valid() && ws.clients == {} && ws.nextId == 0 && ws.broken == {} && forall c :: ws.Sent(c) == []
      ensures this.ws == ws && this.entryToJson == entryToJson && Valid() && run == [START]
    {
      this.ws, this.entryToJson, buffer, run := ws, entryToJson, [], [START];
    }

    // ---------------------------------------------------------- one step each

    method Step(t: Sys)
      requires ThrowsOnNonUtf8(entryToJson) && run != [] && IsRun(run) && Next(Last(run), t)
      requires buffer == t.buffer && AllDump(entryToJson, t.history) && Reflects(ws, entryToJson, t)
      modifies this`run
      ensures Valid() && run == old(run) + [t]
    {
      hide ThrowsOnNonUtf8, Reflects, AllDump;
      RunMore(run, t);
      hide IsRun, Next;
      run := run + [t];
    }

    /** The lock section of log. */
    method Store(e: LogEntry)
      requires Valid() && entryToJson(e).Some?
      modifies this
      ensures Valid() && old(run) < run && StoreStep(Last(old(run)), Last(run), e)
    {
      var s := Last(run);
      if |buffer| >= BUFFER_MAX {
        buffer := buffer[1..];
      }
      buffer := buffer + [e];
      GotIsKnown(run);
      StoreReflects(ws, entryToJson, s, e);
      assert StoreStep(s, StoreNext(s, e), e);
      hide Reflects, ThrowsOnNonUtf8, IsRun, Got;
      Step(StoreNext(s, e));
    }

    /** broadcast copies the table under its lock. */
    method Copy(i: nat) returns (socks: set<int>)
      requires Valid() && i < |Last(run).stages| && Last(run).stages[i].Stored?
      modifies this`run
      ensures Valid() && socks == ws.clients && old(run) < run && CopyStep(Last(old(run)), Last(run), i)
    {
      socks := ws.clients;
      var s := Last(run);
      var t := s.(stages := s.stages[i := Writing(s.clients, s.clients)]);
      assert CopyStep(s, t, i);
      hide Reflects, ThrowsOnNonUtf8, AllDump, IsRun;
      SameTable(ws, entryToJson, s, t);
      Step(t);
    }

    /** broadcast writes the frame to one of the sockets copied. */
    method WriteOne(i: nat, c: int, frame: WireText) returns (whole: bool)
      requires Valid() && CanWrite(Last(run), i, c)
      requires i < |Last(run).history| && entryToJson(Last(run).history[i]) == Some(frame)
      modifies this`run, ws
      ensures Valid() && old(run) < run && WriteStep(Last(old(run)), Last(run), i, c, whole)
    {
      hide IsRun, ThrowsOnNonUtf8, AllDump, Reflects, WriteStep, Next;
      WriteIsKnown(run, i, c);
      KnownTable(ws, entryToJson, Last(run));
      var t;
      t, whole := LiveWrite(ws, entryToJson, Last(run), i, c, frame);
      Step(t);
    }

    method Connect()
      requires Valid()
      modifies this`run, ws
      ensures Valid() && old(run) < run && ConnectStep(Last(old(run)), Last(run))
    {
      hide Lines;
      var s := Last(run);
      var id := ws.Accept();
      var t := s.(clients := s.clients + {s.nextId}, nextId := s.nextId + 1);
      assert Reflects(ws, entryToJson, t);
      hide Reflects, ThrowsOnNonUtf8, AllDump, IsRun;
      Step(t);
    }

    method Disconnect(c: int)
      requires Valid()
      modifies this`run, ws
      ensures Valid() && old(run) < run && DisconnectStep(Last(old(run)), Last(run), c)
    {
      hide Lines;
      var s := Last(run);
      ws.Erase(c);
      var t := s.(clients := s.clients - {c});
      assert Reflects(ws, entryToJson, t);
      assert DisconnectStep(s, t, c);
      hide Reflects, ThrowsOnNonUtf8, AllDump, IsRun;
      Step(t);
    }

    /** A client thread answers a ping. */
    method Pong(c: int)
      requires Valid() && c < ws.nextId
      modifies this`run, ws
      ensures Valid() && old(run) <= run
      ensures Last(run) == Last(old(run)) || BreakStep(Last(old(run)), Last(run), c)
    {
      hide Lines, EncodeFrame, TextsOf, IsStream;
      PongIsFrame();
      var s := Last(run);
      var k := ws.WriteTo(c, PONG_FRAME, PONG);
      if k < |PONG_FRAME| {
        var t := s.(broken := s.broken + {c});
        assert Reflects(ws, entryToJson, t);
        assert BreakStep(s, t, c);
        hide Reflects, ThrowsOnNonUtf8, AllDump, IsRun;
        Step(t);
      }
    }

    /** The lock section of onClientConnect. */
    method Snapshot(c: int) returns (snapshot: seq<LogEntry>)
      requires Valid() && 0 <= c < ws.nextId && c !in Last(run).fills
      modifies this`run
      ensures Valid() && old(run) < run && SnapshotStep(Last(old(run)), Last(run), c)
      ensures snapshot == Last(run).fills[c].snapshot && AllDump(entryToJson, snapshot)
    {
      var start := if |buffer| > BACKFILL_COUNT then |buffer| - BACKFILL_COUNT else 0;
      snapshot := buffer[start..];
      assert snapshot == LastOf(buffer, BACKFILL_COUNT);
      BufferDumps(run, entryToJson);
      var s := Last(run);
      var t := s.(fills := s.fills[c := Backfill(|s.history|, snapshot, 0)]);
      assert SnapshotStep(s, t, c);
      hide Reflects, ThrowsOnNonUtf8, AllDump, LastOf, IsRun;
      SameTable(ws, entryToJson, s, t);
      Step(t);
    }

    /** onClientConnect sends the next entry of its snapshot. */
    method FillOne(c: int, frame: WireText) returns (whole: bool)
      requires Valid() && CanFill(Last(run), c)
      requires var b := Last(run).fills[c]; entryToJson(b.snapshot[b.sent]) == Some(frame)
      modifies this`run, ws
      ensures Valid() && old(run) < run && FillStep(Last(old(run)), Last(run), c, whole)
    {
      hide IsRun, ThrowsOnNonUtf8, AllDump, Reflects, FillStep, Next, First;
      FillIsKnown(run, c);
      var t;
      t, whole := FillWrite(ws, entryToJson, Last(run), c, frame);
      Step(t);
    }

    // --------------------------------------------------------- other threads

    /**
     * What other threads do between two steps of a thread in the midst of log call `call`, or of the backfill of
     * client `filling`: they log, broadcast, connect, disconnect, backfill and answer pings, one step at a time.
     */
    method Others(call: int, filling: int)
      requires Valid()
      modifies this, ws
      ensures Valid() && old(run) <= run && Calm(Last(old(run)), Last(run), call, filling)
    {
      var n: nat := *;
      while n > 0
        invariant Valid() && old(run) <= run && Calm(Last(old(run)), Last(run), call, filling)
      {
        hide Valid, Calm;
        var before := run;
        OtherStep(call, filling);
        CalmTransitive(Last(old(run)), Last(before), Last(run), call, filling);
        n := n - 1;
      }
    }

    method OtherStep(call: int, filling: int)
      requires Valid()
      modifies this, ws
      ensures Valid() && old(run) <= run && Calm(Last(old(run)), Last(run), call, filling)
    {
      hide IsRun, ThrowsOnNonUtf8, Reflects;
      var s := Last(run);
      var i: nat, c: int, e: LogEntry := *, *, *;
      if * {
        if entryToJson(e).Some? { Store(e); }
      } else if * {
        if i != call && i < |s.stages| && s.stages[i].Stored? {
          var socks := Copy(i);
        }
      } else if * {
        if i != call && CanWrite(s, i, c) && i < |s.history| {
          var frame := entryToJson(s.history[i]);
          if frame.Some? {
            var whole := WriteOne(i, c, frame.value);
          }
        }
      } else if * {
        if c != filling && 0 <= c < ws.nextId && c !in s.fills {
          var snapshot := Snapshot(c);
        }
      } else if * {
        if c != filling && CanFill(s, c) {
          var frame := entryToJson(s.fills[c].snapshot[s.fills[c].sent]);
          if frame.Some? {
            var whole := FillOne(c, frame.value);
          }
        }
      } else {
        Clients(c, call, filling);
      }
    }

    method Clients(c: int, ghost call: int, ghost filling: int)
      requires Valid()
      modifies this, ws
      ensures Valid() && old(run) <= run && Calm(Last(old(run)), Last(run), call, filling)
    {
      hide IsRun, ThrowsOnNonUtf8, Reflects;
      if * {
        Connect();
      } else if * {
        Disconnect(c);
      } else if c < ws.nextId {
        Pong(c);
      }
    }

    // ------------------------------------------------------------- the calls

    /**
     * A call of `log`; other threads have their turn before the table is copied and before every write. It is a
     * path of the machine: the entry is stored at position `i`, and in the end written to all clients `found` in the
     * table - or, if it does not become JSON, nothing happens at all.
     */
    method Log(level: bytes, source: bytes, message: bytes, timestamp: bytes)
      returns (threw: bool, ghost i: nat, ghost found: set<int>)
      requires Valid() && IsAscii(timestamp)
      modifies this, ws
      ensures Valid() && old(run) <= run
      ensures threw <==> !(Utf8(level) && Utf8(source) && Utf8(message))
      ensures threw ==> run == old(run) && buffer == old(buffer) && ws.received == old(ws.received)
      ensures !threw ==>
                && |Last(old(run)).history| <= i < |Last(run).history| == |Last(run).stages|
                && Last(run).history[i] == LogEntry(level, source, message, timestamp)
                && Last(run).stages[i] == Writing(found, {})
                && forall c :: c in old(ws.clients) && c in ws.clients ==> c in found
    {
      var entry := LogEntry(level, source, message, timestamp);
      DumpsIffUtf8(entryToJson, entry);
      var frame := entryToJson(entry);
      i, found := 0, {};
      if frame.None? { return true, i, found; }
      threw := false;
      i, found := Broadcast(entry, frame.value);
    }

    /** `broadcast`, opened up. */
    method Broadcast(entry: LogEntry, frame: WireText) returns (ghost i: nat, ghost found: set<int>)
      requires Valid() && entryToJson(entry) == Some(frame)
      modifies this, ws
      ensures Valid() && old(run) <= run
      ensures |Last(old(run)).history| <= i < |Last(run).history| == |Last(run).stages|
      ensures Last(run).history[i] == entry && Last(run).stages[i] == Writing(found, {})
      ensures forall c :: c in old(ws.clients) && c in ws.clients ==> c in found
    {
      ghost var first := Last(run);
      KnownRun(run);
      KnownTable(ws, entryToJson, first);
      hide IsRun, ThrowsOnNonUtf8, Reflects, AllDump, StoreStep, CopyStep, WriteStep;
      hide Calm, CallAt, StoredAt, Stayed, Shape;
      var call := |Last(run).history|;
      i := call;
      Store(entry);
      StoreStarts(first, Last(run), entry);
      ghost var s := Last(run);
      Others(call, -1);
      CalmKeepsStored(s, Last(run), call, entry);
      StayedCalm(first, s, Last(run), call);
      s := Last(run);
      CanCopy(s, call, entry);
      var socks := Copy(call);
      found := socks;
      KnownTable(ws, entryToJson, Last(run));
      CopyStarts(first, s, Last(run), call, entry, found);
      while socks != {}
        invariant Valid() && old(run) <= run
        invariant CallAt(Last(run), call, entry, found, socks) && Stayed(first, Last(run), found)
        decreases socks
      {
        s := Last(run);
        Others(call, -1);
        CalmKeepsCall(first, s, Last(run), call, entry, found, socks);
        SomeMember(socks);
        var c: int :| c in socks;
        s := Last(run);
        MayWrite(s, call, entry, found, socks, c);
        var whole := WriteOne(call, c, frame);
        WriteMovesCall(first, s, Last(run), call, entry, found, socks, c, whole);
        socks := socks - {c};
      }
      KnownRun(run);
      KnownTable(ws, entryToJson, Last(run));
      CallEnds(first, Last(run), call, entry, found);
    }

    /**
     * The backfill of a client, which runs once per client. It is a path of the machine, at the end of which the
     * whole snapshot is sent; and no entry of it fails to become JSON, since only entries that do are stored.
     */
    method OnClientConnect(c: int) returns (threw: bool)
      requires Valid() && 0 <= c < ws.nextId && c !in Last(run).fills
      modifies this, ws
      ensures !threw && Valid() && old(run) <= run
      ensures c in Last(run).fills && Last(run).fills[c].sent == |Last(run).fills[c].snapshot|
      ensures |Last(old(run)).history| <= Last(run).fills[c].count
    {
      KnownTable(ws, entryToJson, Last(run));
      hide IsRun, ThrowsOnNonUtf8, Reflects, SnapshotStep, FillStep, Calm, FillingAt;
      ghost var first := Last(run);
      Others(-1, c);
      CalmNotFilling(first, Last(run), c);
      KnownTable(ws, entryToJson, Last(run));
      ghost var s := Last(run);
      var snapshot := Snapshot(c);
      ghost var count := |s.history|;
      SnapshotStarts(s, Last(run), c);
      for k := 0 to |snapshot|
        invariant Valid() && old(run) <= run
        invariant FillingAt(Last(run), c, count, snapshot, k)
      {
        s := Last(run);
        Others(-1, c);
        CalmKeepsFilling(s, Last(run), c, count, snapshot, k);
        var text := entryToJson(snapshot[k]);
        if text.None? { return true; }
        s := Last(run);
        MayFill(s, c, count, snapshot, k);
        var whole := FillOne(c, text.value);
        FillMoves(s, Last(run), c, count, snapshot, k, whole);
      }
      FillEnds(Last(run), c, count, snapshot);
      threw := false;
    }
  }

  // ------------------------------------------- where a thread stands in a call

  ghost predicate StoredAt(s: Sys, call: nat, entry: LogEntry) {
    call < |s.history| && call < |s.stages| && s.history[call] == entry && s.stages[call] == Stored
  }

  ghost predicate CallAt(s: Sys, call: nat, entry: LogEntry, found: set<int>, todo: set<int>) {
    call < |s.history| && call < |s.stages| && s.history[call] == entry && s.stages[call] == Writing(found, todo)
  }

  /** Clients of `first` that are still connected have been found. */
  ghost predicate Stayed(first: Sys, s: Sys, found: set<int>) {
    && (forall c :: c in first.clients ==> c < first.nextId) && first.nextId <= s.nextId
    && forall c :: c in first.clients && c in s.clients ==> c in found
  }

  lemma StoreStarts(first: Sys, s: Sys, entry: LogEntry)
    requires |first.stages| == |first.history| && Shape(first) && StoreStep(first, s, entry)
    ensures StoredAt(s, |first.history|, entry) && Stayed(first, s, s.clients)
  {
  }

  lemma CalmKeepsStored(s: Sys, t: Sys, call: nat, entry: LogEntry)
    requires Calm(s, t, call, -1) && StoredAt(s, call, entry)
    ensures StoredAt(t, call, entry)
  {
  }

  lemma StayedCalm(first: Sys, s: Sys, t: Sys, call: int)
    requires Calm(s, t, call, -1) && Stayed(first, s, s.clients)
    ensures Stayed(first, t, t.clients)
  {
  }

  lemma CanCopy(s: Sys, call: nat, entry: LogEntry)
    requires StoredAt(s, call, entry)
    ensures call < |s.stages| && s.stages[call].Stored?
  {
  }

  lemma CopyStarts(first: Sys, s: Sys, t: Sys, call: nat, entry: LogEntry, found: set<int>)
    requires StoredAt(s, call, entry) && CopyStep(s, t, call) && found == t.clients && Stayed(first, s, s.clients)
    ensures CallAt(t, call, entry, found, found) && Stayed(first, t, found)
  {
  }

  lemma CalmKeepsCall(first: Sys, s: Sys, t: Sys, call: nat, entry: LogEntry, found: set<int>, todo: set<int>)
    requires Calm(s, t, call, -1) && CallAt(s, call, entry, found, todo) && Stayed(first, s, found)
    ensures CallAt(t, call, entry, found, todo) && Stayed(first, t, found)
  {
  }

  lemma MayWrite(s: Sys, call: nat, entry: LogEntry, found: set<int>, todo: set<int>, c: int)
    requires CallAt(s, call, entry, found, todo) && c in todo
    ensures CanWrite(s, call, c) && call < |s.history| && s.history[call] == entry
  {
  }

  lemma WriteMovesCall(first: Sys, s: Sys, t: Sys, call: nat, entry: LogEntry, found: set<int>, todo: set<int>,
                       c: int, whole: bool)
    requires CallAt(s, call, entry, found, todo) && WriteStep(s, t, call, c, whole) && Stayed(first, s, found)
    ensures CallAt(t, call, entry, found, todo - {c}) && Stayed(first, t, found)
  {
  }

  lemma CallEnds(first: Sys, s: Sys, call: nat, entry: LogEntry, found: set<int>)
    requires CallAt(s, call, entry, found, {}) && Stayed(first, s, found)
    ensures call < |s.history| && call < |s.stages| && s.history[call] == entry && s.stages[call] == Writing(found, {})
    ensures forall c :: c in first.clients && c in s.clients ==> c in found
  {
  }

  ghost predicate FillingAt(s: Sys, c: int, count: nat, snapshot: seq<LogEntry>, k: nat) {
    c in s.fills && s.fills[c] == Backfill(count, snapshot, k)
  }

  lemma CalmNotFilling(s: Sys, t: Sys, c: int)
    requires Calm(s, t, -1, c) && c !in s.fills
    ensures c !in t.fills && s.nextId <= t.nextId && |s.history| <= |t.history|
  {
  }

  lemma SnapshotStarts(s: Sys, t: Sys, c: int)
    requires SnapshotStep(s, t, c)
    ensures c in t.fills && FillingAt(t, c, |s.history|, t.fills[c].snapshot, 0)
  {
  }

  lemma CalmKeepsFilling(s: Sys, t: Sys, c: int, count: nat, snapshot: seq<LogEntry>, k: nat)
    requires Calm(s, t, -1, c) && FillingAt(s, c, count, snapshot, k)
    ensures FillingAt(t, c, count, snapshot, k)
  {
  }

  lemma MayFill(s: Sys, c: int, count: nat, snapshot: seq<LogEntry>, k: nat)
    requires FillingAt(s, c, count, snapshot, k) && k < |snapshot|
    ensures CanFill(s, c) && s.fills[c].snapshot == snapshot && s.fills[c].sent == k
  {
  }

  lemma FillMoves(s: Sys, t: Sys, c: int, count: nat, snapshot: seq<LogEntry>, k: nat, whole: bool)
    requires FillingAt(s, c, count, snapshot, k) && FillStep(s, t, c, whole)
    ensures FillingAt(t, c, count, snapshot, k + 1)
  {
  }

  lemma FillEnds(s: Sys, c: int, count: nat, snapshot: seq<LogEntry>)
    requires FillingAt(s, c, count, snapshot, |snapshot|)
    ensures c in s.fills && s.fills[c].sent == |s.fills[c].snapshot| && s.fills[c].count == count
  {
  }

  lemma KnownRun(run: seq<Sys>)
    requires IsRun(run)
    ensures |Last(run).stages| == |Last(run).history| && Shape(Last(run))
  {
    RunKeepsInv(run);
  }
}
