/**
 * Threads sharing one Chromecast channel: every interleaving of CastChannel::send calls,
 * one SSL_write at a time, with every pattern of partial and failing writes.
 */
module CastWire {
  import opened Bits
  import opened CastProto
  import opened CastChannel

  /** The sender inside `send`: `started` once sendAll has seen the socket connected. */
  datatype Holder = Nobody | Holding(m: CastMessage, started: bool, sent: nat)

  datatype Wire = Wire(
    todo: seq<seq<CastMessage>>,  // what each thread has still to send, in its program order
    taken: seq<CastMessage>,      // every message whose sender got the mutex, in that order
    holder: Holder,
    connected: bool,
    bytes_: bytes,                // what the peer has received
    whole: seq<CastMessage>,      // messages written completely
    torn: Option<(CastMessage, nat)>)  // the message cut off by a failed write, and how much of it went out

  predicate Init(s: Wire) {
    && s.taken == [] && s.holder == Nobody && s.connected && s.bytes_ == [] && s.whole == [] && s.torn.None?
    && forall i :: 0 <= i < |s.todo| ==> AllEncodable(s.todo[i])
  }

  /** Thread `i` acquires the send mutex. */
  predicate Lock(s: Wire, t: Wire, i: nat) {
    && s.holder.Nobody? && i < |s.todo| && s.todo[i] != []
    && t == s.(holder := Holding(s.todo[i][0], false, 0),
               todo := s.todo[i := s.todo[i][1..]],
               taken := s.taken + [s.todo[i][0]])
  }

  /** sendAll finds the latch cleared and returns false. */
  predicate Refuse(s: Wire, t: Wire) {
    s.holder.Holding? && !s.holder.started && !s.connected && t == s.(holder := Nobody)
  }

  predicate Start(s: Wire, t: Wire) {
    s.holder.Holding? && !s.holder.started && s.connected && t == s.(holder := s.holder.(started := true))
  }

  /** SSL_write takes `n` bytes. */
  predicate Write(s: Wire, t: Wire, n: nat) {
    && s.holder.Holding? && s.holder.started && Encodable(s.holder.m)
    && var p := Packet(s.holder.m);
       var sent := s.holder.sent;
       && 1 <= n && sent + n <= |p|
       && t == s.(holder := s.holder.(sent := sent + n),
                  bytes_ := s.bytes_ + p[sent..sent + n],
                  whole := if sent + n == |p| then s.whole + [s.holder.m] else s.whole)
  }

  /** SSL_write fails: the latch is cleared and the mutex released. */
  predicate Fail(s: Wire, t: Wire) {
    && s.holder.Holding? && s.holder.started && Encodable(s.holder.m) && s.holder.sent < |Packet(s.holder.m)|
    && t == s.(holder := Nobody, connected := false, torn := Some((s.holder.m, s.holder.sent)))
  }

  /** sendAll returns true and the mutex is released. */
  predicate Unlock(s: Wire, t: Wire) {
    && s.holder.Holding? && s.holder.started && Encodable(s.holder.m) && s.holder.sent == |Packet(s.holder.m)|
    && t == s.(holder := Nobody)
  }

  /** The reading thread meets an error, or another thread disconnects. */
  predicate Drop(s: Wire, t: Wire) {
    t == s.(connected := false)
  }

  ghost predicate Next(s: Wire, t: Wire) {
    || (exists i: nat :: Lock(s, t, i)) || Refuse(s, t) || Start(s, t)
    || (exists n: nat :: Write(s, t, n)) || Fail(s, t) || Unlock(s, t) || Drop(s, t)
  }

  ghost predicate IsRun(run: seq<Wire>) {
    && run != [] && Init(run[0])
    && forall i :: 0 <= i < |run| - 1 ==> Next(run[i], run[i + 1])
  }

  /** The bytes past the last whole frame: a part of the holder's frame, or of the frame torn off. */
  function Tail(s: Wire): bytes
    requires s.holder.Holding? ==> Encodable(s.holder.m)
    requires s.torn.Some? ==> Encodable(s.torn.value.0)
  {
    if s.torn.Some? then
      var p := Packet(s.torn.value.0);
      if s.torn.value.1 <= |p| then p[..s.torn.value.1] else []
    else if s.holder.Holding? && s.holder.sent < |Packet(s.holder.m)| then Packet(s.holder.m)[..s.holder.sent]
    else []
  }

  ghost predicate Inv(s: Wire) {
    && (forall i :: 0 <= i < |s.todo| ==> AllEncodable(s.todo[i]))
    && AllEncodable(s.whole)
    && (s.holder.Holding? ==>
         && Encodable(s.holder.m) && s.holder.m in s.taken && s.holder.sent <= |Packet(s.holder.m)|
         && (s.holder.started ==> s.torn.None?)
         && (!s.holder.started ==> s.holder.sent == 0))
    && (s.torn.Some? ==>
         && !s.connected && Encodable(s.torn.value.0) && s.torn.value.0 in s.taken
         && s.torn.value.1 < |Packet(s.torn.value.0)|)
    && s.bytes_ == Packets(s.whole) + Tail(s)
    && s.whole <= s.taken
    && (s.connected || (s.holder.Holding? && s.holder.started) ==> s.taken == s.whole + Unfinished(s))
  }

  function Unfinished(s: Wire): seq<CastMessage> {
    if s.holder.Holding? && Encodable(s.holder.m) && s.holder.sent < |Packet(s.holder.m)| then [s.holder.m] else []
  }

  lemma LockKeepsInv(s: Wire, t: Wire, i: nat)
    requires Inv(s) && Lock(s, t, i)
    ensures Inv(t)
  {
    hide Packet, Packets, Encode;
    assert AllEncodable(s.todo[i]);
    assert t.taken[|s.taken|] == t.holder.m;
    assert |Packet(t.holder.m)| > 0 by { PacketNonEmpty(t.holder.m); }
  }

  lemma PacketNonEmpty(m: CastMessage)
    requires Encodable(m)
    ensures |Packet(m)| > 0
  {
  }

  lemma WriteKeepsInv(s: Wire, t: Wire, n: nat)
    requires Inv(s) && Write(s, t, n)
    ensures Inv(t)
  {
    hide Packet, Packets, Encodable;
    var p, sent := Packet(s.holder.m), s.holder.sent;
    assert Tail(s) == p[..sent];
    PieceMore(Packets(s.whole), p, sent, n);
    if sent + n == |p| {
      PacketsAppend(s.whole, s.holder.m);
      Neutral(Packets(t.whole));
      assert Tail(t) == [] && s.taken == t.whole;
    } else {
      assert Tail(t) == p[..sent + n];
    }
    hide Tail;
  }

  lemma PieceMore(wire: bytes, p: bytes, sent: nat, n: nat)
    requires sent + n <= |p|
    ensures wire + p[..sent] + p[sent..sent + n] == wire + p[..sent + n]
    ensures sent + n == |p| ==> p[..sent + n] == p
  {
    Associative(wire, p[..sent], p[sent..sent + n]);
    assert p[..sent] + p[sent..sent + n] == p[..sent + n];
  }

  lemma NextKeepsInv(s: Wire, t: Wire)
    requires Inv(s) && Next(s, t)
    ensures Inv(t)
  {
    hide Packet, Packets, Encodable;
    if i: nat :| Lock(s, t, i) {
      LockKeepsInv(s, t, i);
    } else if n: nat :| Write(s, t, n) {
      WriteKeepsInv(s, t, n);
    }
  }

  lemma {:induction false} RunKeepsInv(run: seq<Wire>)
    requires IsRun(run)
    ensures Inv(run[|run| - 1])
  {
    if |run| == 1 {
    } else {
      var front := run[..|run| - 1];
      RunKeepsInv(front);
      NextKeepsInv(front[|front| - 1], run[|run| - 1]);
    }
  }

  /**
   * Whatever the interleaving and however the writes are cut: the wire is the concatenation of whole
   * frames in the order their senders held the mutex, followed by at most one strict prefix of a frame;
   * and while all messages are within the receiver's limit, the peer reads back exactly the whole frames,
   * in that order, and nothing from the torn one.
   */
  lemma WireIsWholeFrames(run: seq<Wire>)
    requires IsRun(run)
    ensures var s := run[|run| - 1];
            && AllEncodable(s.whole)
            && (exists m: CastMessage, k: nat ::
                  Encodable(m) && k < |Packet(m)| && s.bytes_ == Packets(s.whole) + Packet(m)[..k])
            && s.whole <= s.taken
            && (AllFit(s.taken) ==> ReadAll(s.bytes_) == s.whole)
  {
    RunKeepsInv(run);
    var s := run[|run| - 1];
    hide *;
    var m, k := TailShape(s);
    if AllFit(s.taken) {
      EmptyFits();
      FitsWhole(s, m);
      ReadAllPackets(s.whole, m, k);
    }
  }

  /** The message the bytes past the last whole frame belong to, and how many they are. */
  lemma TailShape(s: Wire) returns (m: CastMessage, k: nat)
    requires Inv(s)
    ensures AllEncodable(s.whole) && s.whole <= s.taken
    ensures Encodable(m) && k < |Packet(m)| && s.bytes_ == Packets(s.whole) + Packet(m)[..k]
    ensures m in s.taken || m == EMPTY_MESSAGE
  {
    hide Packet, Packets, Encodable;
    m, k := EMPTY_MESSAGE, 0;
    if s.torn.Some? {
      m, k := s.torn.value.0, s.torn.value.1;
    } else if s.holder.Holding? && s.holder.sent < |Packet(s.holder.m)| {
      m, k := s.holder.m, s.holder.sent;
    } else {
      EmptyFits();
      PacketNonEmpty(m);
    }
    assert Tail(s) == Packet(m)[..k];
  }

  lemma FitsWhole(s: Wire, m: CastMessage)
    requires AllFit(s.taken) && s.whole <= s.taken && Fits(EMPTY_MESSAGE) && (m in s.taken || m == EMPTY_MESSAGE)
    ensures AllFit(s.whole) && Fits(m)
  {
    hide Fits;
    assert forall i :: 0 <= i < |s.whole| ==> s.whole[i] == s.taken[i];
  }

  lemma EmptyFits()
    ensures Fits(EMPTY_MESSAGE)
  {
    PacketSize(EMPTY_MESSAGE, 0);
  }

  /** Once a frame is torn, no sender writes a byte for the rest of the run. */
  lemma {:induction false} NothingAfterTear(run: seq<Wire>, i: nat, j: nat)
    requires IsRun(run) && i <= j < |run| && run[i].torn.Some?
    ensures run[j].torn == run[i].torn && run[j].bytes_ == run[i].bytes_ && run[j].whole == run[i].whole
    ensures !run[j].connected
    decreases j
  {
    hide *;
    if i == j {
      InvAt(run, i);
      TornIsDown(run[i]);
    } else {
      NothingAfterTear(run, i, j - 1);
      InvAt(run, j - 1);
      StepAt(run, j);
      TornStays(run[j - 1], run[j]);
    }
  }

  lemma InvAt(run: seq<Wire>, i: nat)
    requires IsRun(run) && i < |run|
    ensures Inv(run[i])
  {
    hide Inv, Next;
    RunKeepsInv(run[..i + 1]);
  }

  lemma StepAt(run: seq<Wire>, j: nat)
    requires IsRun(run) && 0 < j < |run|
    ensures Next(run[j - 1], run[j])
  {
    hide Next;
    var i := j - 1;
    assert Next(run[i], run[i + 1]);
  }

  lemma TornIsDown(s: Wire)
    requires Inv(s) && s.torn.Some?
    ensures !s.connected
  {
  }

  lemma TornStays(s: Wire, t: Wire)
    requires Inv(s) && Next(s, t) && s.torn.Some?
    ensures t.torn == s.torn && t.bytes_ == s.bytes_ && t.whole == s.whole && !t.connected
  {
    hide Packet, Packets, Encodable, Tail, Unfinished;
  }

  // ------------------------------------------------- the code runs the machine

  /** The states a sender passes through once it has seen the socket connected: one SSL_write after the other. */
  ghost function WriteStates(s: Wire, cuts: seq<nat>): (path: seq<Wire>)
    requires s.holder.Holding? && Encodable(s.holder.m)
    ensures path != []
    decreases |cuts|
  {
    if cuts == [] then [s] else WriteStates(s, cuts[..|cuts| - 1]) + [WrittenUpTo(s, Sum(cuts))]
  }

  /** `s` after its sender has written the first `k` bytes of its packet. */
  function WrittenUpTo(s: Wire, k: nat): Wire
    requires s.holder.Holding? && Encodable(s.holder.m)
  {
    var p := Packet(s.holder.m);
    if k == 0 || k > |p| then s
    else s.(holder := s.holder.(sent := k), bytes_ := s.bytes_ + p[..k],
            whole := if k == |p| then s.whole + [s.holder.m] else s.whole)
  }

  ghost predicate Connected(path: seq<Wire>) {
    path != [] && forall i :: 0 <= i < |path| - 1 ==> Next(path[i], path[i + 1])
  }

  lemma {:induction false} WritesAreSteps(s: Wire, cuts: seq<nat>)
    requires s.holder.Holding? && s.holder.started && s.holder.sent == 0 && Encodable(s.holder.m)
    requires AllPositive(cuts) && Sum(cuts) <= |Packet(s.holder.m)|
    ensures var path := WriteStates(s, cuts);
            Connected(path) && path[0] == s && path[|path| - 1] == WrittenUpTo(s, Sum(cuts))
    decreases |cuts|
  {
    hide *;
    CutsStep(s, cuts);
    if cuts != [] {
      var front, n := cuts[..|cuts| - 1], cuts[|cuts| - 1];
      WritesAreSteps(s, front);
      WriteIsStep(s, Sum(front), n);
      ConnectedSnoc(WriteStates(s, front), WrittenUpTo(s, Sum(cuts)));
    }
  }

  lemma CutsStep(s: Wire, cuts: seq<nat>)
    requires s.holder.Holding? && Encodable(s.holder.m) && AllPositive(cuts)
    ensures if cuts == [] then Sum(cuts) == 0 && WriteStates(s, cuts) == [s] && Connected([s]) && WrittenUpTo(s, 0) == s
            else
              var front, n := cuts[..|cuts| - 1], cuts[|cuts| - 1];
              && n >= 1 && AllPositive(front) && Sum(cuts) == Sum(front) + n
              && WriteStates(s, cuts) == WriteStates(s, front) + [WrittenUpTo(s, Sum(cuts))]
  {
    hide Packet, Encodable, Next;
  }

  lemma ConnectedSnoc(path: seq<Wire>, t: Wire)
    requires Connected(path) && Next(path[|path| - 1], t)
    ensures Connected(path + [t])
  {
    hide Next;
  }

  lemma WriteIsStep(s: Wire, k: nat, n: nat)
    requires s.holder.Holding? && s.holder.started && s.holder.sent == 0 && Encodable(s.holder.m)
    requires 1 <= n && k + n <= |Packet(s.holder.m)|
    ensures Next(WrittenUpTo(s, k), WrittenUpTo(s, k + n))
  {
    hide Packet, Encodable;
    var p := Packet(s.holder.m);
    assert p[..k] + p[k..k + n] == p[..k + n];
    Associative(s.bytes_, p[..k], p[k..k + n]);
    assert k == 0 ==> p[0..n] == p[..n];
    assert Write(WrittenUpTo(s, k), WrittenUpTo(s, k + n), n);
  }

  /**
   * A call of CastChannel.Send is a path of the machine: whatever result `ok` and write sizes `cuts` its contract
   * allows on a socket in state `s`, the machine can go from `s` to a state with the mutex free again, the same
   * bytes on the wire and the same latch.
   */
  lemma SendIsPath(s: Wire, ok: bool, cuts: seq<nat>) returns (path: seq<Wire>)
    requires s.holder.Holding? && !s.holder.started && s.holder.sent == 0 && Encodable(s.holder.m)
    requires !s.connected ==> !ok && cuts == []
    requires AllPositive(cuts) && Sum(cuts) <= |Packet(s.holder.m)|
    requires s.connected ==> (ok <==> Sum(cuts) == |Packet(s.holder.m)|)
    ensures Connected(path) && path[0] == s
    ensures var t := path[|path| - 1];
            && t.holder == Nobody && t.connected == (s.connected && ok)
            && t.bytes_ == s.bytes_ + Packet(s.holder.m)[..Sum(cuts)]
            && t.whole == s.whole + (if ok then [s.holder.m] else [])
            && t.todo == s.todo && t.taken == s.taken
  {
    hide Packet, Encodable, WriteStates, WrittenUpTo;
    if !s.connected {
      path := [s, s.(holder := Nobody)];
      assert Refuse(path[0], path[1]);
      return;
    }
    var started := s.(holder := s.holder.(started := true));
    assert Start(s, started);
    WritesAreSteps(started, cuts);
    var middle := WriteStates(started, cuts);
    var last := middle[|middle| - 1];
    var end := if ok then last.(holder := Nobody)
               else last.(holder := Nobody, connected := false, torn := Some((s.holder.m, Sum(cuts))));
    WrittenFields(started, Sum(cuts));
    assert if ok then Unlock(last, end) else Fail(last, end);
    path := [s] + middle + [end];
  }

  lemma WrittenFields(s: Wire, k: nat)
    requires s.holder.Holding? && Encodable(s.holder.m) && s.holder.sent == 0 && k <= |Packet(s.holder.m)|
    ensures var t := WrittenUpTo(s, k);
            && t.holder == s.holder.(sent := k) && t.bytes_ == s.bytes_ + Packet(s.holder.m)[..k]
            && t.whole == s.whole + (if k == |Packet(s.holder.m)| then [s.holder.m] else [])
            && t == s.(holder := t.holder, bytes_ := t.bytes_, whole := t.whole)
  {
    PacketNonEmpty(s.holder.m);
    hide Packet, Encodable;
    assert s.bytes_ + [] == s.bytes_ && s.whole + [] == s.whole;
  }
}
