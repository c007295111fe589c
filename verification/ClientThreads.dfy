/**
 * The client threads of the WebSocket bridge: every interleaving of their lock sections on the index
 * (WsServer.cpp clientLoop, WsService.cpp onWsMessage and onWsClose).
 */
module ClientThreads {
  import opened Bits
  import opened WsService

  /** A client thread: in its read loop, taken out of the server's table, or past onWsClose. */
  datatype Stage = Reading | Leaving | Over

  datatype World = World(ix: Index, stages: map<int, Stage>, nextId: int)

  const NEW_WORLD := World(EMPTY_INDEX, map[], 0)

  predicate AcceptStep(s: World, t: World) {
    t == s.(stages := s.stages[s.nextId := Reading], nextId := s.nextId + 1)
  }

  predicate SubscribeStep(s: World, t: World, c: int, f: bytes) {
    c in s.stages && s.stages[c] == Reading && f != [] && t == s.(ix := WithSub(s.ix, c, f))
  }

  predicate UnsubscribeStep(s: World, t: World, c: int, f: bytes) {
    c in s.stages && s.stages[c] == Reading && f != [] && t == s.(ix := WithoutSub(s.ix, c, f))
  }

  predicate LeaveStep(s: World, t: World, c: int) {
    c in s.stages && s.stages[c] == Reading && t == s.(stages := s.stages[c := Leaving])
  }

  ghost predicate CloseStep(s: World, t: World, c: int) {
    && c in s.stages && s.stages[c] == Leaving
    && t.stages == s.stages[c := Over] && t.nextId == s.nextId
    && if c in s.ix.subs then ClosedIndex(s.ix, t.ix, c) else t.ix == s.ix
  }

  ghost predicate Next(s: World, t: World) {
    || AcceptStep(s, t)
    || (exists c, f :: SubscribeStep(s, t, c, f))
    || (exists c, f :: UnsubscribeStep(s, t, c, f))
    || (exists c :: LeaveStep(s, t, c))
    || (exists c :: CloseStep(s, t, c))
  }

  ghost predicate IsRun(run: seq<World>) {
    run != [] && run[0] == NEW_WORLD && forall i :: 0 <= i < |run| - 1 ==> Next(run[i], run[i + 1])
  }

  ghost predicate Inv(s: World) {
    && Mutual(s.ix)
    && (forall c :: c in s.stages ==> c < s.nextId)
    && (forall c :: c in s.ix.subs ==> c in s.stages && s.stages[c] != Over)
  }

  lemma NextKeepsInv(s: World, t: World)
    requires Inv(s) && Next(s, t)
    ensures Inv(t)
  {
    hide Mutual, ClosedIndex, WithSub, WithoutSub;
    if c, f :| SubscribeStep(s, t, c, f) {
      WithSubKeepsMutual(s.ix, c, f);
      SubsKeys(s.ix, c, f);
    } else if c, f :| UnsubscribeStep(s, t, c, f) {
      WithoutSubKeepsMutual(s.ix, c, f);
      SubsKeys(s.ix, c, f);
    } else if c :| CloseStep(s, t, c) {
      if c in s.ix.subs {
        ClosedKeepsMutual(s.ix, t.ix, c);
        ClosedSubs(s.ix, t.ix, c);
      }
    }
  }

  lemma SubsKeys(ix: Index, c: int, f: bytes)
    ensures WithSub(ix, c, f).subs.Keys == ix.subs.Keys + {c}
    ensures WithoutSub(ix, c, f).subs.Keys == ix.subs.Keys + {c}
  {
  }

  lemma ClosedSubs(ix: Index, jx: Index, c: int)
    requires ClosedIndex(ix, jx, c)
    ensures jx.subs == ix.subs - {c}
  {
  }

  lemma {:induction false} RunKeepsInv(run: seq<World>)
    requires IsRun(run)
    ensures Inv(run[|run| - 1])
  {
    hide Inv, Next;
    if |run| == 1 {
      assert Inv(NEW_WORLD) by { NewWorldInv(); }
    } else {
      var front := run[..|run| - 1];
      RunKeepsInv(front);
      NextKeepsInv(front[|front| - 1], run[|run| - 1]);
    }
  }

  lemma NewWorldInv()
    ensures Inv(NEW_WORLD)
  {
  }

  lemma {:induction false} OverStays(run: seq<World>, i: nat, c: int)
    requires IsRun(run) && i < |run| && c in run[i].stages && run[i].stages[c] == Over
    ensures c in run[|run| - 1].stages && run[|run| - 1].stages[c] == Over
    decreases |run| - i
  {
    if i < |run| - 1 {
      assert Next(run[i], run[i + 1]);
      RunKeepsInv(run[..i + 1]);
      assert c < run[i].nextId;
      OverStays(run, i + 1, c);
    }
  }

  /** In every interleaving the index stays mutual, and a client past onWsClose never comes back into it. */
  lemma ClosedStaysAbsent(run: seq<World>, i: nat, c: int)
    requires IsRun(run)
    ensures Mutual(run[|run| - 1].ix)
    ensures i < |run| && c in run[i].stages && run[i].stages[c] == Over ==> Absent(run[|run| - 1].ix, c)
  {
    RunKeepsInv(run);
    if i < |run| && c in run[i].stages && run[i].stages[c] == Over {
      OverStays(run, i, c);
      AbsentWithoutSubs(run[|run| - 1].ix, c);
    }
  }
}
