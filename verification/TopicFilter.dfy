/** WsService::topicMatches, against the level-by-level rule of section 4.7 of MQTT 3.1.1. */
module TopicFilter {
  import opened Bits

  const SLASH: byte := 47
  const PLUS: byte := 43
  const HASH: byte := 35

  // ------------------------------------------------------------ the standard

  /** The levels of a filter or topic: the parts between the slashes. The empty string has one empty level. */
  function Levels(s: bytes): (r: seq<bytes>)
    ensures |r| >= 1
  {
    if s == [] then [[]]
    else
      var rest := Levels(s[1..]);
      if s[0] == SLASH then [[]] + rest else [[s[0]] + rest[0]] + rest[1..]
  }

  /** The levels with the slashes between them again. */
  function Joined(levels: seq<bytes>): bytes
    requires levels != []
  {
    if |levels| == 1 then levels[0] else levels[0] + Ascii("/") + Joined(levels[1..])
  }

  /** Levels are what stands between the slashes, and nothing is lost. */
  lemma {:induction false} LevelsSplit(s: bytes)
    ensures Joined(Levels(s)) == s
    ensures forall i :: 0 <= i < |Levels(s)| ==> Ascii("/")[0] !in Levels(s)[i]
  {
    assert Ascii("/") == [SLASH];
    hide Ascii;
    if s == [] {
    } else {
      var rest := Levels(s[1..]);
      LevelsSplit(s[1..]);
      if s[0] == SLASH {
        assert ([[]] + rest)[1..] == rest;
        assert [] + [SLASH] + s[1..] == s;
      } else {
        LongerFirstLevel(s[0], rest);
        assert [s[0]] + s[1..] == s;
      }
    }
  }

  lemma JoinedCons(head: bytes, tail: seq<bytes>)
    requires tail != []
    ensures Joined([head]) == head && Joined([head] + tail) == head + (Ascii("/") + Joined(tail))
  {
    assert ([head] + tail)[1..] == tail;
    Associative(head, Ascii("/"), Joined(tail));
  }

  lemma LongerFirstLevel(b: byte, rest: seq<bytes>)
    requires rest != []
    ensures Joined([[b] + rest[0]] + rest[1..]) == [b] + Joined(rest)
  {
    hide Ascii, Joined;
    var head, tail := rest[0], rest[1..];
    assert rest == [head] + tail;
    if tail == [] {
      assert [[b] + head] + tail == [[b] + head] && rest == [head];
      JoinedCons(head, rest);
      JoinedCons([b] + head, rest);
    } else {
      JoinedCons(head, tail);
      JoinedCons([b] + head, tail);
      Associative([b], head, Ascii("/") + Joined(tail));
    }
  }

  /** Section 4.7.1: '#' matches all remaining levels, its parent included; '+' matches one level. */
  predicate LevelsMatch(f: seq<bytes>, t: seq<bytes>) {
    if f == [] then t == []
    else if f[0] == [HASH] then true
    else t != [] && (f[0] == [PLUS] || f[0] == t[0]) && LevelsMatch(f[1..], t[1..])
  }

  /** A wildcard occupies a whole level, and '#' only the last one. */
  predicate ValidLevels(f: seq<bytes>) {
    forall i :: 0 <= i < |f| ==>
      && (PLUS in f[i] ==> f[i] == [PLUS])
      && (HASH in f[i] ==> f[i] == [HASH] && i == |f| - 1)
  }

  predicate ValidFilter(f: bytes) {
    ValidLevels(Levels(f))
  }

  predicate StandardMatch(f: bytes, t: bytes) {
    LevelsMatch(Levels(f), Levels(t))
  }

  /** The rule level by level: all levels fit, one for one, unless a '#' takes the rest. */
  lemma {:induction false} LevelsMatchMeaning(f: seq<bytes>, t: seq<bytes>)
    requires f != [] && ValidLevels(f)
    ensures var n := |f| - 1;
            LevelsMatch(f, t) <==>
              && (if f[n] == [HASH] then |t| >= n else |t| == n + 1)
              && forall i :: 0 <= i < |f| && i < |t| && f[i] != [HASH] ==> f[i] == [PLUS] || f[i] == t[i]
  {
    if f[0] == [HASH] {
    } else if t == [] {
    } else if |f| == 1 {
      assert f[1..] == [];
    } else {
      LevelsMatchMeaning(f[1..], t[1..]);
      assert forall i :: 0 < i < |f| ==> f[i] == f[1..][i - 1];
      assert forall i :: 0 < i < |t| ==> t[i] == t[1..][i - 1];
    }
  }

  // ---------------------------------------------------------------- the code

  /** `t` from the end of its first level on. */
  function SkipLevel(t: bytes): (r: bytes)
    ensures |r| <= |t|
    ensures r == [] || r[0] == SLASH
  {
    if t == [] || t[0] == SLASH then t else SkipLevel(t[1..])
  }

  /** The verdict of the two-cursor scan with `f` and `t` left to read. */
  predicate Scan(f: bytes, t: bytes)
    decreases |f| + |t|
  {
    if f != [] && t != [] then
      if f[0] == HASH then true
      else if f[0] == PLUS then Scan(f[1..], SkipLevel(t))
      else f[0] == t[0] && Scan(f[1..], t[1..])
    else (|f| >= 2 && f[0] == SLASH && f[1] == HASH) || (f == [] && t == [])
  }

  method TopicMatches(filter: bytes, topic: bytes) returns (r: bool)
    ensures r == Scan(filter, topic)
  {
    var fi, ti := 0, 0;
    while fi < |filter| && ti < |topic|
      invariant 0 <= fi <= |filter| && 0 <= ti <= |topic|
      invariant Scan(filter[fi..], topic[ti..]) == Scan(filter, topic)
      decreases |filter| - fi + |topic| - ti
    {
      ghost var f, t := filter[fi..], topic[ti..];
      if filter[fi] == HASH { return true; }
      if filter[fi] == PLUS {
        while ti < |topic| && topic[ti] != SLASH
          invariant |topic| - |t| <= ti <= |topic|
          invariant SkipLevel(topic[ti..]) == SkipLevel(t)
          decreases |topic| - ti
        {
          assert topic[ti..][1..] == topic[ti + 1..];
          ti := ti + 1;
        }
        assert f[1..] == filter[fi + 1..];
        fi := fi + 1;
      } else if filter[fi] == topic[ti] {
        assert f[1..] == filter[fi + 1..] && t[1..] == topic[ti + 1..];
        fi, ti := fi + 1, ti + 1;
      } else {
        return false;
      }
    }
    if fi < |filter| && filter[fi] == SLASH && fi + 1 < |filter| && filter[fi + 1] == HASH {
      return true;
    }
    r := fi == |filter| && ti == |topic|;
  }

  // -------------------------------------------------------------- refinement

  /** The topic ends in an empty level that the filter meets with a wildcard. */
  predicate WildcardAtEmptyEnd(f: seq<bytes>, t: seq<bytes>)
    requires t != []
  {
    t[|t| - 1] == [] && |f| >= |t| && (f[|t| - 1] == [PLUS] || f[|t| - 1] == [HASH])
  }

  lemma LevelsCons(s: bytes)
    requires s != []
    ensures s[0] == SLASH ==> Levels(s) == [[]] + Levels(s[1..])
    ensures s[0] != SLASH ==> Levels(s)[0] == [s[0]] + Levels(s[1..])[0] && Levels(s)[1..] == Levels(s[1..])[1..]
  {
  }

  lemma LevelsOfOne(w: byte)
    requires w != SLASH
    ensures Levels([w]) == [[w]]
  {
    assert Levels([]) == [[]];
    assert [w][1..] == [] && [w] + [] == [w];
  }

  lemma MatchOneLevel(x: bytes, t: seq<bytes>)
    ensures LevelsMatch([x], t) <==> x == [HASH] || (|t| == 1 && (x == [PLUS] || x == t[0]))
  {
    assert [x][1..] == [];
  }

  lemma FirstLevelEmpty(s: bytes)
    ensures Levels(s)[0] == [] <==> s == [] || s[0] == SLASH
    ensures Levels(s)[0] != [] ==> s[0] == Levels(s)[0][0]
  {
  }

  /** A literal at the front of a valid filter leaves a valid filter. */
  lemma ValidAfterLiteral(f: bytes)
    requires f != [] && ValidFilter(f) && f[0] != PLUS && f[0] != HASH
    ensures ValidFilter(f[1..])
  {
    LevelsCons(f);
    hide Levels;
    var levels, tail := Levels(f), Levels(f[1..]);
    if f[0] == SLASH {
      assert forall i :: 0 <= i < |tail| ==> levels[i + 1] == tail[i];
    } else {
      forall i | 0 <= i < |tail|
        ensures (PLUS in tail[i] ==> tail[i] == [PLUS]) && (HASH in tail[i] ==> tail[i] == [HASH] && i == |tail| - 1)
      {
        if i == 0 {
          assert forall b :: b in tail[0] ==> b in levels[0];
          assert levels[0][0] == f[0];
        } else {
          assert levels[i] == levels[1..][i - 1] == tail[1..][i - 1] == tail[i];
        }
      }
    }
  }

  lemma ValidPlus(f: bytes)
    requires f != [] && f[0] == PLUS && ValidFilter(f) && f != [PLUS]
    ensures f[1] == SLASH && ValidFilter(f[2..]) && Levels(f) == [[PLUS]] + Levels(f[2..])
  {
    LevelsCons(f);
    assert PLUS in Levels(f)[0];
    FirstLevelEmpty(f[1..]);
    LevelsCons(f[1..]);
    hide Levels;
    var levels, rest := Levels(f), Levels(f[2..]);
    assert f[1..][1..] == f[2..];
    assert levels == [[PLUS]] + rest;
    assert forall i :: 0 <= i < |rest| ==> levels[i + 1] == rest[i];
  }

  lemma HashAlone(f: bytes)
    requires f != [] && f[0] == HASH && ValidFilter(f)
    ensures f == [HASH]
  {
    LevelsCons(f);
    assert HASH in Levels(f)[0];
    FirstLevelEmpty(f[1..]);
    SlashAddsLevel(f[1..]);
  }

  lemma SlashAddsLevel(s: bytes)
    ensures s != [] && s[0] == SLASH ==> |Levels(s)| >= 2
  {
  }

  lemma FirstLevelHash(f: bytes)
    requires ValidFilter(f)
    ensures Levels(f)[0] == [HASH] <==> f != [] && f[0] == HASH
  {
    FirstLevelEmpty(f);
    if f != [] && f[0] == HASH {
      HashAlone(f);
      LevelsOfOne(HASH);
    }
  }

  /** Skipping a level drops exactly the first level. */
  lemma {:induction false} SkipDropsLevel(t: bytes)
    ensures SkipLevel(t) == [] ==> |Levels(t)| == 1
    ensures SkipLevel(t) != [] ==> Levels(t)[1..] == Levels(SkipLevel(t)[1..])
    ensures t != [] && SkipLevel(t) == [] ==> Levels(t)[0] != []
  {
    if t == [] || t[0] == SLASH {
      if t != [] { LevelsCons(t); }
    } else {
      LevelsCons(t);
      SkipDropsLevel(t[1..]);
    }
  }

  /**
   * For every valid filter and every topic, the scan says yes exactly when the level rule does,
   * except when the topic ends in an empty level that the filter meets with a wildcard.
   */
  lemma {:induction false} ScanIsLevelMatch(f: bytes, t: bytes)
    requires ValidFilter(f)
    ensures Scan(f, t) <==> StandardMatch(f, t) && !WildcardAtEmptyEnd(Levels(f), Levels(t))
    decreases |f| + |t|
  {
    if f == [] {
      FilterUsedUp(t);
    } else {
      if t == [] {
        ScanAtEnd(f);
      } else if f[0] == HASH {
        HashAlone(f);
        HashMatchesTopic(t);
      } else if f[0] == PLUS {
        PlusStep(f, t);
      } else {
        if f[0] == t[0] {
          ValidAfterLiteral(f);
          ScanIsLevelMatch(f[1..], t[1..]);
          LiteralStep(f, t);
        } else {
          LiteralMismatch(f, t);
        }
      }
    }
  }

  lemma FilterUsedUp(t: bytes)
    ensures t == [] <==> StandardMatch([], t)
    ensures !WildcardAtEmptyEnd(Levels([]), Levels(t))
  {
    MatchOneLevel([], Levels(t));
    FirstLevelEmpty(t);
    if t != [] { LevelsCons(t); }
  }

  lemma HashMatchesTopic(t: bytes)
    requires t != []
    ensures StandardMatch([HASH], t) && !WildcardAtEmptyEnd(Levels([HASH]), Levels(t))
  {
    LevelsOfOne(HASH);
    FirstLevelEmpty(t);
    LevelsCons(t);
  }

  /** The topic is used up before the filter. */
  lemma ScanAtEnd(f: bytes)
    requires f != [] && ValidFilter(f)
    ensures Scan(f, []) <==> StandardMatch(f, []) && !WildcardAtEmptyEnd(Levels(f), Levels([]))
  {
    var fl := Levels(f);
    LevelsCons(f);
    assert Levels([]) == [[]] && Levels([])[1..] == [];
    FirstLevelEmpty(f);
    if f[0] == SLASH {
      ValidAfterLiteral(f);
      var tail := Levels(f[1..]);
      assert fl[1..] == tail && fl[0] == [];
      assert LevelsMatch(fl, Levels([])) == LevelsMatch(tail, []);
      FirstLevelHash(f[1..]);
    } else if f[0] == HASH {
      HashAlone(f);
      LevelsOfOne(HASH);
    } else if f[0] == PLUS {
      if f == [PLUS] { LevelsOfOne(PLUS); } else { ValidPlus(f); }
    }
  }

  /** Levels that hold no wildcard. */
  predicate Plain(x: bytes) {
    x != [HASH] && x != [PLUS]
  }

  /** Exchanging first levels that agree equally, and are no wildcards, changes no verdict. */
  lemma SameBehindHeads(f: seq<bytes>, t: seq<bytes>, f': seq<bytes>, t': seq<bytes>)
    requires f != [] && t != [] && f' != [] && t' != []
    requires f[1..] == f'[1..] && t[1..] == t'[1..]
    requires Plain(f[0]) && Plain(f'[0]) && (f[0] == t[0] <==> f'[0] == t'[0])
    ensures LevelsMatch(f, t) <==> LevelsMatch(f', t')
    ensures WildcardAtEmptyEnd(f, t) <==> WildcardAtEmptyEnd(f', t')
  {
    assert |f| == |f'| && |t| == |t'|;
    assert forall i :: 1 <= i < |f| ==> f[i] == f[1..][i - 1] == f'[i];
    assert forall i :: 1 <= i < |t| ==> t[i] == t[1..][i - 1] == t'[i];
  }

  /** Taking away a first level that matches, perhaps by '+', changes no verdict either. */
  lemma BehindHead(x: bytes, f: seq<bytes>, y: bytes, t: seq<bytes>)
    requires t != [] && x != [HASH] && (x == [PLUS] || x == y)
    ensures LevelsMatch([x] + f, [y] + t) <==> LevelsMatch(f, t)
    ensures WildcardAtEmptyEnd([x] + f, [y] + t) <==> WildcardAtEmptyEnd(f, t)
  {
    assert ([x] + f)[1..] == f && ([y] + t)[1..] == t;
  }

  lemma LiteralHead(c: byte, x: bytes, y: bytes)
    requires c != HASH && c != PLUS && HASH !in [c] + x && PLUS !in [c] + x
    ensures Plain(x) && Plain([c] + x) && ([c] + x == [c] + y <==> x == y)
  {
    assert HASH in [HASH] && PLUS in [PLUS];
    assert ([c] + x)[1..] == x && ([c] + y)[1..] == y;
    assert forall b :: b in x ==> b in [c] + x;
  }

  /** A literal symbol at the front of both moves the question on unchanged. */
  lemma LiteralStep(f: bytes, t: bytes)
    requires f != [] && t != [] && f[0] == t[0] && f[0] != HASH && f[0] != PLUS && ValidFilter(f)
    ensures StandardMatch(f, t) <==> StandardMatch(f[1..], t[1..])
    ensures WildcardAtEmptyEnd(Levels(f), Levels(t)) <==> WildcardAtEmptyEnd(Levels(f[1..]), Levels(t[1..]))
  {
    LevelsCons(f);
    LevelsCons(t);
    var fl, tl, ft, tt := Levels(f), Levels(t), Levels(f[1..]), Levels(t[1..]);
    hide Levels, LevelsMatch, WildcardAtEmptyEnd, Plain;
    if f[0] == SLASH {
      BehindHead([], ft, [], tt);
    } else {
      assert fl[0][0] == f[0] && fl[0] != [HASH] && fl[0] != [PLUS];
      LiteralHead(f[0], ft[0], tt[0]);
      SameBehindHeads(fl, tl, ft, tt);
    }
  }

  lemma LiteralMismatch(f: bytes, t: bytes)
    requires f != [] && t != [] && f[0] != t[0] && f[0] != HASH && f[0] != PLUS
    ensures !StandardMatch(f, t)
  {
    LevelsCons(f);
    LevelsCons(t);
    var fl, tl := Levels(f), Levels(t);
    FirstLevelEmpty(f);
    FirstLevelEmpty(t);
    if f[0] != SLASH {
      assert fl[0][0] == f[0];
      assert fl[0] != [HASH] && fl[0] != [PLUS];
    }
    if t[0] != SLASH { assert tl[0][0] == t[0]; }
  }

  lemma {:induction false} PlusStep(f: bytes, t: bytes)
    requires f != [] && f[0] == PLUS && t != [] && ValidFilter(f)
    ensures Scan(f, t) <==> StandardMatch(f, t) && !WildcardAtEmptyEnd(Levels(f), Levels(t))
    decreases |f| + |t|, 0
  {
    if f == [PLUS] {
      PlusLast(t);
    } else if SkipLevel(t) == [] {
      PlusAtEnd(f, t);
    } else {
      var rest := SkipLevel(t);
      ValidPlus(f);
      SkipDropsLevel(t);
      assert f[1..][1..] == f[2..];
      assert Scan(f[1..], rest) == Scan(f[2..], rest[1..]);
      ScanIsLevelMatch(f[2..], rest[1..]);
      hide *;
      PlusHead(f, t);
    }
  }

  /** '+' takes the first level of a topic that has another one. */
  lemma PlusHead(f: bytes, t: bytes)
    requires |f| >= 2 && t != [] && SkipLevel(t) != []
    requires Levels(f) == [[PLUS]] + Levels(f[2..]) && Levels(t)[1..] == Levels(SkipLevel(t)[1..])
    ensures StandardMatch(f, t) <==> StandardMatch(f[2..], SkipLevel(t)[1..])
    ensures WildcardAtEmptyEnd(Levels(f), Levels(t))
       <==> WildcardAtEmptyEnd(Levels(f[2..]), Levels(SkipLevel(t)[1..]))
  {
    hide Levels, SkipLevel, LevelsMatch, WildcardAtEmptyEnd;
    var tl := Levels(t);
    assert tl == [tl[0]] + tl[1..];
    BehindHead([PLUS], Levels(f[2..]), tl[0], tl[1..]);
  }

  lemma PlusLast(t: bytes)
    requires t != []
    ensures Scan([PLUS], t) <==> StandardMatch([PLUS], t) && !WildcardAtEmptyEnd(Levels([PLUS]), Levels(t))
  {
    LevelsOfOne(PLUS);
    MatchOneLevel([PLUS], Levels(t));
    assert [PLUS][1..] == [];
    FirstLevelEmpty(t);
    SkipDropsLevel(t);
    if SkipLevel(t) != [] {
      assert Levels(t)[1..] != [];
    }
  }

  /** '+' takes the last level of the topic: only "/#" may follow. */
  lemma PlusAtEnd(f: bytes, t: bytes)
    requires f != [] && f[0] == PLUS && f != [PLUS] && t != [] && ValidFilter(f) && SkipLevel(t) == []
    ensures Scan(f, t) <==> StandardMatch(f, t) && !WildcardAtEmptyEnd(Levels(f), Levels(t))
  {
    var fr := Levels(f[2..]);
    ValidPlus(f);
    SkipDropsLevel(t);
    FirstLevelHash(f[2..]);
    assert Scan(f[1..], []) <==> |f| >= 3 && f[2] == HASH;
    hide Levels;
    assert Levels(f)[1..] == fr && Levels(t)[1..] == [];
    assert LevelsMatch(Levels(f), Levels(t)) <==> LevelsMatch(fr, []);
  }

  /** A yes of the code is always a yes of the standard. */
  lemma MatchIsSound(f: bytes, t: bytes)
    requires ValidFilter(f) && Scan(f, t)
    ensures StandardMatch(f, t)
  {
    ScanIsLevelMatch(f, t);
  }

  lemma {:induction false} LastLevelEmpty(t: bytes)
    ensures Levels(t)[|Levels(t)| - 1] == [] <==> t == [] || t[|t| - 1] == SLASH
  {
    if t == [] {
      assert Levels([]) == [[]];
    } else {
      var tail := t[1..];
      LevelsCons(t);
      LastLevelEmpty(tail);
      FirstLevelEmpty(tail);
      SlashAddsLevel(tail);
      var tl, rest := Levels(t), Levels(tail);
      hide Levels;
      assert |tl| > 1 && t[0] != SLASH ==> tl[|tl| - 1] == tl[1..][|tl| - 2] == rest[1..][|tl| - 2];
    }
  }

  /** On a topic that is not empty and does not end in '/', code and standard agree. */
  lemma MatchIsExact(f: bytes, t: bytes)
    requires ValidFilter(f) && t != [] && t[|t| - 1] != SLASH
    ensures Scan(f, t) <==> StandardMatch(f, t)
  {
    ScanIsLevelMatch(f, t);
    LastLevelEmpty(t);
  }

  lemma WildcardMissed(a: byte, w: byte)
    requires a != SLASH && a != PLUS && a != HASH && (w == PLUS || w == HASH)
    ensures ValidFilter([a, SLASH] + [w]) && StandardMatch([a, SLASH] + [w], [a, SLASH])
    ensures !Scan([a, SLASH] + [w], [a, SLASH])
  {
    LevelsOfOne(w);
    TwoLevels(a, [w]);
    TwoLevels(a, []);
    Neutral([a, SLASH]);
    MatchOneLevel([w], [[]]);
    hide Levels, LevelsMatch, Scan, ValidFilter;
    ScanIsLevelMatch([a, SLASH] + [w], [a, SLASH]);
  }

  /** "a/+" and "a/#" against "a/": the standard accepts both, the code neither. */
  lemma EmptyLastLevelMissed()
    ensures ValidFilter(Ascii("a/+")) && StandardMatch(Ascii("a/+"), Ascii("a/")) && !Scan(Ascii("a/+"), Ascii("a/"))
    ensures ValidFilter(Ascii("a/#")) && StandardMatch(Ascii("a/#"), Ascii("a/")) && !Scan(Ascii("a/#"), Ascii("a/"))
  {
    var a: byte := 97;
    assert Ascii("a/+") == [a, SLASH] + [PLUS] && Ascii("a/#") == [a, SLASH] + [HASH] && Ascii("a/") == [a, SLASH];
    hide *;
    WildcardMissed(a, PLUS);
    WildcardMissed(a, HASH);
  }

  lemma TwoLevels(a: byte, w: bytes)
    requires a != SLASH && a != PLUS && a != HASH && (w == [] || w == [PLUS] || w == [HASH])
    ensures Levels([a, SLASH] + w) == [[a], w]
    ensures ValidFilter([a, SLASH] + w)
    ensures forall t :: LevelsMatch([[a], w], [[a], t]) <==> LevelsMatch([w], [t])
  {
    assert ([a, SLASH] + w)[1..] == [SLASH] + w && ([SLASH] + w)[1..] == w;
    if w == [] { assert Levels(w) == [w]; } else { LevelsOfOne(w[0]); }
    assert Levels([SLASH] + w) == [[], w];
    assert [a] + [] == [a] && [[], w][1..] == [w];
    assert Levels([a, SLASH] + w) == [[a], w];
    assert [[a], w][1..] == [w] && forall t: bytes :: [[a], t][1..] == [t];
  }
}
