/**
 `MqttClient::match_topic`: two iterators over the characters of a topic and a
 filter, against the level-by-level meaning of `+` and `#` in section 4.7.1 of
 MQTT Version 3.1.1.
 */
module TopicMatch {
  import opened StreamBuffers

  const SLASH: byte := 47
  const PLUS: byte := 43
  const HASH: byte := 35

  // ---------------------------------------------------------------------
  // The standard's reading

  /** The number of characters before the first separator. */
  function LevelLength(s: seq<byte>): (n: nat)
    ensures n <= |s| && (n < |s| ==> s[n] == SLASH)
    ensures forall i :: 0 <= i < n ==> s[i] != SLASH
  {
    if s == [] || s[0] == SLASH then 0 else 1 + LevelLength(s[1..])
  }

  /** The topic levels: at least one, some of them possibly empty. */
  function Levels(s: seq<byte>): (levels: seq<seq<byte>>)
    ensures |levels| >= 1
    decreases |s|
  {
    var n := LevelLength(s);
    if n == |s| then [s] else [s[..n]] + Levels(s[n + 1..])
  }

  /** `+` stands for one level, a final `#` for any number of remaining levels including none. */
  predicate LevelMatch(topic: seq<seq<byte>>, filter: seq<seq<byte>>) {
    if filter == [] then topic == []
    else if filter[0] == [HASH] then true
    else topic != [] && (filter[0] == [PLUS] || filter[0] == topic[0]) && LevelMatch(topic[1..], filter[1..])
  }

  /** Wildcards occupy whole levels, and `#` only the last one. */
  predicate ValidLevels(filter: seq<seq<byte>>) {
    forall i :: 0 <= i < |filter| ==>
      || filter[i] == [PLUS]
      || (filter[i] == [HASH] && i == |filter| - 1)
      || (PLUS !in filter[i] && HASH !in filter[i])
  }

  predicate ValidFilter(filter: seq<byte>) {
    ValidLevels(Levels(filter))
  }

  /** The topic ends in an empty level, and a wildcard of the filter stands in its place. */
  predicate WildcardAtEmptyEnd(topic: seq<seq<byte>>, filter: seq<seq<byte>>)
    requires |topic| >= 1
  {
    var last := |topic| - 1;
    topic[last] == [] && last < |filter| && (filter[last] == [PLUS] || filter[last] == [HASH])
  }

  // ---------------------------------------------------------------------
  // The code's reading

  /** What the loop decides about the rest of the topic and the rest of the filter. */
  predicate CharMatch(topic: seq<byte>, filter: seq<byte>)
    decreases |filter|
  {
    if filter == [] then topic == []
    else if topic == [] then filter[0] == SLASH && |filter| > 1 && filter[1] == HASH
    else if filter[0] == PLUS then CharMatch(topic[LevelLength(topic)..], filter[1..])
    else if filter[0] == HASH then true
    else topic[0] == filter[0] && CharMatch(topic[1..], filter[1..])
  }

  /** The loop over a level that `+` stands for. */
  method SkipLevel(topic: seq<byte>, start: nat) returns (t: nat)
    requires start <= |topic|
    ensures t <= |topic| && t == start + LevelLength(topic[start..])
  {
    t := start;
    while t < |topic| && topic[t] != SLASH
      invariant start <= t <= |topic|
      invariant start + LevelLength(topic[start..]) == t + LevelLength(topic[t..])
    {
      assert topic[t..][1..] == topic[t + 1..];
      t := t + 1;
    }
  }

  /** The loop itself, on any topic and any filter. */
  method MatchTopic(topic: seq<byte>, filter: seq<byte>) returns (matched: bool)
    ensures matched <==> CharMatch(topic, filter)
  {
    var t: nat, f: nat := 0, 0;
    assert topic[0..] == topic && filter[0..] == filter;
    while true
      invariant t <= |topic| && f <= |filter|
      invariant CharMatch(topic, filter) <==> CharMatch(topic[t..], filter[f..])
      decreases |filter| - f
    {
      ghost var restT, restF := topic[t..], filter[f..];
      if f == |filter| {
        return t == |topic|;
      }
      assert restF[1..] == filter[f + 1..];
      if t == |topic| {
        if filter[f] == SLASH {
          f := f + 1;
          if f != |filter| && filter[f] == HASH {
            return true;
          }
        }
        return false;
      }
      assert restT[1..] == topic[t + 1..];
      if filter[f] == PLUS {
        ghost var start := t;
        t := SkipLevel(topic, t);
        assert restT[LevelLength(restT)..] == topic[t..];
        f := f + 1;
      } else if filter[f] == HASH {
        return true;
      } else {
        if topic[t] != filter[f] {
          return false;
        }
        t := t + 1;
        f := f + 1;
      }
    }
  }

  // ---------------------------------------------------------------------

  /** A level and what follows it, which is nothing or begins with a separator. */
  predicate Cut(level: seq<byte>, rest: seq<byte>) {
    SLASH !in level && (rest == [] || rest[0] == SLASH)
  }

  lemma {:induction false} LevelLengthIs(level: seq<byte>, rest: seq<byte>)
    requires Cut(level, rest)
    ensures LevelLength(level + rest) == |level|
  {
    if level == [] {
      assert level + rest == rest;
    } else {
      assert (level + rest)[1..] == level[1..] + rest;
      LevelLengthIs(level[1..], rest);
    }
  }

  /** A level without wildcards matches itself only. */
  lemma {:induction false} LiteralLevel(a: seq<byte>, restA: seq<byte>, b: seq<byte>, restB: seq<byte>)
    requires Cut(a, restA) && Cut(b, restB)
    requires PLUS !in b && HASH !in b
    ensures CharMatch(a + restA, b + restB) <==> a == b && CharMatch(restA, restB)
    decreases |b|
  {
    if b == [] {
      assert b + restB == restB;
      if a == [] {
        assert a + restA == restA;
      }
    } else {
      assert (b + restB)[0] == b[0] && (b + restB)[1..] == b[1..] + restB;
      if a != [] {
        assert (a + restA)[0] == a[0] && (a + restA)[1..] == a[1..] + restA;
        LiteralLevel(a[1..], restA, b[1..], restB);
        assert a == [a[0]] + a[1..] && b == [b[0]] + b[1..];
      } else {
        assert a + restA == restA;
      }
    }
  }

  lemma PlusLevel(a: seq<byte>, restA: seq<byte>, restB: seq<byte>)
    requires Cut(a, restA)
    ensures CharMatch(a + restA, [PLUS] + restB) <==> a + restA != [] && CharMatch(restA, restB)
  {
    LevelLengthIs(a, restA);
    assert (a + restA)[|a|..] == restA;
    assert ([PLUS] + restB)[1..] == restB;
  }

  /** After a matched level, both sides must go on or end together, or the filter must end in `/#`. */
  lemma AfterLevel(restA: seq<byte>, restB: seq<byte>)
    requires restA == [] || restA[0] == SLASH
    requires restB == [] || restB[0] == SLASH
    ensures restA == [] && restB == [] ==> CharMatch(restA, restB)
    ensures restA == [] && restB != [] ==> (CharMatch(restA, restB) <==> |restB| > 1 && restB[1] == HASH)
    ensures restA != [] && restB == [] ==> !CharMatch(restA, restB)
    ensures restA != [] && restB != [] ==> (CharMatch(restA, restB) <==> CharMatch(restA[1..], restB[1..]))
  {
  }

  lemma FirstLevelOf(s: seq<byte>) returns (level: seq<byte>, rest: seq<byte>)
    ensures s == level + rest && Cut(level, rest)
    ensures Levels(s)[0] == level
    ensures rest == [] ==> Levels(s) == [level]
    ensures rest != [] ==> Levels(s) == [level] + Levels(rest[1..]) && |rest| <= |s|
  {
    var n := LevelLength(s);
    level, rest := s[..n], s[n..];
  }

  /** A filter whose first level is `#` consists of it alone. */
  lemma HashIsAlone(filter: seq<byte>)
    requires ValidFilter(filter)
    ensures |filter| > 0 && filter[0] == HASH <==> Levels(filter)[0] == [HASH]
    ensures Levels(filter)[0] == [HASH] ==> filter == [HASH] && Levels(filter) == [[HASH]]
  {
  }

  /**
   The character-level loop decides the level-by-level definition, for every valid
   filter and every topic, except that a wildcard standing for an empty last level
   does not match.
   */
  lemma {:induction false} CharMatchIsLevelMatch(topic: seq<byte>, filter: seq<byte>)
    requires ValidFilter(filter)
    ensures CharMatch(topic, filter) <==>
      LevelMatch(Levels(topic), Levels(filter)) && !WildcardAtEmptyEnd(Levels(topic), Levels(filter))
    decreases |filter|
  {
    var a, restA := FirstLevelOf(topic);
    var b, restB := FirstLevelOf(filter);
    HashIsAlone(filter);
    if b == [HASH] {
      assert CharMatch(topic, filter) <==> topic != [];
      assert topic == [] ==> Levels(topic) == [[]];
    } else {
      if b == [PLUS] {
        PlusLevel(a, restA, restB);
      } else {
        PlainLevel(filter, b);
        LiteralLevel(a, restA, b, restB);
      }
      AfterLevel(restA, restB);
      var nextA, nextB := LevelsAfter(restA), LevelsAfter(restB);
      LevelStep(a, nextA, b, nextB);
      if restB != [] {
        ValidTail(filter, b, restB);
        HashIsAlone(restB[1..]);
        if restA != [] {
          CharMatchIsLevelMatch(restA[1..], restB[1..]);
        }
      }
    }
  }

  function LevelsAfter(rest: seq<byte>): seq<seq<byte>> {
    if rest == [] then [] else Levels(rest[1..])
  }

  lemma PlainLevel(filter: seq<byte>, level: seq<byte>)
    requires ValidFilter(filter) && level == Levels(filter)[0] && level != [PLUS] && level != [HASH]
    ensures PLUS !in level && HASH !in level
  {
  }

  /** The level-by-level definition and the exception, one level on. */
  lemma LevelStep(a: seq<byte>, nextA: seq<seq<byte>>, b: seq<byte>, nextB: seq<seq<byte>>)
    requires b != [HASH]
    ensures LevelMatch([a] + nextA, [b] + nextB) <==> (b == [PLUS] || b == a) && LevelMatch(nextA, nextB)
    ensures nextA == [] ==> (WildcardAtEmptyEnd([a] + nextA, [b] + nextB) <==> a == [] && b == [PLUS])
    ensures nextA != [] ==> (WildcardAtEmptyEnd([a] + nextA, [b] + nextB) <==> WildcardAtEmptyEnd(nextA, nextB))
    ensures nextB != [] ==> (LevelMatch([], nextB) <==> nextB[0] == [HASH])
  {
  }

  lemma ValidTail(filter: seq<byte>, level: seq<byte>, rest: seq<byte>)
    requires ValidFilter(filter) && rest != [] && Levels(filter) == [level] + Levels(rest[1..])
    ensures ValidFilter(rest[1..])
  {
    forall i | 0 <= i < |Levels(rest[1..])|
      ensures Levels(rest[1..])[i] == Levels(filter)[i + 1]
    {
    }
  }

  /** On topics that do not end in an empty level, the code and the standard agree on every valid filter. */
  lemma AgreesWithStandard(topic: seq<byte>, filter: seq<byte>)
    requires ValidFilter(filter)
    ensures topic != [] && topic[|topic| - 1] != SLASH ==>
      (CharMatch(topic, filter) <==> LevelMatch(Levels(topic), Levels(filter)))
  {
    CharMatchIsLevelMatch(topic, filter);
    LastLevel(topic);
  }

  lemma {:induction false} LastLevel(s: seq<byte>)
    ensures Levels(s)[|Levels(s)| - 1] == [] <==> s == [] || s[|s| - 1] == SLASH
    decreases |s|
  {
    hide Levels, LevelLength;
    var level, rest := FirstLevelOf(s);
    if rest == [] {
      assert level == s;
    } else {
      LastLevel(rest[1..]);
      assert s[|s| - 1] == rest[|rest| - 1];
    }
  }

  /**
   The simplest filters: without wildcards, any topic but itself is rejected; `+` stands
   for a nonempty level, `#` for any nonempty topic, and `f/#` for f and all below it.
   */
  lemma SimpleFilters(topic: seq<byte>, f: seq<byte>)
    requires PLUS !in f && HASH !in f
    ensures CharMatch(topic, f) <==> topic == f
    ensures CharMatch(topic, [PLUS]) <==> topic != [] && SLASH !in topic
    ensures CharMatch(topic, [HASH]) <==> topic != []
    ensures CharMatch(topic, f + [SLASH, HASH]) <==> topic == f || (f + [SLASH] <= topic && |topic| > |f| + 1)
  {
    hide CharMatch;
    LiteralPrefix(topic, f, []);
    LiteralPrefix(topic, f, [SLASH, HASH]);
    assert f + [] == f;
    WildcardsAlone(topic);
    if f <= topic {
      WildcardsAlone(topic[|f|..]);
    }
    PrefixAndRest(topic, f);
  }

  lemma PrefixAndRest(topic: seq<byte>, f: seq<byte>)
    ensures f <= topic && topic[|f|..] == [] <==> topic == f
    ensures f <= topic && |topic| > |f| && topic[|f|..][0] == SLASH <==> f + [SLASH] <= topic
  {
    if f <= topic {
      assert topic == f + topic[|f|..];
    }
    if f + [SLASH] <= topic {
      assert topic[..|f|] == (f + [SLASH])[..|f|] == f;
      assert topic[|f|] == (f + [SLASH])[|f|];
    }
  }

  lemma WildcardsAlone(topic: seq<byte>)
    ensures CharMatch(topic, []) <==> topic == []
    ensures CharMatch(topic, [PLUS]) <==> topic != [] && SLASH !in topic
    ensures CharMatch(topic, [HASH]) <==> topic != []
    ensures CharMatch(topic, [SLASH, HASH]) <==> topic == [] || (topic[0] == SLASH && |topic| > 1)
  {
    assert [SLASH, HASH][1..] == [HASH] && [PLUS][1..] == [];
    var n := LevelLength(topic);
    assert topic[n..] == [] <==> n == |topic|;
  }

  /** The characters of a filter before its first wildcard stand for themselves. */
  lemma {:induction false} LiteralPrefix(topic: seq<byte>, f: seq<byte>, rest: seq<byte>)
    requires PLUS !in f && HASH !in f && (rest == [] || rest[0] == SLASH)
    ensures CharMatch(topic, f + rest) <==> f <= topic && CharMatch(topic[|f|..], rest)
    decreases |f|
  {
    if f == [] {
      assert f + rest == rest && topic[0..] == topic;
    } else {
      assert (f + rest)[1..] == f[1..] + rest;
      if topic != [] {
        LiteralPrefix(topic[1..], f[1..], rest);
      }
    }
  }

  /** The two readings differ: the topic `a/` and the filter `a/+`. */
  lemma EmptyEndDiffers()
    ensures var topic, filter := [97, SLASH], [97, SLASH, PLUS];
      ValidFilter(filter) && LevelMatch(Levels(topic), Levels(filter)) && !CharMatch(topic, filter)
  {
    var topic: seq<byte>, filter: seq<byte> := [97, SLASH], [97, SLASH, PLUS];
    LevelLengthIs([97], [SLASH]);
    LevelLengthIs([97], [SLASH, PLUS]);
    LevelLengthIs([PLUS], []);
    assert [97] + [SLASH] == topic && [97] + [SLASH, PLUS] == filter && [PLUS] + [] == [PLUS];
    assert topic[2..] == [] && filter[2..] == [PLUS];
    assert Levels([]) == [[]] && Levels([PLUS]) == [[PLUS]];
    assert Levels(topic) == [[97], []];
    assert Levels(filter) == [[97], [PLUS]];
    CharMatchIsLevelMatch(topic, filter);
    assert LevelMatch([[]], [[PLUS]]);
    assert Levels(topic)[1..] == [[]] && Levels(filter)[1..] == [[PLUS]];
  }
}
