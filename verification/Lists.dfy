/** What a run of pushes builds. */
module Lists {
  import opened ByteStrings
  import opened Store

  datatype Push<T> = Push(left: bool, values: seq<T>)

  function PushOp(p: Push<RedisObject>): Op {
    if p.left then LPush(p.values) else RPush(p.values)
  }

  /** The store after a run of pushes to one key. */
  function PushAll(s: Store, k: Key, pushes: seq<Push<RedisObject>>): Store {
    if pushes == [] then s
    else
      var n := |pushes| - 1;
      Exec(PushAll(s, k, pushes[..n]), k, PushOp(pushes[n]), 0).0
  }

  /** The values of the LPUSHes, the latest call first. */
  function Lefts<T>(pushes: seq<Push<T>>): seq<T> {
    if pushes == [] then []
    else
      var n := |pushes| - 1;
      (if pushes[n].left then pushes[n].values else []) + Lefts(pushes[..n])
  }

  /** The values of the RPUSHes in call order. */
  function Rights<T>(pushes: seq<Push<T>>): seq<T> {
    if pushes == [] then []
    else
      var n := |pushes| - 1;
      Rights(pushes[..n]) + (if pushes[n].left then [] else pushes[n].values)
  }

  /** What the push that creates the list puts there: LPUSH reverses its values only then. */
  function Seed<T>(p: Push<T>): seq<T> {
    if p.left then Reversed(p.values) else p.values
  }

  /** The list built on a fresh key: later left pushes newest first, the creating push, later right pushes in order. */
  lemma {:induction false} PushedList(s: Store, k: Key, first: Push<RedisObject>, more: seq<Push<RedisObject>>)
    requires At(s, k) == ABSENT
    ensures At(PushAll(s, k, [first] + more), k) == Cell(Some(List(Lefts(more) + Seed(first) + Rights(more))), None)
    decreases |more|
  {
    if more == [] {
      assert [first] + more == [first] && [first][..0] == [];
      assert PushAll(s, k, []) == s;
      PutAt(s, k, CellOp(PushOp(first), ABSENT, 0).0, k);
      assert [] + Seed(first) + [] == Seed(first);
    } else {
      var n := |more| - 1;
      var pushes, init := [first] + more, [first] + more[..n];
      assert pushes[..n + 1] == init && pushes[n + 1] == more[n];
      PushedList(s, k, first, more[..n]);
      PushedSnoc(PushAll(s, k, init), k, more[n], Lefts(more[..n]), Seed(first), Rights(more[..n]));
    }
  }

  lemma PushedSnoc(s: Store, k: Key, p: Push<RedisObject>, lefts: seq<RedisObject>, seed: seq<RedisObject>,
      rights: seq<RedisObject>)
    requires At(s, k) == Cell(Some(List(lefts + seed + rights)), None)
    ensures At(Exec(s, k, PushOp(p), 0).0, k) ==
      var more, after := if p.left then p.values else [], if p.left then [] else p.values;
      Cell(Some(List(more + lefts + seed + (rights + after))), None)
  {
    PutAt(s, k, CellOp(PushOp(p), At(s, k), 0).0, k);
    if p.left {
      assert p.values + (lefts + seed + rights) == p.values + lefts + seed + (rights + []);
    } else {
      assert lefts + seed + rights + p.values == [] + lefts + seed + (rights + p.values);
    }
  }

  function PushedValues(pushes: seq<Push<RedisObject>>): multiset<RedisObject> {
    if pushes == [] then multiset{} else multiset(pushes[0].values) + PushedValues(pushes[1..])
  }

  lemma {:induction false} PushedValuesSnoc(pushes: seq<Push<RedisObject>>, p: Push<RedisObject>)
    ensures PushedValues(pushes + [p]) == PushedValues(pushes) + multiset(p.values)
  {
    if pushes == [] {
      assert pushes + [p] == [p] && [p][1..] == [];
    } else {
      assert (pushes + [p])[1..] == pushes[1..] + [p];
      PushedValuesSnoc(pushes[1..], p);
    }
  }

  lemma {:induction false} ReversedMultiset<T>(s: seq<T>)
    ensures multiset(Reversed(s)) == multiset(s)
    decreases |s|
  {
    if s != [] {
      var n := |s| - 1;
      ReversedMultiset(s[..n]);
      assert s == s[..n] + [s[n]];
      assert Reversed(s) == [s[n]] + Reversed(s[..n]);
    } else {
      assert Reversed(s) == s;
    }
  }

  lemma {:induction false} SidesMultiset(pushes: seq<Push<RedisObject>>)
    ensures multiset(Lefts(pushes)) + multiset(Rights(pushes)) == PushedValues(pushes)
    decreases |pushes|
  {
    if pushes != [] {
      var n := |pushes| - 1;
      SidesMultiset(pushes[..n]);
      assert pushes == pushes[..n] + [pushes[n]];
      PushedValuesSnoc(pushes[..n], pushes[n]);
    }
  }

  lemma PushedMultiset(first: Push<RedisObject>, more: seq<Push<RedisObject>>)
    ensures multiset(Lefts(more) + Seed(first) + Rights(more)) == PushedValues([first] + more)
  {
    hide Lefts, Rights;
    SidesMultiset(more);
    ReversedMultiset(first.values);
    assert ([first] + more)[1..] == more;
  }

  lemma ListSize(list: seq<RedisObject>)
    ensures |multiset(list)| == |list|
  {
  }

  /**
   Nothing pushed to a fresh key is lost, duplicated or invented: LRANGE 0 -1 returns exactly what was
   pushed, if and only if the length is one it can list.
   */
  lemma PushesConserve(s: Store, k: Key, pushes: seq<Push<RedisObject>>, now: Instant)
    requires At(s, k) == ABSENT && pushes != []
    requires |PushedValues(pushes)| <= ISIZE_MAX
    ensures var r := Exec(PushAll(s, k, pushes), k, LRange(0, -1), now).1;
      && r.Value? && r.obj.List?
      && (multiset(r.obj.items) == PushedValues(pushes) <==> FullyListed(|PushedValues(pushes)|))
  {
    hide Range, PushAll, PushedValues, Lefts, Rights, Seed, At, FullyListed;
    var first, more := pushes[0], pushes[1..];
    assert pushes == [first] + more;
    PushedList(s, k, first, more);
    PushedMultiset(first, more);
    var list := Lefts(more) + Seed(first) + Rights(more);
    ListSize(list);
    ListSize(Range(list, 0, -1));
    WholeRange(list);
  }

  /** RPUSH of a concatenation is RPUSH of its parts, on every cell. */
  lemma RPushInParts(c: Cell, a: seq<RedisObject>, b: seq<RedisObject>, now: Instant)
    ensures var one, two := CellOp(RPush(a), c, now), CellOp(RPush(b), CellOp(RPush(a), c, now).0, now);
      CellOp(RPush(a + b), c, now).0 == two.0 && CellOp(RPush(a + b), c, now).1 == one.1 == two.1
  {
    if c.value.Some? && c.value.value.List? {
      assert c.value.value.items + a + b == c.value.value.items + (a + b);
    }
  }
}
