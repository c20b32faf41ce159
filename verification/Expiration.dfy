/** The active expiration cycle as a relation between stores, with its samples and clock readings as data. */
module Expiration {
  import opened ByteStrings
  import opened Store

  const SAMPLE_SIZE: nat := 20

  /** One pass of the cycle: the sampled keys and the clock reading at its start. */
  datatype Round = Round(sample: seq<Key>, now: Instant)

  ghost predicate Distinct(keys: seq<Key>) {
    forall i, j :: 0 <= i < j < |keys| ==> keys[i] != keys[j]
  }

  /** A run of at most twenty consecutive keys in some iteration order of the deadline map. */
  ghost predicate IsSample(exps: map<Key, Instant>, sample: seq<Key>) {
    && 1 <= |sample| <= SAMPLE_SIZE
    && Distinct(sample)
    && forall i :: 0 <= i < |sample| ==> sample[i] in exps
  }

  /** The sampled keys past their deadline. */
  function Dead(s: Store, r: Round): set<Key> {
    set k | k in r.sample && k in s.exps && s.exps[k] < r.now
  }

  function Remove(s: Store, gone: set<Key>): Store {
    Store(s.data - gone, s.exps - gone)
  }

  /** The test on the expired ratio; an empty sample counts as one key. */
  predicate OverQuarter(expired: nat, sampled: nat) {
    var checked := if sampled < 1 then 1 else sampled;
    expired as real / checked as real > 0.25
  }

  lemma QuotientOrder(e: real, c: real)
    requires c > 0.0
    ensures e / c > 0.25 <==> e > 0.25 * c
  {
    var q := e / c;
    assert q * c == e;
    if q > 0.25 {
      ProductOrder(0.25, q, c);
    } else if q < 0.25 {
      ProductOrder(q, 0.25, c);
    }
  }

  lemma ProductOrder(a: real, b: real, c: real)
    requires a < b && c > 0.0
    ensures a * c < b * c
  {
  }

  lemma OverQuarterMeans(expired: nat, sampled: nat)
    requires sampled > 0
    ensures OverQuarter(expired, sampled) <==> 4 * expired > sampled
  {
    QuotientOrder(expired as real, sampled as real);
  }

  /** More than a quarter of the sample was expired. */
  predicate RunsAgain(s: Store, r: Round) {
    OverQuarter(|Dead(s, r)|, |r.sample|)
  }

  /** The passes of one call of the cycle, from `before` to `after`. */
  ghost predicate IsCycle(before: Store, rounds: seq<Round>, after: Store)
    decreases |rounds|
  {
    if before.exps == map[] then rounds == [] && after == before
    else
      && rounds != []
      && IsSample(before.exps, rounds[0].sample)
      && var next := Remove(before, Dead(before, rounds[0]));
         if RunsAgain(before, rounds[0]) then IsCycle(next, rounds[1..], after)
         else |rounds| == 1 && after == next
  }

  lemma CycleNone(s: Store)
    requires |s.exps| == 0
    ensures IsCycle(s, [], s)
  {
  }

  /** A pass in front of the passes of the call it makes, or alone. */
  lemma CycleCons(before: Store, r: Round, more: seq<Round>, after: Store)
    requires before.exps != map[] && IsSample(before.exps, r.sample)
    requires var next := Remove(before, Dead(before, r));
             if RunsAgain(before, r) then IsCycle(next, more, after) else more == [] && after == next
    ensures IsCycle(before, [r] + more, after)
  {
    assert ([r] + more)[1..] == more;
  }

  lemma RemoveAt(s: Store, gone: set<Key>, k: Key)
    ensures At(Remove(s, gone), k) == if k in gone then ABSENT else At(s, k)
  {
  }

  /** The store after the first `i` keys of a sample were looked at. */
  function Purged(s: Store, sample: seq<Key>, i: nat, now: Instant): Store
    requires i <= |sample|
  {
    Remove(s, Dead(s, Round(sample[..i], now)))
  }

  lemma DeadSnoc(s: Store, sample: seq<Key>, i: nat, now: Instant)
    requires i < |sample| && IsSample(s.exps, sample)
    ensures var k, gone := sample[i], Dead(s, Round(sample[..i], now));
            k !in gone && Dead(s, Round(sample[..i + 1], now)) == gone + (if s.exps[k] < now then {k} else {})
  {
    assert sample[..i + 1] == sample[..i] + [sample[i]];
  }

  /** Looking at one key more. */
  lemma PurgedSnoc(s: Store, sample: seq<Key>, i: nat, now: Instant)
    requires i < |sample| && IsSample(s.exps, sample)
    ensures var k, t := sample[i], Purged(s, sample, i, now);
      && k in t.exps
      && Purged(s, sample, i + 1, now) == (if t.exps[k] < now then Store(t.data - {k}, t.exps - {k}) else t)
      && |Dead(s, Round(sample[..i + 1], now))| == |Dead(s, Round(sample[..i], now))| + if t.exps[k] < now then 1 else 0
  {
    DeadSnoc(s, sample, i, now);
    var k, gone := sample[i], Dead(s, Round(sample[..i], now));
    RemoveTwice(s, gone, k);
    RemoveAt(s, gone, k);
    assert At(s, k).deadline == Some(s.exps[k]);
    assert |gone + {k}| == |gone| + 1;
    assert gone + {} == gone;
  }

  lemma PurgedNone(s: Store, sample: seq<Key>, now: Instant)
    ensures Purged(s, sample, 0, now) == s && |Dead(s, Round(sample[..0], now))| == 0
  {
    assert Dead(s, Round(sample[..0], now)) == {};
    assert s.data - {} == s.data && s.exps - {} == s.exps;
  }

  lemma PurgedAll(s: Store, sample: seq<Key>, now: Instant)
    ensures Purged(s, sample, |sample|, now) == Remove(s, Dead(s, Round(sample, now)))
    ensures Dead(s, Round(sample[..|sample|], now)) == Dead(s, Round(sample, now))
  {
    assert sample[..|sample|] == sample;
  }

  lemma RemoveTwice(s: Store, gone: set<Key>, k: Key)
    ensures Remove(s, gone + {k}) == Store(Remove(s, gone).data - {k}, Remove(s, gone).exps - {k})
  {
    assert s.data - (gone + {k}) == s.data - gone - {k};
    assert s.exps - (gone + {k}) == s.exps - gone - {k};
  }

  lemma {:induction false} SubsetSize<T>(a: set<T>, b: set<T>)
    requires a <= b
    ensures |a| <= |b|
    decreases b
  {
    if a != {} {
      var x :| x in a;
      SubsetSize(a - {x}, b - {x});
    }
  }

  /** A pass that runs again has removed at least one deadline. */
  lemma PassShrinks(s: Store, r: Round)
    requires IsSample(s.exps, r.sample) && RunsAgain(s, r)
    ensures |Remove(s, Dead(s, r)).exps| < |s.exps|
  {
    var gone := Dead(s, r);
    OverQuarterMeans(|gone|, |r.sample|);
    var k :| k in gone;
    var left := Remove(s, gone).exps;
    assert left.Keys == s.exps.Keys - gone;
    SubsetSize(left.Keys, s.exps.Keys - {k});
    assert |left| == |left.Keys| && |s.exps| == |s.exps.Keys|;
  }

  /** A call makes no more passes than there are deadlines, plus one. */
  lemma {:induction false} CycleTerminates(before: Store, rounds: seq<Round>, after: Store)
    requires IsCycle(before, rounds, after)
    ensures |rounds| <= |before.exps| + 1
    decreases |rounds|
  {
    if before.exps != map[] && RunsAgain(before, rounds[0]) {
      PassShrinks(before, rounds[0]);
      CycleTerminates(Remove(before, Dead(before, rounds[0])), rounds[1..], after);
    }
  }

  /** Whatever the samples, a key is either untouched in both maps or was past its deadline and is gone from both. */
  lemma {:induction false} CycleRemovesOnlyExpired(before: Store, rounds: seq<Round>, after: Store,
      latest: Instant, k: Key)
    requires IsCycle(before, rounds, after)
    requires forall i :: 0 <= i < |rounds| ==> rounds[i].now <= latest
    ensures At(after, k) == At(before, k) || (At(after, k) == ABSENT && Expired(At(before, k), latest))
    decreases |rounds|
  {
    if before.exps != map[] {
      var gone := Dead(before, rounds[0]);
      RemoveAt(before, gone, k);
      if RunsAgain(before, rounds[0]) {
        CycleRemovesOnlyExpired(Remove(before, gone), rounds[1..], after, latest, k);
      }
    }
  }

  /** The state the last pass of a call starts from. */
  ghost function LastPass(before: Store, rounds: seq<Round>, after: Store): Store
    requires IsCycle(before, rounds, after) && rounds != []
    decreases |rounds|
  {
    if |rounds| == 1 then before
    else LastPass(Remove(before, Dead(before, rounds[0])), rounds[1..], after)
  }

  /** A call stops only with no deadline left or after a sample at most a quarter of which was expired. */
  lemma {:induction false} CycleStops(before: Store, rounds: seq<Round>, after: Store)
    requires IsCycle(before, rounds, after)
    ensures after.exps != map[] ==>
      && rounds != []
      && var last := rounds[|rounds| - 1];
         4 * |Dead(LastPass(before, rounds, after), last)| <= |last.sample|
    decreases |rounds|
  {
    if before.exps != map[] {
      OverQuarterMeans(|Dead(before, rounds[0])|, |rounds[0].sample|);
      if RunsAgain(before, rounds[0]) {
        CycleStops(Remove(before, Dead(before, rounds[0])), rounds[1..], after);
      }
    }
  }

  /** The store after the passes of a cycle. */
  function AfterRounds(s: Store, rounds: seq<Round>): Store
    decreases |rounds|
  {
    if rounds == [] then s else AfterRounds(Remove(s, Dead(s, rounds[0])), rounds[1..])
  }

  lemma {:induction false} CycleIsRounds(before: Store, rounds: seq<Round>, after: Store)
    requires IsCycle(before, rounds, after)
    ensures after == AfterRounds(before, rounds)
    decreases |rounds|
  {
    hide Dead, Remove, OverQuarter;
    if before.exps != map[] && RunsAgain(before, rounds[0]) {
      CycleIsRounds(Remove(before, Dead(before, rounds[0])), rounds[1..], after);
    }
  }

  // ---- Samples ----

  /** Up to twenty keys in a row, from some offset of some iteration order of the deadline map. */
  ghost predicate IsWindow(exps: map<Key, Instant>, order: seq<Key>, skip: nat, sample: seq<Key>) {
    && Distinct(order) && (forall k :: k in order <==> k in exps) && skip < |order|
    && sample == order[skip..if |order| - skip < 20 then |order| else skip + 20]
  }

  lemma {:induction false} Enumerate(keys: set<Key>) returns (order: seq<Key>)
    ensures Distinct(order) && forall k :: k in order <==> k in keys
    decreases keys
  {
    order := [];
    if keys != {} {
      var k :| k in keys;
      var rest := Enumerate(keys - {k});
      order := rest + [k];
    }
  }

  /** The samples the cycle can draw are exactly these windows. */
  lemma SampleExactly(exps: map<Key, Instant>, sample: seq<Key>)
    ensures IsSample(exps, sample) <==> exists order, skip: nat :: IsWindow(exps, order, skip, sample)
  {
    if IsSample(exps, sample) {
      var drawn := set k | k in sample;
      var rest := Enumerate(exps.Keys - drawn);
      var order := rest + sample;
      assert order[|rest|..] == sample;
      assert forall k :: k in order <==> k in rest || k in sample;
      forall i | 0 <= i < |rest| ensures rest[i] !in sample {
        assert rest[i] in rest && rest[i] in exps.Keys - drawn;
      }
      assert Distinct(order);
      assert IsWindow(exps, order, |rest|, sample);
    }
    forall order, skip: nat | IsWindow(exps, order, skip, sample) ensures IsSample(exps, sample) {
      assert forall i :: 0 <= i < |sample| ==> sample[i] == order[skip + i] && sample[i] in order;
    }
  }
}
