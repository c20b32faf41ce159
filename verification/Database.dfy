/** The store as the server holds it: two maps updated in place, one map call at a time. */
module Database {
  import opened ByteStrings
  import S = Store
  import opened Expiration

  class DB {
    var data: map<S.Key, S.RedisObject>
    var expirations: map<S.Key, S.Instant>

    constructor ()
      ensures State() == S.EMPTY
    {
      data, expirations := map[], map[];
    }

    ghost function State(): S.Store
      reads this
    {
      S.Store(data, expirations)
    }

    method Set(key: S.Key, val: S.RedisObject, expiresAt: Option<S.Instant>)
      modifies this
      ensures State() == S.Exec(old(State()), key, S.Set(val, expiresAt), 0).0
    {
      expirations := expirations - {key};
      data := data[key := val];
      if expiresAt.Some? {
        expirations := expirations[key := expiresAt.value];
      }
    }

    method IsExpired(key: S.Key, now: S.Instant) returns (r: bool)
      ensures r == S.Expired(S.At(State(), key), now)
    {
      if key in expirations {
        return expirations[key] < now;
      }
      return false;
    }

    method Get(key: S.Key, now: S.Instant) returns (r: S.Outcome)
      modifies this
      ensures (State(), r) == S.Exec(old(State()), key, S.Get, now)
    {
      S.PutSame(State(), key);
      if key in expirations {
        var expired := IsExpired(key, now);
        if expired {
          data := data - {key};
          expirations := expirations - {key};
          return S.NIL_VALUE;
        }
      }
      if key in data {
        return S.Value(data[key]);
      }
      return S.NIL_VALUE;
    }

    method Delete(key: S.Key)
      modifies this
      ensures State() == S.Exec(old(State()), key, S.Delete, 0).0
    {
      data := data - {key};
      expirations := expirations - {key};
    }

    method LPush(key: S.Key, values: seq<S.RedisObject>) returns (r: S.Outcome)
      modifies this
      ensures (State(), r) == S.Exec(old(State()), key, S.LPush(values), 0)
    {
      S.PutSame(State(), key);
      if key !in data {
        data := data[key := S.List(S.Reversed(values))];
      } else {
        match data[key]
        case List(list) => data := data[key := S.List(values + list)];
        case Str(_) => return S.Err(S.PUSH_TYPE);
      }
      return S.Done;
    }

    method RPush(key: S.Key, values: seq<S.RedisObject>) returns (r: S.Outcome)
      modifies this
      ensures (State(), r) == S.Exec(old(State()), key, S.RPush(values), 0)
    {
      S.PutSame(State(), key);
      if key !in data {
        data := data[key := S.List(values)];
      } else {
        match data[key]
        case List(list) => data := data[key := S.List(list + values)];
        case Str(_) => return S.Err(S.PUSH_TYPE);
      }
      return S.Done;
    }

    /** The iterator chain of `lrange`: the items whose index lies between the two bounds. */
    method FilterRange(list: seq<S.RedisObject>, lo: nat, hi: nat) returns (vals: seq<S.RedisObject>)
      ensures vals == S.Filtered(list, lo, hi, 0)
    {
      vals := [];
      for i := 0 to |list|
        invariant S.Filtered(list, lo, hi, 0) == vals + S.Filtered(list, lo, hi, i)
      {
        if lo <= i <= hi {
          vals := vals + [list[i]];
        }
      }
    }

    method LRange(key: S.Key, start: int, stop: int, now: S.Instant) returns (r: S.Outcome)
      modifies this
      ensures (State(), r) == S.Exec(old(State()), key, S.LRange(start, stop), now)
    {
      S.PutSame(State(), key);
      if key in expirations {
        var expired := IsExpired(key, now);
        if expired {
          data := data - {key};
          expirations := expirations - {key};
          return S.NIL_VALUE;
        }
      }
      if key !in data {
        return S.NIL_VALUE;
      }
      match data[key]
      case List(list) =>
        var vals := FilterRange(list, S.Bound(start, |list|), S.Bound(stop, |list|));
        return S.Value(S.List(vals));
      case Str(_) => return S.Err(S.RANGE_TYPE);
    }

    method Expire(key: S.Key, at: S.Instant, option: Option<Bytes>) returns (r: S.Outcome)
      modifies this
      ensures (State(), r) == S.Exec(old(State()), key, S.Expire(at, option), 0)
    {
      S.PutSame(State(), key);
      if key !in data {
        return S.Err(S.NOT_FOUND);
      }
      var update := true;
      if option.Some? {
        if option.value == S.NX {
          update := key !in expirations;
        } else if option.value == S.XX {
          update := key in expirations;
        } else if option.value == S.GT {
          update := key in expirations && at > expirations[key];
        } else if option.value == S.LT {
          update := key in expirations && at < expirations[key];
        } else {
          return S.Err(S.BAD_OPTION);
        }
      }
      if update {
        expirations := expirations[key := at];
      }
      return S.Done;
    }

    /** Some keys of the deadline map: an arbitrary iteration order, skipped into at an arbitrary place. */
    method Sample() returns (sampled: seq<S.Key>)
      requires expirations != map[]
      ensures IsSample(expirations, sampled)
      ensures exists order, skip: nat :: IsWindow(expirations, order, skip, sampled)
    {
      var order: seq<S.Key>, rest := [], expirations.Keys;
      while rest != {}
        invariant Distinct(order)
        invariant forall i :: 0 <= i < |order| ==> order[i] in expirations && order[i] !in rest
        invariant rest <= expirations.Keys
        invariant forall k :: k in expirations ==> k in order || k in rest
        invariant order == [] ==> rest == expirations.Keys
        decreases rest
      {
        var k :| k in rest;
        order, rest := order + [k], rest - {k};
      }
      assert expirations.Keys != {};
      var skip :| 0 <= skip < |order|;
      var take := if |order| - skip < SAMPLE_SIZE then |order| - skip else SAMPLE_SIZE;
      sampled := order[skip..skip + take];
      assert IsWindow(expirations, order, skip, sampled);
    }

    /** The loop of the cycle that removes the expired keys of a sample. */
    method PurgeSample(sampled: seq<S.Key>, now: S.Instant) returns (expired: nat)
      requires IsSample(expirations, sampled)
      modifies this
      ensures State() == Remove(old(State()), Dead(old(State()), Round(sampled, now)))
      ensures expired == |Dead(old(State()), Round(sampled, now))|
    {
      hide Purged, Dead, Remove;
      ghost var before := State();
      PurgedNone(before, sampled, now);
      expired := 0;
      for i := 0 to |sampled|
        invariant State() == Purged(before, sampled, i, now)
        invariant expired == |Dead(before, Round(sampled[..i], now))|
      {
        var key := sampled[i];
        PurgedSnoc(before, sampled, i, now);
        if key in expirations && expirations[key] < now {
          data := data - {key};
          expirations := expirations - {key};
          expired := expired + 1;
        }
      }
      PurgedAll(before, sampled, now);
    }

    /** `active_expiration_cycle`, which calls itself again; `clock(tick + i)` is the reading of pass `i`. */
    method ActiveExpirationCycle(clock: nat -> S.Instant, tick: nat) returns (ghost rounds: seq<Round>)
      modifies this
      ensures IsCycle(old(State()), rounds, State())
      ensures forall i :: 0 <= i < |rounds| ==> rounds[i].now == clock(tick + i)
      decreases |expirations|
    {
      hide Dead, Remove, IsSample, OverQuarter, IsCycle, IsWindow;
      var now := clock(tick);
      if |expirations| == 0 {
        CycleNone(State());
        return [];
      }
      var sampled := Sample();
      ghost var before, round := State(), Round(sampled, now);
      var expired := PurgeSample(sampled, now);
      if OverQuarter(expired, |sampled|) {
        PassShrinks(before, round);
        ghost var more := ActiveExpirationCycle(clock, tick + 1);
        CycleCons(before, round, more, State());
        return [round] + more;
      }
      CycleCons(before, round, [], State());
      return [round] + [];
    }
  }
}
