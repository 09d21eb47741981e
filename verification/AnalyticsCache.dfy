/**
  The TTL cache in front of the analytics repository (infra/cache/analytics_cache.go), for the
  summary: an entry is stored under the cache key of the requested field set, read while it has not
  expired, and expired entries are swept at most once a minute when a new one is stored.

  Calls are one after the other. Times are nanoseconds since Go's zero time.
 */
module AnalyticsCache {
  import opened Wrappers
  import opened AnalyticsSummary
  import F = FieldSet

  /** cacheSweepInterval: one minute. */
  const SWEEP_INTERVAL := 60_000_000_000

  datatype Entry = Entry(val: Summary, expires: int)

  /** A computation by the inner repository: what for, from which database state, with what result, finished when. */
  datatype Computation = Computation(fields: F.FieldSet, db: Snapshot, val: Summary, at: int)

  /** The entries that have not expired. */
  function Live(entries: map<string, Entry>, now: int): map<string, Entry> {
    map k | k in entries && now < entries[k].expires :: entries[k]
  }

  /** Every requested field of the result has its true value in the database state it was computed from. */
  ghost predicate Correct(c: Computation, nameOf: Field -> string) {
    forall f :: Requested(Request(c.fields, nameOf), f) ==> ValueOf(c.val, f) == TrueValue(c.db, f)
  }

  /** Entry `e` under key `k` holds the result of computation `c`. */
  ghost predicate HoldsResult(k: string, e: Entry, c: Computation, ttl: int) {
    F.IsKey(c.fields, k) && e == Entry(c.val, c.at + ttl)
  }

  class CachedAnalyticsRepository {
    const summaryTTL: int
    const nameOf: Field -> string
    var summaryEntries: map<string, Entry>
    var summaryLastSweep: int
    /** All computations so far; the first `invalidated` of them were invalidated. */
    ghost var computed: seq<Computation>
    ghost var invalidated: nat

    /** The computations since the last invalidation. */
    ghost function Recent(): seq<Computation>
      reads this
    {
      if invalidated <= |computed| then computed[invalidated..] else []
    }

    ghost predicate Valid()
      reads this
    {
      && invalidated <= |computed|
      && (forall c :: c in Recent() ==> F.PlainFields(c.fields) && Correct(c, nameOf))
      && (forall k :: k in summaryEntries ==>
            exists c :: c in Recent() && HoldsResult(k, summaryEntries[k], c, summaryTTL))
    }

    constructor (summaryTTL: int, nameOf: Field -> string)
      ensures Valid() && computed == [] && summaryEntries == map[] && summaryLastSweep == 0 && invalidated == 0
      ensures this.summaryTTL == summaryTTL && this.nameOf == nameOf
    {
      this.summaryTTL := summaryTTL;
      this.nameOf := nameOf;
      summaryEntries := map[];
      summaryLastSweep := 0;
      computed := [];
      invalidated := 0;
    }

    /** InvalidateSummary: no entry is left, so nothing computed before can be returned afterwards. */
    method InvalidateSummary()
      requires Valid()
      modifies this`summaryEntries, this`invalidated
      ensures Valid() && summaryEntries == map[] && invalidated == |computed| && Recent() == []
    {
      summaryEntries := map[];
      invalidated := |computed|;
    }

    /** sweepExpired: deletes exactly the expired entries, at most once in an interval. */
    method SweepExpired(now: int)
      modifies this`summaryEntries, this`summaryLastSweep
      ensures if now - old(summaryLastSweep) < SWEEP_INTERVAL
              then summaryEntries == old(summaryEntries) && summaryLastSweep == old(summaryLastSweep)
              else summaryEntries == Live(old(summaryEntries), now) && summaryLastSweep == now
      // No entry is lost before it has expired, and a sweep leaves no expired one.
      ensures forall k :: k in summaryEntries ==>
                k in old(summaryEntries) && summaryEntries[k] == old(summaryEntries)[k]
      ensures forall k :: k in old(summaryEntries) && k !in summaryEntries ==> old(summaryEntries)[k].expires <= now
      ensures now - old(summaryLastSweep) >= SWEEP_INTERVAL ==>
                forall k :: k in summaryEntries ==> now < summaryEntries[k].expires
    {
      if now - summaryLastSweep < SWEEP_INTERVAL {
        return;
      }
      summaryLastSweep := now;
      ghost var before := summaryEntries;
      var rest := summaryEntries.Keys;
      while rest != {}
        invariant summaryLastSweep == now && rest <= before.Keys
        invariant forall k :: k in summaryEntries <==> k in before && (k in rest || now < before[k].expires)
        invariant forall k :: k in summaryEntries ==> summaryEntries[k] == before[k]
        decreases |rest|
      {
        var k :| k in rest;
        if !(now < summaryEntries[k].expires) {
          summaryEntries := summaryEntries - {k};
        }
        rest := rest - {k};
      }
      assert summaryEntries == Live(before, now);
    }

    /** The end of a miss: the result of computation `c`, finished at `done`, is stored under its key. */
    method Store(key: string, val: Summary, done: int, ghost c: Computation)
      requires Valid() && F.IsKey(c.fields, key) && F.PlainFields(c.fields) && Correct(c, nameOf)
      requires c.val == val && c.at == done
      modifies this
      ensures Valid() && invalidated == old(invalidated)
      ensures computed == old(computed) + [c] && c in Recent()
      ensures var stored := old(summaryEntries)[key := Entry(val, done + summaryTTL)];
              summaryEntries == if done - old(summaryLastSweep) < SWEEP_INTERVAL then stored else Live(stored, done)
    {
      ghost var before, recent := summaryEntries, Recent();
      computed := computed + [c];
      summaryEntries := summaryEntries[key := Entry(val, done + summaryTTL)];
      assert Recent() == recent + [c];
      Extended(before, recent, key, c);
      SweepExpired(done);
    }

    /**
      GetAnalyticsSummary. The cache is read at `asked`; on a miss the inner repository reads the
      database state `db` and is finished at `done`. `infra` are the in-memory metrics at return.
      `source` is the computation the answer comes from.
     */
    method GetAnalyticsSummary(fields: F.FieldSet, asked: int, db: Snapshot, done: int, infra: Infra)
      returns (r: Result<Summary, DbError>, ghost source: Computation)
      requires Valid() && F.PlainFields(fields)
      modifies this
      ensures Valid() && invalidated == old(invalidated)
      // Every answer comes from a computation for the same fields since the last invalidation, either now
      // or less than one TTL ago.
      ensures r.Success? ==> source in Recent() && F.SameWants(source.fields, fields)
      ensures r.Success? ==> asked < source.at + summaryTTL || source == Computation(fields, db, r.value, done)
      // On the requested fields it is that computation's result, which is true of its database state.
      ensures r.Success? ==> AgreeOn(Request(fields, nameOf), r.value, source.val)
      ensures r.Success? ==>
                forall f :: Requested(Request(fields, nameOf), f) ==> ValueOf(r.value, f) == TrueValue(source.db, f)
      // A hit returns an unexpired entry.
      ensures r.Success? && computed == old(computed) ==>
                source in old(Recent())
                && exists k :: F.IsKey(fields, k) && k in old(summaryEntries) && asked < old(summaryEntries)[k].expires
                               && HoldsResult(k, old(summaryEntries)[k], source, summaryTTL)
      // The in-memory metrics are always fresh.
      ensures r.Success? ==> r.value.infra == infra
      // It fails only when there is no unexpired entry and a needed query fails.
      ensures r.Failure? ==>
                && (exists q :: NeededFails(Request(fields, nameOf), db, q))
                && exists k :: F.IsKey(fields, k)
                               && (k in old(summaryEntries) ==> old(summaryEntries)[k].expires <= asked)
      // A hit changes nothing; a failure is never stored; a miss stores its result.
      ensures r.Failure? ==> summaryEntries == old(summaryEntries) && computed == old(computed)
      ensures (&& computed == old(computed) && summaryEntries == old(summaryEntries)
               && summaryLastSweep == old(summaryLastSweep))
           || (r.Success? && source == Computation(fields, db, r.value, done) && computed == old(computed) + [source])
      ensures computed != old(computed) ==>
                exists k :: F.IsKey(fields, k) && (k in old(summaryEntries) ==> old(summaryEntries)[k].expires <= asked)
                  && var stored := old(summaryEntries)[k := Entry(r.value, done + summaryTTL)];
                     summaryEntries
                     == if done - old(summaryLastSweep) < SWEEP_INTERVAL then stored else Live(stored, done)
    {
      var key := F.CacheKey(fields);
      if key in summaryEntries && asked < summaryEntries[key].expires {
        var e := summaryEntries[key];
        source :| source in Recent() && HoldsResult(key, e, source, summaryTTL);
        SameRequest(fields, source.fields, key);
        r := Success(e.val.(infra := infra));
        assert forall f :: ValueOf(r.value, f) == ValueOf(e.val, f);
        return;
      }
      var val := AnalyticsSummary.GetAnalyticsSummary(Request(fields, nameOf), db, infra);
      if val.Failure? {
        r := val;
        source := Computation(fields, db, Summary(map[], _ => 0.0, [], infra), done);
        return;
      }
      source := Computation(fields, db, val.value, done);
      F.SameWantsSameFields(fields, fields);
      Store(key, val.value, done, source);
      r := val;
    }

    lemma Extended(before: map<string, Entry>, recent: seq<Computation>, key: string, c: Computation)
      requires invalidated <= |computed| && Recent() == recent + [c]
      requires F.IsKey(c.fields, key) && F.PlainFields(c.fields) && Correct(c, nameOf)
      requires summaryEntries == before[key := Entry(c.val, c.at + summaryTTL)]
      requires forall d :: d in recent ==> F.PlainFields(d.fields) && Correct(d, nameOf)
      requires forall k :: k in before ==> exists d :: d in recent && HoldsResult(k, before[k], d, summaryTTL)
      ensures Valid()
    {
      forall k | k in summaryEntries
        ensures exists d :: d in Recent() && HoldsResult(k, summaryEntries[k], d, summaryTTL)
      {
        if k == key {
          assert c in Recent() && HoldsResult(k, summaryEntries[k], c, summaryTTL);
        } else {
          var d :| d in recent && HoldsResult(k, before[k], d, summaryTTL);
          assert d in Recent();
        }
      }
    }
  }

  /** Two plain field sets under one key want the same. */
  lemma SameRequest(a: F.FieldSet, b: F.FieldSet, key: string)
    requires F.PlainFields(a) && F.PlainFields(b) && F.IsKey(a, key) && F.IsKey(b, key)
    ensures a == b && F.SameWants(b, a)
  {
    F.EqualKeysEqualFields(a, b, key);
    F.SameWantsSameFields(a, b);
  }
}
