/** A token bucket per key, created on first use and evicted when idle. */
module KeyedLimit {
  import opened RateLimit

  /** A bucket and the time it was last asked for. */
  datatype Held = Held(bucket: Bucket, lastAccess: int)

  type Buckets = map<string, Held>

  /** The buckets once that of `key` was asked for, a full one made if missing. */
  function Asked(r: Rate, buckets: Buckets, key: string, now: int): Buckets {
    buckets[key := Held(BucketOf(r, buckets, key, now), now)]
  }

  function BucketOf(r: Rate, buckets: Buckets, key: string, now: int): Bucket {
    if key in buckets then buckets[key].bucket else Fresh(r, now)
  }

  /** The buckets asked for within the last `ttl` nanoseconds. */
  function Swept(buckets: Buckets, ttl: int, now: int): Buckets {
    map k | k in buckets && now - buckets[k].lastAccess <= ttl :: buckets[k]
  }

  lemma SameMap(a: Buckets, b: Buckets)
    requires a.Keys == b.Keys && forall k | k in a :: a[k] == b[k]
    ensures a == b
  {}

  class KeyedBucket {
    const lim: Limiter
    var lastAccess: int

    constructor (lim: Limiter, now: int)
      ensures this.lim == lim && lastAccess == now
    {
      this.lim := lim;
      lastAccess := now;
    }
  }

  class KeyedLimiter {
    const rate: Rate
    const idleTTL: int
    var limiters: map<string, KeyedBucket>

    ghost predicate Valid()
      reads this, limiters.Values, set b | b in limiters.Values :: b.lim
    {
      && rate.burst >= 1
      && (forall k | k in limiters :: limiters[k].lim.Valid() && limiters[k].lim.rate == rate)
      && (forall k, l | k in limiters && l in limiters && k != l ::
            limiters[k] != limiters[l] && limiters[k].lim != limiters[l].lim)
    }

    ghost function View(): Buckets
      reads this, limiters.Values, set b | b in limiters.Values :: b.lim
    {
      map k | k in limiters :: Held(limiters[k].lim.State(), limiters[k].lastAccess)
    }

    constructor (every: int, burst: int, idleTTL: int)
      ensures Valid() && View() == map[]
      ensures rate == Rate(every, if burst < 1 then 1 else burst) && this.idleTTL == idleTTL
    {
      rate := Rate(every, if burst < 1 then 1 else burst);
      this.idleTTL := idleTTL;
      limiters := map[];
    }

    /** A new bucket for a key that has none. */
    method MakeBucket(key: string, now: int)
      requires Valid() && key !in limiters
      modifies this`limiters
      ensures Valid() && limiters.Keys == old(limiters).Keys + {key}
      ensures forall k | k in old(limiters) :: limiters[k] == old(limiters)[k]
      ensures fresh(limiters[key]) && fresh(limiters[key].lim)
      ensures View() == old(View())[key := Held(Fresh(rate, now), now)]
    {
      hide Limiter.Valid, Limiter.State;
      var l := new Limiter(rate.every, rate.burst, now);
      var b := new KeyedBucket(l, now);
      limiters := limiters[key := b];
      ghost var made := old(View())[key := Held(Fresh(rate, now), now)];
      forall k | k in View() ensures View()[k] == made[k] {}
      SameMap(View(), made);
    }

    /** The limiter of `key`, made if missing; `now` is the clock inside the lock. */
    method BucketFor(key: string, now: int) returns (lim: Limiter)
      requires Valid()
      modifies this`limiters, limiters.Values
      ensures Valid() && key in limiters && limiters[key].lim == lim
      ensures limiters.Keys == old(limiters).Keys + {key}
      ensures forall k | k in old(limiters) :: limiters[k] == old(limiters)[k]
      ensures key !in old(limiters) ==> fresh(limiters[key]) && fresh(lim)
      ensures View() == Asked(rate, old(View()), key, now)
      ensures View() == old(View())[key := Held(if key in old(View()) then old(View())[key].bucket
                                                else Bucket(rate.burst as real, now), now)]
    {
      hide Limiter.Valid, Limiter.State;
      if key !in limiters {
        MakeBucket(key, now);
      }
      limiters[key].lastAccess := now;
      lim := limiters[key].lim;
      ghost var asked := Asked(rate, old(View()), key, now);
      forall k | k in View() ensures View()[k] == asked[k] {}
      SameMap(View(), asked);
    }

    /** Drops every bucket not asked for in longer than idleTTL, and no other. */
    method EvictIdle(now: int)
      requires Valid()
      modifies this`limiters
      ensures Valid()
      ensures View() == Swept(old(View()), idleTTL, now)
      ensures forall k :: k in View() <==> k in old(View()) && !(now - old(View())[k].lastAccess > idleTTL)
      ensures forall k | k in View() :: View()[k] == old(View())[k]
    {
      hide Limiter.Valid, Limiter.State;
      ghost var all := limiters;
      var keys := limiters.Keys;
      while keys != {}
        invariant keys <= limiters.Keys <= all.Keys
        invariant forall k | k in limiters :: limiters[k] == all[k]
        invariant forall k | k in all :: k in limiters <==> k in keys || now - all[k].lastAccess <= idleTTL
        decreases |keys|
      {
        var k :| k in keys;
        keys := keys - {k};
        if now - limiters[k].lastAccess > idleTTL {
          limiters := limiters - {k};
        }
      }
      ghost var swept := Swept(old(View()), idleTTL, now);
      forall k | k in View() ensures k in swept && View()[k] == swept[k] {}
      SameMap(View(), swept);
    }

    /** A caller waiting on the bucket it was given. */
    method WaitOn(key: string, lim: Limiter, cancelled: bool, wakes: seq<int>) returns (ok: bool, ghost attempts: nat)
      requires Valid() && key in limiters && limiters[key].lim == lim && Clock(lim.last, wakes)
      modifies lim
      ensures Valid() && limiters == old(limiters)
      ensures var b := old(View())[key].bucket;
              && Waited(rate, b, cancelled, wakes, ok, attempts)
              && View() == old(View())[key := Held(AfterWait(rate, b, wakes, attempts), limiters[key].lastAccess)]
    {
      hide Waited, AfterWait, Limiter.Valid;
      ok, attempts := lim.Wait(cancelled, wakes);
      hide Limiter.State;
      ghost var waited := old(View())[key := Held(lim.State(), limiters[key].lastAccess)];
      forall k | k in View() ensures View()[k] == waited[k] {}
      SameMap(View(), waited);
    }

    /** WaitKey for a caller alone with the limiter: it touches the bucket of its key only, and takes
        from it as `Limiter.Wait` does. */
    method WaitKey(key: string, now: int, cancelled: bool, wakes: seq<int>) returns (ok: bool, ghost attempts: nat)
      requires Valid()
      requires Clock(now, wakes) && (key in limiters ==> limiters[key].lim.last <= now)
      modifies this`limiters, limiters.Values, set b | b in limiters.Values :: b.lim
      ensures Valid()
      ensures var b := BucketOf(rate, old(View()), key, now);
              && Waited(rate, b, cancelled, wakes, ok, attempts)
              && View() == Asked(rate, old(View()), key, now)[key := Held(AfterWait(rate, b, wakes, attempts), now)]
    {
      hide Waited, AfterWait, Limiter.Valid;
      var lim := BucketFor(key, now);
      ghost var asked := View();
      assert lim.State() == asked[key].bucket && limiters[key].lastAccess == asked[key].lastAccess;
      ok, attempts := WaitOn(key, lim, cancelled, wakes);
    }
  }
}
