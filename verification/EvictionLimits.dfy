/** Exactly which sweeps of the keyed limiter can be noticed, and why no idle time is long enough. */
module EvictionLimits {
  import opened Wrappers
  import opened RateLimit
  import opened Eviction

  // ---- one bucket replaced

  lemma {:induction false} BurstAtOnce(r: Rate, b: Bucket, now: int, n: nat)
    requires r.Limited() && Holds(r, b) && b.last == now && b.tokens >= n as real
    ensures Count(Results(r, b, seq(n, _ => now))) == n
    decreases n
  {
    if n > 0 {
      var ts := seq(n, _ => now);
      assert ts[1..] == seq(n - 1, _ => now);
      PolledHolds(r, b, now);
      BurstAtOnce(r, Polled(r, b, now), now, n - 1);
      assert Results(r, b, ts)[1..] == Results(r, Polled(r, b, now), ts[1..]);
    }
  }

  lemma FullIsUnnoticed(r: Rate, b: Bucket, now: int, ts: seq<int>)
    requires r.Limited() && FullBy(r, b, now) && Clock(now, ts)
    ensures Results(r, b, ts) == Results(r, Fresh(r, now), ts)
  {
    if ts != [] {
      FreshIsFull(r, now);
      FullStays(r, b, now, ts[0]);
      FullStays(r, Fresh(r, now), now, ts[0]);
      FullBucketsAgree(r, b, Fresh(r, now), ts[0]);
    }
  }

  /** A bucket that is not full cannot grant a burst at once. */
  lemma NotFullIsNoticed(r: Rate, b: Bucket, now: int)
    requires r.Limited() && Holds(r, b) && b.last <= now && !FullBy(r, b, now)
    ensures var ts := seq(r.burst, _ => now);
            Clock(now, ts) && Results(r, b, ts) != Results(r, Fresh(r, now), ts)
  {
    var ts := seq(r.burst, _ => now);
    FreshIsFull(r, now);
    BurstAtOnce(r, Fresh(r, now), now, r.burst);
    GrantsFromStart(r, b, ts);
    assert ts[0] == now && ts[|ts| - 1] == now;
    assert Gain(r, 0) == 0.0;
  }

  /** Replacing a bucket nobody waits on by a fresh one goes unnoticed if and only if the bucket
      was full by then. */
  lemma ReplaceUnnoticedIff(r: Rate, b: Bucket, now: int)
    requires r.Limited() && Holds(r, b) && b.last <= now
    ensures (forall ts | Clock(now, ts) :: Results(r, b, ts) == Results(r, Fresh(r, now), ts)) <==> FullBy(r, b, now)
  {
    if FullBy(r, b, now) {
      forall ts | Clock(now, ts) ensures Results(r, b, ts) == Results(r, Fresh(r, now), ts) {
        FullIsUnnoticed(r, b, now, ts);
      }
    } else {
      NotFullIsNoticed(r, b, now);
    }
  }

  /** Replacing a bucket somebody waits on is always noticed, full or not: a burst of newcomers and the
      one who waits get more at once than the bucket would have granted them all. */
  lemma HeldIsNoticed(r: Rate, b: Bucket, now: int)
    requires r.Limited() && Holds(r, b) && b.last <= now
    ensures Count(Results(r, b, seq(r.burst + 1, _ => now))) <
            Count(Results(r, Fresh(r, now), seq(r.burst, _ => now))) + Count(Results(r, b, [now]))
  {
    hide Grants, Polled;
    var ts := seq(r.burst + 1, _ => now);
    FreshIsFull(r, now);
    BurstAtOnce(r, Fresh(r, now), now, r.burst);
    GrantsFromStart(r, b, ts);
    assert ts[0] == now && ts[|ts| - 1] == now;
    assert Gain(r, 0) == 0.0;
    OneResult(r, b, now);
    GrantsMeans(r, b, now);
  }

  lemma GrantsMeans(r: Rate, b: Bucket, now: int)
    requires r.every > 0
    ensures Grants(r, b, now) <==> Refilled(r, b, now) >= 1.0
  {}

  // ---- runs that show a difference

  /** A run whose sweeps take buckets nobody waits on, and such as meet the condition, and in which the
      answers to `key` are not those of the bucket `b` without sweeps. */
  ghost predicate Noticed(r: Rate, ttl: int, k: Keyed, steps: seq<Step>, now: int,
                          key: string, b: Bucket, may: Condition)
    requires r.every > 0
  {
    && Possible(r, ttl, k, steps, now)
    && Swept(r, ttl, k, steps, now, may)
    && var answers := Run(r, ttl, k, steps, now);
       Granted(answers, key) != Results(r, b, Times(answers, key))
  }

  lemma NoticedAfter(r: Rate, ttl: int, k: Keyed, step: Step, rest: seq<Step>, now: int,
                     key: string, b: Bucket, may: Condition)
    requires r.every > 0 && Enabled(k, step) && now <= Time(step, now)
    requires step.Sweep? ==> Sweeps(ttl, k, step.tick, step.now, may)
    requires step.Attempt? ==> k.waiting[step.caller].key == key
    requires var b' := if step.Attempt? then Polled(r, b, step.now) else b;
             Noticed(r, ttl, Do(r, ttl, k, step), rest, Time(step, now), key, b', may)
    ensures Noticed(r, ttl, k, [step] + rest, now, key, b, may)
  {
    assert step.Attempt? ==> Own(k, step, key);
    hide Do, Answers, Results, Polled, Grants, Enabled, Sweeps, Times, Granted;
    var steps := [step] + rest;
    assert steps[1..] == rest;
    FirstThenRest(r, ttl, k, steps, now, key);
    if step.Attempt? {
      var all, answers := Run(r, ttl, k, steps, now), Run(r, ttl, Do(r, ttl, k, step), rest, Time(step, now));
      assert Times(all, key)[1..] == Times(answers, key) && Granted(all, key)[1..] == Granted(answers, key);
      ResultsOfMore(r, b, Times(all, key));
    }
  }

  lemma ResultsOfMore(r: Rate, b: Bucket, ts: seq<int>)
    requires r.every > 0 && ts != []
    ensures Results(r, b, ts)[1..] == Results(r, Polled(r, b, ts[0]), ts[1..])
  {}

  /** One more attempt, let through where `b` would refuse it. */
  lemma LastIsNoticed(r: Rate, ttl: int, k: Keyed, c: nat, now: int, key: string, b: Bucket, may: Condition)
    requires r.Limited() && c in k.waiting && k.waiting[c].key == key && k.waiting[c].id in k.heap
    requires Grants(r, k.heap[k.waiting[c].id], now) && !Grants(r, b, now)
    ensures Noticed(r, ttl, k, [Attempt(c, now)], now, key, b, may)
  {
    hide Grants, Polled;
    var last := [Attempt(c, now)];
    assert Enabled(k, last[0]) && last[1..] == [];
    var k' := Do(r, ttl, k, last[0]);
    assert Possible(r, ttl, k', [], now) && Run(r, ttl, k', [], now) == [];
    assert Swept(r, ttl, k', [], now, may);
    var answers := Run(r, ttl, k, last, now);
    assert answers == Answers(r, k, last[0]) + [];
    OneAnswer(answers, key);
    OneResult(r, b, now);
  }

  lemma OneAnswer(answers: seq<Answer>, key: string)
    requires |answers| == 1 && answers[0].key == key
    ensures Granted(answers, key) == [answers[0].granted] && Times(answers, key) == [answers[0].now]
  {
    assert answers[1..] == [];
  }

  lemma OneResult(r: Rate, b: Bucket, now: int)
    requires r.every > 0
    ensures Results(r, b, [now]) == [Grants(r, b, now)]
  {
    assert [now][1..] == [];
  }

  // ---- exactly which sweeps go unnoticed

  /** No continuation of the run can tell the sweep from none at all: whatever callers do next, and
      whatever full buckets later sweeps take, each key's answers stay those of the bucket it had. */
  ghost predicate SweepUnnoticed(r: Rate, ttl: int, k: Keyed, tick: int, now: int)
    requires r.every > 0 && tick <= now && WellFormed(k)
  {
    forall key, steps | key in k.table ::
      !Noticed(r, ttl, Do(r, ttl, k, Sweep(tick, now)), steps, now, key, k.heap[k.table[key].id], Full(r))
  }

  /** `n` times in a row a caller comes for a token and tries for it at once. */
  function Newcomers(c: nat, key: string, n: nat, now: int): seq<Step> {
    if n == 0 then [] else [Arrive(c, key, now), Attempt(c, now)] + Newcomers(c, key, n - 1, now)
  }

  /** The bucket a caller gets who comes now. */
  ghost function Offered(r: Rate, k: Keyed, key: string, now: int): Bucket
    requires key in k.table ==> k.table[key].id in k.heap
  {
    if key in k.table then k.heap[k.table[key].id] else Fresh(r, now)
  }

  /** Newcomers find `n` tokens where `b` has fewer. */
  lemma {:induction false} NewcomersAreNoticed(r: Rate, ttl: int, k: Keyed, c: nat, key: string,
                                               n: nat, now: int, b: Bucket)
    requires r.Limited() && n > 0 && n <= r.burst && c !in k.waiting
    requires key in k.table ==> k.table[key].id in k.heap
    requires Offered(r, k, key, now) == Bucket(n as real, now) && Refilled(r, b, now) < n as real
    ensures Noticed(r, ttl, k, Newcomers(c, key, n, now), now, key, b, Full(r))
    decreases n
  {
    var k1 := Do(r, ttl, k, Arrive(c, key, now));
    var rest := Newcomers(c, key, n - 1, now);
    TokensNow(r, n, now);
    if n == 1 {
      LastIsNoticed(r, ttl, k1, c, now, key, b, Full(r));
    } else {
      var k2 := Do(r, ttl, k1, Attempt(c, now));
      FewerStays(r, b, n, now);
      NewcomersAreNoticed(r, ttl, k2, c, key, n - 1, now, Polled(r, b, now));
      NoticedAfter(r, ttl, k1, Attempt(c, now), rest, now, key, b, Full(r));
    }
    assert n == 1 ==> [Attempt(c, now)] + rest == [Attempt(c, now)];
    hide Noticed;
    NoticedAfter(r, ttl, k, Arrive(c, key, now), [Attempt(c, now)] + rest, now, key, b, Full(r));
    assert [Arrive(c, key, now)] + ([Attempt(c, now)] + rest) == Newcomers(c, key, n, now);
  }

  lemma TokensNow(r: Rate, n: nat, now: int)
    requires r.Limited() && 0 < n <= r.burst
    ensures Grants(r, Bucket(n as real, now), now)
    ensures Polled(r, Bucket(n as real, now), now) == Bucket((n - 1) as real, now)
  {
    assert Gain(r, 0) == 0.0;
  }

  lemma FewerStays(r: Rate, b: Bucket, n: nat, now: int)
    requires r.Limited() && n > 1 && Refilled(r, b, now) < n as real
    ensures Refilled(r, Polled(r, b, now), now) < (n - 1) as real
  {
    assert Gain(r, 0) == 0.0;
  }

  lemma {:induction false} SomeoneElse(callers: set<nat>) returns (c: nat)
    ensures forall x | x in callers :: x < c
    decreases callers
  {
    if callers == {} {
      c := 0;
    } else {
      var x :| x in callers;
      var d := SomeoneElse(callers - {x});
      c := if d <= x then x + 1 else d;
      assert callers == callers - {x} + {x};
    }
  }

  /** A sweep that takes a bucket not full yet. */
  lemma TakingPartFull(r: Rate, ttl: int, k: Keyed, tick: int, now: int, key: string)
    requires r.Limited() && WellFormed(k) && tick <= now
    requires key in k.table && Idle(k.table[key], ttl, tick)
    requires !FullBy(r, k.heap[k.table[key].id], now)
    ensures !SweepUnnoticed(r, ttl, k, tick, now)
  {
    var c := SomeoneElse(k.waiting.Keys);
    var b, k' := k.heap[k.table[key].id], Do(r, ttl, k, Sweep(tick, now));
    NewcomersAreNoticed(r, ttl, k', c, key, r.burst, now, b);
  }

  /** A sweep that takes a full bucket someone waits on: he has his token from that, and a burst of
      newcomers is let through besides. */
  lemma TakingHeld(r: Rate, ttl: int, k: Keyed, tick: int, now: int, key: string, w: nat)
    requires r.Limited() && WellFormed(k) && tick <= now
    requires key in k.table && Idle(k.table[key], ttl, tick)
    requires FullBy(r, k.heap[k.table[key].id], now)
    requires w in k.waiting && k.waiting[w].id == k.table[key].id
    ensures !SweepUnnoticed(r, ttl, k, tick, now)
  {
    var c := SomeoneElse(k.waiting.Keys);
    var b, k' := k.heap[k.table[key].id], Do(r, ttl, k, Sweep(tick, now));
    assert k.waiting[w].key == key;
    var k'' := Do(r, ttl, k', Attempt(w, now));
    FullThenLess(r, b, now);
    NewcomersAreNoticed(r, ttl, k'', c, key, r.burst, now, Polled(r, b, now));
    NoticedAfter(r, ttl, k', Attempt(w, now), Newcomers(c, key, r.burst, now), now, key, b, Full(r));
  }

  lemma FullThenLess(r: Rate, b: Bucket, now: int)
    requires r.Limited() && FullBy(r, b, now)
    ensures Grants(r, b, now) && Refilled(r, Polled(r, b, now), now) < r.burst as real
  {
    assert Gain(r, 0) == 0.0;
  }

  /** A sweep of full buckets nobody waits on. */
  lemma TakingFull(r: Rate, ttl: int, k: Keyed, tick: int, now: int, key: string, steps: seq<Step>)
    requires r.Limited() && WellFormed(k) && AllHold(r, k, now) && tick <= now
    requires Sweeps(ttl, k, tick, now, Full(r)) && key in k.table
    ensures !Noticed(r, ttl, Do(r, ttl, k, Sweep(tick, now)), steps, now, key, k.heap[k.table[key].id], Full(r))
  {
    var b, step := k.heap[k.table[key].id], Sweep(tick, now);
    assert Mirrors(r, k, key, Some(b), now);
    hide Mirrors, WellFormed, AllHold, Do, Sweeps, Results;
    var k' := Do(r, ttl, k, step);
    if Possible(r, ttl, k', steps, now) && Swept(r, ttl, k', steps, now, Full(r)) {
      var all := [step] + steps;
      assert all[1..] == steps;
      FollowsReference(r, ttl, k, all, now, key, Some(b));
      assert Answers(r, k, step) == [];
      assert Run(r, ttl, k, all, now) == [] + Run(r, ttl, k', steps, Time(step, now));
      var answers := Run(r, ttl, k', steps, now);
      assert [] + answers == answers;
      assert Granted(answers, key) == Results(r, b, Times(answers, key));
    }
  }

  /** A sweep goes unnoticed in every continuation if and only if each bucket it takes is full and
      nobody waits on it. */
  lemma SweepUnnoticedIff(r: Rate, ttl: int, k: Keyed, tick: int, now: int)
    requires r.Limited() && WellFormed(k) && AllHold(r, k, now) && tick <= now
    ensures SweepUnnoticed(r, ttl, k, tick, now) <==> Sweeps(ttl, k, tick, now, Full(r))
  {
    hide Noticed, AllHold, Do;
    if Sweeps(ttl, k, tick, now, Full(r)) {
      forall key, steps | key in k.table
        ensures !Noticed(r, ttl, Do(r, ttl, k, Sweep(tick, now)), steps, now, key, k.heap[k.table[key].id], Full(r))
      {
        TakingFull(r, ttl, k, tick, now, key, steps);
      }
    } else {
      var key :| && key in k.table && Idle(k.table[key], ttl, tick)
                 && !(&& FullBy(r, k.heap[k.table[key].id], now)
                      && forall c | c in k.waiting :: k.waiting[c].id != k.table[key].id);
      if FullBy(r, k.heap[k.table[key].id], now) {
        var w :| w in k.waiting && k.waiting[w].id == k.table[key].id;
        TakingHeld(r, ttl, k, tick, now, key, w);
      } else {
        TakingPartFull(r, ttl, k, tick, now, key);
      }
    }
  }

  /** Each sweep of a run, when it happens, goes unnoticed whatever follows. */
  ghost predicate AllUnnoticed(r: Rate, ttl: int, k: Keyed, steps: seq<Step>, now: int)
    requires r.every > 0 && Possible(r, ttl, k, steps, now)
    decreases |steps|
  {
    steps == [] ||
    (&& (steps[0].Sweep? ==> WellFormed(k) && SweepUnnoticed(r, ttl, k, steps[0].tick, steps[0].now))
     && AllUnnoticed(r, ttl, Do(r, ttl, k, steps[0]), steps[1..], Time(steps[0], now)))
  }

  /** So the condition of `EvictionTransparent` is exact: in every run, all sweeps go unnoticed if and only
      if they take full buckets nobody waits on. */
  lemma {:induction false} AllUnnoticedIff(r: Rate, ttl: int, k: Keyed, steps: seq<Step>, now: int)
    requires r.Limited() && WellFormed(k) && AllHold(r, k, now) && Possible(r, ttl, k, steps, now)
    ensures AllUnnoticed(r, ttl, k, steps, now) <==> Swept(r, ttl, k, steps, now, Full(r))
    decreases |steps|
  {
    if steps != [] {
      hide Do, AllHold, WellFormed, Sweeps, SweepUnnoticed, Full;
      var step, later := steps[0], Time(steps[0], now);
      if step.Sweep? {
        HoldsLater(r, k, now, later);
        SweepUnnoticedIff(r, ttl, k, step.tick, step.now);
      }
      if step.Sweep? ==> Sweeps(ttl, k, step.tick, step.now, Full(r)) {
        WeakerSweep(ttl, k, step, Full(r), Anything);
        StaysWellFormed(r, ttl, k, step);
        StaysHolding(r, ttl, k, step, now);
        AllUnnoticedIff(r, ttl, Do(r, ttl, k, step), steps[1..], later);
      }
    }
  }

  lemma HoldsLater(r: Rate, k: Keyed, now: int, later: int)
    requires AllHold(r, k, now) && now <= later
    ensures AllHold(r, k, later)
  {}

  // ---- no idle time is enough

  const ACC := "acc"

  /** `i` callers sleep on the one bucket, all of them asked for at time zero. */
  function Crowd(i: nat, b: Bucket): Keyed {
    Keyed(map[ACC := Entry(0, 0)], map[0 := b], Sleepers(i), 1)
  }

  function Sleepers(i: nat): (waiting: map<nat, Waiter>)
    ensures forall c | c in waiting :: c < i && waiting[c] == Waiter(ACC, 0)
    ensures i > 0 ==> i - 1 in waiting && waiting - {i - 1} == Sleepers(i - 1)
  {
    if i == 0 then map[] else Sleepers(i - 1)[i - 1 := Waiter(ACC, 0)]
  }

  /** The sleepers are served one after the other, `every` apart. Then the sweeper comes by, and
      another caller. */
  function Served(every: int, i: nat, t: int): seq<Step> {
    if i == 0 then [Sweep(t + 1, t + 1), Arrive(0, ACC, t + 1), Attempt(0, t + 1)]
    else [Attempt(i - 1, t + every)] + Served(every, i - 1, t + every)
  }

  /** The callers who find a token, and then the others. */
  function Burst(every: int, tokens: nat, i: nat): seq<Step>
    requires tokens <= i
  {
    if tokens == 0 then Served(every, i, 0) else [Attempt(i - 1, 0)] + Burst(every, tokens - 1, i - 1)
  }

  function Gathered(every: int, burst: nat, i: nat, n: nat): seq<Step>
    requires i <= n && burst <= n
    decreases n - i
  {
    if i == n then Burst(every, burst, n) else [Arrive(i, ACC, 0)] + Gathered(every, burst, i + 1, n)
  }

  lemma CrowdServed(r: Rate, ttl: int, i: nat, b: Bucket, now: int)
    requires r.every > 0 && i > 0 && Grants(r, b, now)
    ensures var k, step := Crowd(i, b), Attempt(i - 1, now);
            Enabled(k, step) && k.waiting[i - 1].key == ACC && Do(r, ttl, k, step) == Crowd(i - 1, Polled(r, b, now))
  {
    hide Polled, Grants, Sleepers;
    var heap := Crowd(i, b).heap[0 := Polled(r, b, now)];
    assert heap == map[0 := Polled(r, b, now)];
  }

  lemma CrowdGrows(r: Rate, ttl: int, i: nat, b: Bucket)
    requires r.every > 0 && (i == 0 ==> b == Fresh(r, 0))
    ensures var k, step := if i == 0 then EMPTY else Crowd(i, b), Arrive(i, ACC, 0);
            Enabled(k, step) && Do(r, ttl, k, step) == Crowd(i + 1, b)
  {
    hide Fresh;
    assert Sleepers(0) == map[];
  }

  lemma CrowdSwept(r: Rate, ttl: int, b: Bucket, now: int)
    requires r.every > 0 && now > ttl
    ensures var k := Crowd(0, b);
            Sweeps(ttl, k, now, now, Anything) && Do(r, ttl, k, Sweep(now, now)) == Keyed(map[], map[0 := b], map[], 1)
  {
    assert Sleepers(0) == map[];
    var k := Do(r, ttl, Crowd(0, b), Sweep(now, now));
    assert k.table == map[];
  }

  /** The caller after the sweep is let through, where the swept bucket would have refused it. */
  lemma LateCallerIsNoticed(r: Rate, ttl: int, t: int)
    requires r.Limited() && r.every > 1 && t + 1 > ttl
    ensures Noticed(r, ttl, Crowd(0, Bucket(0.0, t)), Served(r.every, 0, t), t, ACC, Bucket(0.0, t), Anything)
  {
    var b := Bucket(0.0, t);
    CrowdSwept(r, ttl, b, t + 1);
    var k1 := Keyed(map[], map[0 := b], map[], 1);
    var k2 := Do(r, ttl, k1, Arrive(0, ACC, t + 1));
    FreshAndEmpty(r, t);
    LastIsNoticed(r, ttl, k2, 0, t + 1, ACC, b, Anything);
    hide Noticed, Do, Grants, Crowd;
    var last := [Attempt(0, t + 1)];
    NoticedAfter(r, ttl, k1, Arrive(0, ACC, t + 1), last, t + 1, ACC, b, Anything);
    NoticedAfter(r, ttl, Crowd(0, b), Sweep(t + 1, t + 1), [Arrive(0, ACC, t + 1)] + last, t, ACC, b, Anything);
    assert Served(r.every, 0, t) == [Sweep(t + 1, t + 1)] + ([Arrive(0, ACC, t + 1)] + last);
  }

  lemma FreshAndEmpty(r: Rate, t: int)
    requires r.Limited() && r.every > 1
    ensures Grants(r, Fresh(r, t + 1), t + 1) && !Grants(r, Bucket(0.0, t), t + 1)
  {
    GainAtLeast(r, 1, 1.0);
    GainNonNegative(r, 0);
  }

  lemma {:induction false} ServedIsNoticed(r: Rate, ttl: int, i: nat, t: int)
    requires r.Limited() && r.every > 1 && t + i * r.every + 1 > ttl
    ensures Noticed(r, ttl, Crowd(i, Bucket(0.0, t)), Served(r.every, i, t), t, ACC, Bucket(0.0, t), Anything)
    decreases i
  {
    hide Noticed, Do, Polled, Grants, Crowd, Enabled;
    if i == 0 {
      LateCallerIsNoticed(r, ttl, t);
    } else {
      OneLess(i, r.every);
      ServedIsNoticed(r, ttl, i - 1, t + r.every);
      OneTokenLater(r, t);
      CrowdServed(r, ttl, i, Bucket(0.0, t), t + r.every);
      NoticedAfter(r, ttl, Crowd(i, Bucket(0.0, t)), Attempt(i - 1, t + r.every),
                   Served(r.every, i - 1, t + r.every), t, ACC, Bucket(0.0, t), Anything);
    }
  }

  lemma OneLess(i: int, every: int)
    ensures i * every == every + (i - 1) * every
  {}

  lemma OneTokenLater(r: Rate, t: int)
    requires r.Limited()
    ensures var b, now := Bucket(0.0, t), t + r.every;
            Grants(r, b, now) && Polled(r, b, now) == Bucket(0.0, now)
  {
    assert Gain(r, r.every) == 1.0;
  }

  lemma OneTokenNow(r: Rate, tokens: nat)
    requires r.Limited() && 0 < tokens <= r.burst
    ensures var b := Bucket(tokens as real, 0);
            Grants(r, b, 0) && Polled(r, b, 0) == Bucket((tokens - 1) as real, 0)
  {
    assert Gain(r, 0) == 0.0;
  }

  lemma {:induction false} BurstIsNoticed(r: Rate, ttl: int, tokens: nat, i: nat)
    requires r.Limited() && r.every > 1 && tokens <= r.burst && tokens <= i
    requires (i - tokens) * r.every + 1 > ttl
    ensures var b := Bucket(tokens as real, 0);
            Noticed(r, ttl, Crowd(i, b), Burst(r.every, tokens, i), 0, ACC, b, Anything)
    decreases tokens
  {
    hide Noticed, Do, Polled, Grants, Crowd, Enabled;
    if tokens == 0 {
      ServedIsNoticed(r, ttl, i, 0);
    } else {
      var b := Bucket(tokens as real, 0);
      BurstIsNoticed(r, ttl, tokens - 1, i - 1);
      OneTokenNow(r, tokens);
      CrowdServed(r, ttl, i, b, 0);
      NoticedAfter(r, ttl, Crowd(i, b), Attempt(i - 1, 0), Burst(r.every, tokens - 1, i - 1), 0, ACC, b, Anything);
    }
  }

  lemma {:induction false} GatheredIsNoticed(r: Rate, ttl: int, i: nat, n: nat)
    requires r.Limited() && r.every > 1 && r.burst <= n && i <= n
    requires (n - r.burst) * r.every + 1 > ttl
    ensures var k := if i == 0 then EMPTY else Crowd(i, Fresh(r, 0));
            Noticed(r, ttl, k, Gathered(r.every, r.burst, i, n), 0, ACC, Fresh(r, 0), Anything)
    decreases n - i
  {
    hide Noticed, Do, Crowd, Enabled;
    if i == n {
      BurstIsNoticed(r, ttl, r.burst, n);
    } else {
      GatheredIsNoticed(r, ttl, i + 1, n);
      CrowdGrows(r, ttl, i, Fresh(r, 0));
      NoticedAfter(r, ttl, if i == 0 then EMPTY else Crowd(i, Fresh(r, 0)), Arrive(i, ACC, 0),
                   Gathered(r.every, r.burst, i + 1, n), 0, ACC, Fresh(r, 0), Anything);
    }
  }

  /** No idle time is enough: the last-access time is taken on arrival, not when a waiting caller is
      served. Whatever ttl is, enough callers at once make a run in which the sweep takes a bucket
      used a moment ago, nobody waiting on it, and the next caller is let through where the rate
      forbids it. */
  lemma ArrivalTimeIsNotLastUse(r: Rate, ttl: int) returns (n: nat)
    requires r.Limited() && r.every > 1
    ensures r.burst <= n
    ensures var steps := Gathered(r.every, r.burst, 0, n);
            && Possible(r, ttl, EMPTY, steps, 0) && Swept(r, ttl, EMPTY, steps, 0, Anything)
            && FirstUse(r, steps, ACC) == Some(Fresh(r, 0))
            && var answers := Run(r, ttl, EMPTY, steps, 0);
               Granted(answers, ACC) != Results(r, Fresh(r, 0), Times(answers, ACC))
  {
    var more: nat := if ttl < 0 then 0 else ttl;
    n := r.burst + more;
    assert more * r.every >= more;
    GatheredIsNoticed(r, ttl, 0, n);
    assert Gathered(r.every, r.burst, 0, n)[0] == Arrive(0, ACC, 0);
  }
}
