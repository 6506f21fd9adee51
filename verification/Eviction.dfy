/** The keyed limiter under any interleaving of callers and sweeps, and when dropping idle
    buckets cannot be noticed. */
module Eviction {
  import opened Wrappers
  import opened RateLimit
  import KeyedLimit

  datatype Entry = Entry(id: nat, lastAccess: int)

  /** A caller between bucket() and its grant, holding on to the limiter it was given. */
  datatype Waiter = Waiter(key: string, id: nat)

  /** `heap` holds every limiter ever made, `table` the current one of each key. */
  datatype Keyed = Keyed(table: map<string, Entry>, heap: map<nat, Bucket>, waiting: map<nat, Waiter>, next: nat)

  datatype Step =
    | Arrive(caller: nat, key: string, now: int)  // bucket(key), under the map's lock
    | Attempt(caller: nat, now: int)              // one pass of Wait, under the limiter's lock
    | Leave(caller: nat)                          // cancelled while sleeping
    | Sweep(tick: int, now: int)                  // evictIdle(tick), run at the time now under the map's lock

  /** The answer of an attempt. */
  datatype Answer = Answer(key: string, now: int, granted: bool)

  const EMPTY := Keyed(map[], map[], map[], 0)

  ghost predicate Enabled(k: Keyed, step: Step) {
    match step
    case Arrive(c, _, _) => c !in k.waiting
    case Attempt(c, _) => c in k.waiting && k.waiting[c].id in k.heap
    case Leave(c) => c in k.waiting
    case Sweep(tick, now) => tick <= now
  }

  predicate Idle(e: Entry, ttl: int, now: int) {
    now - e.lastAccess > ttl
  }

  ghost function Do(r: Rate, ttl: int, k: Keyed, step: Step): Keyed
    requires r.every > 0 && Enabled(k, step)
  {
    match step
    case Arrive(c, key, now) =>
      var id := if key in k.table then k.table[key].id else k.next;
      Keyed(k.table[key := Entry(id, now)],
            if key in k.table then k.heap else k.heap[id := Fresh(r, now)],
            k.waiting[c := Waiter(key, id)],
            if key in k.table then k.next else k.next + 1)
    case Attempt(c, now) =>
      var id := k.waiting[c].id;
      k.(heap := k.heap[id := Polled(r, k.heap[id], now)],
         waiting := if Grants(r, k.heap[id], now) then k.waiting - {c} else k.waiting)
    case Leave(c) => k.(waiting := k.waiting - {c})
    case Sweep(tick, _) => k.(table := map key | key in k.table && !Idle(k.table[key], ttl, tick) :: k.table[key])
  }

  ghost function Answers(r: Rate, k: Keyed, step: Step): seq<Answer>
    requires r.every > 0 && Enabled(k, step)
  {
    if step.Attempt? then
      [Answer(k.waiting[step.caller].key, step.now, Grants(r, k.heap[k.waiting[step.caller].id], step.now))]
    else []
  }

  /** A bucket that has had the time to fill up. */
  predicate FullBy(r: Rate, b: Bucket, now: int)
    requires r.every > 0
  {
    b.tokens + Gain(r, now - b.last) >= r.burst as real
  }

  /** What may be asked of a bucket at the time it is swept. */
  type Condition = (Bucket, int) -> bool

  const Anything: Condition := (b: Bucket, now: int) => true

  function Full(r: Rate): Condition {
    (b: Bucket, now: int) => r.every > 0 && FullBy(r, b, now)
  }

  function IdleFor(d: int): Condition {
    (b: Bucket, now: int) => now - b.last >= d
  }

  /** A sweep that takes no bucket someone is waiting on, and only such as meet the condition. */
  ghost predicate Sweeps(ttl: int, k: Keyed, tick: int, now: int, may: Condition) {
    forall key | key in k.table && Idle(k.table[key], ttl, tick) ::
      && (forall c | c in k.waiting :: k.waiting[c].id != k.table[key].id)
      && k.table[key].id in k.heap
      && may(k.heap[k.table[key].id], now)
  }

  function Time(step: Step, before: int): int {
    if step.Leave? then before else step.now
  }

  /** A run of enabled steps on a clock that does not run backwards. */
  ghost predicate Possible(r: Rate, ttl: int, k: Keyed, steps: seq<Step>, now: int)
    requires r.every > 0
    decreases |steps|
  {
    steps == [] ||
    (&& Enabled(k, steps[0])
     && now <= Time(steps[0], now)
     && Possible(r, ttl, Do(r, ttl, k, steps[0]), steps[1..], Time(steps[0], now)))
  }

  /** All sweeps of the run meet the condition. */
  ghost predicate Swept(r: Rate, ttl: int, k: Keyed, steps: seq<Step>, now: int, may: Condition)
    requires r.every > 0 && Possible(r, ttl, k, steps, now)
    decreases |steps|
  {
    steps == [] ||
    (&& (steps[0].Sweep? ==> Sweeps(ttl, k, steps[0].tick, steps[0].now, may))
     && Swept(r, ttl, Do(r, ttl, k, steps[0]), steps[1..], Time(steps[0], now), may))
  }

  ghost function Run(r: Rate, ttl: int, k: Keyed, steps: seq<Step>, now: int): seq<Answer>
    requires r.every > 0 && Possible(r, ttl, k, steps, now)
    decreases |steps|
  {
    if steps == [] then []
    else Answers(r, k, steps[0]) + Run(r, ttl, Do(r, ttl, k, steps[0]), steps[1..], Time(steps[0], now))
  }

  // ---- one key by itself

  function Granted(answers: seq<Answer>, key: string): seq<bool> {
    if answers == [] then []
    else (if answers[0].key == key then [answers[0].granted] else []) + Granted(answers[1..], key)
  }

  function Times(answers: seq<Answer>, key: string): seq<int> {
    if answers == [] then []
    else (if answers[0].key == key then [answers[0].now] else []) + Times(answers[1..], key)
  }

  /** The limiter the key would have had with no sweeper: made at its first use. */
  function FirstUse(r: Rate, steps: seq<Step>, key: string): Option<Bucket> {
    if steps == [] then None
    else if steps[0].Arrive? && steps[0].key == key then Some(Fresh(r, steps[0].now))
    else FirstUse(r, steps[1..], key)
  }

  ghost predicate WellFormed(k: Keyed) {
    && (forall key | key in k.table :: k.table[key].id in k.heap)
    && (forall id | id in k.heap :: id < k.next)
    && (forall a, b | a in k.table && b in k.table && a != b :: k.table[a].id != k.table[b].id)
    && (forall c | c in k.waiting ::
          k.waiting[c].key in k.table && k.table[k.waiting[c].key].id == k.waiting[c].id)
  }

  /** `ref` is the key's limiter in a world without sweeps. */
  ghost predicate Mirrors(r: Rate, k: Keyed, key: string, ref: Option<Bucket>, now: int)
    requires r.every > 0
  {
    match ref
    case None => key !in k.table
    case Some(b) =>
      && Holds(r, b) && b.last <= now
      && if key !in k.table then FullBy(r, b, now)
         else
           && k.table[key].id in k.heap
           && var c := k.heap[k.table[key].id];
              && Holds(r, c) && c.last <= now
              && (c == b || (FullBy(r, c, now) && FullBy(r, b, now)))
  }

  lemma FullStays(r: Rate, b: Bucket, now: int, later: int)
    requires r.every > 0 && FullBy(r, b, now) && now <= later
    ensures FullBy(r, b, later)
  {
    GainAdds(r, now - b.last, later - now);
    GainNonNegative(r, later - now);
  }

  lemma FullBucketsAgree(r: Rate, a: Bucket, b: Bucket, now: int)
    requires r.every > 0 && FullBy(r, a, now) && FullBy(r, b, now)
    ensures Grants(r, a, now) == Grants(r, b, now) && Polled(r, a, now) == Polled(r, b, now)
  {}

  lemma IdleLongIsFull(r: Rate, b: Bucket, now: int)
    requires r.Limited() && Holds(r, b) && now - b.last >= r.burst * r.every
    ensures FullBy(r, b, now)
  {
    GainAtLeast(r, now - b.last, r.burst as real);
    assert (r.burst * r.every) as real == r.burst as real * r.every as real;
  }

  lemma FreshIsFull(r: Rate, now: int)
    requires r.Limited()
    ensures FullBy(r, Fresh(r, now), now) && Holds(r, Fresh(r, now))
  {}

  lemma WeakerSweep(ttl: int, k: Keyed, step: Step, strong: Condition, weak: Condition)
    requires step.Sweep? ==> Sweeps(ttl, k, step.tick, step.now, strong)
    requires forall b, now :: strong(b, now) ==> weak(b, now)
    ensures step.Sweep? ==> Sweeps(ttl, k, step.tick, step.now, weak)
  {}

  lemma StaysWellFormed(r: Rate, ttl: int, k: Keyed, step: Step)
    requires r.Limited() && WellFormed(k) && Enabled(k, step)
    requires step.Sweep? ==> Sweeps(ttl, k, step.tick, step.now, Anything)
    ensures WellFormed(Do(r, ttl, k, step))
  {}

  /** An attempt of the key's own. */
  ghost predicate Own(k: Keyed, step: Step, key: string) {
    step.Attempt? && step.caller in k.waiting && k.waiting[step.caller].key == key
  }

  /** The reference after a step. */
  ghost function RefAfter(r: Rate, k: Keyed, step: Step, key: string, ref: Option<Bucket>): Option<Bucket>
    requires r.every > 0 && Enabled(k, step)
  {
    match step
    case Arrive(_, a, now) => if ref == None && a == key then Some(Fresh(r, now)) else ref
    case Attempt(c, now) => if ref.Some? && k.waiting[c].key == key then Some(Polled(r, ref.value, now)) else ref
    case _ => ref
  }

  lemma StepMirrors(r: Rate, ttl: int, k: Keyed, step: Step, key: string, ref: Option<Bucket>, now: int)
    requires r.Limited() && WellFormed(k) && Enabled(k, step) && now <= Time(step, now)
    requires step.Sweep? ==> Sweeps(ttl, k, step.tick, step.now, Full(r))
    requires Mirrors(r, k, key, ref, now)
    ensures Mirrors(r, Do(r, ttl, k, step), key, RefAfter(r, k, step, key, ref), Time(step, now))
    ensures Own(k, step, key) ==>
              ref.Some? && Answers(r, k, step) == [Answer(key, step.now, Grants(r, ref.value, step.now))]
  {
    var later := Time(step, now);
    if ref.Some? && FullBy(r, ref.value, now) {
      FullStays(r, ref.value, now, later);
    }
    if key in k.table && FullBy(r, k.heap[k.table[key].id], now) {
      FullStays(r, k.heap[k.table[key].id], now, later);
    }
    match step
    case Arrive(_, a, t) =>
      FreshIsFull(r, t);
    case Attempt(c, t) =>
      if k.waiting[c].key == key {
        var b := k.heap[k.waiting[c].id];
        PolledHolds(r, b, t);
        PolledHolds(r, ref.value, t);
        if b != ref.value {
          FullBucketsAgree(r, b, ref.value, t);
        }
      }
    case Leave(_) =>
    case Sweep(_, _) =>
  }

  lemma {:induction false} SplitAnswers(a: seq<Answer>, b: seq<Answer>, key: string)
    requires |a| <= 1
    ensures Granted(a + b, key) == Granted(a, key) + Granted(b, key)
    ensures Times(a + b, key) == Times(a, key) + Times(b, key)
  {
    if a == [] {
      assert a + b == b;
    } else {
      assert a[1..] == [] && (a + b)[1..] == b;
    }
  }

  lemma OwnAnswers(r: Rate, k: Keyed, step: Step, key: string)
    requires r.every > 0 && Enabled(k, step)
    ensures |Answers(r, k, step)| <= 1
    ensures var mine := Own(k, step, key);
            var a := Answers(r, k, step);
            Times(a, key) == (if mine then [step.now] else []) && Granted(a, key) == if mine then [a[0].granted] else []
  {
    var a := Answers(r, k, step);
    assert a != [] ==> a[1..] == [];
  }

  /** A key's answers in a run: that of the first step, if it is the key's own, and the rest. */
  lemma FirstThenRest(r: Rate, ttl: int, k: Keyed, steps: seq<Step>, now: int, key: string)
    requires r.every > 0 && steps != [] && Possible(r, ttl, k, steps, now)
    ensures var step, all := steps[0], Run(r, ttl, k, steps, now);
            var rest := Run(r, ttl, Do(r, ttl, k, step), steps[1..], Time(step, now));
            if Own(k, step, key) then
              && Times(all, key) == [step.now] + Times(rest, key)
              && Granted(all, key) == [Answers(r, k, step)[0].granted] + Granted(rest, key)
            else
              Times(all, key) == Times(rest, key) && Granted(all, key) == Granted(rest, key)
  {
    hide Do, Answers, Times, Granted;
    var step := steps[0];
    var rest := Run(r, ttl, Do(r, ttl, k, step), steps[1..], Time(step, now));
    OwnAnswers(r, k, step, key);
    SplitAnswers(Answers(r, k, step), rest, key);
    if !Own(k, step, key) {
      assert [] + Times(rest, key) == Times(rest, key) && [] + Granted(rest, key) == Granted(rest, key);
    }
  }

  /** The key's limiter as first made, or as it is already. */
  ghost function FirstRef(r: Rate, steps: seq<Step>, key: string, ref: Option<Bucket>): Option<Bucket> {
    if ref.Some? then ref else FirstUse(r, steps, key)
  }

  /** It is the same for the rest of the run, but for an attempt of the key's own. */
  lemma RefOfRest(r: Rate, k: Keyed, steps: seq<Step>, key: string, ref: Option<Bucket>)
    requires r.every > 0 && steps != [] && Enabled(k, steps[0])
    ensures var ref' := RefAfter(r, k, steps[0], key, ref);
            if Own(k, steps[0], key) && ref.Some? then ref' == Some(Polled(r, ref.value, steps[0].now))
            else FirstRef(r, steps[1..], key, ref') == FirstRef(r, steps, key, ref)
  {
    hide Polled;
  }

  lemma {:induction false} FollowsReference(r: Rate, ttl: int, k: Keyed, steps: seq<Step>, now: int,
                                            key: string, ref: Option<Bucket>)
    requires r.Limited() && WellFormed(k) && Possible(r, ttl, k, steps, now)
    requires Swept(r, ttl, k, steps, now, Full(r))
    requires Mirrors(r, k, key, ref, now)
    ensures var answers := Run(r, ttl, k, steps, now);
            match FirstRef(r, steps, key, ref)
            case None => Times(answers, key) == []
            case Some(b) => Granted(answers, key) == Results(r, b, Times(answers, key))
    decreases |steps|
  {
    if steps != [] {
      hide Mirrors, WellFormed, Do, Answers, Sweeps, Run, FirstRef, RefAfter, Times, Granted, Polled, Grants, Full;
      WeakerSweep(ttl, k, steps[0], Full(r), Anything);
      var step, ref' := steps[0], RefAfter(r, k, steps[0], key, ref);
      StaysWellFormed(r, ttl, k, step);
      StepMirrors(r, ttl, k, step, key, ref, now);
      FollowsReference(r, ttl, Do(r, ttl, k, step), steps[1..], Time(step, now), key, ref');
      FirstThenRest(r, ttl, k, steps, now, key);
      RefOfRest(r, k, steps, key, ref);
      if Own(k, step, key) {
        var ts := Times(Run(r, ttl, k, steps, now), key);
        assert ts[1..] == Times(Run(r, ttl, Do(r, ttl, k, step), steps[1..], Time(step, now)), key);
        IsFirstRef(r, steps, key, ref);
        IsFirstRef(r, steps[1..], key, ref');
      }
    }
  }

  lemma IsFirstRef(r: Rate, steps: seq<Step>, key: string, ref: Option<Bucket>)
    requires ref.Some?
    ensures FirstRef(r, steps, key, ref) == ref
  {}

  /** Eviction cannot be noticed: in every interleaving whose sweeps take only full buckets nobody waits
      on, the answers a key gets are those of its own never-evicted limiter at the same times, whatever
      the other keys do. */
  lemma EvictionTransparent(r: Rate, ttl: int, steps: seq<Step>, now: int, key: string)
    requires r.Limited() && Possible(r, ttl, EMPTY, steps, now) && Swept(r, ttl, EMPTY, steps, now, Full(r))
    ensures var answers := Run(r, ttl, EMPTY, steps, now);
            match FirstUse(r, steps, key)
            case None => Times(answers, key) == []
            case Some(b) => Granted(answers, key) == Results(r, b, Times(answers, key))
  {
    FollowsReference(r, ttl, EMPTY, steps, now, key, None);
  }

  /** A key's attempts come in the order of the clock, none before its limiter was made. */
  lemma {:induction false} TimesAreClock(r: Rate, ttl: int, k: Keyed, steps: seq<Step>, now: int,
                                         key: string, ref: Option<Bucket>)
    requires r.Limited() && WellFormed(k) && Possible(r, ttl, k, steps, now)
    requires Swept(r, ttl, k, steps, now, Full(r))
    requires Mirrors(r, k, key, ref, now)
    ensures match FirstRef(r, steps, key, ref)
            case None => true
            case Some(b) => Holds(r, b) && Clock(b.last, Times(Run(r, ttl, k, steps, now), key))
    decreases |steps|
  {
    MirrorsMeans(r, k, key, ref, now);
    if steps != [] {
      hide Mirrors, WellFormed, Do, Answers, Sweeps, Run, FirstRef, RefAfter, Times, Polled, Grants, Full, Holds, Clock;
      WeakerSweep(ttl, k, steps[0], Full(r), Anything);
      var step, ref' := steps[0], RefAfter(r, k, steps[0], key, ref);
      StaysWellFormed(r, ttl, k, step);
      StepMirrors(r, ttl, k, step, key, ref, now);
      TimesAreClock(r, ttl, Do(r, ttl, k, step), steps[1..], Time(step, now), key, ref');
      FirstThenRest(r, ttl, k, steps, now, key);
      RefOfRest(r, k, steps, key, ref);
      if Own(k, step, key) {
        IsFirstRef(r, steps, key, ref);
        IsFirstRef(r, steps[1..], key, ref');
        PolledHolds(r, ref.value, step.now);
        ClockFrom(ref.value.last, step.now, Times(Run(r, ttl, Do(r, ttl, k, step), steps[1..], step.now), key));
      }
    }
  }

  lemma ClockFrom(start: int, t: int, ts: seq<int>)
    requires start <= t && Clock(t, ts)
    ensures Clock(start, [t] + ts)
  {}

  lemma MirrorsMeans(r: Rate, k: Keyed, key: string, ref: Option<Bucket>, now: int)
    requires r.every > 0 && Mirrors(r, k, key, ref, now)
    ensures ref.Some? ==> Holds(r, ref.value) && ref.value.last <= now
  {}

  /** So the rate holds for every key by itself: in any stretch of its attempts, at most burst plus
      elapsed/every are granted. */
  lemma KeyRate(r: Rate, ttl: int, steps: seq<Step>, now: int, key: string, i: nat, j: nat)
    requires r.Limited() && Possible(r, ttl, EMPTY, steps, now) && Swept(r, ttl, EMPTY, steps, now, Full(r))
    requires i < j <= |Times(Run(r, ttl, EMPTY, steps, now), key)|
    ensures var answers := Run(r, ttl, EMPTY, steps, now);
            var ts, granted := Times(answers, key), Granted(answers, key);
            |granted| == |ts| && Count(granted[i..j]) as real <= r.burst as real + Gain(r, ts[j - 1] - ts[i])
  {
    hide Run, Swept, Results, Count, Gain;
    EvictionTransparent(r, ttl, steps, now, key);
    TimesAreClock(r, ttl, EMPTY, steps, now, key, None);
    var b := FirstUse(r, steps, key).value;
    GrantBound(r, b, Times(Run(r, ttl, EMPTY, steps, now), key), i, j);
  }

  /** Every limiter ever made holds between nothing and a burst. */
  ghost predicate AllHold(r: Rate, k: Keyed, now: int) {
    forall id | id in k.heap :: Holds(r, k.heap[id]) && k.heap[id].last <= now
  }

  lemma StaysHolding(r: Rate, ttl: int, k: Keyed, step: Step, now: int)
    requires r.Limited() && AllHold(r, k, now) && Enabled(k, step) && now <= Time(step, now)
    ensures AllHold(r, Do(r, ttl, k, step), Time(step, now))
  {
    if step.Attempt? {
      PolledHolds(r, k.heap[k.waiting[step.caller].id], step.now);
    }
  }

  /** A time since last use after which every bucket is full: burst*every. */
  lemma {:induction false} IdleSweepsAreFull(r: Rate, ttl: int, k: Keyed, steps: seq<Step>, now: int)
    requires r.Limited() && AllHold(r, k, now) && Possible(r, ttl, k, steps, now)
    requires Swept(r, ttl, k, steps, now, IdleFor(r.burst * r.every))
    ensures Swept(r, ttl, k, steps, now, Full(r))
    decreases |steps|
  {
    if steps != [] {
      if steps[0].Sweep? {
        forall key | key in k.table && Idle(k.table[key], ttl, steps[0].tick)
          ensures Full(r)(k.heap[k.table[key].id], steps[0].now)
        {
          IdleLongIsFull(r, k.heap[k.table[key].id], steps[0].now);
        }
      }
      hide Do, AllHold, Sweeps;
      StaysHolding(r, ttl, k, steps[0], now);
      IdleSweepsAreFull(r, ttl, Do(r, ttl, k, steps[0]), steps[1..], Time(steps[0], now));
    }
  }

  // ---- the steps and the methods

  /** The table and heap show what a `KeyedLimiter` holds. */
  ghost predicate Shows(k: Keyed, held: KeyedLimit.Buckets) {
    && held.Keys == k.table.Keys
    && forall key | key in k.table ::
         k.table[key].id in k.heap && held[key] == KeyedLimit.Held(k.heap[k.table[key].id], k.table[key].lastAccess)
  }

  /** Arriving is `BucketFor`, an attempt is `Limiter.Attempt` on the key's bucket, and a sweep is
      `EvictIdle`: each does to the table what the method's contract says. */
  lemma StepsAreMethods(r: Rate, ttl: int, k: Keyed, step: Step, held: KeyedLimit.Buckets)
    requires r.Limited() && WellFormed(k) && Enabled(k, step) && Shows(k, held)
    ensures Shows(Do(r, ttl, k, step),
                  match step
                  case Arrive(_, key, now) => KeyedLimit.Asked(r, held, key, now)
                  case Attempt(c, now) =>
                    var key := k.waiting[c].key;
                    held[key := held[key].(bucket := Polled(r, held[key].bucket, now))]
                  case Leave(_) => held
                  case Sweep(tick, _) => KeyedLimit.Swept(held, ttl, tick))
  {
    hide Polled;
  }
}
