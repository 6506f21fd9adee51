/** The client-side throttle: a token bucket. Times are nanoseconds on a clock that does not
    run backwards; token counts are real numbers. */
module RateLimit {

  /** One token every `every` nanoseconds, at most `burst` stored. */
  datatype Rate = Rate(every: int, burst: int) {
    ghost predicate Limited() {
      every > 0 && burst >= 1
    }
  }

  datatype Bucket = Bucket(tokens: real, last: int)

  ghost predicate Holds(r: Rate, b: Bucket) {
    0.0 <= b.tokens <= r.burst as real
  }

  /** The tokens gained in `elapsed` nanoseconds. */
  function Gain(r: Rate, elapsed: int): real
    requires r.every > 0
  {
    elapsed as real / r.every as real
  }

  function Refilled(r: Rate, b: Bucket, now: int): real
    requires r.every > 0
  {
    var t := b.tokens + Gain(r, now - b.last);
    if t > r.burst as real then r.burst as real else t
  }

  predicate Grants(r: Rate, b: Bucket, now: int)
    requires r.every > 0
  {
    Refilled(r, b, now) >= 1.0
  }

  /** The bucket after one attempt to take a token. */
  function Polled(r: Rate, b: Bucket, now: int): Bucket
    requires r.every > 0
  {
    var t := Refilled(r, b, now);
    Bucket(if t >= 1.0 then t - 1.0 else t, now)
  }

  function Fresh(r: Rate, now: int): Bucket {
    Bucket(r.burst as real, now)
  }

  // ---- arithmetic of Gain

  lemma GainAdds(r: Rate, a: int, b: int)
    requires r.every > 0
    ensures Gain(r, a) + Gain(r, b) == Gain(r, a + b)
  {}

  lemma GainAtLeast(r: Rate, a: int, x: real)
    requires r.every > 0
    ensures Gain(r, a) >= x <==> a as real >= x * r.every as real
  {
    var e := r.every as real;
    assert Gain(r, a) * e == a as real;
    if Gain(r, a) >= x {
      MulMono(x, Gain(r, a), e);
    } else {
      MulStrict(Gain(r, a), x, e);
    }
  }

  lemma MulMono(x: real, y: real, e: real)
    requires x <= y && e > 0.0
    ensures x * e <= y * e
  {}

  lemma MulStrict(x: real, y: real, e: real)
    requires x < y && e > 0.0
    ensures x * e < y * e
  {}

  lemma GainNonNegative(r: Rate, a: int)
    requires r.every > 0 && a >= 0
    ensures Gain(r, a) >= 0.0
  {
    GainAtLeast(r, a, 0.0);
  }

  // ---- runs

  /** Attempts one after the other, by any number of callers, at the times `ts`. */
  function Results(r: Rate, b: Bucket, ts: seq<int>): (granted: seq<bool>)
    requires r.every > 0
    ensures |granted| == |ts|
    decreases |ts|
  {
    if ts == [] then []
    else [Grants(r, b, ts[0])] + Results(r, Polled(r, b, ts[0]), ts[1..])
  }

  function Count(granted: seq<bool>): nat {
    if granted == [] then 0 else (if granted[0] then 1 else 0) + Count(granted[1..])
  }

  ghost predicate Clock(start: int, ts: seq<int>) {
    (ts != [] ==> start <= ts[0]) && forall i, j | 0 <= i < j < |ts| :: ts[i] <= ts[j]
  }

  /** The bucket before the i-th attempt of a run. */
  function After(r: Rate, b: Bucket, ts: seq<int>, i: nat): Bucket
    requires r.every > 0 && i <= |ts|
    decreases |ts|
  {
    if i == 0 then b else After(r, Polled(r, b, ts[0]), ts[1..], i - 1)
  }

  /** 0 <= tokens <= burst, whatever the attempts. */
  lemma PolledHolds(r: Rate, b: Bucket, now: int)
    requires r.Limited() && Holds(r, b) && b.last <= now
    ensures Holds(r, Polled(r, b, now)) && Polled(r, b, now).last == now
  {
    GainNonNegative(r, now - b.last);
  }

  lemma {:induction false} AfterHolds(r: Rate, b: Bucket, ts: seq<int>, i: nat)
    requires r.Limited() && Holds(r, b) && Clock(b.last, ts) && i <= |ts|
    ensures Holds(r, After(r, b, ts, i)) && Clock(After(r, b, ts, i).last, ts[i..])
    decreases |ts|
  {
    if i > 0 {
      PolledHolds(r, b, ts[0]);
      AfterHolds(r, Polled(r, b, ts[0]), ts[1..], i - 1);
      assert ts[1..][i - 1..] == ts[i..];
    } else {
      assert ts[0..] == ts;
    }
  }

  lemma {:induction false} ResultsFrom(r: Rate, b: Bucket, ts: seq<int>, i: nat)
    requires r.every > 0 && i <= |ts|
    ensures Results(r, b, ts)[i..] == Results(r, After(r, b, ts, i), ts[i..])
    decreases |ts|
  {
    if i > 0 {
      ResultsFrom(r, Polled(r, b, ts[0]), ts[1..], i - 1);
      assert ts[1..][i - 1..] == ts[i..];
    } else {
      assert ts[0..] == ts;
    }
  }

  lemma {:induction false} ResultsUpTo(r: Rate, b: Bucket, ts: seq<int>, j: nat)
    requires r.every > 0 && j <= |ts|
    ensures Results(r, b, ts)[..j] == Results(r, b, ts[..j])
    decreases |ts|
  {
    if j > 0 {
      ResultsUpTo(r, Polled(r, b, ts[0]), ts[1..], j - 1);
      assert ts[..j][1..] == ts[1..][..j - 1] && ts[..j][0] == ts[0];
    }
  }

  /** The potential argument: what is granted comes out of what was there at the first attempt
      and what flowed in until the last. */
  lemma {:induction false} GrantsFromStart(r: Rate, b: Bucket, ts: seq<int>)
    requires r.Limited() && Holds(r, b) && Clock(b.last, ts) && ts != []
    ensures Count(Results(r, b, ts)) as real <= Refilled(r, b, ts[0]) + Gain(r, ts[|ts| - 1] - ts[0])
    decreases |ts|
  {
    var b' := Polled(r, b, ts[0]);
    PolledHolds(r, b, ts[0]);
    GainNonNegative(r, ts[0] - b.last);
    if |ts| > 1 {
      GrantsFromStart(r, b', ts[1..]);
      GainAdds(r, ts[1] - ts[0], ts[|ts| - 1] - ts[1]);
      assert Results(r, b, ts)[1..] == Results(r, b', ts[1..]);
    } else {
      assert Results(r, b, ts)[1..] == [];
    }
  }

  /** The limit: in any stretch of any run, at most burst plus elapsed/every are granted. */
  lemma GrantBound(r: Rate, b: Bucket, ts: seq<int>, i: nat, j: nat)
    requires r.Limited() && Holds(r, b) && Clock(b.last, ts) && i < j <= |ts|
    ensures Count(Results(r, b, ts)[i..j]) as real <= r.burst as real + Gain(r, ts[j - 1] - ts[i])
    ensures (Count(Results(r, b, ts)[i..j]) - r.burst) * r.every <= ts[j - 1] - ts[i]
  {
    hide Gain, Refilled, Results, After, Count, Holds, Polled, Grants;
    var head := ts[..j];
    ResultsUpTo(r, b, ts, j);
    ResultsFrom(r, b, head, i);
    AfterHolds(r, b, head, i);
    assert Results(r, b, ts)[i..j] == Results(r, b, ts)[..j][i..];
    GrantsFromStart(r, After(r, b, head, i), head[i..]);
    RefilledAtMost(r, After(r, b, head, i), ts[i]);
    WholeTokens(r, Count(Results(r, b, ts)[i..j]) - r.burst, ts[j - 1] - ts[i]);
  }

  lemma WholeTokens(r: Rate, n: int, elapsed: int)
    requires r.every > 0 && n as real <= Gain(r, elapsed)
    ensures n * r.every <= elapsed
  {
    GainAtLeast(r, elapsed, n as real);
    assert n as real * r.every as real == (n * r.every) as real;
  }

  lemma RefilledAtMost(r: Rate, b: Bucket, now: int)
    requires r.every > 0
    ensures Refilled(r, b, now) <= r.burst as real
  {}

  /** No caller is held back longer than the rate asks: attempts refused in a row span less
      than `every`. */
  lemma {:induction false} RefusalsAreShort(r: Rate, b: Bucket, ts: seq<int>)
    requires r.Limited() && Holds(r, b) && Clock(b.last, ts) && ts != []
    requires Count(Results(r, b, ts)) == 0
    ensures b.tokens + Gain(r, ts[|ts| - 1] - b.last) < 1.0
    ensures ts[|ts| - 1] - b.last < r.every
    decreases |ts|
  {
    var b' := Polled(r, b, ts[0]);
    PolledHolds(r, b, ts[0]);
    assert Results(r, b, ts)[1..] == Results(r, b', ts[1..]);
    if |ts| > 1 {
      RefusalsAreShort(r, b', ts[1..]);
      GainAdds(r, ts[0] - b.last, ts[|ts| - 1] - ts[0]);
    }
    GainAtLeast(r, ts[|ts| - 1] - b.last, 1.0);
  }

  // ---- what is granted at least

  /** No refill of the run overflows the bucket. */
  ghost predicate NeverOverflows(r: Rate, b: Bucket, ts: seq<int>)
    requires r.every > 0
    decreases |ts|
  {
    ts == [] ||
    (b.tokens + Gain(r, ts[0] - b.last) <= r.burst as real && NeverOverflows(r, Polled(r, b, ts[0]), ts[1..]))
  }

  /** Tokens are not lost except by overflow: what was there and what flowed in is what was granted and
      what is left, if and only if the bucket never overflowed. */
  lemma {:induction false} ConservedIff(r: Rate, b: Bucket, ts: seq<int>)
    requires r.Limited() && Holds(r, b) && Clock(b.last, ts) && ts != []
    ensures var out := After(r, b, ts, |ts|).tokens + Count(Results(r, b, ts)) as real;
            var all := b.tokens + Gain(r, ts[|ts| - 1] - b.last);
            out <= all && (out == all <==> NeverOverflows(r, b, ts))
    decreases |ts|
  {
    var b' := Polled(r, b, ts[0]);
    PolledHolds(r, b, ts[0]);
    GainNonNegative(r, ts[0] - b.last);
    assert Results(r, b, ts)[1..] == Results(r, b', ts[1..]);
    PolledTokens(r, b, ts[0]);
    if |ts| > 1 {
      hide Polled, Gain, Refilled;
      ConservedIff(r, b', ts[1..]);
      GainAdds(r, ts[0] - b.last, ts[|ts| - 1] - ts[0]);
    }
  }

  lemma PolledTokens(r: Rate, b: Bucket, now: int)
    requires r.every > 0
    ensures var out := Polled(r, b, now).tokens + if Grants(r, b, now) then 1.0 else 0.0;
            var all := b.tokens + Gain(r, now - b.last);
            if all <= r.burst as real then out == all else out == r.burst as real < all
  {}

  /** A run too short to fill the bucket cannot overflow it. */
  lemma {:induction false} ShortRunsNeverOverflow(r: Rate, b: Bucket, ts: seq<int>)
    requires r.Limited() && Holds(r, b) && Clock(b.last, ts) && ts != []
    requires b.tokens + Gain(r, ts[|ts| - 1] - b.last) <= r.burst as real
    ensures NeverOverflows(r, b, ts)
    decreases |ts|
  {
    PolledHolds(r, b, ts[0]);
    PolledTokens(r, b, ts[0]);
    GainAdds(r, ts[0] - b.last, ts[|ts| - 1] - ts[0]);
    GainNonNegative(r, ts[|ts| - 1] - ts[0]);
    if |ts| > 1 {
      hide Polled, Gain;
      ShortRunsNeverOverflow(r, Polled(r, b, ts[0]), ts[1..]);
    }
  }

  /** The other bound: while nothing overflows, all that was there and flowed in is granted but for one
      bucket, and but for less than a token when the last attempt was refused. */
  lemma GrantsAtLeast(r: Rate, b: Bucket, ts: seq<int>)
    requires r.Limited() && Holds(r, b) && Clock(b.last, ts) && ts != [] && NeverOverflows(r, b, ts)
    ensures var granted, all := Results(r, b, ts), b.tokens + Gain(r, ts[|ts| - 1] - b.last);
            && Count(granted) as real >= all - r.burst as real
            && (!granted[|ts| - 1] ==> Count(granted) as real > all - 1.0)
  {
    hide Gain, Results, Count, NeverOverflows, Polled;
    var n := |ts| - 1;
    ConservedIff(r, b, ts);
    AfterHolds(r, b, ts, n + 1);
    AfterNext(r, b, ts, n);
    RefusedHasLess(r, After(r, b, ts, n), ts[n]);
  }

  lemma RefusedHasLess(r: Rate, b: Bucket, now: int)
    requires r.every > 0
    ensures !Grants(r, b, now) ==> Polled(r, b, now).tokens < 1.0
  {}

  /** No pause longer than `gap`. */
  ghost predicate Busy(start: int, ts: seq<int>, gap: int) {
    forall i | 0 <= i < |ts| :: ts[i] - (if i == 0 then start else ts[i - 1]) <= gap
  }

  function FirstGrant(granted: seq<bool>): (i: nat)
    ensures i <= |granted| && Count(granted[..i]) == 0
    ensures i < |granted| ==> granted[i] && Count(granted) == 1 + Count(granted[i + 1..])
    ensures i == |granted| ==> Count(granted) == 0
  {
    if granted == [] || granted[0] then 0
    else
      var i := FirstGrant(granted[1..]);
      assert granted[..i + 1][1..] == granted[1..][..i] && granted[1..][i..] == granted[i + 1..];
      assert i + 1 < |granted| ==> granted[1..][i + 1..] == granted[i + 2..];
      1 + i
  }

  /** A key that is tried again at most `gap` after each attempt is let through at least once in every
      `every + gap`, whatever the burst and however its bucket overflows. */
  lemma {:induction false} BusyKeyIsServed(r: Rate, b: Bucket, ts: seq<int>, gap: nat)
    requires r.Limited() && Holds(r, b) && Clock(b.last, ts) && ts != [] && Busy(b.last, ts, gap)
    ensures (Count(Results(r, b, ts)) + 1) * (r.every + gap) > ts[|ts| - 1] - b.last
    decreases |ts|
  {
    hide Results, Count, After, Polled, Holds, Grants;
    var granted := Results(r, b, ts);
    var i := FirstGrant(granted);
    if i > 0 {
      ResultsUpTo(r, b, ts, i);
      RefusalsAreShort(r, b, ts[..i]);
      assert ts[..i][i - 1] == ts[i - 1];
    }
    if i < |ts| {
      assert ts[i] - (if i == 0 then b.last else ts[i - 1]) <= gap;
      assert ts[i] - b.last < r.every + gap;
      var b', rest := After(r, b, ts, i + 1), ts[i + 1..];
      AfterHolds(r, b, ts, i + 1);
      AfterHolds(r, b, ts, i);
      AfterNext(r, b, ts, i);
      LastOfPolled(r, After(r, b, ts, i), ts[i]);
      ResultsFrom(r, b, ts, i + 1);
      if rest != [] {
        BusyKeyIsServed(r, b', rest, gap);
      }
      OneMore(Count(granted[i + 1..]), r.every + gap);
    }
  }

  lemma LastOfPolled(r: Rate, b: Bucket, now: int)
    requires r.every > 0
    ensures Polled(r, b, now).last == now
  {}

  lemma OneMore(n: nat, d: int)
    ensures (1 + n + 1) * d == (n + 1) * d + d
    ensures n == 0 ==> (n + 1) * d == d
  {}

  // ---- one caller waiting

  /** The sleep after a refused attempt: the time until a whole token, cut to nanoseconds. */
  function Sleep(r: Rate, b: Bucket): int
    requires r.every > 0
  {
    ((1.0 - b.tokens) * r.every as real).Floor
  }

  /** With no one else taking tokens, the sleep is tight: before it is over an attempt is refused,
      one nanosecond after it is over an attempt is granted. */
  lemma SleepIsTight(r: Rate, b: Bucket, now: int, later: int)
    requires r.Limited() && Holds(r, b) && b.last <= now <= later && !Grants(r, b, now)
    ensures var b' := Polled(r, b, now);
            && Sleep(r, b') >= 0
            && (later < now + Sleep(r, b') ==> !Grants(r, b', later))
            && (later > now + Sleep(r, b') ==> Grants(r, b', later))
  {
    var b' := Polled(r, b, now);
    PolledHolds(r, b, now);
    GainAtLeast(r, later - now, 1.0 - b'.tokens);
    MulStrict(0.0, 1.0 - b'.tokens, r.every as real);
  }

  /** How a wait ends: at once without a limit, never once cancelled, else with the first attempt that
      is granted. */
  ghost predicate Waited(r: Rate, b: Bucket, cancelled: bool, wakes: seq<int>, ok: bool, attempts: nat) {
    if cancelled then !ok && attempts == 0
    else if r.every <= 0 then ok && attempts == 0
    else
      var granted := Results(r, b, wakes);
      if ok then 0 < attempts <= |wakes| && granted[attempts - 1] && Count(granted[..attempts - 1]) == 0
      else attempts == |wakes| && Count(granted) == 0
  }

  ghost function AfterWait(r: Rate, b: Bucket, wakes: seq<int>, attempts: nat): Bucket {
    if r.every > 0 && attempts <= |wakes| then After(r, b, wakes, attempts) else b
  }

  class Limiter {
    const rate: Rate
    var tokens: real
    var last: int

    ghost predicate Valid()
      reads this
    {
      rate.burst >= 1 && Holds(rate, State())
    }

    ghost function State(): Bucket
      reads this
    {
      Bucket(tokens, last)
    }

    /** `now` is the clock at the time of the call; a burst below one is taken as one. */
    constructor (every: int, burst: int, now: int)
      ensures Valid() && rate == Rate(every, if burst < 1 then 1 else burst)
      ensures State() == Fresh(rate, now)
    {
      var b := if burst < 1 then 1 else burst;
      rate := Rate(every, b);
      tokens := b as real;
      last := now;
    }

    /** One pass of the waiting loop, made under the lock at the time `now`. */
    method Attempt(now: int) returns (granted: bool, sleep: int)
      requires Valid() && rate.every > 0 && last <= now
      modifies this
      ensures Valid()
      ensures granted == Grants(rate, old(State()), now)
      ensures State() == Polled(rate, old(State()), now)
      ensures !granted ==> sleep == Sleep(rate, State()) >= 0
    {
      PolledHolds(rate, State(), now);
      var elapsed := now - last;
      last := now;
      tokens := tokens + elapsed as real / rate.every as real;
      if tokens > rate.burst as real {
        tokens := rate.burst as real;
      }
      if tokens >= 1.0 {
        tokens := tokens - 1.0;
        return true, 0;
      }
      var need := 1.0 - tokens;
      MulStrict(0.0, need, rate.every as real);
      return false, (need * rate.every as real).Floor;
    }

    /** A caller alone with the limiter, whose wake-ups come at `wakes`, the first being its
        arrival; it is cancelled when they run out. */
    method Wait(cancelled: bool, wakes: seq<int>) returns (ok: bool, ghost attempts: nat)
      requires Valid() && Clock(last, wakes)
      modifies this
      ensures Valid()
      ensures Waited(rate, old(State()), cancelled, wakes, ok, attempts)
      ensures State() == AfterWait(rate, old(State()), wakes, attempts)
      ensures cancelled || rate.every <= 0 ==> ok == !cancelled && State() == old(State())
      ensures !cancelled && rate.every > 0 ==>
                (ok <==> exists i :: 0 <= i < |wakes| && Results(rate, old(State()), wakes)[i])
    {
      attempts := 0;
      if cancelled {
        return false, 0;
      }
      if rate.every <= 0 {
        return true, 0;
      }
      ghost var b := State();
      var i := 0;
      while i < |wakes|
        invariant i <= |wakes| && attempts == i
        invariant Valid() && Clock(last, wakes[i..])
        invariant State() == After(rate, b, wakes, i)
        invariant Count(Results(rate, b, wakes)[..i]) == 0
        invariant forall j :: 0 <= j < i ==> !Results(rate, b, wakes)[j]
      {
        AfterNext(rate, b, wakes, i);
        var granted, _ := Attempt(wakes[i]);
        i, attempts := i + 1, attempts + 1;
        if granted {
          return true, attempts;
        }
      }
      assert Results(rate, b, wakes)[..i] == Results(rate, b, wakes);
      return false, attempts;
    }
  }

  lemma {:induction false} AfterNext(r: Rate, b: Bucket, ts: seq<int>, i: nat)
    requires r.every > 0 && i < |ts|
    ensures After(r, b, ts, i + 1) == Polled(r, After(r, b, ts, i), ts[i])
    ensures Results(r, b, ts)[i] == Grants(r, After(r, b, ts, i), ts[i])
    ensures Count(Results(r, b, ts)[..i + 1]) == Count(Results(r, b, ts)[..i]) + if Results(r, b, ts)[i] then 1 else 0
    decreases |ts|
  {
    var g := Results(r, b, ts);
    if i > 0 {
      AfterNext(r, Polled(r, b, ts[0]), ts[1..], i - 1);
      var h := Results(r, Polled(r, b, ts[0]), ts[1..]);
      assert g == [g[0]] + h;
      assert g[..i + 1][1..] == h[..i] && g[..i][1..] == h[..i - 1];
    } else {
      assert g[..1] == [g[0]] && g[..0] == [];
    }
  }
}
