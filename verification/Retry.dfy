/** Bounded retries with backoff, and the attempt loop of Client.Do. Durations are int64
    nanoseconds. */
module Retry {
  import opened Wrappers
  import opened Numbers

  type Error = string

  const MIN_BACKOFF := 50_000_000
  const MAX_SHIFT: nat := 62

  function Pow2(n: nat): (p: int)
    ensures p >= 1
  {
    if n == 0 then 1 else 2 * Pow2(n - 1)
  }

  function Min(a: int, b: int): int { if a < b then a else b }

  function Max(a: int, b: int): int { if a < b then b else a }

  /** The delay before jitter as the source finds it: no shift where one might overflow. */
  function Grown(base: int, ceiling: int, attempt: nat): int {
    var d := if attempt >= MAX_SHIFT || base > MAX_INT64 / Pow2(attempt)
             then if ceiling <= 0 then base else ceiling
             else base * Pow2(attempt);
    if ceiling > 0 && d > ceiling then ceiling else d
  }

  /** The bounds of equal jitter around `d`: half of it to all of it, never below the floor,
      never above the ceiling. */
  predicate Jittered(r: int, d: int, ceiling: int) {
    if ceiling > 0 then Min(ceiling, Max(MIN_BACKOFF, d / 2)) <= r <= Min(ceiling, Max(MIN_BACKOFF, d))
    else Max(MIN_BACKOFF, d / 2) <= r <= Max(MIN_BACKOFF, d)
  }

  /** Equal jitter: half of `d`, or one where that is nothing, and as much again at random. */
  predicate Rolled(r: int, d: int, ceiling: int, dice: int -> int) {
    var half := Max(1, d / 2);
    var sum := Max(MIN_BACKOFF, half + dice(half));
    r == if ceiling > 0 then Min(ceiling, sum) else sum
  }

  /** A random source: `dice(n)` lies in [0, n). */
  ghost predicate Fair(dice: int -> int) {
    forall n | n > 0 :: 0 <= dice(n) < n
  }

  lemma Pow2Grows(m: nat, n: nat)
    requires m <= n
    ensures Pow2(m) <= Pow2(n)
    decreases n - m
  {
    if m < n {
      Pow2Grows(m, n - 1);
    }
  }

  lemma Pow2Of62()
    ensures Pow2(62) == 0x4000_0000_0000_0000 && Pow2(63) == MAX_INT64 + 1
  {
    assert Pow2(8) == 0x100;
    assert Pow2(16) == 0x1_0000;
    assert Pow2(24) == 0x100_0000;
    assert Pow2(32) == 0x1_0000_0000;
    assert Pow2(40) == 0x100_0000_0000;
    assert Pow2(48) == 0x1_0000_0000_0000;
    assert Pow2(56) == 0x100_0000_0000_0000;
  }

  lemma ShiftFits(base: int, p: int)
    requires base > 0 && p >= 1
    ensures base > MAX_INT64 / p <==> base * p > MAX_INT64
  {
    var q := MAX_INT64 / p;
    assert q * p <= MAX_INT64 < (q + 1) * p;
    if base > q {
      MulLe(q + 1, base, p);
    } else {
      MulLe(base, q, p);
    }
  }

  /** With a ceiling, the guarded shift is min(base * 2^n, ceiling), except in one case. */
  lemma GrownIsExactIff(base: int, ceiling: int, attempt: nat)
    requires 0 < base <= MAX_INT64 && 0 < ceiling <= MAX_INT64
    ensures Grown(base, ceiling, attempt) == Min(base * Pow2(attempt), ceiling) <==>
            !(attempt == 62 && base == 1 && ceiling > Pow2(62))
  {
    Pow2Of62();
    ShiftFits(base, Pow2(attempt));
    if attempt >= 62 {
      Pow2Grows(62, attempt);
      MulLe(1, base, Pow2(attempt));
      if attempt > 62 {
        Pow2Grows(63, attempt);
      } else if base > 1 {
        MulLe(2, base, Pow2(62));
      }
    }
  }

  /** Without a ceiling the exact product is used while it fits and the shift is below 62;
      past that the delay falls back to `base`. */
  lemma GrownWithoutCeiling(base: int, ceiling: int, attempt: nat)
    requires 0 < base <= MAX_INT64 && ceiling <= 0
    ensures Grown(base, ceiling, attempt) ==
            if attempt < MAX_SHIFT && base * Pow2(attempt) <= MAX_INT64 then base * Pow2(attempt) else base
  {
    ShiftFits(base, Pow2(attempt));
  }

  lemma GrownPositive(base: int, ceiling: int, attempt: nat)
    requires 0 < base <= MAX_INT64 && Fits(ceiling)
    ensures 0 < Grown(base, ceiling, attempt) <= MAX_INT64
  {
    ShiftFits(base, Pow2(attempt));
    MulLe(1, Pow2(attempt), base);
  }

  /** The source's backoff. The jitter's sum cannot overflow. */
  method Backoff(base: int, ceiling: int, attempt: nat, dice: int -> int) returns (r: int)
    requires Fits(base) && Fits(ceiling) && Fair(dice)
    ensures base <= 0 ==> r == 0
    ensures base > 0 ==> Jittered(r, Grown(base, ceiling, attempt), ceiling)
    ensures 0 <= r <= MAX_INT64 && (ceiling > 0 ==> r <= ceiling)
    ensures base > 0 ==> Rolled(r, Grown(base, ceiling, attempt), ceiling, dice)
  {
    if base <= 0 {
      return 0;
    }
    GrownPositive(base, ceiling, attempt);
    var d;
    if attempt >= MAX_SHIFT || base > MAX_INT64 / Pow2(attempt) {
      d := ceiling;
      if d <= 0 {
        d := base;
      }
    } else {
      d := base * Pow2(attempt);
    }
    if ceiling > 0 && d > ceiling {
      d := ceiling;
    }
    if d <= 0 {
      return 0;
    }
    var half := d / 2;
    if half <= 0 {
      half := 1;
    }
    r := half + dice(half);
    if r < MIN_BACKOFF {
      r := MIN_BACKOFF;
    }
    if ceiling > 0 && r > ceiling {
      r := ceiling;
    }
  }

  // ---- the retry loop

  datatype Policy = Policy(maxAttempts: int, baseDelay: int, maxDelay: int)

  /** What one attempt came to; a transient failure carries the server's hint, negative when
      there is none. */
  datatype Attempt = Ok | Permanent(error: Error) | Transient(retryAfter: int, error: Error)

  datatype Outcome = Done | Gave(error: Error) | Cancelled

  function Budget(p: Policy): nat {
    if p.maxAttempts < 1 then 1 else p.maxAttempts
  }

  /** The sleep after the i-th attempt. */
  predicate Slept(p: Policy, a: Attempt, i: nat, delay: int)
    requires a.Transient?
  {
    var unclamped := if a.retryAfter >= 0 then delay == a.retryAfter
                     else if p.baseDelay <= 0 then delay == 0
                     else Jittered(delay, Grown(p.baseDelay, p.maxDelay, i), p.maxDelay);
    unclamped || (0 < p.maxDelay == delay < a.retryAfter)
  }

  /** What a sleep is: the server's hint if there is one, cut at maxDelay; nothing without a base; else between
      half of base * 2^i and all of it, both cut at maxDelay and not below 50 ms. */
  lemma SleptMeans(p: Policy, a: Attempt, i: nat, delay: int)
    requires a.Transient? && Fits(p.baseDelay) && Fits(p.maxDelay) && Slept(p, a, i, delay)
    requires p.maxDelay > 0 ==> delay <= p.maxDelay
    ensures a.retryAfter >= 0 ==> delay == if 0 < p.maxDelay < a.retryAfter then p.maxDelay else a.retryAfter
    ensures a.retryAfter < 0 && p.baseDelay <= 0 ==> delay == 0
    ensures a.retryAfter < 0 && p.baseDelay > 0 && p.maxDelay > 0
            && !(i == 62 && p.baseDelay == 1 && p.maxDelay > Pow2(62)) ==>
              var d := Min(p.baseDelay * Pow2(i), p.maxDelay);
              Min(p.maxDelay, Max(50_000_000, d / 2)) <= delay <= Min(p.maxDelay, Max(50_000_000, d))
  {
    if p.baseDelay > 0 && p.maxDelay > 0 {
      GrownIsExactIff(p.baseDelay, p.maxDelay, i);
    }
  }

  /** A hint of the server's is kept to, up to maxDelay. */
  predicate HintKept(p: Policy, hint: int, delay: int) {
    hint >= 0 ==> delay == if 0 < p.maxDelay < hint then p.maxDelay else hint
  }

  /** What is left behind by the first `n` attempts, each made in the state the one before left. */
  function Past<S>(fn: S -> (Attempt, S), s0: S, n: nat): S {
    if n == 0 then s0 else fn(Past(fn, s0, n - 1)).1
  }

  /** How the i-th attempt ends. */
  function Nth<S>(fn: S -> (Attempt, S), s0: S, i: nat): Attempt {
    fn(Past(fn, s0, i)).0
  }

  /** Runs attempts until one succeeds, one fails for good, the budget is spent, or a sleep is
      cancelled. `calls` of them were made, with `sleeps` started between them; `fn` takes the state
      an attempt finds to its end and the state it leaves. */
  method Run<S>(p: Policy, fn: S -> (Attempt, S), s0: S, cancelled: nat -> bool, dice: nat -> int -> int)
    returns (result: Outcome, calls: nat, sleeps: seq<int>, s: S)
    requires Fits(p.baseDelay) && Fits(p.maxDelay) && forall i :: Fair(dice(i))
    ensures 1 <= calls <= Budget(p) == Max(1, p.maxAttempts)
    ensures s == Past(fn, s0, calls)
    ensures forall i | 0 <= i < calls - 1 :: Nth(fn, s0, i).Transient? && !cancelled(i)
    ensures var last := Nth(fn, s0, calls - 1);
            match result
            case Done => last.Ok?
            case Gave(e) => (last.Permanent? || (last.Transient? && calls == Budget(p))) && last.error == e
            case Cancelled => last.Transient? && calls < Budget(p) && cancelled(calls - 1)
    ensures |sleeps| == if result.Cancelled? then calls else calls - 1
    ensures forall i | 0 <= i < |sleeps| ::
              Nth(fn, s0, i).Transient? && Slept(p, Nth(fn, s0, i), i, sleeps[i]) && 0 <= sleeps[i]
    ensures p.maxDelay > 0 ==> forall i | 0 <= i < |sleeps| :: sleeps[i] <= p.maxDelay
  {
    hide Jittered, Grown;
    var attempts := p.maxAttempts;
    if attempts < 1 {
      attempts := 1;
    }
    s, sleeps := s0, [];
    for i := 0 to attempts
      invariant |sleeps| == i && s == Past(fn, s0, i)
      invariant forall j | 0 <= j < i :: Nth(fn, s0, j).Transient? && !cancelled(j)
      invariant forall j | 0 <= j < i :: Slept(p, Nth(fn, s0, j), j, sleeps[j]) && 0 <= sleeps[j]
      invariant p.maxDelay > 0 ==> forall j | 0 <= j < i :: sleeps[j] <= p.maxDelay
      invariant i < attempts
    {
      var (last, left) := fn(s);
      s := left;
      assert last == Nth(fn, s0, i);
      if last.Ok? {
        return Done, i + 1, sleeps, s;
      }
      if i == attempts - 1 {
        return Gave(last.error), i + 1, sleeps, s;
      }
      if last.Permanent? {
        return Gave(last.error), i + 1, sleeps, s;
      }
      var delay;
      if last.retryAfter > 0 {
        delay := last.retryAfter;
      } else if last.retryAfter == 0 {
        delay := 0;
      } else {
        delay := Backoff(p.baseDelay, p.maxDelay, i, dice(i));
      }
      if delay > p.maxDelay && p.maxDelay > 0 {
        delay := p.maxDelay;
      }
      sleeps := sleeps + [delay];
      if cancelled(i) {
        return Cancelled, i + 1, sleeps, s;
      }
    }
    assert false;
  }

  function Sum(xs: seq<int>): int {
    if xs == [] then 0 else xs[0] + Sum(xs[1..])
  }

  lemma NoSleep()
    ensures Sum([]) == 0
  {}

  /** The whole time slept: at most maxDelay for each attempt but the last. */
  lemma {:induction false} TotalSleep(p: Policy, sleeps: seq<int>)
    requires p.maxDelay > 0 && forall i | 0 <= i < |sleeps| :: 0 <= sleeps[i] <= p.maxDelay
    requires |sleeps| <= Budget(p) - 1
    ensures 0 <= Sum(sleeps) <= (Budget(p) - 1) * p.maxDelay
  {
    SumBound(sleeps, p.maxDelay);
    MulLe(|sleeps|, Budget(p) - 1, p.maxDelay);
  }

  lemma {:induction false} SumBound(xs: seq<int>, bound: int)
    requires forall i | 0 <= i < |xs| :: 0 <= xs[i] <= bound
    ensures 0 <= Sum(xs) <= |xs| * bound
  {
    if xs != [] {
      SumBound(xs[1..], bound);
      assert |xs| * bound == (|xs| - 1) * bound + bound;
    }
  }

  // ---- the server's hint

  const NO_RETRY_AFTER := -1
  const MAX_RETRY_AFTER := 24 * 3600 * 1_000_000_000

  /** The first of two headers that is not blank; `atoi` and `until` read a number, and an HTTP date
      as the time left until it. Seconds are cut before they are scaled, so the product fits. */
  function RetryAfter(primary: string, fallback: string,
                      atoi: string -> Option<int>, until: string -> Option<int>): (d: int)
    ensures var v := if primary != "" then primary else fallback;
            var number := if v == "" then None else atoi(v);
            var date := if v == "" then None else until(v);
            && NO_RETRY_AFTER <= d <= MAX_RETRY_AFTER == 86_400_000_000_000
            && (d == NO_RETRY_AFTER <==> (number.None? || number.value < 0) && date.None?)
            && (number.Some? && number.value >= 0 ==> d == Min(number.value * 1_000_000_000, MAX_RETRY_AFTER))
            && ((number.None? || number.value < 0) && date.Some? ==> d == Max(0, Min(date.value, MAX_RETRY_AFTER)))
  {
    var v := if primary != "" then primary else fallback;
    if v == "" then NO_RETRY_AFTER
    else if atoi(v).Some? && atoi(v).value >= 0 then
      if atoi(v).value > MAX_RETRY_AFTER / 1_000_000_000 then MAX_RETRY_AFTER else atoi(v).value * 1_000_000_000
    else if until(v).Some? then
      if until(v).value <= 0 then 0 else if until(v).value > MAX_RETRY_AFTER then MAX_RETRY_AFTER else until(v).value
    else NO_RETRY_AFTER
  }

  // ---- Client.Do

  /** One HTTP exchange: no response at all, a status and whether the caller expects it, or an
      expected status whose body could not be read or decoded. */
  datatype Response =
    | NoResponse(error: Error)
    | Status(code: int, expected: bool, retryAfter: int, error: Error)
    | Unreadable(error: Error)

  predicate IsTransientStatus(code: int) {
    code == 429 || 500 <= code <= 599
  }

  /** How an attempt reports its exchange. Errors of the transport or of decoding are not retried. */
  function Reported(resp: Response): Attempt {
    match resp
    case NoResponse(e) => Permanent(e)
    case Unreadable(e) => Permanent(e)
    case Status(code, expected, after, e) =>
      if expected then Ok else if IsTransientStatus(code) then Transient(after, e) else Permanent(e)
  }

  predicate ShouldRetry(verb: string, idempotencyKey: string, unsafeRetries: bool) {
    if verb in {"GET", "HEAD", "PUT", "DELETE", "OPTIONS"} then true
    else if verb in {"POST", "PATCH"} then unsafeRetries || idempotencyKey != ""
    else false
  }

  /** How often the limiter was asked and a request was sent. */
  datatype Made = Made(waits: nat, requests: nat)

  /** One attempt: the limiter is asked, and only if it lets the attempt through the request is sent.
      `limiter(i)` and `http(i)` are the answers to the i-th call of each. */
  function AttemptOnce(limiter: nat -> Option<Error>, http: nat -> Response, m: Made): (Attempt, Made) {
    var refused := limiter(m.waits);
    if refused.Some? then (Permanent(refused.value), m.(waits := m.waits + 1))
    else (Reported(http(m.requests)), Made(m.waits + 1, m.requests + 1))
  }

  function Attempting(limiter: nat -> Option<Error>, http: nat -> Response): Made -> (Attempt, Made) {
    m => AttemptOnce(limiter, http, m)
  }

  /** What the attempt after those comes to. */
  lemma NextAttempt(limiter: nat -> Option<Error>, http: nat -> Response, n: nat)
    requires Past(Attempting(limiter, http), Made(0, 0), n) == Made(n, n)
    ensures var fn, none := Attempting(limiter, http), Made(0, 0);
            && Nth(fn, none, n) == Ends(limiter, http, n)
            && Past(fn, none, n + 1) == Made(n + 1, if limiter(n).Some? then n else n + 1)
            && (n == 0 ==> fn(none) == (Nth(fn, none, 0), Past(fn, none, 1)))
  {}

  function Ends(limiter: nat -> Option<Error>, http: nat -> Response, n: nat): Attempt {
    if limiter(n).Some? then Permanent(limiter(n).value) else Reported(http(n))
  }

  /** The verbs that are safe to repeat, and the two that are with a key or the caller's word. */
  lemma ShouldRetryIff(verb: string, idempotencyKey: string, unsafeRetries: bool)
    ensures ShouldRetry(verb, idempotencyKey, unsafeRetries) <==>
            verb in {"GET", "HEAD", "PUT", "DELETE", "OPTIONS"} ||
            (verb in {"POST", "PATCH"} && (idempotencyKey != "" || unsafeRetries))
  {}

  /** How an attempt ends, by the limiter's answer and the server's. */
  lemma EndsBy(limiter: nat -> Option<Error>, http: nat -> Response, n: nat)
    ensures var end := Ends(limiter, http, n);
            if limiter(n).Some? then end == Permanent(limiter(n).value)
            else match http(n)
                 case NoResponse(e) => end == Permanent(e)
                 case Unreadable(e) => end == Permanent(e)
                 case Status(code, expected, after, e) =>
                   end == if expected then Ok
                          else if code == 429 || 500 <= code <= 599 then Transient(after, e)
                          else Permanent(e)
  {}

  /** Once per attempt: as long as every attempt failed transiently, each has asked the limiter and
      sent its request. */
  lemma {:induction false} OncePerAttempt(limiter: nat -> Option<Error>, http: nat -> Response, n: nat)
    requires forall i | 0 <= i < n :: Nth(Attempting(limiter, http), Made(0, 0), i).Transient?
    ensures Past(Attempting(limiter, http), Made(0, 0), n) == Made(n, n)
    ensures forall i | 0 <= i < n ::
              && limiter(i).None? && http(i).Status? && !http(i).expected && IsTransientStatus(http(i).code)
              && Nth(Attempting(limiter, http), Made(0, 0), i) == Transient(http(i).retryAfter, http(i).error)
  {
    hide Past, Nth, Ends, Attempting;
    if n > 0 {
      OncePerAttempt(limiter, http, n - 1);
      NextAttempt(limiter, http, n - 1);
      EndsBy(limiter, http, n - 1);
    } else {
      NothingMade(limiter, http);
    }
  }

  lemma NothingMade(limiter: nat -> Option<Error>, http: nat -> Response)
    ensures Past(Attempting(limiter, http), Made(0, 0), 0) == Made(0, 0)
  {}

  /** The attempts of Client.Do, with the numbers of calls of the limiter and of the HTTP client. */
  method Do(p: Policy, verb: string, idempotencyKey: string, unsafeRetries: bool,
            limiter: nat -> Option<Error>, http: nat -> Response, cancelled: nat -> bool, dice: nat -> int -> int)
    returns (result: Outcome, made: Made, sleeps: seq<int>)
    requires Fits(p.baseDelay) && Fits(p.maxDelay) && forall i :: Fair(dice(i))
    ensures 1 <= made.waits <= Budget(p) == Max(1, p.maxAttempts)
    ensures made.requests == if limiter(made.waits - 1).Some? then made.waits - 1 else made.waits
    ensures forall i | 0 <= i < made.waits - 1 ::
              && limiter(i).None? && http(i).Status? && !http(i).expected
              && (http(i).code == 429 || 500 <= http(i).code <= 599)
    ensures result.Cancelled? ==> made.waits < Budget(p) && cancelled(made.waits - 1)
    ensures verb in {"POST", "PATCH"} && idempotencyKey == "" && !unsafeRetries ==> made.waits == 1 && sleeps == []
    ensures verb !in {"GET", "HEAD", "PUT", "DELETE", "OPTIONS", "POST", "PATCH"} ==> made.waits == 1 && sleeps == []
    ensures var n := made.waits - 1;
            if limiter(n).Some? then result == Gave(limiter(n).value)
            else match http(n)
                 case NoResponse(e) => result == Gave(e)
                 case Unreadable(e) => result == Gave(e)
                 case Status(code, expected, _, e) =>
                   if expected then result == Done
                   else if code == 429 || 500 <= code <= 599 then
                     && (result == Gave(e) || result == Cancelled)
                     && (result == Gave(e) &&
                         (verb in {"GET", "HEAD", "PUT", "DELETE", "OPTIONS"} ||
                          (verb in {"POST", "PATCH"} && (idempotencyKey != "" || unsafeRetries))) ==>
                           made.waits == Max(1, p.maxAttempts))
                   else result == Gave(e)
    ensures |sleeps| == if result.Cancelled? then made.waits else made.waits - 1
    ensures forall i | 0 <= i < |sleeps| ::
              http(i).Status? &&
              var hint := http(i).retryAfter;
              hint >= 0 ==> sleeps[i] == if 0 < p.maxDelay < hint then p.maxDelay else hint
    ensures p.maxDelay > 0 ==> 0 <= Sum(sleeps) <= (Budget(p) - 1) * p.maxDelay
  {
    hide ShouldRetry, Slept, Attempting, Past, Nth, Ends, Sum;
    var fn := Attempting(limiter, http);
    var none := Made(0, 0);
    if !ShouldRetry(verb, idempotencyKey, unsafeRetries) {
      OncePerAttempt(limiter, http, 0);
      NextAttempt(limiter, http, 0);
      var (only, left) := fn(none);
      result := if only.Ok? then Done else Gave(only.error);
      made, sleeps := left, [];
    } else {
      var calls;
      result, calls, sleeps, made := Run(p, fn, none, cancelled, dice);
      OncePerAttempt(limiter, http, calls - 1);
      NextAttempt(limiter, http, calls - 1);
      EndsBy(limiter, http, calls - 1);
      forall i | 0 <= i < |sleeps| ensures http(i).Status? && HintKept(p, http(i).retryAfter, sleeps[i]) {
        SleptMeans(p, Nth(fn, none, i), i, sleeps[i]);
      }
    }
    ShouldRetryIff(verb, idempotencyKey, unsafeRetries);
    EndsBy(limiter, http, made.waits - 1);
    NoSleep();
    if p.maxDelay > 0 && sleeps != [] {
      TotalSleep(p, sleeps);
    }
  }
}
