/** Refetching the verification key of a webhook handler, by any number of goroutines at once.
    Each step is what one goroutine does under one lock, or one event of a provider call.
    Calls are coalesced by a singleflight group: one execution at a time, joiners share it. */
module Refresh {
  import opened Wrappers

  const MIN_INTERVAL := 30_000_000_000

  type Key = string

  /** What a handler keeps: the key, the time of the last recorded refresh, and the calls made. */
  datatype Cached<K> = Cached(key: Option<K>, last: int, fetches: nat)

  /** refreshCoalesced with no one else about: `answer` is the provider's, None when it fails or its
      key does not parse; `now` is the time of the checks, `stamp` that of the record. */
  function Coalesced<K>(c: Cached<K>, now: int, stamp: int, answer: Option<K>): (Cached<K>, bool) {
    if now - c.last < MIN_INTERVAL then (c, true)
    else if answer.None? then (c.(fetches := c.fetches + 1), false)
    else (Cached(answer, stamp, c.fetches + 1), true)
  }

  /** Where a goroutine is inside refreshCoalesced. */
  datatype Place =
    | Entering            // past the outer check, about to enter the group
    | Joined              // waits for the execution in progress
    | Checking            // leads the execution, before the inner check
    | Calling             // its provider call is in flight
    | Storing(key: Key)   // has a key, about to store it
    | Stamping            // has stored it, about to record the time
    | Leaving(ok: bool)   // the execution is over, the group not yet free
    | Returned(ok: bool)

  /** A provider call: when it began, how many refreshes had been recorded by then, and whether
      it came to nothing. */
  datatype Call = Call(start: int, stamped: nat, failed: bool)

  datatype State = State(
    now: int, last: int, key: Key, flight: Option<nat>, at: map<nat, Place>,
    calls: seq<Call>, stamps: seq<int>, provided: set<Key>)

  datatype Step =
    | Tick(now: int)
    | Begin(g: nat)
    | Enter(g: nat)
    | Check(g: nat)
    | Fail(g: nat)              // the provider fails, or its key does not parse
    | Reply(g: nat, key: Key)
    | Store(g: nat)
    | Stamp(g: nat)
    | Finish(g: nat)

  /** A handler just built: its key fetched, no refresh recorded. */
  ghost predicate Init(s: State) {
    && s.now - s.last >= MIN_INTERVAL
    && s.flight == None && s.at == map[] && s.calls == [] && s.stamps == []
    && s.key in s.provided
  }

  predicate Throttled(s: State) {
    s.now - s.last < MIN_INTERVAL
  }

  predicate Enabled(s: State, step: Step) {
    match step
    case Tick(t) => s.now <= t
    case Begin(g) => g in s.at ==> s.at[g].Returned?
    case Enter(g) => g in s.at && s.at[g].Entering?
    case Check(g) => g in s.at && s.at[g].Checking?
    case Fail(g) => g in s.at && s.at[g].Calling?
    case Reply(g, _) => g in s.at && s.at[g].Calling?
    case Store(g) => g in s.at && s.at[g].Storing?
    case Stamp(g) => g in s.at && s.at[g].Stamping?
    case Finish(g) => g in s.at && s.at[g].Leaving?
  }

  function LastFailed(calls: seq<Call>): seq<Call> {
    if calls == [] then [] else calls[..|calls| - 1] + [calls[|calls| - 1].(failed := true)]
  }

  function Do(s: State, step: Step): State
    requires Enabled(s, step)
  {
    match step
    case Tick(t) => s.(now := t)
    case Begin(g) => s.(at := s.at[g := if Throttled(s) then Returned(true) else Entering])
    case Enter(g) =>
      if s.flight == None then s.(flight := Some(g), at := s.at[g := Checking])
      else s.(at := s.at[g := Joined])
    case Check(g) =>
      if Throttled(s) then s.(at := s.at[g := Leaving(true)])
      else s.(at := s.at[g := Calling], calls := s.calls + [Call(s.now, |s.stamps|, false)])
    case Fail(g) => s.(at := s.at[g := Leaving(false)], calls := LastFailed(s.calls))
    case Reply(g, k) => s.(at := s.at[g := Storing(k)], provided := s.provided + {k})
    case Store(g) => s.(at := s.at[g := Stamping], key := s.at[g].key)
    case Stamp(g) => s.(at := s.at[g := Leaving(true)], last := s.now, stamps := s.stamps + [s.now])
    case Finish(g) =>
      var ok := s.at[g].ok;
      s.(flight := None,
         at := map h | h in s.at :: if h == g || s.at[h].Joined? then Returned(ok) else s.at[h])
  }

  ghost predicate Possible(s: State, steps: seq<Step>)
    decreases |steps|
  {
    steps == [] || (Enabled(s, steps[0]) && Possible(Do(s, steps[0]), steps[1..]))
  }

  ghost function Exec(s: State, steps: seq<Step>): State
    requires Possible(s, steps)
    decreases |steps|
  {
    if steps == [] then s else Exec(Do(s, steps[0]), steps[1..])
  }

  // ---- the invariant

  predicate Leads(p: Place) {
    p.Checking? || p.Calling? || p.Storing? || p.Stamping? || p.Leaving?
  }

  /** The group's execution and the goroutines agree. */
  ghost predicate OneLeader(s: State) {
    && (forall g | g in s.at && Leads(s.at[g]) :: s.flight == Some(g))
    && (s.flight.Some? ==> s.flight.value in s.at && Leads(s.at[s.flight.value]))
    && (forall g | g in s.at && s.at[g].Joined? :: s.flight.Some?)
  }

  predicate Refreshing(p: Place) {
    p.Calling? || p.Storing? || p.Stamping?
  }

  /** A provider call was made that has neither failed nor been recorded. */
  predicate Busy(s: State) {
    s.flight.Some? && s.flight.value in s.at && Refreshing(s.at[s.flight.value])
  }

  ghost predicate Spaced(stamps: seq<int>) {
    forall i | 0 < i < |stamps| :: stamps[i] - stamps[i - 1] >= MIN_INTERVAL
  }

  ghost predicate Stamped(s: State) {
    && s.last <= s.now
    && Spaced(s.stamps)
    && (s.stamps != [] ==> s.stamps[|s.stamps| - 1] == s.last)
  }

  /** How many refreshes are recorded once a call is over. */
  function Recorded(c: Call): nat {
    if c.failed then c.stamped else c.stamped + 1
  }

  /** A call begins at least 30 s after the record before it, and not after the record it led to. */
  ghost predicate Placed(c: Call, stamps: seq<int>) {
    && c.stamped <= |stamps|
    && (c.stamped > 0 ==> c.start - stamps[c.stamped - 1] >= MIN_INTERVAL)
    && (c.stamped < |stamps| ==> c.start <= stamps[c.stamped])
  }

  /** The calls in order: a refresh is recorded between one and the next exactly when it succeeded. */
  ghost predicate Chained(calls: seq<Call>) {
    forall i | 0 < i < |calls| ::
      calls[i - 1].start <= calls[i].start && calls[i].stamped == Recorded(calls[i - 1])
  }

  ghost predicate AllPlaced(calls: seq<Call>, stamps: seq<int>, now: int) {
    forall i | 0 <= i < |calls| :: Placed(calls[i], stamps) && calls[i].start <= now
  }

  /** The record of calls and that of refreshes agree; `busy` if the last call is not over. */
  ghost predicate Match(calls: seq<Call>, stamps: seq<int>, now: int, busy: bool) {
    && Chained(calls)
    && AllPlaced(calls, stamps, now)
    && (calls == [] ==> stamps == [] && !busy)
    && (calls != [] ==>
          var c := calls[|calls| - 1];
          if busy then !c.failed && c.stamped == |stamps| else Recorded(c) == |stamps|)
  }

  ghost predicate Called(s: State) {
    Match(s.calls, s.stamps, s.now, Busy(s))
  }

  /** A refresh on its way was let through by the last record and nothing was recorded since. */
  ghost predicate Pending(s: State) {
    forall g | g in s.at && Refreshing(s.at[g]) :: s.now - s.last >= MIN_INTERVAL
  }

  ghost predicate KeysProvided(s: State) {
    s.key in s.provided && forall g | g in s.at && s.at[g].Storing? :: s.at[g].key in s.provided
  }

  ghost predicate Inv(s: State) {
    OneLeader(s) && Stamped(s) && Called(s) && Pending(s) && KeysProvided(s)
  }

  lemma InitHolds(s: State)
    requires Init(s)
    ensures Inv(s)
  {}

  lemma LeaderKept(s: State, step: Step)
    requires OneLeader(s) && Enabled(s, step)
    ensures OneLeader(Do(s, step))
  {}

  lemma StampedKept(s: State, step: Step)
    requires Stamped(s) && Pending(s) && Enabled(s, step)
    ensures Stamped(Do(s, step))
  {}

  /** Who is busy after a step: nothing but its own effect changes it. */
  lemma BusyAfter(s: State, step: Step)
    requires OneLeader(s) && Enabled(s, step)
    ensures Busy(Do(s, step)) == (if step.Check? then !Throttled(s) else Busy(s) && !step.Fail? && !step.Stamp?)
    ensures step.Fail? || step.Stamp? ==> Busy(s)
    ensures step.Check? ==> !Busy(s)
  {}

  lemma CallsAfter(s: State, step: Step)
    requires Enabled(s, step)
    ensures var t := Do(s, step);
            && t.stamps == (if step.Stamp? then s.stamps + [s.now] else s.stamps)
            && t.calls == (if step.Check? && !Throttled(s) then s.calls + [Call(s.now, |s.stamps|, false)]
                           else if step.Fail? then LastFailed(s.calls) else s.calls)
            && s.now <= t.now && (step.Tick? || t.now == s.now)
  {}

  lemma CalledKept(s: State, step: Step)
    requires Inv(s) && Enabled(s, step)
    ensures Called(Do(s, step))
  {
    hide Do, Match, Busy, OneLeader, KeysProvided;
    BusyAfter(s, step);
    CallsAfter(s, step);
    var t := Do(s, step);
    MatchLater(s.calls, s.stamps, s.now, t.now, Busy(s));
    if step.Stamp? {
      MatchStamped(s.calls, s.stamps, s.now);
    } else if step.Check? && !Throttled(s) {
      MatchGrows(s.calls, s.stamps, s.now);
    } else if step.Fail? {
      MatchFailed(s.calls, s.stamps, s.now);
    }
  }

  lemma MatchLater(calls: seq<Call>, stamps: seq<int>, now: int, later: int, busy: bool)
    requires Match(calls, stamps, now, busy) && now <= later
    ensures Match(calls, stamps, later, busy)
  {}

  lemma MatchStamped(calls: seq<Call>, stamps: seq<int>, now: int)
    requires Match(calls, stamps, now, true)
    ensures Match(calls, stamps + [now], now, false)
  {}

  lemma MatchGrows(calls: seq<Call>, stamps: seq<int>, now: int)
    requires Match(calls, stamps, now, false)
    requires stamps != [] ==> now - stamps[|stamps| - 1] >= MIN_INTERVAL
    ensures Match(calls + [Call(now, |stamps|, false)], stamps, now, true)
  {
    var c := Call(now, |stamps|, false);
    assert Placed(c, stamps);
    assert calls != [] ==> Recorded(calls[|calls| - 1]) == |stamps|;
  }

  lemma MatchFailed(calls: seq<Call>, stamps: seq<int>, now: int)
    requires Match(calls, stamps, now, true)
    ensures Match(LastFailed(calls), stamps, now, false)
  {}

  lemma PendingKept(s: State, step: Step)
    requires Inv(s) && Enabled(s, step)
    ensures Pending(Do(s, step)) && KeysProvided(Do(s, step))
  {}

  /** Every step of every goroutine keeps the invariant. */
  lemma {:induction false} RunHolds(s: State, steps: seq<Step>)
    requires Inv(s) && Possible(s, steps)
    ensures Inv(Exec(s, steps))
    decreases |steps|
  {
    if steps != [] {
      hide Inv, Do, Enabled;
      StepHolds(s, steps[0]);
      RunHolds(Do(s, steps[0]), steps[1..]);
    }
  }

  lemma StepHolds(s: State, step: Step)
    requires Inv(s) && Enabled(s, step)
    ensures Inv(Do(s, step))
  {
    LeaderKept(s, step);
    StampedKept(s, step);
    CalledKept(s, step);
    PendingKept(s, step);
  }

  // ---- what callers and the provider see

  /** In every interleaving: never two provider calls at once; a call starts at least 30 s after
      the last recorded refresh; recorded refreshes are 30 s apart; the cached key is one that
      the provider returned; whoever waits has someone to wait for. */
  lemma RefreshIsSafe(s: State, steps: seq<Step>)
    requires Init(s) && Possible(s, steps)
    ensures var t := Exec(s, steps);
            && (forall g, h | g in t.at && h in t.at && t.at[g].Calling? && t.at[h].Calling? :: g == h)
            && (forall i | 0 <= i < |t.calls| :: Placed(t.calls[i], t.stamps))
            && Spaced(t.stamps)
            && t.key in t.provided
            && (forall g | g in t.at && t.at[g].Joined? ::
                  t.flight.Some? && t.flight.value in t.at && Leads(t.at[t.flight.value]))
  {
    InitHolds(s);
    RunHolds(s, steps);
  }

  /** So the recorded refreshes of any stretch are bounded by its length. */
  lemma {:induction false} StampsAreSparse(stamps: seq<int>, i: nat, j: nat)
    requires Spaced(stamps) && i <= j < |stamps|
    ensures stamps[j] - stamps[i] >= (j - i) * MIN_INTERVAL
    decreases j - i
  {
    if i < j {
      StampsAreSparse(stamps, i, j - 1);
    }
  }

  // ---- what the goroutines are told

  /** Whether the latest provider call came to something. */
  predicate LatestWorked(calls: seq<Call>) {
    calls != [] && !calls[|calls| - 1].failed
  }

  /** An execution that is over says how the latest call went. */
  ghost predicate Told(s: State) {
    forall g | g in s.at && s.at[g].Leaving? :: s.at[g].ok == LatestWorked(s.calls)
  }

  lemma InitTold(s: State)
    requires Init(s)
    ensures Told(s)
  {}

  /** Within 30 s of a record the latest call is the one recorded. */
  ghost predicate Fresh(s: State) {
    Throttled(s) ==> LatestWorked(s.calls)
  }

  lemma ToldKept(s: State, step: Step)
    requires Inv(s) && Told(s) && Fresh(s) && Enabled(s, step)
    ensures Told(Do(s, step)) && Fresh(Do(s, step))
  {
    hide Chained, AllPlaced, Placed, Spaced;
  }

  lemma {:induction false} RunTold(s: State, steps: seq<Step>)
    requires Inv(s) && Told(s) && Fresh(s) && Possible(s, steps)
    ensures Inv(Exec(s, steps)) && Told(Exec(s, steps)) && Fresh(Exec(s, steps))
    decreases |steps|
  {
    if steps != [] {
      hide Inv, Do, Enabled, Told, Fresh;
      StepHolds(s, steps[0]);
      ToldKept(s, steps[0]);
      RunTold(Do(s, steps[0]), steps[1..]);
    }
  }

  /** In every interleaving, whoever returns at a step, from the check outside the group or from an execution
      that it led or joined, is told that the key is good if and only if the latest provider call succeeded;
      so a joiner is told what its leader is. */
  lemma ReturnsTell(s: State, steps: seq<Step>, step: Step, g: nat)
    requires Init(s) && Possible(s, steps) && Enabled(Exec(s, steps), step)
    requires var t, u := Exec(s, steps), Do(Exec(s, steps), step);
             g in u.at && u.at[g].Returned? && (step == Begin(g) || !(g in t.at && t.at[g].Returned?))
    ensures var u := Do(Exec(s, steps), step);
            u.at[g].ok == LatestWorked(u.calls)
  {
    InitHolds(s);
    InitTold(s);
    RunTold(s, steps);
  }

  /** An execution ends for all of those in it at once: its leader and whoever joined return. */
  lemma FinishReturnsAll(s: State, g: nat, h: nat)
    requires Inv(s) && Enabled(s, Finish(g)) && h in s.at && (h == g || s.at[h].Joined?)
    ensures var t := Do(s, Finish(g));
            t.flight == None && h in t.at && t.at[h] == Returned(s.at[g].ok)
  {}

  // ---- when calls are held apart

  /** The provider calls made from the i-th on and before the j-th that came to nothing. */
  function FailuresIn(calls: seq<Call>, i: nat, j: nat): nat
    requires i <= j <= |calls|
    decreases j - i
  {
    if i == j then 0 else FailuresIn(calls, i, j - 1) + if calls[j - 1].failed then 1 else 0
  }

  lemma FailuresAtMost(calls: seq<Call>, i: nat, j: nat)
    requires i <= j <= |calls|
    ensures FailuresIn(calls, i, j) <= j - i
    ensures FailuresIn(calls, i, j) == j - i <==> forall h | i <= h < j :: calls[h].failed
    decreases j - i
  {}

  lemma NextCall(s: State, j: nat)
    requires Inv(s) && 0 < j < |s.calls|
    ensures var b, c := s.calls[j - 1], s.calls[j];
            && b.start <= c.start && c.stamped == Recorded(b)
            && (!b.failed ==> c.start - b.start >= MIN_INTERVAL)
  {
    var b, c := s.calls[j - 1], s.calls[j];
    assert Placed(b, s.stamps) && Placed(c, s.stamps);
  }

  lemma {:induction false} SuccessesHoldBack(s: State, i: nat, j: nat)
    requires Inv(s) && i <= j < |s.calls|
    ensures s.calls[j].stamped - s.calls[i].stamped == j - i - FailuresIn(s.calls, i, j)
    ensures s.calls[j].start - s.calls[i].start >= (j - i - FailuresIn(s.calls, i, j)) * MIN_INTERVAL
    decreases j - i
  {
    hide Inv;
    if i < j {
      SuccessesHoldBack(s, i, j - 1);
      NextCall(s, j);
    }
  }

  /** Exactly when the throttle works. Of any two provider calls, either only failures lie from the
      one to the other, or a refresh was recorded in between, and then they are 30 s apart. */
  lemma HeldApartUnlessFailing(s: State, steps: seq<Step>, i: nat, j: nat)
    requires Init(s) && Possible(s, steps) && i < j < |Exec(s, steps).calls|
    ensures var c := Exec(s, steps).calls;
            && (c[i].stamped < c[j].stamped <==> !forall h | i <= h < j :: c[h].failed)
            && (c[i].stamped < c[j].stamped ==> c[j].start - c[i].start >= MIN_INTERVAL)
  {
    InitHolds(s);
    RunHolds(s, steps);
    var t := Exec(s, steps);
    SuccessesHoldBack(t, i, j);
    FailuresAtMost(t.calls, i, j);
  }

  /** So the calls of any stretch number at most one, plus its length over 30 s, plus the failures
      in it. */
  lemma CallsAreBounded(s: State, steps: seq<Step>, i: nat, j: nat)
    requires Init(s) && Possible(s, steps) && i < j <= |Exec(s, steps).calls|
    ensures var c := Exec(s, steps).calls;
            j - i <= 1 + (c[j - 1].start - c[i].start) / MIN_INTERVAL + FailuresIn(c, i, j)
  {
    InitHolds(s);
    RunHolds(s, steps);
    var t := Exec(s, steps);
    SuccessesHoldBack(t, i, j - 1);
  }

  // ---- failures

  /** One goroutine whose provider call fails. */
  function FailedRefresh(g: nat): seq<Step> {
    [Begin(g), Enter(g), Check(g), Fail(g), Finish(g)]
  }

  function Failures(n: nat): seq<Step> {
    if n == 0 then [] else FailedRefresh(n) + Failures(n - 1)
  }

  lemma ExecCons(s: State, step: Step, rest: seq<Step>)
    requires Enabled(s, step) && Possible(Do(s, step), rest)
    ensures Possible(s, [step] + rest) && Exec(s, [step] + rest) == Exec(Do(s, step), rest)
  {
    assert ([step] + rest)[1..] == rest;
  }

  lemma {:induction false} ExecConcat(s: State, a: seq<Step>, b: seq<Step>)
    requires Possible(s, a) && Possible(Exec(s, a), b)
    ensures Possible(s, a + b) && Exec(s, a + b) == Exec(Exec(s, a), b)
    decreases |a|
  {
    if a == [] {
      assert a + b == b;
    } else {
      ExecConcat(Do(s, a[0]), a[1..], b);
      ExecCons(s, a[0], a[1..] + b);
      assert [a[0]] + (a[1..] + b) == a + b;
    }
  }

  /** A goroutine with no one else about gets as far as its provider call. */
  lemma GetsToCall(s: State, g: nat)
    requires g !in s.at && s.flight == None && !Throttled(s)
    ensures var steps := [Begin(g), Enter(g), Check(g)];
            && Possible(s, steps)
            && Exec(s, steps) == s.(flight := Some(g), at := s.at[g := Calling],
                                    calls := s.calls + [Call(s.now, |s.stamps|, false)])
  {
    var s1 := Do(s, Begin(g));
    var s2 := Do(s1, Enter(g));
    ExecCons(s2, Check(g), []);
    ExecCons(s1, Enter(g), [Check(g)]);
    ExecCons(s, Begin(g), [Enter(g), Check(g)]);
  }

  lemma OneFailure(s: State, g: nat)
    requires g !in s.at && s.flight == None && !Throttled(s)
    requires forall h | h in s.at :: s.at[h].Returned?
    ensures Possible(s, FailedRefresh(g))
    ensures Exec(s, FailedRefresh(g)) ==
            s.(calls := s.calls + [Call(s.now, |s.stamps|, true)], at := s.at[g := Returned(false)])
  {
    var first, last := [Begin(g), Enter(g), Check(g)], [Fail(g), Finish(g)];
    GetsToCall(s, g);
    var s3 := Exec(s, first);
    var s4 := Do(s3, Fail(g));
    ExecCons(s4, Finish(g), []);
    ExecCons(s3, Fail(g), [Finish(g)]);
    ExecConcat(s, first, last);
    assert FailedRefresh(g) == first + last;
    assert Do(s4, Finish(g)).at == s.at[g := Returned(false)];
  }

  lemma {:induction false} ManyFailures(s: State, n: nat)
    requires s.flight == None && !Throttled(s) && forall h | h in s.at :: s.at[h].Returned? && h > n
    ensures Possible(s, Failures(n))
    ensures var t := Exec(s, Failures(n));
            && t.now == s.now && |t.calls| == |s.calls| + n && t.calls[..|s.calls|] == s.calls
            && forall i | |s.calls| <= i < |t.calls| :: t.calls[i].start == s.now
    decreases n
  {
    if n > 0 {
      OneFailure(s, n);
      var t := Exec(s, FailedRefresh(n));
      ManyFailures(t, n - 1);
      ExecConcat(s, FailedRefresh(n), Failures(n - 1));
      assert t.calls[|s.calls|] == Call(s.now, |s.stamps|, true);
      var u := Exec(t, Failures(n - 1));
      assert u.calls[..|s.calls|] == u.calls[..|t.calls|][..|s.calls|];
      assert u.calls[|s.calls|] == u.calls[..|t.calls|][|s.calls|];
    }
  }

  /** One goroutine whose provider call succeeds, recorded at `stamp`. */
  function Success(g: nat, key: Key, stamp: int): seq<Step> {
    [Begin(g), Enter(g), Check(g), Reply(g, key), Store(g), Tick(stamp), Stamp(g), Finish(g)]
  }

  lemma OneSuccess(s: State, g: nat, key: Key, stamp: int)
    requires g !in s.at && s.flight == None && !Throttled(s) && s.now <= stamp
    requires forall h | h in s.at :: s.at[h].Returned?
    ensures Possible(s, Success(g, key, stamp))
    ensures var t := Exec(s, Success(g, key, stamp));
            && t.key == key && t.last == stamp && |t.calls| == |s.calls| + 1
            && t.at == s.at[g := Returned(true)]
  {
    var first, middle := [Begin(g), Enter(g), Check(g)], [Reply(g, key), Store(g)];
    var last := [Tick(stamp), Stamp(g), Finish(g)];
    GetsToCall(s, g);
    var s3 := Exec(s, first);
    var s4 := Do(s3, Reply(g, key));
    ExecCons(s4, Store(g), []);
    ExecCons(s3, Reply(g, key), [Store(g)]);
    Records(Exec(s3, middle), g, stamp);
    hide Do, Enabled;
    ExecConcat(s3, middle, last);
    ExecConcat(s, first, middle + last);
    assert Success(g, key, stamp) == first + (middle + last);
  }

  lemma Records(s: State, g: nat, stamp: int)
    requires g in s.at && s.at[g].Stamping? && s.now <= stamp
    requires forall h | h in s.at && h != g :: s.at[h].Returned?
    ensures var steps := [Tick(stamp), Stamp(g), Finish(g)];
            && Possible(s, steps)
            && var t := Exec(s, steps);
               t.key == s.key && t.last == stamp && t.calls == s.calls && t.at == s.at[g := Returned(true)]
  {
    var s1 := Do(s, Tick(stamp));
    var s2 := Do(s1, Stamp(g));
    ExecCons(s2, Finish(g), []);
    ExecCons(s1, Stamp(g), [Finish(g)]);
    ExecCons(s, Tick(stamp), [Stamp(g), Finish(g)]);
    assert Do(s2, Finish(g)).at == s.at[g := Returned(true)];
  }

  /** The steps of a goroutine with no one else about. */
  function Alone(s: State, g: nat, stamp: int, answer: Option<Key>): seq<Step> {
    if Throttled(s) then [Begin(g)]
    else match answer
         case None => FailedRefresh(g)
         case Some(key) => Success(g, key, stamp)
  }

  /** Undisturbed, the protocol's steps come to what `Coalesced` says, which is the contract of the
      handlers' method. */
  lemma AloneIsCoalesced(s: State, g: nat, stamp: int, answer: Option<Key>)
    requires g !in s.at && s.flight == None && s.now <= stamp
    requires forall h | h in s.at :: s.at[h].Returned?
    ensures Possible(s, Alone(s, g, stamp, answer))
    ensures var t := Exec(s, Alone(s, g, stamp, answer));
            && g in t.at && t.at[g].Returned?
            && (Cached(Some(t.key), t.last, |t.calls|), t.at[g].ok) ==
               Coalesced(Cached(Some(s.key), s.last, |s.calls|), s.now, stamp, answer)
  {
    if Throttled(s) {
      ExecCons(s, Begin(g), []);
    } else if answer.None? {
      OneFailure(s, g);
    } else {
      OneSuccess(s, g, answer.value, stamp);
    }
  }

  /** Failures are not throttled: for any n there is a run with n provider calls at one instant,
      each failing. Only a recorded success holds the next call back. */
  lemma FailuresAreNotThrottled(s: State, n: nat)
    requires Init(s)
    ensures Possible(s, Failures(n))
    ensures var t := Exec(s, Failures(n));
            |t.calls| == n && forall i | 0 <= i < n :: t.calls[i].start == s.now
  {
    ManyFailures(s, n);
  }
}
