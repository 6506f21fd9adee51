/** TransactionsRange and TransactionsRangeIter of the personal and corporate clients: an
    arbitrary range of instants cut into consecutive 31-day windows, each drained by
    DrainWindow. Instants are nanoseconds since 1970; a request carries whole seconds. */
module Ranges {
  import opened Wrappers
  import opened Statement
  import opened DrainWindow

  const SECOND := 1_000_000_000
  const WINDOW_SECONDS := 31 * 24 * 3600
  const MAX_WINDOW := WINDOW_SECONDS * SECOND

  /** From the start of one window to the start of the next, in seconds. */
  const STRIDE := WINDOW_SECONDS + 1

  /** time.Time.Unix: the second an instant falls in. */
  function Unix(instant: int): int {
    instant / SECOND
  }

  function Fraction(instant: int): int {
    instant % SECOND
  }

  function WindowEnd(cursor: int, to: int): int {
    if cursor + MAX_WINDOW > to then to else cursor + MAX_WINDOW
  }

  /** What the loop does from `cursor` on, for a consumer that never stops. `ctxErr` is the
      context's error at the start of each window; `k` and `w` count requests and windows. */
  ghost function RangeTrace(api: Fetcher, ctxErr: nat -> Option<Error>, rows: set<Tx>,
                            k: nat, w: nat, cursor: int, to: int): seq<Event>
    requires Honest(api, rows, MAX_ROWS)
    decreases FloorAt(cursor, to)
  {
    if cursor > to then []
    else if ctxErr(w).Some? then [Fail(ctxErr(w).value)]
    else
      var here := DrainTrace(api, rows, k, Unix(cursor), Unix(WindowEnd(cursor, to)), {});
      here + if Failed(here) then []
             else RangeTrace(api, ctxErr, rows, k + Calls(here), w + 1, WindowEnd(cursor, to) + SECOND, to)
  }

  /** The guard both clients start with. */
  predicate Nothing(from: int, to: int) {
    to == ZERO_TIME * SECOND || to <= from
  }

  ghost function FullTrace(api: Fetcher, ctxErr: nat -> Option<Error>, rows: set<Tx>, from: int, to: int): seq<Event>
    requires Honest(api, rows, MAX_ROWS)
  {
    if Nothing(from, to) then [] else RangeTrace(api, ctxErr, rows, 0, 0, from, to)
  }

  const NeverCancelled: nat -> Option<Error> := _ => None

  lemma RangeStep(events: seq<Event>, log0: seq<Event>, here: seq<Event>, rest: seq<Event>,
                  wants: seq<Tx> -> bool, part: seq<Event>, cont: bool)
    requires events == log0 + (here + rest)
    requires IsDelivery(log0, wants, log0, true)
    requires IsDelivery(here, h => wants(Rows(log0) + h), part, cont)
    ensures cont ==> events == log0 + part + rest && IsDelivery(log0 + part, wants, log0 + part, true)
    ensures !cont || rest == [] ==> IsDelivery(events, wants, log0 + part, cont)
    ensures Calls(log0 + part) == Calls(log0) + Calls(part)
  {
    DeliveryThen(log0, log0, here, part, wants, cont);
    RowsConcat(log0, part);
    Assoc(log0, here, rest);
    if rest == [] {
      assert events == log0 + here;
    }
  }

  /** The rest of the run after the window at `cursor`. */
  ghost function AfterWindow(api: Fetcher, ctxErr: nat -> Option<Error>, rows: set<Tx>,
                             k: nat, w: nat, cursor: int, to: int): seq<Event>
    requires Honest(api, rows, MAX_ROWS) && cursor <= to
  {
    var here := DrainTrace(api, rows, k, Unix(cursor), Unix(WindowEnd(cursor, to)), {});
    if Failed(here) then []
    else RangeTrace(api, ctxErr, rows, k + Calls(here), w + 1, WindowEnd(cursor, to) + SECOND, to)
  }

  lemma WindowThenRest(api: Fetcher, ctxErr: nat -> Option<Error>, rows: set<Tx>,
                       k: nat, w: nat, cursor: int, to: int)
    requires Honest(api, rows, MAX_ROWS) && cursor <= to && ctxErr(w).None?
    ensures RangeTrace(api, ctxErr, rows, k, w, cursor, to) ==
            DrainTrace(api, rows, k, Unix(cursor), Unix(WindowEnd(cursor, to)), {}) +
            AfterWindow(api, ctxErr, rows, k, w, cursor, to)
  {
    hide DrainTrace;
  }

  lemma DeliveryOfAll(events: seq<Event>, log: seq<Event>, cont: bool)
    requires IsDelivery(events, _ => true, log, cont)
    ensures log == events
  {}

  lemma CancelledTrace(api: Fetcher, ctxErr: nat -> Option<Error>, rows: set<Tx>, k: nat, w: nat, cursor: int, to: int)
    requires Honest(api, rows, MAX_ROWS) && cursor <= to && ctxErr(w).Some?
    ensures RangeTrace(api, ctxErr, rows, k, w, cursor, to) == [Fail(ctxErr(w).value)]
  {}

  lemma NothingLeft(api: Fetcher, ctxErr: nat -> Option<Error>, rows: set<Tx>, k: nat, w: nat, cursor: int, to: int)
    requires Honest(api, rows, MAX_ROWS) && cursor > to
    ensures RangeTrace(api, ctxErr, rows, k, w, cursor, to) == []
  {}

  /** The streaming form. `log` is what it did and what its consumer received. */
  method TransactionsRangeIter(from: int, to: int, api: Fetcher, ctxErr: nat -> Option<Error>,
                               wants: seq<Tx> -> bool, ghost rows: set<Tx>)
    returns (log: seq<Event>, cont: bool)
    requires Honest(api, rows, MAX_ROWS)
    ensures IsDelivery(FullTrace(api, ctxErr, rows, from, to), wants, log, cont)
  {
    hide DrainTrace, RangeTrace;
    log, cont := [], true;
    if Nothing(from, to) {
      return;
    }
    var cursor, k: nat, w: nat := from, 0, 0;
    ghost var events := RangeTrace(api, ctxErr, rows, k, w, cursor, to);
    assert events == log + events;
    while cursor <= to
      invariant events == log + RangeTrace(api, ctxErr, rows, k, w, cursor, to)
      invariant k == Calls(log)
      invariant IsDelivery(log, wants, log, true)
      decreases FloorAt(cursor, to)
    {
      if ctxErr(w).Some? {
        assert RangeTrace(api, ctxErr, rows, k, w, cursor, to) == [Fail(ctxErr(w).value)] by {
          CancelledTrace(api, ctxErr, rows, k, w, cursor, to);
        }
        DeliveryOfCall(log, Fail(ctxErr(w).value), wants);
        log := log + [Fail(ctxErr(w).value)];
        return;
      }
      var end := WindowEnd(cursor, to);
      ghost var here := DrainTrace(api, rows, k, Unix(cursor), Unix(end), {});
      ghost var rest := AfterWindow(api, ctxErr, rows, k, w, cursor, to);
      WindowThenRest(api, ctxErr, rows, k, w, cursor, to);
      var got := Rows(log);
      var part, err;
      part, cont, err, k := Drain(Unix(cursor), Unix(end), api, k, h => wants(got + h), rows);
      RangeStep(events, log, here, rest, wants, part, cont);
      log := log + part;
      if err.Some? {
        return;
      }
      if !cont {
        return;
      }
      var next := end + SECOND;
      if next <= cursor {
        break;
      }
      cursor, w := next, w + 1;
    }
    NothingLeft(api, ctxErr, rows, k, w, cursor, to);
  }

  /** The collecting form: the same run, its rows in one list. */
  method TransactionsRange(from: int, to: int, api: Fetcher, ghost rows: set<Tx>)
    returns (result: Result<seq<Tx>, Error>, log: seq<Event>)
    requires Honest(api, rows, MAX_ROWS)
    ensures log == FullTrace(api, NeverCancelled, rows, from, to)
    ensures result == if Failed(log) then Failure(log[|log| - 1].error) else Success(Rows(log))
  {
    hide DrainTrace, RangeTrace, IsDelivery;
    log := [];
    if Nothing(from, to) {
      return Success([]), log;
    }
    ghost var w: nat := 0;
    var all, cursor, k: nat := [], from, 0;
    ghost var events := RangeTrace(api, NeverCancelled, rows, k, w, cursor, to);
    assert events == log + events;
    while cursor <= to
      invariant events == log + RangeTrace(api, NeverCancelled, rows, k, w, cursor, to)
      invariant k == Calls(log) && all == Rows(log) && !Failed(log)
      decreases FloorAt(cursor, to)
    {
      var end := WindowEnd(cursor, to);
      WindowThenRest(api, NeverCancelled, rows, k, w, cursor, to);
      ghost var here := DrainTrace(api, rows, k, Unix(cursor), Unix(end), {});
      Assoc(log, here, AfterWindow(api, NeverCancelled, rows, k, w, cursor, to));
      var part, cont, err;
      part, cont, err, k := Drain(Unix(cursor), Unix(end), api, k, _ => true, rows);
      DeliveryOfAll(here, part, cont);
      RowsConcat(log, part);
      log := log + part;
      if err.Some? {
        return Failure(err.value), log;
      }
      all := all + Rows(part);
      var next := end + SECOND;
      if next <= cursor {
        break;
      }
      cursor, w := next, w + 1;
    }
    NothingLeft(api, NeverCancelled, rows, k, w, cursor, to);
    return Success(all), log;
  }
}
