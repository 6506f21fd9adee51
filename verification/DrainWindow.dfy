/** bank.DrainWindow: reading a whole window through pages that are cut at the newest
    500 rows, by asking again up to the oldest second seen and dropping the ids of that
    second already handed out. */
module DrainWindow {
  import opened Wrappers
  import opened Collections
  import opened Statement

  const MAX_ROWS: nat := 500

  /** The Go zero time, in seconds since 1970. */
  const ZERO_TIME := -62135596800

  /** Rows of the boundary second whose ids are not in `seen`. */
  function Unseen(rows: set<Tx>, second: int, seen: set<string>): set<Tx> {
    set r | r in At(rows, second) && r.id !in seen
  }

  function SeenRows(rows: set<Tx>, second: int, seen: set<string>): set<Tx> {
    set r | r in At(rows, second) && r.id in seen
  }

  /** `seen` holds ids of rows at the boundary second only. */
  ghost predicate SeenAtBoundary(rows: set<Tx>, second: int, seen: set<string>) {
    forall id | id in seen :: exists r :: r in At(rows, second) && r.id == id
  }

  /** The ids remembered once the bound moves to the last second of a full page. */
  function Remembered(page: seq<Tx>, to: int, seen: set<string>): set<string>
    requires page != []
  {
    var oldest := page[|page| - 1].time;
    IdsAt(page, oldest) + (if oldest == to then seen else {})
  }

  function FloorAt(from: int, to: int): nat {
    if from <= to then to - from + 1 else 0
  }

  /** Why asking again ends: a full page with something new in it moves the bound to
      an older second, or leaves fewer unseen rows at the same one. */
  lemma Progress(rows: set<Tx>, from: int, to: int, cap: nat, seen: set<string>, page: seq<Tx>)
    requires IsNewestPage(rows, from, to, cap, page) && page != []
    requires Fresh(page, seen) != []
    ensures var oldest := page[|page| - 1].time;
            && from <= oldest <= to
            && SeenAtBoundary(rows, oldest, IdsAt(page, oldest))
            && (oldest == to ==> |Unseen(rows, to, Remembered(page, to, seen))| < |Unseen(rows, to, seen)|)
  {
    var oldest := page[|page| - 1].time;
    assert page[|page| - 1] in page;
    forall id | id in IdsAt(page, oldest) ensures exists r :: r in At(rows, oldest) && r.id == id {
      var tx :| tx in page && tx.time == oldest && tx.id == id;
      assert tx in At(rows, oldest);
    }
    if oldest == to {
      var tx := Fresh(page, seen)[0];
      FreshMembers(page, seen);
      assert tx in page && tx.id !in seen;
      assert tx.time == to;
      var after := Unseen(rows, to, Remembered(page, to, seen));
      assert tx in Unseen(rows, to, seen) && tx !in after;
      SubsetSize(after, Unseen(rows, to, seen) - {tx});
    }
  }

  /** What one request leads to: the call, then its error or its rows not in `seen`. */
  function Answered(from: int, to: int, answer: Result<seq<Tx>, Error>, seen: set<string>): seq<Event> {
    [Call(from, to)] +
    match answer
    case Failure(e) => [Fail(e)]
    case Success(page) => AsRows(Fresh(page, seen))
  }

  /** A full page that brought something new: there may be more. */
  predicate AskAgain(answer: Result<seq<Tx>, Error>, seen: set<string>) {
    answer.Success? && |answer.value| >= MAX_ROWS && Fresh(answer.value, seen) != []
  }

  /** The full run from the k-th request on, for a consumer that never stops. */
  ghost function DrainTrace(api: Fetcher, rows: set<Tx>, k: nat, from: int, to: int, seen: set<string>): seq<Event>
    requires Honest(api, rows, MAX_ROWS)
    decreases FloorAt(from, to), |Unseen(rows, to, seen)|
  {
    var answer := api(k, from, to);
    Answered(from, to, answer, seen) +
    if !AskAgain(answer, seen) then []
    else
      var page := answer.value;
      Progress(rows, from, to, MAX_ROWS, seen, page);
      DrainTrace(api, rows, k + 1, from, page[|page| - 1].time, Remembered(page, to, seen))
  }

  /** One page's rows offered to the consumer, those in `seen` skipped. */
  method YieldPage(chunk: seq<Tx>, seen: set<string>, wants: seq<Tx> -> bool, log0: seq<Event>)
    returns (log: seq<Event>, cont: bool, newly: nat)
    requires IsDelivery(log0, wants, log0, true)
    ensures IsDelivery(log0 + AsRows(Fresh(chunk, seen)), wants, log, cont)
    ensures Calls(log) == Calls(log0) && log0 <= log
    ensures cont ==> newly == |Fresh(chunk, seen)|
  {
    log, cont, newly := log0, true, 0;
    for i := 0 to |chunk|
      invariant newly == |Fresh(chunk, seen)| - |Fresh(chunk[i..], seen)|
      invariant log + AsRows(Fresh(chunk[i..], seen)) == log0 + AsRows(Fresh(chunk, seen))
      invariant log0 <= log && Calls(log) == Calls(log0)
      invariant IsDelivery(log, wants, log, true)
    {
      var tx := chunk[i];
      FreshFrom(chunk, i, seen);
      if tx.id in seen {
        continue;
      }
      Assoc(log, [Row(tx)], AsRows(Fresh(chunk[i + 1..], seen)));
      DeliveryOfOne(log, tx, wants);
      log := log + [Row(tx)];
      if !wants(Rows(log)) {
        return log, false, newly;
      }
      newly := newly + 1;
    }
  }

  lemma FreshFrom(chunk: seq<Tx>, i: nat, seen: set<string>)
    requires i < |chunk|
    ensures var now, later := Fresh(chunk[i..], seen), Fresh(chunk[i + 1..], seen);
            && |now| == |later| + (if chunk[i].id in seen then 0 else 1)
            && AsRows(now) == (if chunk[i].id in seen then [] else [Row(chunk[i])]) + AsRows(later)
  {
    assert chunk[i..][0] == chunk[i] && chunk[i..][1..] == chunk[i + 1..];
  }

  lemma DeliveryOfOne(log: seq<Event>, tx: Tx, wants: seq<Tx> -> bool)
    requires IsDelivery(log, wants, log, true)
    ensures var more := log + [Row(tx)];
            && Calls(more) == Calls(log)
            && IsDelivery(more, wants, more, wants(Rows(more)))
  {
    RowsConcat(log, [Row(tx)]);
    var more := log + [Row(tx)];
    forall n | 0 < n < |Rows(more)| ensures wants(Rows(more)[..n]) {
      assert Rows(more)[..n] == Rows(log)[..n];
      assert n == |Rows(log)| ==> Rows(more)[..n] == Rows(log);
    }
  }

  lemma DeliveryOfCall(log: seq<Event>, call: Event, wants: seq<Tx> -> bool)
    requires IsDelivery(log, wants, log, true) && !call.Row?
    ensures IsDelivery(log + [call], wants, log + [call], true)
    ensures Calls(log + [call]) == Calls(log) + if call.Call? then 1 else 0
  {
    RowsConcat(log, [call]);
    assert Rows(log + [call]) == Rows(log);
  }

  /** The source forgets `seen` when the boundary second it keeps changes. */
  lemma RememberedByLoop(page: seq<Tx>, to: int, seen: set<string>, boundary: int)
    requires page != [] && (seen == {} || boundary == to)
    ensures var oldest := page[|page| - 1].time;
            (if oldest != boundary then {} else seen) + IdsAt(page, oldest) == Remembered(page, to, seen)
  {}

  /** The second to ask up to next and the ids of it already given. */
  method MoveBoundary(page: seq<Tx>, to: int, seen: set<string>, boundary: int)
    returns (remembered: set<string>, oldest: int)
    requires page != [] && (seen == {} || boundary == to)
    ensures remembered == Remembered(page, to, seen) && oldest == page[|page| - 1].time
  {
    RememberedByLoop(page, to, seen, boundary);
    remembered, oldest := seen, page[|page| - 1].time;
    if oldest != boundary {
      remembered := {};
    }
    remembered := remembered + IdsAt(page, oldest);
  }

  lemma NothingDelivered(wants: seq<Tx> -> bool)
    ensures IsDelivery([], wants, [], true) && Calls([]) == 0 && ErrorOf([]) == None
  {}

  lemma Assoc<T>(a: seq<T>, b: seq<T>, c: seq<T>)
    ensures a + (b + c) == (a + b) + c
  {}

  /** One request and, if it succeeds, its rows offered to the consumer. */
  method AskAndYield(from: int, to: int, answer: Result<seq<Tx>, Error>, seen: set<string>,
                     wants: seq<Tx> -> bool, log0: seq<Event>)
    returns (log: seq<Event>, cont: bool, newly: nat)
    requires IsDelivery(log0, wants, log0, true)
    ensures IsDelivery(log0 + Answered(from, to, answer, seen), wants, log, cont)
    ensures Calls(log) == Calls(log0) + 1
    ensures ErrorOf(log) == if answer.Failure? then Some(answer.error) else None
    ensures cont && answer.Success? ==> newly == |Fresh(answer.value, seen)|
  {
    DeliveryOfCall(log0, Call(from, to), wants);
    log := log0 + [Call(from, to)];
    match answer
    case Failure(e) =>
      DeliveryOfCall(log, Fail(e), wants);
      Assoc(log0, [Call(from, to)], [Fail(e)]);
      return log + [Fail(e)], true, 0;
    case Success(chunk) =>
      Assoc(log0, [Call(from, to)], AsRows(Fresh(chunk, seen)));
      ghost var called := log;
      log, cont, newly := YieldPage(chunk, seen, wants, log);
      assert log[|called| - 1] == Call(from, to);
  }

  /** Where one answer leaves the consumer, within the whole run `events`. */
  lemma Landed(api: Fetcher, rows: set<Tx>, k: nat, from: int, to: int, seen: set<string>,
               events: seq<Event>, log0: seq<Event>, wants: seq<Tx> -> bool, log: seq<Event>, cont: bool)
    requires Honest(api, rows, MAX_ROWS)
    requires events == log0 + DrainTrace(api, rows, k, from, to, seen)
    requires IsDelivery(log0 + Answered(from, to, api(k, from, to), seen), wants, log, cont)
    ensures if cont && AskAgain(api(k, from, to), seen) then
              var page := api(k, from, to).value;
              var remembered := Remembered(page, to, seen);
              && events == log + DrainTrace(api, rows, k + 1, from, page[|page| - 1].time, remembered)
              && IsDelivery(log, wants, log, true)
            else
              IsDelivery(events, wants, log, cont)
  {
    var here, trace := Answered(from, to, api(k, from, to), seen), DrainTrace(api, rows, k, from, to, seen);
    assert trace == here + trace[|here|..];
    Assoc(log0, here, trace[|here|..]);
    if !AskAgain(api(k, from, to), seen) {
      assert events == log0 + here;
    }
  }

  /** The source's loop. `log` is the record of its requests and rows. */
  method Drain(from: int, to: int, api: Fetcher, k0: nat, wants: seq<Tx> -> bool, ghost rows: set<Tx>)
    returns (log: seq<Event>, cont: bool, err: Option<Error>, k: nat)
    requires Honest(api, rows, MAX_ROWS)
    ensures IsDelivery(DrainTrace(api, rows, k0, from, to, {}), wants, log, cont)
    ensures err == ErrorOf(log)
    ensures k == k0 + Calls(log)
  {
    hide DrainTrace, IsDelivery, IsNewestPage, SeenAtBoundary, Answered, Fresh, Remembered, Unseen, Calls;
    var seen: set<string>, boundarySecond, cursorTo := {}, ZERO_TIME, to;
    log, cont, err, k := [], true, None, k0;
    ghost var events := DrainTrace(api, rows, k0, from, to, {});
    assert events == log + events;
    NothingDelivered(wants);
    while true
      invariant events == log + DrainTrace(api, rows, k, from, cursorTo, seen)
      invariant seen == {} || boundarySecond == cursorTo
      invariant k == k0 + Calls(log)
      invariant IsDelivery(log, wants, log, true)
      invariant err == None
      decreases FloorAt(from, cursorTo), |Unseen(rows, cursorTo, seen)|
    {
      var answer := api(k, from, cursorTo);
      var newly;
      ghost var log0 := log;
      log, cont, newly := AskAndYield(from, cursorTo, answer, seen, wants, log);
      Landed(api, rows, k, from, cursorTo, seen, events, log0, wants, log, cont);
      k := k + 1;
      if answer.Failure? {
        err := Some(answer.error);
        break;
      }
      var chunk := answer.value;
      if |chunk| == 0 {
        break;
      }
      if !cont {
        break;
      }
      if |chunk| < MAX_ROWS {
        break;
      }
      if newly == 0 {
        break;
      }
      Progress(rows, from, cursorTo, MAX_ROWS, seen, chunk);
      seen, boundarySecond := MoveBoundary(chunk, cursorTo, seen, boundarySecond);
      cursorTo := chunk[|chunk| - 1].time;
    }
  }
}
