/** business.Client.StatementAll: another cursor over capped pages, which moves one second
    past the oldest row of a page unless the page lies in a single second. */
module BusinessIter {
  import opened Wrappers
  import opened Statement
  import opened DrainWindow
  import opened Ranges

  predicate SameSecond(page: seq<Tx>)
    requires page != []
  {
    page[0].time == page[|page| - 1].time
  }

  /** A page size of zero or less stands for the server's default. */
  predicate FullPage(pageSize: int, page: seq<Tx>) {
    pageSize <= 0 || |page| >= pageSize
  }

  datatype Move = Stop | Next(cursor: int, seen: set<string>)

  /** Where the loop goes after a page, from the second `at` of its upper bound. */
  function AfterPage(page: seq<Tx>, pageSize: int, at: int, seen: set<string>): Move {
    if page == [] then Stop
    else
      var oldest := page[|page| - 1].time;
      if SameSecond(page) && FullPage(pageSize, page) then
        if Fresh(page, seen) == [] then Stop else Next(oldest * SECOND, Remembered(page, at, seen))
      else Next((oldest - 1) * SECOND, {})
  }

  lemma MoveShrinks(rows: set<Tx>, from: int, at: int, cap: nat, pageSize: int, seen: set<string>, page: seq<Tx>)
    requires IsNewestPage(rows, from, at, cap, page)
    ensures var move := AfterPage(page, pageSize, at, seen);
            move.Next? ==>
              && from <= page[|page| - 1].time <= at
              && Unix(move.cursor) <= at
              && (Unix(move.cursor) == at ==> |Unseen(rows, at, move.seen)| < |Unseen(rows, at, seen)|)
  {
    var move := AfterPage(page, pageSize, at, seen);
    if move.Next? {
      assert page[|page| - 1] in page;
      if SameSecond(page) && FullPage(pageSize, page) {
        Progress(rows, from, at, cap, seen, page);
        DivSecond(page[|page| - 1].time);
      } else {
        DivSecond(page[|page| - 1].time - 1);
      }
    }
  }

  lemma MoveCases(page: seq<Tx>, pageSize: int, at: int, seen: set<string>)
    ensures var move := AfterPage(page, pageSize, at, seen);
            if page == [] then move == Stop
            else if SameSecond(page) && FullPage(pageSize, page) then move.Stop? <==> Fresh(page, seen) == []
            else move == Next((page[|page| - 1].time - 1) * SECOND, {})
  {}

  lemma PageIsOrdered(rows: set<Tx>, from: int, to: int, cap: nat, page: seq<Tx>)
    requires IsNewestPage(rows, from, to, cap, page)
    ensures NewestFirst(page)
  {}

  lemma DivSecond(second: int)
    ensures Unix(second * SECOND) == second
  {}

  lemma StepsBack(second: int, cursor: int)
    requires second <= Unix(cursor)
    ensures (second - 1) * SECOND < cursor
  {}

  /** The run from the k-th page on, for a consumer that never stops. */
  ghost function StatementTrace(api: Fetcher, ctxErr: nat -> Option<Error>, rows: set<Tx>, cap: nat, pageSize: int,
                                k: nat, from: int, cursor: int, seen: set<string>): seq<Event>
    requires Honest(api, rows, cap)
    decreases FloorAt(Unix(from), Unix(cursor)), |Unseen(rows, Unix(cursor), seen)|
  {
    if ctxErr(k).Some? then [Fail(ctxErr(k).value)]
    else if cursor <= from then []
    else
      var at := Unix(cursor);
      var answer := api(k, Unix(from), at);
      Answered(Unix(from), at, answer, seen) +
      if answer.Failure? then []
      else
        var move := AfterPage(answer.value, pageSize, at, seen);
        MoveShrinks(rows, Unix(from), at, cap, pageSize, seen, answer.value);
        if move.Stop? then []
        else StatementTrace(api, ctxErr, rows, cap, pageSize, k + 1, from, move.cursor, move.seen)
  }

  /** Where one page leaves the consumer, within the whole run `events`. */
  lemma PageLanded(api: Fetcher, ctxErr: nat -> Option<Error>, rows: set<Tx>, cap: nat, pageSize: int,
                   k: nat, from: int, cursor: int, seen: set<string>,
                   events: seq<Event>, log0: seq<Event>, wants: seq<Tx> -> bool, log: seq<Event>, cont: bool)
    requires Honest(api, rows, cap) && ctxErr(k).None? && cursor > from
    requires events == log0 + StatementTrace(api, ctxErr, rows, cap, pageSize, k, from, cursor, seen)
    requires IsDelivery(log0 + Answered(Unix(from), Unix(cursor), api(k, Unix(from), Unix(cursor)), seen),
                        wants, log, cont)
    ensures var answer := api(k, Unix(from), Unix(cursor));
            var move := if answer.Failure? then Stop else AfterPage(answer.value, pageSize, Unix(cursor), seen);
            if cont && move.Next? then
              && events == log + StatementTrace(api, ctxErr, rows, cap, pageSize, k + 1, from, move.cursor, move.seen)
              && IsDelivery(log, wants, log, true)
            else
              IsDelivery(events, wants, log, cont)
  {
    var answer := api(k, Unix(from), Unix(cursor));
    var here := Answered(Unix(from), Unix(cursor), answer, seen);
    var trace := StatementTrace(api, ctxErr, rows, cap, pageSize, k, from, cursor, seen);
    assert trace == here + trace[|here|..];
    Assoc(log0, here, trace[|here|..]);
    if trace[|here|..] == [] {
      assert events == log0 + here;
    }
  }

  lemma TraceEnds(api: Fetcher, ctxErr: nat -> Option<Error>, rows: set<Tx>, cap: nat, pageSize: int,
                  k: nat, from: int, cursor: int, seen: set<string>)
    requires Honest(api, rows, cap)
    ensures var trace := StatementTrace(api, ctxErr, rows, cap, pageSize, k, from, cursor, seen);
            && (ctxErr(k).Some? ==> trace == [Fail(ctxErr(k).value)])
            && (ctxErr(k).None? && cursor <= from ==> trace == [])
  {}

  /** The ids the loop keeps when it stays at a second. */
  lemma KeptIds(page: seq<Tx>, pageSize: int, cursorTo: int, seen: set<string>, cursorSecond: int)
    requires page != [] && SameSecond(page) && NewestFirst(page) && FullPage(pageSize, page)
    requires Fresh(page, seen) != [] && (seen == {} || cursorSecond * SECOND == cursorTo)
    ensures var second := page[|page| - 1].time;
            AfterPage(page, pageSize, Unix(cursorTo), seen) ==
            Next(second * SECOND, (if second != cursorSecond then {} else seen) + Ids(page))
  {
    hide Fresh, FullPage, Unix, Remembered;
    var second := page[|page| - 1].time;
    assert forall item | item in page :: item.time == second;
    assert Ids(page) == IdsAt(page, second);
    DivSecond(cursorSecond);
    RememberedByLoop(page, Unix(cursorTo), seen, cursorSecond);
  }

  /** A full page of one second: the loop stays there and remembers all its ids. */
  method StayAtSecond(page: seq<Tx>, pageSize: int, cursorTo: int, seen: set<string>, cursorSecond: int)
    returns (remembered: set<string>, second: int)
    requires page != [] && SameSecond(page) && NewestFirst(page) && FullPage(pageSize, page)
    requires Fresh(page, seen) != [] && (seen == {} || cursorSecond * SECOND == cursorTo)
    ensures second == page[|page| - 1].time
    ensures AfterPage(page, pageSize, Unix(cursorTo), seen) == Next(second * SECOND, remembered)
  {
    hide AfterPage, Fresh, FullPage, SameSecond, NewestFirst, Unix;
    KeptIds(page, pageSize, cursorTo, seen, cursorSecond);
    remembered, second := seen, page[|page| - 1].time;
    if second != cursorSecond {
      remembered := {};
    }
    remembered := remembered + Ids(page);
  }

  /** The source's loop; `now` stands for the clock read when `to` is zero. */
  method StatementAll(from: int, to: int, now: int, pageSize: int, api: Fetcher, ctxErr: nat -> Option<Error>,
                      wants: seq<Tx> -> bool, ghost rows: set<Tx>, ghost cap: nat)
    returns (log: seq<Event>, cont: bool)
    requires Honest(api, rows, cap)
    ensures var start := if to == ZERO_TIME * SECOND then now else to;
            IsDelivery(StatementTrace(api, ctxErr, rows, cap, pageSize, 0, from, start, {}), wants, log, cont)
  {
    hide StatementTrace, Unix, IsDelivery, IsNewestPage, Answered, Fresh, Unseen, AfterPage, SameSecond, FullPage;
    hide ErrorOf;
    var cursorTo := to;
    if cursorTo == ZERO_TIME * SECOND {
      cursorTo := now;
    }
    var seen: set<string>, cursorSecond, k: nat := {}, ZERO_TIME, 0;
    log, cont := [], true;
    ghost var events := StatementTrace(api, ctxErr, rows, cap, pageSize, k, from, cursorTo, seen);
    assert events == log + events;
    NothingDelivered(wants);
    while true
      invariant events == log + StatementTrace(api, ctxErr, rows, cap, pageSize, k, from, cursorTo, seen)
      invariant seen == {} || cursorSecond * SECOND == cursorTo
      invariant IsDelivery(log, wants, log, true)
      decreases FloorAt(Unix(from), Unix(cursorTo)), |Unseen(rows, Unix(cursorTo), seen)|
    {
      TraceEnds(api, ctxErr, rows, cap, pageSize, k, from, cursorTo, seen);
      if ctxErr(k).Some? {
        DeliveryOfCall(log, Fail(ctxErr(k).value), wants);
        log := log + [Fail(ctxErr(k).value)];
        assert events == log;
        break;
      }
      if cursorTo <= from {
        assert events == log;
        break;
      }
      var page := api(k, Unix(from), Unix(cursorTo));
      ghost var log0 := log;
      var newly;
      log, cont, newly := AskAndYield(Unix(from), Unix(cursorTo), page, seen, wants, log);
      PageLanded(api, ctxErr, rows, cap, pageSize, k, from, cursorTo, seen, events, log0, wants, log, cont);
      k := k + 1;
      if page.Failure? {
        break;
      }
      MoveShrinks(rows, Unix(from), Unix(cursorTo), cap, pageSize, seen, page.value);
      MoveCases(page.value, pageSize, Unix(cursorTo), seen);
      PageIsOrdered(rows, Unix(from), Unix(cursorTo), cap, page.value);
      if |page.value| == 0 {
        break;
      }
      if !cont {
        break;
      }
      var oldest := page.value[|page.value| - 1].time;
      if SameSecond(page.value) && FullPage(pageSize, page.value) {
        if newly == 0 {
          break;
        }
        seen, cursorSecond := StayAtSecond(page.value, pageSize, cursorTo, seen, cursorSecond);
        cursorTo := oldest * SECOND;
        continue;
      }
      seen, cursorSecond := {}, ZERO_TIME;
      var next := (oldest - 1) * SECOND;
      StepsBack(oldest, cursorTo);
      if next >= cursorTo {
        break;
      }
      cursorTo := next;
    }
  }
}
