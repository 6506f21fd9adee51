/** What business.Client.StatementAll keeps whatever the server's tie order; and which rows it
    yields, and which it loses, when the server keeps one order. */
module BusinessProperties {
  import opened Wrappers
  import opened Collections
  import opened Statement
  import opened DrainWindow
  import opened DrainProperties
  import opened FixedOrder
  import opened Ranges
  import opened BusinessIter

  // ---- any tie order

  lemma TraceStep(api: Fetcher, ctxErr: nat -> Option<Error>, rows: set<Tx>, cap: nat, pageSize: int,
                  k: nat, from: int, cursor: int, seen: set<string>)
    requires Honest(api, rows, cap) && ctxErr(k).None? && cursor > from
    ensures var answer := api(k, Unix(from), Unix(cursor));
            var move := if answer.Failure? then Stop else AfterPage(answer.value, pageSize, Unix(cursor), seen);
            StatementTrace(api, ctxErr, rows, cap, pageSize, k, from, cursor, seen) ==
            Answered(Unix(from), Unix(cursor), answer, seen) +
            if move.Stop? then []
            else StatementTrace(api, ctxErr, rows, cap, pageSize, k + 1, from, move.cursor, move.seen)
  {}

  lemma MoveKeeps(rows: set<Tx>, from: int, at: int, cap: nat, pageSize: int, seen: set<string>, page: seq<Tx>)
    requires UniqueIds(rows) && SeenAtBoundary(rows, at, seen) && IsNewestPage(rows, from, at, cap, page)
    ensures var move := AfterPage(page, pageSize, at, seen);
            move.Next? ==>
              && page != [] && page[|page| - 1].time <= at
              && SeenAtBoundary(rows, Unix(move.cursor), move.seen)
              && (Unix(move.cursor) < page[|page| - 1].time ||
                  (Unix(move.cursor) == page[|page| - 1].time && move.seen == Remembered(page, at, seen)))
  {
    hide Remembered, IsNewestPage, Fresh, SeenAtBoundary, Unix, UniqueIds, FullPage;
    if page != [] {
      var oldest := page[|page| - 1].time;
      LastInWindow(rows, from, at, cap, page);
      DivSecond(oldest);
      DivSecond(oldest - 1);
      NothingAtBoundary(rows, oldest - 1);
      if Fresh(page, seen) != [] {
        BoundaryOfMore(rows, from, at, cap, seen, page);
      }
    }
  }

  lemma LastInWindow(rows: set<Tx>, from: int, to: int, cap: nat, page: seq<Tx>)
    requires IsNewestPage(rows, from, to, cap, page) && page != []
    ensures from <= page[|page| - 1].time <= to
  {
    assert page[|page| - 1] in page;
  }

  lemma NothingAtBoundary(rows: set<Tx>, second: int)
    ensures SeenAtBoundary(rows, second, {})
  {}

  lemma BoundaryOfMore(rows: set<Tx>, from: int, to: int, cap: nat, seen: set<string>, page: seq<Tx>)
    requires SeenAtBoundary(rows, to, seen) && IsNewestPage(rows, from, to, cap, page) && page != []
    requires Fresh(page, seen) != []
    ensures SeenAtBoundary(rows, page[|page| - 1].time, Remembered(page, to, seen))
  {
    Progress(rows, from, to, cap, seen, page);
  }

  lemma AnsweredEvents(from: int, to: int, answer: Result<seq<Tx>, Error>, seen: set<string>)
    ensures var here := Answered(from, to, answer, seen);
            && (forall i | 0 <= i < |here| :: here[i].Call? ==> here[i] == Call(from, to))
            && (forall i | 0 <= i < |here| :: here[i].Fail? ==> answer.Failure? && i == |here| - 1)
  {}

  /** Holds for any tie order, whatever request fails and whenever the context is cancelled: no id
      twice, newest first, only rows of the range; every request inside the range; an error comes
      once and last. */
  lemma {:induction false} StatementShape(api: Fetcher, ctxErr: nat -> Option<Error>, rows: set<Tx>, cap: nat,
                                          pageSize: int, k: nat, from: int, cursor: int, seen: set<string>)
    requires Honest(api, rows, cap) && UniqueIds(rows) && SeenAtBoundary(rows, Unix(cursor), seen)
    ensures var trace := StatementTrace(api, ctxErr, rows, cap, pageSize, k, from, cursor, seen);
            && InOrder(rows, Unix(from), Unix(cursor), seen, Rows(trace))
            && (forall i | 0 <= i < |trace| :: trace[i].Call? ==>
                  trace[i].from == Unix(from) && Unix(from) <= trace[i].to <= Unix(cursor))
            && (forall i | 0 <= i < |trace| - 1 :: !trace[i].Fail?)
    decreases |StatementTrace(api, ctxErr, rows, cap, pageSize, k, from, cursor, seen)|
  {
    hide StatementTrace, IsNewestPage, Unix, AfterPage, SeenAtBoundary, InOrder, UniqueIds, Fresh, Answered, Remembered;
    var trace := StatementTrace(api, ctxErr, rows, cap, pageSize, k, from, cursor, seen);
    TraceEnds(api, ctxErr, rows, cap, pageSize, k, from, cursor, seen);
    if ctxErr(k).Some? || cursor <= from {
      InOrderNothing(rows, Unix(from), Unix(cursor), seen, trace);
    } else {
      var start, at := Unix(from), Unix(cursor);
      var answer := api(k, start, at);
      var here := Answered(start, at, answer, seen);
      TraceStep(api, ctxErr, rows, cap, pageSize, k, from, cursor, seen);
      UnixMonotone(from, cursor);
      AnsweredRows(start, at, answer, seen);
      AnsweredEvents(start, at, answer, seen);
      if answer.Failure? {
        assert trace == here;
        InOrderNothing(rows, start, at, seen, []);
      } else {
        var page := answer.value;
        var move := AfterPage(page, pageSize, at, seen);
        OrderOfPage(rows, start, at, cap, seen, page);
        if move.Stop? {
          assert trace == here;
        } else {
          MoveKeeps(rows, start, at, cap, pageSize, seen, page);
          var next := StatementTrace(api, ctxErr, rows, cap, pageSize, k + 1, from, move.cursor, move.seen);
          assert trace == here + next;
          StatementShape(api, ctxErr, rows, cap, pageSize, k + 1, from, move.cursor, move.seen);
          OrderOfMore(rows, start, at, cap, seen, page, Unix(move.cursor), move.seen, Rows(next));
          RowsConcat(here, next);
        }
      }
    }
  }

  lemma UnixMonotone(a: int, b: int)
    requires a <= b
    ensures Unix(a) <= Unix(b)
  {}

  lemma InOrderNothing(rows: set<Tx>, from: int, to: int, seen: set<string>, events: seq<Event>)
    requires events == [] || (|events| == 1 && events[0].Fail?)
    ensures InOrder(rows, from, to, seen, Rows(events))
  {}

  // ---- one order

  function PageAt(s: seq<Tx>, start: int, to: int, cap: nat): seq<Tx> {
    Take(WindowOf(s, start, to), cap)
  }

  /** The loop ends at a page of one second that it takes for full. */
  predicate StopsAt(page: seq<Tx>, pageSize: int)
    requires page != []
  {
    SameSecond(page) && FullPage(pageSize, page)
  }

  lemma PageBounds(s: seq<Tx>, start: int, to: int, cap: nat)
    ensures forall r | r in PageAt(s, start, to, cap) :: r in s && start <= r.time <= to
    ensures var page := PageAt(s, start, to, cap);
            page != [] ==> start <= page[|page| - 1].time <= to
  {
    WindowMembers(s, start, to);
    var page := PageAt(s, start, to, cap);
    assert forall r | r in page :: r in WindowOf(s, start, to);
    assert page != [] ==> page[|page| - 1] in page;
  }

  /** The rows yielded: page after page, each from the second before the last row of the one
      before, until a page of one second, or until that second is not later than `start`. */
  function Yielded(s: seq<Tx>, start: int, to: int, cap: nat, pageSize: int): seq<Tx>
    decreases FloorAt(start, to)
  {
    var page := PageAt(s, start, to, cap);
    if page == [] then []
    else
      var last := page[|page| - 1].time;
      PageBounds(s, start, to, cap);
      if StopsAt(page, pageSize) || last - 1 <= start then page
      else page + Yielded(s, start, last - 1, cap, pageSize)
  }

  /** Asking again for a second already given brings nothing. */
  lemma RefetchIsEmpty(api: Fetcher, ctxErr: nat -> Option<Error>, s: seq<Tx>, cap: nat, pageSize: int,
                       k: nat, from: int, second: int, page: seq<Tx>)
    requires Listed(s) && Serves(api, s, cap) && Honest(api, Elems(s), cap) && (forall i :: ctxErr(i).None?)
    requires page != [] && StopsAt(page, pageSize) && page[0].time == second
    requires page == PageAt(s, Unix(from), second, cap)
    ensures var seen := IdsAt(page, second);
            var trace := StatementTrace(api, ctxErr, Elems(s), cap, pageSize, k, from, second * SECOND, seen);
            Rows(trace) == [] && !Failed(trace)
  {
    hide StatementTrace, Honest, IsNewestPage, WindowOf, Answered, Fresh, AfterPage, IdsAt, PageAt, Listed, Take;
    var seen := IdsAt(page, second);
    TraceEnds(api, ctxErr, Elems(s), cap, pageSize, k, from, second * SECOND, seen);
    if second * SECOND > from {
      DivSecond(second);
      TraceStep(api, ctxErr, Elems(s), cap, pageSize, k, from, second * SECOND, seen);
      ServedPage(api, s, cap, k, Unix(from), second);
      AnsweredRows(Unix(from), second, Success(page), seen);
      SeenPage(s, Unix(from), second, cap, page, seen);
      MoveCases(page, pageSize, second, seen);
      var here := Answered(Unix(from), second, Success(page), seen);
      assert here + [] == here;
    }
  }

  lemma ServedPage(api: Fetcher, s: seq<Tx>, cap: nat, k: nat, from: int, to: int)
    requires Serves(api, s, cap)
    ensures api(k, from, to) == Success(PageAt(s, from, to, cap))
  {}

  lemma SeenPage(s: seq<Tx>, start: int, second: int, cap: nat, page: seq<Tx>, seen: set<string>)
    requires Listed(s) && page == PageAt(s, start, second, cap) && page != []
    requires SameSecond(page) && page[0].time == second && seen == IdsAt(page, second)
    ensures Fresh(page, seen) == []
  {
    hide Fresh;
    PageListed(s, start, second, cap);
    forall r | r in page ensures r.id in seen {
      assert r.time == second;
    }
    AllSeen(page, seen);
  }

  lemma {:induction false} AllSeen(page: seq<Tx>, seen: set<string>)
    requires forall r | r in page :: r.id in seen
    ensures Fresh(page, seen) == []
  {
    if page != [] {
      assert page[0] in page;
      AllSeen(page[1..], seen);
    }
  }

  lemma StepRows(api: Fetcher, ctxErr: nat -> Option<Error>, rows: set<Tx>, cap: nat, pageSize: int,
                 k: nat, from: int, cursor: int)
    requires Honest(api, rows, cap) && ctxErr(k).None? && cursor > from
    requires api(k, Unix(from), Unix(cursor)).Success?
    ensures var page := api(k, Unix(from), Unix(cursor)).value;
            var trace := StatementTrace(api, ctxErr, rows, cap, pageSize, k, from, cursor, {});
            if page == [] then Rows(trace) == [] && !Failed(trace)
            else
              var last := page[|page| - 1].time;
              var next := if StopsAt(page, pageSize) then
                            var seen := IdsAt(page, last);
                            StatementTrace(api, ctxErr, rows, cap, pageSize, k + 1, from, last * SECOND, seen)
                          else
                            StatementTrace(api, ctxErr, rows, cap, pageSize, k + 1, from, (last - 1) * SECOND, {});
              Rows(trace) == page + Rows(next) && Failed(trace) == Failed(next)
  {
    hide StatementTrace, Honest, Fresh, Answered;
    var page := api(k, Unix(from), Unix(cursor)).value;
    TraceStep(api, ctxErr, rows, cap, pageSize, k, from, cursor, {});
    AnsweredRows(Unix(from), Unix(cursor), Success(page), {});
    NoneSeen(page);
    var here := Answered(Unix(from), Unix(cursor), Success(page), {});
    if page == [] {
      assert here + [] == here;
    } else {
      var move := AfterPage(page, pageSize, Unix(cursor), {});
      var next := StatementTrace(api, ctxErr, rows, cap, pageSize, k + 1, from, move.cursor, move.seen);
      assert IdsAt(page, page[|page| - 1].time) + {} == IdsAt(page, page[|page| - 1].time);
      RowsConcat(here, next);
      NoFailureThen(here, next);
    }
  }

  /** The loop and its closed form give the same rows. */
  lemma {:induction false} StatementRows(api: Fetcher, ctxErr: nat -> Option<Error>, s: seq<Tx>, cap: nat,
                                         pageSize: int, k: nat, from: int, cursor: int)
    requires Listed(s) && Serves(api, s, cap) && Honest(api, Elems(s), cap) && (forall i :: ctxErr(i).None?)
    requires cursor > from
    ensures var trace := StatementTrace(api, ctxErr, Elems(s), cap, pageSize, k, from, cursor, {});
            Rows(trace) == Yielded(s, Unix(from), Unix(cursor), cap, pageSize) && !Failed(trace)
    decreases FloorAt(Unix(from), Unix(cursor))
  {
    hide StatementTrace, Unix, Honest, WindowOf, IdsAt, Yielded, PageAt, Listed, Serves, Elems;
    var start, at := Unix(from), Unix(cursor);
    var page := PageAt(s, start, at, cap);
    ServedPage(api, s, cap, k, start, at);
    YieldedStep(s, start, at, cap, pageSize);
    assert page + [] == page;
    StepRows(api, ctxErr, Elems(s), cap, pageSize, k, from, cursor);
    PageBounds(s, start, at, cap);
    if page != [] {
      var last := page[|page| - 1].time;
      if StopsAt(page, pageSize) {
        SameSecondPage(s, start, at, cap);
        RefetchIsEmpty(api, ctxErr, s, cap, pageSize, k + 1, from, last, page);
      } else {
        LaterThan(last - 1, from);
        if last - 1 > start {
          StatementRows(api, ctxErr, s, cap, pageSize, k + 1, from, (last - 1) * SECOND);
        } else {
          TraceEnds(api, ctxErr, Elems(s), cap, pageSize, k + 1, from, (last - 1) * SECOND, {});
        }
      }
    }
  }

  /** Page by page, for a server with one order: the rows of the run are those of the first page, and then those
      of the run from the second before its last row, as long as that is later than `from`. The run ends with a
      page all of one second, if it has at least the rows asked for or no number was asked for. */
  lemma RowsPageByPage(api: Fetcher, ctxErr: nat -> Option<Error>, s: seq<Tx>, cap: nat, pageSize: int,
                       k: nat, from: int, cursor: int)
    requires Listed(s) && Serves(api, s, cap) && Honest(api, Elems(s), cap) && (forall i :: ctxErr(i).None?)
    requires cursor > from
    ensures var page := Take(WindowOf(s, Unix(from), Unix(cursor)), cap);
            var out := Rows(StatementTrace(api, ctxErr, Elems(s), cap, pageSize, k, from, cursor, {}));
            if page == [] then out == []
            else
              var newest, oldest := page[0].time, page[|page| - 1].time;
              if newest == oldest && (pageSize <= 0 || |page| >= pageSize) then out == page
              else
                var next := (oldest - 1) * SECOND;
                out == page + if next <= from then []
                              else Rows(StatementTrace(api, ctxErr, Elems(s), cap, pageSize, k + 1, from, next, {}))
  {
    hide StatementTrace, Unix, Honest, WindowOf, Yielded, Listed, Serves, Elems;
    var start, at := Unix(from), Unix(cursor);
    StatementRows(api, ctxErr, s, cap, pageSize, k, from, cursor);
    YieldedStep(s, start, at, cap, pageSize);
    var page := PageAt(s, start, at, cap);
    if page != [] {
      var last := page[|page| - 1].time;
      LaterThan(last - 1, from);
      assert page + [] == page;
      if last - 1 > start {
        StatementRows(api, ctxErr, s, cap, pageSize, k + 1, from, (last - 1) * SECOND);
      }
    }
  }

  /** So without a page size nothing older follows a page of one second, however few rows it has. */
  lemma DefaultSizeStops(api: Fetcher, ctxErr: nat -> Option<Error>, s: seq<Tx>, cap: nat, pageSize: int,
                         from: int, cursor: int)
    requires Listed(s) && Serves(api, s, cap) && (forall i :: ctxErr(i).None?) && cursor > from && pageSize <= 0
    requires var page := Take(WindowOf(s, Unix(from), Unix(cursor)), cap);
             page != [] && page[0].time == page[|page| - 1].time
    ensures Honest(api, Elems(s), cap)
    ensures Rows(StatementTrace(api, ctxErr, Elems(s), cap, pageSize, 0, from, cursor, {})) ==
            Take(WindowOf(s, Unix(from), Unix(cursor)), cap)
  {
    hide StatementTrace, WindowOf;
    ServesHonestly(api, s, cap);
    RowsPageByPage(api, ctxErr, s, cap, pageSize, 0, from, cursor);
  }

  lemma NoneSeen(page: seq<Tx>)
    ensures Fresh(page, {}) == page
  {
    if page != [] {
      NoneSeen(page[1..]);
    }
  }

  lemma NoFailureThen(here: seq<Event>, next: seq<Event>)
    requires !Failed(here)
    ensures Failed(here + next) == Failed(next)
  {
    if next == [] {
      assert here + next == here;
    } else {
      assert (here + next)[|here + next| - 1] == next[|next| - 1];
    }
  }

  lemma LaterThan(second: int, from: int)
    ensures second * SECOND > from <==> second > Unix(from)
    ensures Unix(second * SECOND) == second
  {}

  /** A page of one second is also the page asked for up to that second. */
  lemma SameSecondPage(s: seq<Tx>, start: int, at: int, cap: nat)
    requires Listed(s) && PageAt(s, start, at, cap) != [] && SameSecond(PageAt(s, start, at, cap))
    ensures var page := PageAt(s, start, at, cap);
            page == PageAt(s, start, page[0].time, cap)
  {
    var w, page := WindowOf(s, start, at), PageAt(s, start, at, cap);
    PageBounds(s, start, at, cap);
    LowerBound(s, start, at, page[0].time);
    assert w[0] == page[0] && page[0] in page;
  }

  // ---- what is yielded

  lemma YieldedStep(s: seq<Tx>, start: int, to: int, cap: nat, pageSize: int)
    ensures var page := PageAt(s, start, to, cap);
            Yielded(s, start, to, cap, pageSize) ==
            if page == [] || StopsAt(page, pageSize) || page[|page| - 1].time - 1 <= start then page
            else page + Yielded(s, start, page[|page| - 1].time - 1, cap, pageSize)
  {}

  /** Only rows of the window, each once, newest first. */
  lemma {:induction false} YieldedShape(s: seq<Tx>, start: int, to: int, cap: nat, pageSize: int)
    requires Listed(s)
    ensures var out := Yielded(s, start, to, cap, pageSize);
            && Listed(out)
            && forall r | r in out :: r in s && start <= r.time <= to
    decreases FloorAt(start, to)
  {
    hide Yielded, WindowOf, PageAt, Listed, StopsAt;
    var page := PageAt(s, start, to, cap);
    YieldedStep(s, start, to, cap, pageSize);
    PageBounds(s, start, to, cap);
    PageListed(s, start, to, cap);
    if page != [] && !StopsAt(page, pageSize) && page[|page| - 1].time - 1 > start {
      var last := page[|page| - 1].time;
      YieldedShape(s, start, last - 1, cap, pageSize);
      ListedThen(s, page, Yielded(s, start, last - 1, cap, pageSize), last);
    }
  }

  lemma PageListed(s: seq<Tx>, start: int, to: int, cap: nat)
    requires Listed(s)
    ensures Listed(PageAt(s, start, to, cap))
    ensures var page := PageAt(s, start, to, cap);
            forall r | r in page :: page[|page| - 1].time <= r.time
  {
    WindowListed(s, start, to);
  }

  lemma ListedThen(s: seq<Tx>, a: seq<Tx>, b: seq<Tx>, last: int)
    requires Listed(s) && Listed(a) && Listed(b)
    requires forall r | r in a :: r in s && last <= r.time
    requires forall r | r in b :: r in s && r.time < last
    ensures Listed(a + b)
  {
    forall i, j | 0 <= i < j < |a + b| ensures (a + b)[i].id != (a + b)[j].id && (a + b)[i].time >= (a + b)[j].time {
      if i < |a| && |a| <= j {
        assert (a + b)[i] in a && (a + b)[j] in b;
      }
    }
  }

  /** A page that came back full costs `r`: it is of the second of the page's last row, or the
      whole page is of one second and `r` is older. */
  ghost predicate LostAt(page: seq<Tx>, cap: nat, out: seq<Tx>, r: Tx) {
    && 0 < cap == |page|
    && r !in page
    && (forall x | x in page :: x in out)
    && (r.time == page[|page| - 1].time || (SameSecond(page) && r.time < page[|page| - 1].time))
  }

  lemma RestOfWindow(w: seq<Tx>, cap: nat)
    requires Listed(w) && 0 < cap < |w|
    ensures w[cap] !in w[..cap]
    ensures forall r | r in w && r !in w[..cap] :: r.time <= w[cap].time <= w[cap - 1].time
  {
    forall r | r in w && r !in w[..cap] ensures r.time <= w[cap].time {
      assert w == w[..cap] + w[cap..];
      var j :| 0 <= j < |w[cap..]| && w[cap..][j] == r;
      assert w[cap + j] == r;
    }
  }

  /** Why a row of the window can be missing: it is at the second of `from`, or a full page that
      was yielded costs it. */
  lemma {:induction false} LossReason(s: seq<Tx>, start: int, to: int, cap: nat, pageSize: int, r: Tx)
    requires Listed(s) && cap > 0
    requires r in WindowOf(s, start, to) && r !in Yielded(s, start, to, cap, pageSize)
    ensures r.time == start ||
            exists t :: LostAt(PageAt(s, start, t, cap), cap, Yielded(s, start, to, cap, pageSize), r)
    decreases FloorAt(start, to)
  {
    hide Yielded, WindowOf, LostAt, Listed, StopsAt;
    var w, page := WindowOf(s, start, to), PageAt(s, start, to, cap);
    var out := Yielded(s, start, to, cap, pageSize);
    YieldedStep(s, start, to, cap, pageSize);
    WindowMembers(s, start, to);
    WindowListed(s, start, to);
    assert page == w[..cap];
    var last := page[cap - 1].time;
    RestOfWindow(w, cap);
    if r.time == last || StopsAt(page, pageSize) {
      LostHere(page, cap, pageSize, out, r);
    } else if last - 1 > start {
      PageBounds(s, start, to, cap);
      WindowMembers(s, start, last - 1);
      LossReason(s, start, last - 1, cap, pageSize, r);
      LostLater(s, start, last - 1, cap, page, Yielded(s, start, last - 1, cap, pageSize), r);
    }
  }

  lemma LostLater(s: seq<Tx>, start: int, to: int, cap: nat, page: seq<Tx>, later: seq<Tx>, r: Tx)
    requires r.time == start || exists t :: LostAt(PageAt(s, start, t, cap), cap, later, r)
    ensures r.time == start || exists t :: LostAt(PageAt(s, start, t, cap), cap, page + later, r)
  {
    hide LostAt, PageAt;
    if r.time != start {
      var t :| LostAt(PageAt(s, start, t, cap), cap, later, r);
      LostToo(PageAt(s, start, t, cap), cap, page, later, r);
    }
  }

  lemma LostHere(page: seq<Tx>, cap: nat, pageSize: int, out: seq<Tx>, r: Tx)
    requires 0 < cap == |page| && r !in page && page <= out
    requires r.time == page[cap - 1].time || (StopsAt(page, pageSize) && r.time < page[cap - 1].time)
    ensures LostAt(page, cap, out, r)
  {}

  lemma LostToo(page: seq<Tx>, cap: nat, before: seq<Tx>, out: seq<Tx>, r: Tx)
    requires LostAt(page, cap, out, r)
    ensures LostAt(page, cap, before + out, r)
  {}

  /** No page visited costs a row later than `start`: what follows a full page is older than
      its last row, and nothing later than `start` follows the page the loop stops at. */
  predicate Lossless(s: seq<Tx>, start: int, to: int, cap: nat, pageSize: int)
    decreases FloorAt(start, to)
  {
    var w, page := WindowOf(s, start, to), PageAt(s, start, to, cap);
    page == [] || |w| <= cap ||
    var last := page[|page| - 1].time;
    PageBounds(s, start, to, cap);
    if StopsAt(page, pageSize) then w[cap].time <= start
    else
      && (w[cap].time < last || last <= start)
      && (last - 1 <= start || Lossless(s, start, last - 1, cap, pageSize))
  }

  /** Every row later than `start` is yielded. */
  ghost predicate Complete(s: seq<Tx>, start: int, to: int, out: seq<Tx>) {
    forall r | r in WindowOf(s, start, to) && r.time > start :: r in out
  }

  lemma LosslessStep(s: seq<Tx>, start: int, to: int, cap: nat, pageSize: int)
    ensures var w, page := WindowOf(s, start, to), PageAt(s, start, to, cap);
            Lossless(s, start, to, cap, pageSize) <==>
            (page == [] || |w| <= cap ||
             var last := page[|page| - 1].time;
             if StopsAt(page, pageSize) then w[cap].time <= start
             else
               && (w[cap].time < last || last <= start)
               && (last - 1 <= start || Lossless(s, start, last - 1, cap, pageSize)))
  {}

  /** Exactly when nothing later than `start` is lost. */
  lemma {:induction false} CompleteIff(s: seq<Tx>, start: int, to: int, cap: nat, pageSize: int)
    requires Listed(s) && cap > 0
    ensures Complete(s, start, to, Yielded(s, start, to, cap, pageSize)) <==> Lossless(s, start, to, cap, pageSize)
    decreases FloorAt(start, to)
  {
    hide Yielded, Lossless, WindowOf, Complete, Listed, StopsAt;
    var w, page := WindowOf(s, start, to), PageAt(s, start, to, cap);
    LosslessStep(s, start, to, cap, pageSize);
    YieldedStep(s, start, to, cap, pageSize);
    WindowListed(s, start, to);
    if |w| > cap {
      PageBounds(s, start, to, cap);
      var last := page[cap - 1].time;
      assert page == w[..cap] && w[cap] in w;
      RestOfWindow(w, cap);
      if !StopsAt(page, pageSize) && last - 1 > start {
        CompleteIff(s, start, last - 1, cap, pageSize);
        YieldedShape(s, start, last - 1, cap, pageSize);
        CompleteThen(s, start, to, last, page, Yielded(s, start, last - 1, cap, pageSize));
      } else {
        CompleteAtEnd(s, start, to, cap, page);
      }
    } else {
      assert page == w;
      CompleteWhole(s, start, to, Yielded(s, start, to, cap, pageSize));
    }
  }

  lemma CompleteWhole(s: seq<Tx>, start: int, to: int, out: seq<Tx>)
    requires WindowOf(s, start, to) <= out
    ensures Complete(s, start, to, out)
  {}

  /** A page that is the last: complete if and only if the next row is not later than `start`. */
  lemma CompleteAtEnd(s: seq<Tx>, start: int, to: int, cap: nat, page: seq<Tx>)
    requires cap < |WindowOf(s, start, to)| && page == WindowOf(s, start, to)[..cap]
    requires var next := WindowOf(s, start, to)[cap];
             next !in page && forall r | r in WindowOf(s, start, to) && r !in page :: r.time <= next.time
    ensures Complete(s, start, to, page) <==> WindowOf(s, start, to)[cap].time <= start
  {
    hide WindowOf;
    var next := WindowOf(s, start, to)[cap];
    assert next in WindowOf(s, start, to);
  }

  lemma CompleteThen(s: seq<Tx>, start: int, to: int, last: int, page: seq<Tx>, later: seq<Tx>)
    requires start + 1 < last <= to
    requires page <= WindowOf(s, start, to) && |page| < |WindowOf(s, start, to)|
    requires forall r | r in page :: r.time >= last
    requires var next := WindowOf(s, start, to)[|page|];
             next !in page && next.time <= last &&
             forall r | r in WindowOf(s, start, to) && r !in page :: r.time <= next.time
    requires forall r | r in later :: r.time < last
    ensures var next := WindowOf(s, start, to)[|page|];
            Complete(s, start, to, page + later) <==> next.time < last && Complete(s, start, last - 1, later)
  {
    WindowMembers(s, start, to);
    WindowMembers(s, start, last - 1);
    var next := WindowOf(s, start, to)[|page|];
    assert next in WindowOf(s, start, to);
    assert forall r :: r in page + later <==> r in page || r in later;
    if next.time < last && Complete(s, start, last - 1, later) {
      forall r | r in WindowOf(s, start, to) && r.time > start ensures r in page + later {
        if r !in page {
          assert r in WindowOf(s, start, last - 1);
        }
      }
    }
  }

  /** At most one row per second and pages of two rows or more: nothing later than `start` is lost. */
  lemma {:induction false} DistinctSecondsAreLossless(s: seq<Tx>, start: int, to: int, cap: nat, pageSize: int)
    requires Listed(s) && cap >= 2
    requires forall i, j | 0 <= i < j < |s| :: s[i].time != s[j].time
    ensures Lossless(s, start, to, cap, pageSize)
    decreases FloorAt(start, to)
  {
    hide Lossless, WindowOf;
    var w, page := WindowOf(s, start, to), PageAt(s, start, to, cap);
    LosslessStep(s, start, to, cap, pageSize);
    WindowListed(s, start, to);
    WindowMembers(s, start, to);
    if |w| > cap {
      PageBounds(s, start, to, cap);
      forall i, j | 0 <= i < j < |w| ensures w[i].time > w[j].time {
        assert w[i] in s && w[j] in s && w[i].id != w[j].id;
      }
      assert page == w[..cap];
      assert page[0] == w[0] && page[cap - 1] == w[cap - 1];
      DistinctSecondsAreLossless(s, start, page[cap - 1].time - 1, cap, pageSize);
    }
  }

  /** For the caller: with one row per second at most and pages of two or more, every row later
      than the second of `from` arrives, once and newest first. */
  lemma StatementAllComplete(api: Fetcher, ctxErr: nat -> Option<Error>, s: seq<Tx>, cap: nat, pageSize: int,
                             from: int, to: int)
    requires Listed(s) && Serves(api, s, cap) && cap >= 2 && (forall i :: ctxErr(i).None?)
    requires to > from
    requires forall i, j | 0 <= i < j < |s| :: s[i].time != s[j].time
    ensures Honest(api, Elems(s), cap)
    ensures var out := Rows(StatementTrace(api, ctxErr, Elems(s), cap, pageSize, 0, from, to, {}));
            && Listed(out)
            && (forall r | r in out :: r in s && Unix(from) <= r.time <= Unix(to))
            && (forall r | r in s && Unix(from) < r.time <= Unix(to) :: r in out)
  {
    hide StatementTrace, Yielded, Lossless, Unix;
    ServesHonestly(api, s, cap);
    StatementRows(api, ctxErr, s, cap, pageSize, 0, from, to);
    YieldedShape(s, Unix(from), Unix(to), cap, pageSize);
    DistinctSecondsAreLossless(s, Unix(from), Unix(to), cap, pageSize);
    CompleteIff(s, Unix(from), Unix(to), cap, pageSize);
    WindowMembers(s, Unix(from), Unix(to));
  }

  /** The row after a page is lost whenever the cut falls inside a second, or the page is of one
      second and taken for full: the source's comment promises the rest of such a second. */
  lemma CutLosesNextRow(s: seq<Tx>, start: int, to: int, cap: nat, pageSize: int)
    requires Listed(s) && 0 < cap < |WindowOf(s, start, to)|
    requires var w, page := WindowOf(s, start, to), PageAt(s, start, to, cap);
             w[cap].time == w[cap - 1].time || StopsAt(page, pageSize)
    ensures WindowOf(s, start, to)[cap] !in Yielded(s, start, to, cap, pageSize)
  {
    hide Yielded, WindowOf, Listed, StopsAt;
    var w, page := WindowOf(s, start, to), PageAt(s, start, to, cap);
    YieldedStep(s, start, to, cap, pageSize);
    WindowListed(s, start, to);
    assert page == w[..cap];
    RestOfWindow(w, cap);
    if !StopsAt(page, pageSize) {
      YieldedShape(s, start, w[cap - 1].time - 1, cap, pageSize);
    }
  }

  /** With pages of one row only the newest row of the range is ever yielded. */
  lemma PageSizeOneYieldsOne(s: seq<Tx>, start: int, to: int)
    ensures Yielded(s, start, to, 1, 1) == Take(WindowOf(s, start, to), 1)
  {
    YieldedStep(s, start, to, 1, 1);
  }
}
