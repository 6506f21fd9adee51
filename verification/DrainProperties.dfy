/** What bank.DrainWindow reaches, when the order of rows inside a second may change
    from one request to the next. */
module DrainProperties {
  import opened Wrappers
  import opened Collections
  import opened Statement
  import opened DrainWindow

  /** A second that fills a page by itself. */
  ghost predicate Full(rows: set<Tx>, second: int) {
    |At(rows, second)| >= MAX_ROWS
  }

  ghost predicate NewestFull(rows: set<Tx>, from: int, to: int, second: int) {
    from <= second <= to && Full(rows, second) && forall s | second < s <= to :: !Full(rows, s)
  }

  /** The state of the loop that its invariant describes. */
  ghost predicate Resumable(api: Fetcher, rows: set<Tx>, to: int, seen: set<string>) {
    Honest(api, rows, MAX_ROWS) && UniqueIds(rows) && SeenAtBoundary(rows, to, seen)
  }

  /** The rows handed out from here on, or already handed out at the boundary second. */
  ghost function Have(rows: set<Tx>, out: seq<Tx>, to: int, seen: set<string>): set<Tx> {
    Elems(out) + SeenRows(rows, to, seen)
  }

  lemma Unfolded(api: Fetcher, rows: set<Tx>, k: nat, from: int, to: int, seen: set<string>)
    requires Honest(api, rows, MAX_ROWS)
    ensures var answer := api(k, from, to);
            DrainTrace(api, rows, k, from, to, seen) ==
            Answered(from, to, answer, seen) +
            if !AskAgain(answer, seen) then []
            else
              var page := answer.value;
              DrainTrace(api, rows, k + 1, from, page[|page| - 1].time, Remembered(page, to, seen))
  {}

  lemma AnsweredRows(from: int, to: int, answer: Result<seq<Tx>, Error>, seen: set<string>)
    ensures var here := Answered(from, to, answer, seen);
            && here != []
            && Rows(here) == (if answer.Success? then Fresh(answer.value, seen) else [])
            && Failed(here) == answer.Failure?
  {
    var call := [Call(from, to)];
    if answer.Success? {
      RowsOfRows(Fresh(answer.value, seen));
      RowsConcat(call, AsRows(Fresh(answer.value, seen)));
    } else {
      RowsConcat(call, [Fail(answer.error)]);
    }
  }

  lemma TraceNotEmpty(api: Fetcher, rows: set<Tx>, k: nat, from: int, to: int, seen: set<string>)
    requires Honest(api, rows, MAX_ROWS)
    ensures DrainTrace(api, rows, k, from, to, seen) != []
  {}

  /** The rows and the failure of a run, from those of its first answer and of the rest. */
  lemma TraceRows(api: Fetcher, rows: set<Tx>, k: nat, from: int, to: int, seen: set<string>)
    requires Honest(api, rows, MAX_ROWS)
    ensures var answer := api(k, from, to);
            var trace := DrainTrace(api, rows, k, from, to, seen);
            if AskAgain(answer, seen) then
              var page := answer.value;
              var next := DrainTrace(api, rows, k + 1, from, page[|page| - 1].time, Remembered(page, to, seen));
              Rows(trace) == Fresh(page, seen) + Rows(next) && Failed(trace) == Failed(next) && |next| < |trace|
            else
              && Rows(trace) == (if answer.Success? then Fresh(answer.value, seen) else [])
              && Failed(trace) == answer.Failure?
  {
    hide DrainTrace, Remembered, Fresh, Answered, IsNewestPage, UniqueIds;
    Unfolded(api, rows, k, from, to, seen);
    var answer := api(k, from, to);
    var here := Answered(from, to, answer, seen);
    AnsweredRows(from, to, answer, seen);
    if AskAgain(answer, seen) {
      var page := answer.value;
      var next := DrainTrace(api, rows, k + 1, from, page[|page| - 1].time, Remembered(page, to, seen));
      TraceNotEmpty(api, rows, k + 1, from, page[|page| - 1].time, Remembered(page, to, seen));
      RowsConcat(here, next);
      assert |here| > 0 && (here + next)[|here + next| - 1] == next[|next| - 1];
    } else {
      assert here + [] == here;
    }
  }

  lemma AnsweredCalls(from: int, to: int, answer: Result<seq<Tx>, Error>, seen: set<string>)
    ensures Calls(Answered(from, to, answer, seen)) == 1
  {
    var call := [Call(from, to)];
    if answer.Success? {
      RowsOfRows(Fresh(answer.value, seen));
      RowsConcat(call, AsRows(Fresh(answer.value, seen)));
    } else {
      RowsConcat(call, [Fail(answer.error)]);
    }
  }

  /** Another request follows exactly when one brought 500 rows and one of them is new. */
  lemma AsksAgainIff(api: Fetcher, rows: set<Tx>, k: nat, from: int, to: int, seen: set<string>)
    requires Honest(api, rows, MAX_ROWS)
    ensures var answer := api(k, from, to);
            Calls(DrainTrace(api, rows, k, from, to, seen)) > 1 <==>
            answer.Success? && |answer.value| == 500 && exists r :: r in answer.value && r.id !in seen
  {
    hide DrainTrace, Answered, Fresh, Remembered, UniqueIds;
    var answer := api(k, from, to);
    Unfolded(api, rows, k, from, to, seen);
    AnsweredCalls(from, to, answer, seen);
    if answer.Success? {
      FreshMembers(answer.value, seen);
      assert Fresh(answer.value, seen) != [] ==> Fresh(answer.value, seen)[0] in Fresh(answer.value, seen);
    }
    var here := Answered(from, to, answer, seen);
    if AskAgain(answer, seen) {
      var page := answer.value;
      var oldest, remembered := page[|page| - 1].time, Remembered(page, to, seen);
      var next := DrainTrace(api, rows, k + 1, from, oldest, remembered);
      Unfolded(api, rows, k + 1, from, oldest, remembered);
      AnsweredCalls(from, oldest, api(k + 1, from, oldest), remembered);
      CallsPlus(here, next);
      CallsPlus(Answered(from, oldest, api(k + 1, from, oldest), remembered),
                next[|Answered(from, oldest, api(k + 1, from, oldest), remembered)|..]);
    } else {
      assert here + [] == here;
    }
  }

  lemma NextResumable(rows: set<Tx>, from: int, to: int, seen: set<string>, page: seq<Tx>)
    requires SeenAtBoundary(rows, to, seen)
    requires IsNewestPage(rows, from, to, MAX_ROWS, page) && page != [] && Fresh(page, seen) != []
    ensures from <= page[|page| - 1].time <= to
    ensures SeenAtBoundary(rows, page[|page| - 1].time, Remembered(page, to, seen))
  {
    Progress(rows, from, to, MAX_ROWS, seen, page);
  }

  /** Rows the page leaves out were seen, or are no newer than its last row. */
  lemma PageAndSeen(rows: set<Tx>, from: int, to: int, cap: nat, seen: set<string>, page: seq<Tx>)
    requires UniqueIds(rows) && SeenAtBoundary(rows, to, seen)
    requires IsNewestPage(rows, from, to, cap, page) && page != []
    ensures var oldest := page[|page| - 1].time;
            var added := Fresh(page, seen);
            && (forall r | r in page :: r in added || r in SeenRows(rows, to, seen))
            && (forall r | r in added :: oldest <= r.time && r !in SeenRows(rows, to, seen))
            && (forall r | r in SeenRows(rows, oldest, Remembered(page, to, seen)) ::
                  r in added || r in SeenRows(rows, to, seen))
            && (forall r | r in added && r.time == oldest :: r.id in Remembered(page, to, seen))
            && (forall r | r in SeenRows(rows, to, seen) && oldest == to :: r.id in Remembered(page, to, seen))
  {
    FreshMembers(page, seen);
    var oldest := page[|page| - 1].time;
    forall r | r in page && r.id in seen ensures r in SeenRows(rows, to, seen) {
      assert r in Window(rows, from, to);
    }
    forall r | r in SeenRows(rows, oldest, Remembered(page, to, seen))
      ensures r in page || r in SeenRows(rows, to, seen)
    {
      if r.id in IdsAt(page, oldest) {
        var tx :| tx in page && tx.time == oldest && tx.id == r.id;
        assert tx in Window(rows, from, to);
        assert tx == r;
      }
    }
  }

  /** No row twice, newest first, and only rows of the window that were not seen before. */
  ghost predicate InOrder(rows: set<Tx>, from: int, to: int, seen: set<string>, out: seq<Tx>) {
    && Distinct(out)
    && NewestFirst(out)
    && (forall r | r in out :: r in Window(rows, from, to) && r !in SeenRows(rows, to, seen))
  }

  /** Nothing is left out that is newer than a row given. */
  ghost predicate NoGap(rows: set<Tx>, from: int, to: int, seen: set<string>, out: seq<Tx>) {
    forall y, r | y in out && r in Window(rows, from, to) && r !in Have(rows, out, to, seen) :: r.time <= y.time
  }

  lemma OrderOfPage(rows: set<Tx>, from: int, to: int, cap: nat, seen: set<string>, page: seq<Tx>)
    requires UniqueIds(rows) && SeenAtBoundary(rows, to, seen)
    requires IsNewestPage(rows, from, to, cap, page)
    ensures InOrder(rows, from, to, seen, Fresh(page, seen))
  {
    FreshKeepsOrder(page, seen);
    FreshKeepsDistinct(page, seen);
    FreshMembers(page, seen);
  }

  /** A page and then rows in order up to its last second, less those remembered, or up to an
      earlier one. */
  lemma OrderOfMore(rows: set<Tx>, from: int, to: int, cap: nat, seen: set<string>, page: seq<Tx>,
                    later: int, remembered: set<string>, rest: seq<Tx>)
    requires UniqueIds(rows) && SeenAtBoundary(rows, to, seen)
    requires IsNewestPage(rows, from, to, cap, page) && page != [] && page[|page| - 1].time <= to
    requires later < page[|page| - 1].time ||
             (later == page[|page| - 1].time && remembered == Remembered(page, to, seen))
    requires InOrder(rows, from, later, remembered, rest)
    ensures InOrder(rows, from, to, seen, Fresh(page, seen) + rest)
  {
    hide IsNewestPage, Remembered, Fresh, SeenAtBoundary;
    var added := Fresh(page, seen);
    OrderOfPage(rows, from, to, cap, seen, page);
    PageAndSeen(rows, from, to, cap, seen, page);
    Joined(added, rest, page[|page| - 1].time);
    forall r | r in rest ensures r in Window(rows, from, to) && r !in SeenRows(rows, to, seen) {}
  }

  ghost predicate Shape(rows: set<Tx>, from: int, to: int, seen: set<string>, out: seq<Tx>) {
    InOrder(rows, from, to, seen, out) && NoGap(rows, from, to, seen, out)
  }

  lemma ShapeOfPage(rows: set<Tx>, from: int, to: int, seen: set<string>, page: seq<Tx>)
    requires UniqueIds(rows) && SeenAtBoundary(rows, to, seen)
    requires IsNewestPage(rows, from, to, MAX_ROWS, page)
    ensures Shape(rows, from, to, seen, Fresh(page, seen))
  {
    OrderOfPage(rows, from, to, MAX_ROWS, seen, page);
    if page != [] {
      PageAndSeen(rows, from, to, MAX_ROWS, seen, page);
      FreshMembers(page, seen);
      forall y, r | && y in Fresh(page, seen)
                    && r in Window(rows, from, to)
                    && r !in Have(rows, Fresh(page, seen), to, seen)
        ensures r.time <= y.time
      {
        assert r !in page;
      }
    }
  }

  lemma ShapeOfMore(rows: set<Tx>, from: int, to: int, seen: set<string>, page: seq<Tx>, rest: seq<Tx>)
    requires UniqueIds(rows) && SeenAtBoundary(rows, to, seen)
    requires IsNewestPage(rows, from, to, MAX_ROWS, page) && page != [] && page[|page| - 1].time <= to
    requires Shape(rows, from, page[|page| - 1].time, Remembered(page, to, seen), rest)
    ensures Shape(rows, from, to, seen, Fresh(page, seen) + rest)
  {
    hide Remembered, Fresh, SeenAtBoundary;
    var oldest, remembered, added := page[|page| - 1].time, Remembered(page, to, seen), Fresh(page, seen);
    ShapeOfPage(rows, from, to, seen, page);
    OrderOfMore(rows, from, to, MAX_ROWS, seen, page, oldest, remembered, rest);
    PageAndSeen(rows, from, to, MAX_ROWS, seen, page);
    var out := added + rest;
    forall y, r | y in out && r in Window(rows, from, to) && r !in Have(rows, out, to, seen)
      ensures r.time <= y.time
    {
      assert r !in Have(rows, added, to, seen) && r !in page;
      assert r !in Have(rows, rest, oldest, remembered);
      assert r.time <= oldest;
    }
  }

  lemma Joined(a: seq<Tx>, b: seq<Tx>, second: int)
    requires Distinct(a) && Distinct(b) && NewestFirst(a) && NewestFirst(b)
    requires forall r | r in a :: second <= r.time && r !in b
    requires forall r | r in b :: r.time <= second
    ensures Distinct(a + b) && NewestFirst(a + b)
  {}

  /** Holds whatever the server's tie order, and wherever a request fails. */
  lemma {:induction false} DrainShape(api: Fetcher, rows: set<Tx>, k: nat, from: int, to: int, seen: set<string>)
    requires Resumable(api, rows, to, seen)
    ensures Shape(rows, from, to, seen, Rows(DrainTrace(api, rows, k, from, to, seen)))
    decreases |DrainTrace(api, rows, k, from, to, seen)|
  {
    hide DrainTrace;
    TraceRows(api, rows, k, from, to, seen);
    var answer := api(k, from, to);
    if answer.Success? {
      var page := answer.value;
      ShapeOfPage(rows, from, to, seen, page);
      if AskAgain(answer, seen) {
        NextResumable(rows, from, to, seen, page);
        var oldest, remembered := page[|page| - 1].time, Remembered(page, to, seen);
        DrainShape(api, rows, k + 1, from, oldest, remembered);
        ShapeOfMore(rows, from, to, seen, page, Rows(DrainTrace(api, rows, k + 1, from, oldest, remembered)));
      }
    }
  }

  /** With no full second the whole window is had; with one, everything newer than the newest
      full second, at least a page of that second, and nothing older. */
  ghost predicate Reach(rows: set<Tx>, from: int, to: int, seen: set<string>, out: seq<Tx>) {
    var have := Have(rows, out, to, seen);
    && ((forall s | from <= s <= to :: !Full(rows, s)) ==> Window(rows, from, to) <= have)
    && (forall s | NewestFull(rows, from, to, s) :: ReachOfFull(rows, to, s, have, out))
  }

  ghost predicate ReachOfFull(rows: set<Tx>, to: int, s: int, have: set<Tx>, out: seq<Tx>) {
    && Window(rows, s + 1, to) <= have
    && |have * At(rows, s)| >= MAX_ROWS
    && forall r | r in out :: s <= r.time
  }

  lemma ReachOfShortPage(rows: set<Tx>, from: int, to: int, seen: set<string>, page: seq<Tx>)
    requires UniqueIds(rows) && SeenAtBoundary(rows, to, seen)
    requires IsNewestPage(rows, from, to, MAX_ROWS, page) && |page| < MAX_ROWS
    ensures Reach(rows, from, to, seen, Fresh(page, seen))
  {
    DistinctSize(page);
    if page != [] {
      PageAndSeen(rows, from, to, MAX_ROWS, seen, page);
    }
    forall s | from <= s <= to ensures !Full(rows, s) {
      SubsetSize(At(rows, s), Elems(page));
    }
  }

  /** The source's loop guard: a full page of rows all handed out before. */
  lemma ReachOfKnownPage(rows: set<Tx>, from: int, to: int, seen: set<string>, page: seq<Tx>)
    requires UniqueIds(rows) && SeenAtBoundary(rows, to, seen)
    requires IsNewestPage(rows, from, to, MAX_ROWS, page) && |page| >= MAX_ROWS
    requires Fresh(page, seen) == []
    ensures Reach(rows, from, to, seen, [])
  {
    hide Remembered, SeenAtBoundary, Fresh;
    DistinctSize(page);
    PageAndSeen(rows, from, to, MAX_ROWS, seen, page);
    var have := Have(rows, [], to, seen);
    assert Elems(page) <= have * At(rows, to);
    SubsetSize(Elems(page), have * At(rows, to));
    SubsetSize(Elems(page), At(rows, to));
    assert page[0] in page && Full(rows, to);
    forall s | NewestFull(rows, from, to, s) ensures ReachOfFull(rows, to, s, have, []) {
      assert s == to;
    }
  }

  /** A page and what follows it: all of both is had, and the page has all that is newer than its
      last row. */
  lemma HaveOfMore(rows: set<Tx>, from: int, to: int, seen: set<string>, page: seq<Tx>, rest: seq<Tx>)
    requires UniqueIds(rows) && SeenAtBoundary(rows, to, seen)
    requires IsNewestPage(rows, from, to, MAX_ROWS, page) && page != []
    ensures var oldest := page[|page| - 1].time;
            var have := Have(rows, Fresh(page, seen) + rest, to, seen);
            && Have(rows, rest, oldest, Remembered(page, to, seen)) <= have
            && (forall r | r in Window(rows, from, to) && oldest < r.time :: r in have)
            && (forall r | r in Fresh(page, seen) :: oldest <= r.time)
  {
    hide Remembered, Fresh, SeenAtBoundary;
    PageAndSeen(rows, from, to, MAX_ROWS, seen, page);
    assert forall r | r in Window(rows, from, to) && page[|page| - 1].time < r.time :: r in page;
  }

  lemma ReachOfMore(rows: set<Tx>, from: int, to: int, seen: set<string>, page: seq<Tx>, rest: seq<Tx>)
    requires UniqueIds(rows) && SeenAtBoundary(rows, to, seen)
    requires IsNewestPage(rows, from, to, MAX_ROWS, page) && page != [] && from <= page[|page| - 1].time <= to
    requires Reach(rows, from, page[|page| - 1].time, Remembered(page, to, seen), rest)
    ensures Reach(rows, from, to, seen, Fresh(page, seen) + rest)
  {
    hide Remembered, Fresh, SeenAtBoundary, IsNewestPage, Have, Full;
    var oldest, remembered, added := page[|page| - 1].time, Remembered(page, to, seen), Fresh(page, seen);
    var out := added + rest;
    HaveOfMore(rows, from, to, seen, page, rest);
    var have, later := Have(rows, out, to, seen), Have(rows, rest, oldest, remembered);
    forall s | oldest < s <= to ensures !Full(rows, s) {
      NotFullWithin(rows, from, to, page, s);
    }
    forall s | NewestFull(rows, from, to, s) ensures ReachOfFull(rows, to, s, have, out) {
      assert s <= oldest && NewestFull(rows, from, oldest, s);
      assert ReachOfFull(rows, oldest, s, later, rest);
      SubsetSize(later * At(rows, s), have * At(rows, s));
    }
  }

  /** Holds of every run in which no request fails. */
  lemma {:induction false} DrainReach(api: Fetcher, rows: set<Tx>, k: nat, from: int, to: int, seen: set<string>)
    requires Resumable(api, rows, to, seen)
    requires !Failed(DrainTrace(api, rows, k, from, to, seen))
    ensures Reach(rows, from, to, seen, Rows(DrainTrace(api, rows, k, from, to, seen)))
    decreases |DrainTrace(api, rows, k, from, to, seen)|
  {
    hide DrainTrace;
    TraceRows(api, rows, k, from, to, seen);
    var page := api(k, from, to).value;
    if AskAgain(api(k, from, to), seen) {
      NextResumable(rows, from, to, seen, page);
      var oldest, remembered := page[|page| - 1].time, Remembered(page, to, seen);
      DrainReach(api, rows, k + 1, from, oldest, remembered);
      ReachOfMore(rows, from, to, seen, page, Rows(DrainTrace(api, rows, k + 1, from, oldest, remembered)));
    } else if |page| < MAX_ROWS {
      ReachOfShortPage(rows, from, to, seen, page);
    } else {
      ReachOfKnownPage(rows, from, to, seen, page);
    }
  }

  /** A second newer than the last row of a page has room to spare in it. */
  lemma NotFullWithin(rows: set<Tx>, from: int, to: int, page: seq<Tx>, s: int)
    requires IsNewestPage(rows, from, to, MAX_ROWS, page) && page != []
    requires page[|page| - 1].time < s <= to && from <= page[|page| - 1].time
    ensures !Full(rows, s)
  {
    DistinctSize(page);
    var last := page[|page| - 1];
    SubsetSize(At(rows, s) + {last}, Elems(page));
  }

  /** The guarantee for a caller: a window is handed out whole, each row once and newest
      first, unless some second holds 500 rows or more. */
  lemma DrainIsComplete(api: Fetcher, rows: set<Tx>, k: nat, from: int, to: int)
    requires Honest(api, rows, MAX_ROWS) && UniqueIds(rows)
    requires !Failed(DrainTrace(api, rows, k, from, to, {}))
    requires forall s | from <= s <= to :: !Full(rows, s)
    ensures var out := Rows(DrainTrace(api, rows, k, from, to, {}));
            Distinct(out) && NewestFirst(out) && Elems(out) == Window(rows, from, to)
  {
    DrainShape(api, rows, k, from, to, {});
    DrainReach(api, rows, k, from, to, {});
  }

  /** What a full second costs: the rest of the window. At least 500 rows of the newest full
      second are handed out, but nothing older, whatever the tie order. */
  lemma DrainStopsAtFullSecond(api: Fetcher, rows: set<Tx>, k: nat, from: int, to: int, s: int)
    requires Honest(api, rows, MAX_ROWS) && UniqueIds(rows)
    requires !Failed(DrainTrace(api, rows, k, from, to, {}))
    requires NewestFull(rows, from, to, s)
    ensures var out := Rows(DrainTrace(api, rows, k, from, to, {}));
            var given := Elems(out);
            && Distinct(out) && NewestFirst(out)
            && Window(rows, s + 1, to) <= given <= Window(rows, s, to)
            && |given * At(rows, s)| >= MAX_ROWS
  {
    DrainShape(api, rows, k, from, to, {});
    DrainReach(api, rows, k, from, to, {});
    var out := Rows(DrainTrace(api, rows, k, from, to, {}));
    assert Have(rows, out, to, {}) == Elems(out);
  }
}
