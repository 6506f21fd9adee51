/** What TransactionsRange and TransactionsRangeIter guarantee over any range. */
module RangeProperties {
  import opened Wrappers
  import opened Collections
  import opened Statement
  import opened DrainWindow
  import opened DrainProperties
  import opened Ranges

  /** The windows of seconds the loop asks for, from `cursor` on. */
  function Windows(cursor: int, to: int): seq<(int, int)>
    decreases FloorAt(cursor, to)
  {
    if cursor > to then []
    else [(Unix(cursor), Unix(WindowEnd(cursor, to)))] + Windows(WindowEnd(cursor, to) + SECOND, to)
  }

  /** The last second asked for: that of `to`, or the one before. */
  function LastSecond(from: int, to: int): int {
    if Fraction(from) > Fraction(to) && (Unix(to) - Unix(from)) % STRIDE == 0 then Unix(to) - 1 else Unix(to)
  }

  lemma NextWindow(cursor: int, to: int)
    requires cursor <= to
    ensures var end := WindowEnd(cursor, to);
            && Unix(end + SECOND) == Unix(end) + 1
            && Unix(cursor) <= Unix(end) <= Unix(cursor) + WINDOW_SECONDS
            && Unix(end) <= LastSecond(cursor, to)
            && (end + SECOND <= to ==> Unix(end + SECOND) == Unix(cursor) + STRIDE &&
                                       LastSecond(end + SECOND, to) == LastSecond(cursor, to))
            && (end + SECOND > to ==> Unix(end) == LastSecond(cursor, to))
  {
    var end, u, v := WindowEnd(cursor, to), Unix(cursor), Unix(to);
    var f, g := Fraction(cursor), Fraction(to);
    assert cursor == u * SECOND + f && to == v * SECOND + g;
    assert 0 <= f < SECOND && 0 <= g < SECOND;
    if end != to {
      assert end == (u + WINDOW_SECONDS) * SECOND + f;
      DivMod(u + WINDOW_SECONDS, f);
      DivMod(u + STRIDE, f);
      ModStride(v - u);
    } else {
      assert end + SECOND == (v + 1) * SECOND + g;
      DivMod(v + 1, g);
      assert 0 <= v - u <= WINDOW_SECONDS;
    }
  }

  lemma DivMod(q: int, r: int)
    requires 0 <= r < SECOND
    ensures Unix(q * SECOND + r) == q && Fraction(q * SECOND + r) == r
  {}

  lemma ModStride(d: int)
    ensures (d - STRIDE) % STRIDE == d % STRIDE
  {}

  /** Sub-second endpoints: the windows are consecutive, of at most 31 days, start at the
      second of `from` and end at the second of `to`, or one second short of it. */
  lemma {:induction false} WindowsTile(cursor: int, to: int)
    requires cursor <= to
    ensures var ws := Windows(cursor, to);
            && ws != [] && ws[0].0 == Unix(cursor) && ws[|ws| - 1].1 == LastSecond(cursor, to)
            && (forall i | 0 <= i < |ws| :: ws[i].0 <= ws[i].1 <= ws[i].0 + 31 * 24 * 3600)
            && (forall i | 0 <= i < |ws| - 1 :: ws[i].1 == ws[i].0 + 31 * 24 * 3600 && ws[i + 1].0 == ws[i].1 + 1)
    decreases FloorAt(cursor, to)
  {
    hide LastSecond;
    NextWindow(cursor, to);
    var next := WindowEnd(cursor, to) + SECOND;
    if next <= to {
      WindowsTile(next, to);
      var ws, rest := Windows(cursor, to), Windows(next, to);
      assert forall i | 0 < i < |ws| :: ws[i] == rest[i - 1];
    } else {
      assert Windows(next, to) == [];
    }
  }

  /** Exactly when the second of `to` is missed: a positive multiple of the stride away from
      that of `from`, with the smaller fraction. */
  lemma LastSecondMissedIff(from: int, to: int)
    requires from < to
    ensures var ws := Windows(from, to);
            && ws != []
            && Unix(to) - 1 <= ws[|ws| - 1].1 <= Unix(to)
            && (ws[|ws| - 1].1 < Unix(to) <==>
                (Fraction(from) > Fraction(to) && Unix(to) > Unix(from) && (Unix(to) - Unix(from)) % STRIDE == 0))
  {
    WindowsTile(from, to);
    assert from == Unix(from) * SECOND + Fraction(from) && to == Unix(to) * SECOND + Fraction(to);
  }

  // ---- the rows

  /** The window a row lies in, counted from the second `start`. */
  function Block(r: Tx, start: int): int {
    (r.time - start) / STRIDE
  }

  /** Rows of an earlier window come first; inside a window, newer rows do. */
  ghost predicate BlocksAscend(out: seq<Tx>, start: int) {
    forall i, j | 0 <= i < j < |out| ::
      && Block(out[i], start) <= Block(out[j], start)
      && (Block(out[i], start) == Block(out[j], start) ==> out[i].time >= out[j].time)
  }

  lemma ChainBlocks(a: seq<Tx>, b: seq<Tx>, start: int)
    requires NewestFirst(a) && forall r | r in a :: start <= r.time < start + STRIDE
    requires BlocksAscend(b, start + STRIDE) && forall r | r in b :: start + STRIDE <= r.time
    ensures BlocksAscend(a + b, start)
  {
    hide Block;
    forall r | r in a ensures Block(r, start) == 0 {
      NextBlock(r, start);
    }
    forall r | r in b ensures Block(r, start) == Block(r, start + STRIDE) + 1 && Block(r, start) >= 1 {
      NextBlock(r, start);
    }
  }

  lemma NextBlock(r: Tx, start: int)
    ensures Block(r, start) == Block(r, start + STRIDE) + 1
    ensures start <= r.time < start + STRIDE ==> Block(r, start) == 0
    ensures start + STRIDE <= r.time ==> Block(r, start) >= 1
  {}

  lemma NoRoom(cursor: int, to: int)
    requires cursor > to
    ensures LastSecond(cursor, to) < Unix(cursor)
  {
    var f, g := Fraction(cursor), Fraction(to);
    assert cursor == Unix(cursor) * SECOND + f && to == Unix(to) * SECOND + g;
    assert Unix(cursor) >= Unix(to);
  }

  /** A run that does not fail, over seconds that each hold fewer than 500 rows: every row of
      the seconds asked for, once. */
  ghost predicate Exactly(rows: set<Tx>, cursor: int, to: int, out: seq<Tx>) {
    && Distinct(out)
    && Elems(out) == Window(rows, Unix(cursor), LastSecond(cursor, to))
    && BlocksAscend(out, Unix(cursor))
  }

  lemma JoinWindows(rows: set<Tx>, a: seq<Tx>, b: seq<Tx>, lo: int, mid: int, hi: int)
    requires lo <= mid && Distinct(a) && Distinct(b)
    requires Elems(a) == Window(rows, lo, mid) && Elems(b) == Window(rows, mid + 1, hi)
    ensures Distinct(a + b)
    ensures Elems(a + b) == Window(rows, lo, if hi < mid then mid else hi)
    ensures (forall r | r in a :: lo <= r.time <= mid) && forall r | r in b :: mid + 1 <= r.time <= hi
    ensures hi <= mid ==> b == []
  {
    if hi <= mid {
      assert Elems(b) == {};
      DistinctSize(b);
    }
    assert forall r | r in a :: r in Elems(a);
    assert forall r | r in b :: r in Elems(b);
    forall i, j | 0 <= i < j < |a + b| ensures (a + b)[i] != (a + b)[j] {
      if i < |a| && |a| <= j {
        assert (a + b)[i] in a && (a + b)[j] in b;
      }
    }
    assert Elems(a + b) == Elems(a) + Elems(b);
  }

  lemma ExactlyChained(rows: set<Tx>, cursor: int, to: int, a: seq<Tx>, b: seq<Tx>)
    requires cursor <= to
    requires Distinct(a) && NewestFirst(a)
    requires Elems(a) == Window(rows, Unix(cursor), Unix(WindowEnd(cursor, to)))
    requires Exactly(rows, WindowEnd(cursor, to) + SECOND, to, b)
    ensures Exactly(rows, cursor, to, a + b)
  {
    hide LastSecond, Unix, WindowEnd, BlocksAscend, Window;
    var next := WindowEnd(cursor, to) + SECOND;
    NextWindow(cursor, to);
    JoinWindows(rows, a, b, Unix(cursor), Unix(next) - 1, LastSecond(next, to));
    if next > to {
      NoRoom(next, to);
      NoBlocks(Unix(cursor) + STRIDE);
    }
    ChainBlocks(a, b, Unix(cursor));
  }

  lemma NoBlocks(start: int)
    ensures BlocksAscend([], start)
  {}

  /** Each row of the seconds asked for exactly once, whatever the server's tie order. */
  lemma {:induction false} RangeIsExact(api: Fetcher, ctxErr: nat -> Option<Error>, rows: set<Tx>,
                                        k: nat, w: nat, cursor: int, to: int)
    requires Honest(api, rows, MAX_ROWS) && UniqueIds(rows)
    requires !Failed(RangeTrace(api, ctxErr, rows, k, w, cursor, to))
    requires forall s | Unix(cursor) <= s <= Unix(to) :: !Full(rows, s)
    ensures Exactly(rows, cursor, to, Rows(RangeTrace(api, ctxErr, rows, k, w, cursor, to)))
    decreases FloorAt(cursor, to)
  {
    hide DrainTrace, RangeTrace, Exactly, Full, Window, Unix, WindowEnd;
    if cursor > to {
      NothingLeft(api, ctxErr, rows, k, w, cursor, to);
      ExactlyNothing(rows, cursor, to);
    } else {
      NotCancelled(api, ctxErr, rows, k, w, cursor, to);
      WindowThenRest(api, ctxErr, rows, k, w, cursor, to);
      var end := WindowEnd(cursor, to);
      var here := DrainTrace(api, rows, k, Unix(cursor), Unix(end), {});
      var rest := AfterWindow(api, ctxErr, rows, k, w, cursor, to);
      NoFailure(here, rest);
      NextWindow(cursor, to);
      WindowAdvances(cursor, to);
      DrainIsComplete(api, rows, k, Unix(cursor), Unix(end));
      RangeIsExact(api, ctxErr, rows, k + Calls(here), w + 1, end + SECOND, to);
      RowsConcat(here, rest);
      ExactlyChained(rows, cursor, to, Rows(here), Rows(rest));
    }
  }

  lemma ExactlyNothing(rows: set<Tx>, cursor: int, to: int)
    requires cursor > to
    ensures Exactly(rows, cursor, to, [])
  {
    NoRoom(cursor, to);
  }

  lemma WindowAdvances(cursor: int, to: int)
    requires cursor <= to
    ensures FloorAt(WindowEnd(cursor, to) + SECOND, to) < FloorAt(cursor, to)
    ensures Unix(WindowEnd(cursor, to)) <= Unix(to)
  {}

  lemma NoFailure(here: seq<Event>, rest: seq<Event>)
    requires !Failed(here + rest) && (Failed(here) ==> rest == [])
    ensures !Failed(here) && !Failed(rest)
  {
    if rest == [] {
      assert here + rest == here;
    } else {
      assert (here + rest)[|here + rest| - 1] == rest[|rest| - 1];
    }
  }

  lemma NotCancelled(api: Fetcher, ctxErr: nat -> Option<Error>, rows: set<Tx>, k: nat, w: nat, cursor: int, to: int)
    requires Honest(api, rows, MAX_ROWS) && cursor <= to
    requires !Failed(RangeTrace(api, ctxErr, rows, k, w, cursor, to))
    ensures ctxErr(w).None?
  {}

  /** What a caller gets for any two instants in order, fractions of a second and all, of a run that does
      not fail: every row of the seconds asked for exactly once, block after block. */
  lemma RangeGivesRows(api: Fetcher, ctxErr: nat -> Option<Error>, rows: set<Tx>, from: int, to: int)
    requires Honest(api, rows, MAX_ROWS) && UniqueIds(rows)
    requires from < to && to != -62_135_596_800 * 1_000_000_000
    requires !Failed(FullTrace(api, ctxErr, rows, from, to))
    requires forall s | Unix(from) <= s <= Unix(to) :: !Full(rows, s)
    ensures Exactly(rows, from, to, Rows(FullTrace(api, ctxErr, rows, from, to)))
  {
    RangeIsExact(api, ctxErr, rows, 0, 0, from, to);
  }

  /** Nothing happens, no request and so no row and no error, exactly for equal and reversed endpoints and
      for a zero `to`. */
  lemma AsksNothingIff(api: Fetcher, ctxErr: nat -> Option<Error>, rows: set<Tx>, from: int, to: int)
    requires Honest(api, rows, MAX_ROWS)
    ensures FullTrace(api, ctxErr, rows, from, to) == [] <==> to <= from || to == -62_135_596_800 * 1_000_000_000
  {
    if from < to {
      hide RangeTrace, DrainTrace;
      if ctxErr(0).Some? {
        CancelledTrace(api, ctxErr, rows, 0, 0, from, to);
      } else {
        WindowThenRest(api, ctxErr, rows, 0, 0, from, to);
        TraceNotEmpty(api, rows, 0, Unix(from), Unix(WindowEnd(from, to)), {});
      }
    }
  }

  /** TransactionsRange on whole-second endpoints: each row of [from, to] exactly once and
      nothing else, window blocks ascending and rows descending inside a block. */
  lemma TransactionsRangeExactlyOnce(api: Fetcher, rows: set<Tx>, from: int, to: int)
    requires Honest(api, rows, MAX_ROWS) && UniqueIds(rows)
    requires to > from && to != ZERO_TIME * SECOND
    requires Fraction(from) == 0 && Fraction(to) == 0
    requires !Failed(FullTrace(api, NeverCancelled, rows, from, to))
    requires forall s | Unix(from) <= s <= Unix(to) :: !Full(rows, s)
    ensures var out := Rows(FullTrace(api, NeverCancelled, rows, from, to));
            && Distinct(out)
            && Elems(out) == Window(rows, Unix(from), Unix(to))
            && BlocksAscend(out, Unix(from))
  {
    RangeGivesRows(api, NeverCancelled, rows, from, to);
  }

  // ---- the requests

  lemma {:induction false} DrainCalls(api: Fetcher, rows: set<Tx>, k: nat, from: int, to: int, seen: set<string>)
    requires Honest(api, rows, MAX_ROWS) && from <= to
    ensures var trace := DrainTrace(api, rows, k, from, to, seen);
            && trace != [] && trace[0] == Call(from, to)
            && (forall e | e in trace && e.Call? :: e.from == from && from <= e.to <= to)
            && (forall i | 0 <= i < |trace| - 1 :: !trace[i].Fail?)
    decreases |DrainTrace(api, rows, k, from, to, seen)|
  {
    hide DrainTrace, Remembered;
    Unfolded(api, rows, k, from, to, seen);
    var answer := api(k, from, to);
    if AskAgain(answer, seen) {
      var page := answer.value;
      Progress(rows, from, to, MAX_ROWS, seen, page);
      DrainCalls(api, rows, k + 1, from, page[|page| - 1].time, Remembered(page, to, seen));
    }
  }

  /** Every request falls inside one of the windows `ws`, and an error comes last. */
  ghost predicate Inside(trace: seq<Event>, ws: seq<(int, int)>) {
    && (forall e | e in trace && e.Call? :: exists x :: x in ws && e.from == x.0 && x.0 <= e.to <= x.1)
    && (forall i | 0 <= i < |trace| - 1 :: !trace[i].Fail?)
  }

  lemma InsideThen(here: seq<Event>, rest: seq<Event>, first: (int, int), ws: seq<(int, int)>)
    requires Inside(here, [first]) && Inside(rest, ws) && !Failed(here)
    ensures Inside(here + rest, [first] + ws)
  {
    forall e | e in here + rest && e.Call?
      ensures exists x :: x in [first] + ws && e.from == x.0 && x.0 <= e.to <= x.1
    {
      var x :| x in (if e in here then [first] else ws) && e.from == x.0 && x.0 <= e.to <= x.1;
      assert x in [first] + ws;
    }
  }

  lemma InsideMore(here: seq<Event>, first: (int, int), ws: seq<(int, int)>)
    requires Inside(here, [first])
    ensures Inside(here, [first] + ws)
  {
    assert first in [first] + ws;
  }

  /** Every request falls inside one of the windows and so spans at most 31 days; the error,
      if there is one, comes last and once. */
  lemma {:induction false} RangeCalls(api: Fetcher, ctxErr: nat -> Option<Error>, rows: set<Tx>,
                                      k: nat, w: nat, cursor: int, to: int)
    requires Honest(api, rows, MAX_ROWS)
    ensures Inside(RangeTrace(api, ctxErr, rows, k, w, cursor, to), Windows(cursor, to))
    decreases FloorAt(cursor, to)
  {
    hide DrainTrace, RangeTrace, Unix, WindowEnd, Inside;
    if cursor > to {
      NothingLeft(api, ctxErr, rows, k, w, cursor, to);
      InsideNothing([], Windows(cursor, to));
    } else if ctxErr(w).Some? {
      CancelledTrace(api, ctxErr, rows, k, w, cursor, to);
      InsideNothing([Fail(ctxErr(w).value)], Windows(cursor, to));
    } else {
      WindowThenRest(api, ctxErr, rows, k, w, cursor, to);
      NextWindow(cursor, to);
      var end := WindowEnd(cursor, to);
      var here := DrainTrace(api, rows, k, Unix(cursor), Unix(end), {});
      DrainCalls(api, rows, k, Unix(cursor), Unix(end), {});
      var first := (Unix(cursor), Unix(end));
      DrainInside(here, first);
      WindowAdvances(cursor, to);
      if Failed(here) {
        InsideMore(here, first, Windows(end + SECOND, to));
        assert here + [] == here;
      } else {
        RangeCalls(api, ctxErr, rows, k + Calls(here), w + 1, end + SECOND, to);
        InsideThen(here, AfterWindow(api, ctxErr, rows, k, w, cursor, to), first, Windows(end + SECOND, to));
      }
    }
  }

  lemma InsideNothing(trace: seq<Event>, ws: seq<(int, int)>)
    requires |trace| <= 1 && forall e | e in trace :: e.Fail?
    ensures Inside(trace, ws)
  {}

  lemma DrainInside(here: seq<Event>, first: (int, int))
    requires forall e | e in here && e.Call? :: e.from == first.0 && first.0 <= e.to <= first.1
    requires forall i | 0 <= i < |here| - 1 :: !here[i].Fail?
    ensures Inside(here, [first])
  {
    assert first in [first];
  }

  // ---- the streaming form

  /** A consumer that stops after `n` rows has the first `n` rows of the full run, and what it
      caused ends with the n-th. */
  lemma LazyTakesPrefix(events: seq<Event>, n: nat, log: seq<Event>, cont: bool)
    requires n > 0 && IsDelivery(events, h => |h| < n, log, cont)
    ensures Rows(log) == Take(Rows(events), n)
    ensures if |Rows(events)| < n then log == events else log != [] && log[|log| - 1].Row?
    ensures |Rows(log)| < n <==> |Rows(events)| < n
  {
    var rest := events[|log|..];
    assert events == log + rest;
    RowsConcat(log, rest);
    var got := Rows(log);
    if !cont {
      LastRowCounts(log);
      assert |got| > 1 ==> |got[..|got| - 1]| < n;
      assert |got| == n;
    }
  }

  /** A context that is cancelled cuts the run short and changes nothing before. */
  lemma {:induction false} CancelledIsPrefix(api: Fetcher, ctxErr: nat -> Option<Error>, rows: set<Tx>,
                                             k: nat, w: nat, cursor: int, to: int)
    requires Honest(api, rows, MAX_ROWS)
    ensures Rows(RangeTrace(api, ctxErr, rows, k, w, cursor, to)) <=
            Rows(RangeTrace(api, NeverCancelled, rows, k, w, cursor, to))
    ensures (forall i :: ctxErr(i).None?) ==>
              RangeTrace(api, ctxErr, rows, k, w, cursor, to) == RangeTrace(api, NeverCancelled, rows, k, w, cursor, to)
    decreases FloorAt(cursor, to)
  {
    hide DrainTrace, RangeTrace, Unix, WindowEnd;
    if cursor > to {
      NothingLeft(api, ctxErr, rows, k, w, cursor, to);
      NothingLeft(api, NeverCancelled, rows, k, w, cursor, to);
    } else if ctxErr(w).Some? {
      CancelledTrace(api, ctxErr, rows, k, w, cursor, to);
      RowsOfFailure(ctxErr(w).value);
    } else {
      WindowThenRest(api, ctxErr, rows, k, w, cursor, to);
      WindowThenRest(api, NeverCancelled, rows, k, w, cursor, to);
      WindowAdvances(cursor, to);
      var end := WindowEnd(cursor, to);
      var here := DrainTrace(api, rows, k, Unix(cursor), Unix(end), {});
      CancelledIsPrefix(api, ctxErr, rows, k + Calls(here), w + 1, end + SECOND, to);
      var rest := AfterWindow(api, ctxErr, rows, k, w, cursor, to);
      var all := AfterWindow(api, NeverCancelled, rows, k, w, cursor, to);
      RowsConcat(here, rest);
      RowsConcat(here, all);
      assert Rows(rest) <= Rows(all);
    }
  }

  lemma RowsOfFailure(e: Error)
    ensures Rows([Fail(e)]) == []
  {}

  /** What TransactionsRangeIter gives a consumer that stops after `n` rows, against what
      TransactionsRange returns, by the contracts of the two. Whatever the context does, the rows
      are the list's first; the n-th is the last thing that happens, no request follows it; an error
      comes once and last. With the context alive they are exactly the first `n`, and a consumer that
      wanted more sees the same requests, rows and error as the eager form. */
  lemma LazyRefinesEager(api: Fetcher, ctxErr: nat -> Option<Error>, rows: set<Tx>, from: int, to: int, n: nat,
                         log: seq<Event>, cont: bool, result: Result<seq<Tx>, Error>, eager: seq<Event>)
    requires Honest(api, rows, MAX_ROWS) && n > 0
    requires IsDelivery(FullTrace(api, ctxErr, rows, from, to), h => |h| < n, log, cont)
    requires eager == FullTrace(api, NeverCancelled, rows, from, to)
    requires result == if Failed(eager) then Failure(eager[|eager| - 1].error) else Success(Rows(eager))
    ensures |Rows(log)| <= n && Rows(log) <= Rows(eager)
    ensures |Rows(log)| == n ==> log[|log| - 1].Row?
    ensures forall i | 0 <= i < |log| - 1 :: !log[i].Fail?
    ensures (forall i :: ctxErr(i).None?) ==>
              && Rows(log) == Take(Rows(eager), n)
              && (|Rows(log)| < n ==>
                    && log == eager
                    && ErrorOf(log) == if result.Failure? then Some(result.error) else None)
              && (result.Success? ==> Rows(log) == Take(result.value, n) && ErrorOf(log) == None)
  {
    hide RangeTrace, IsDelivery;
    var events := FullTrace(api, ctxErr, rows, from, to);
    LazyTakesPrefix(events, n, log, cont);
    DeliveryIsPrefix(events, h => |h| < n, log, cont);
    if !Nothing(from, to) {
      CancelledIsPrefix(api, ctxErr, rows, 0, 0, from, to);
      RangeCalls(api, ctxErr, rows, 0, 0, from, to);
    }
  }

  lemma DeliveryIsPrefix(events: seq<Event>, wants: seq<Tx> -> bool, log: seq<Event>, cont: bool)
    requires IsDelivery(events, wants, log, cont)
    ensures log <= events
  {}
}
