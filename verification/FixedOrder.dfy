/** The server whose rows always come in one order: a newest-first list of rows, of which
    a request is answered with the first `cap` rows of its window. */
module FixedOrder {
  import opened Wrappers
  import opened Collections
  import opened Statement
  import opened DrainWindow
  import opened DrainProperties

  function WindowOf(s: seq<Tx>, from: int, to: int): seq<Tx> {
    if s == [] then []
    else (if from <= s[0].time <= to then [s[0]] else []) + WindowOf(s[1..], from, to)
  }

  ghost predicate Listed(s: seq<Tx>) {
    NewestFirst(s) && forall i, j | 0 <= i < j < |s| :: s[i].id != s[j].id
  }

  ghost predicate Serves(api: Fetcher, s: seq<Tx>, cap: nat) {
    forall k, from, to :: api(k, from, to) == Success(Take(WindowOf(s, from, to), cap))
  }

  lemma {:induction false} WindowMembers(s: seq<Tx>, from: int, to: int)
    ensures forall r :: r in WindowOf(s, from, to) <==> r in s && from <= r.time <= to
  {
    if s != [] {
      WindowMembers(s[1..], from, to);
    }
  }

  lemma {:induction false} WindowListed(s: seq<Tx>, from: int, to: int)
    requires Listed(s)
    ensures Listed(WindowOf(s, from, to)) && NewestFirst(WindowOf(s, from, to))
  {
    hide WindowOf;
    WindowStep(s, from, to);
    if s != [] {
      WindowListed(s[1..], from, to);
      WindowMembers(s[1..], from, to);
      PushedListed(s, WindowOf(s[1..], from, to));
    }
  }

  lemma PushedListed(s: seq<Tx>, rest: seq<Tx>)
    requires s != [] && Listed(s) && Listed(rest) && forall r | r in rest :: r in s[1..]
    ensures Listed([s[0]] + rest)
  {
    forall i | 0 <= i < |rest| ensures rest[i].time <= s[0].time && rest[i].id != s[0].id {
      assert rest[i] in s[1..];
    }
  }

  lemma WindowStep(s: seq<Tx>, from: int, to: int)
    ensures if s == [] then WindowOf(s, from, to) == []
            else if from <= s[0].time <= to then WindowOf(s, from, to) == [s[0]] + WindowOf(s[1..], from, to)
            else WindowOf(s, from, to) == WindowOf(s[1..], from, to)
  {}

  lemma TakeIsNewest(rows: set<Tx>, w: seq<Tx>, from: int, to: int, cap: nat)
    requires Listed(w) && (forall r :: r in w <==> r in rows && from <= r.time <= to)
    ensures IsNewestPage(rows, from, to, cap, Take(w, cap))
  {
    var page := Take(w, cap);
    forall r | r in w && page != [] ensures r in page || r.time <= page[|page| - 1].time {
      var i :| 0 <= i < |w| && w[i] == r;
      if i < cap {
        assert page[i] == r;
      }
    }
  }

  /** Such a server keeps the page contract. */
  lemma ServesHonestly(api: Fetcher, s: seq<Tx>, cap: nat)
    requires Listed(s) && Serves(api, s, cap)
    ensures Honest(api, Elems(s), cap) && UniqueIds(Elems(s))
  {
    hide IsNewestPage, Take, WindowOf;
    forall k, from, to ensures IsNewestPage(Elems(s), from, to, cap, api(k, from, to).value) {
      WindowMembers(s, from, to);
      WindowListed(s, from, to);
      TakeIsNewest(Elems(s), WindowOf(s, from, to), from, to, cap);
    }
  }

  lemma {:induction false} SameWindow(s: seq<Tx>, from: int, to: int, lower: int)
    requires lower <= to && forall r | r in s :: r.time <= lower
    ensures WindowOf(s, from, to) == WindowOf(s, from, lower)
  {
    if s != [] {
      assert s[0] in s;
      SameWindow(s[1..], from, to, lower);
    }
  }

  /** Lowering the upper bound keeps a tail of the window. */
  lemma {:induction false} LowerBound(s: seq<Tx>, from: int, to: int, lower: int)
    requires Listed(s) && lower <= to
    ensures var w, v := WindowOf(s, from, to), WindowOf(s, from, lower);
            |v| <= |w| && v == w[|w| - |v|..] && forall i | 0 <= i < |w| - |v| :: lower < w[i].time
  {
    hide WindowOf;
    WindowStep(s, from, to);
    WindowStep(s, from, lower);
    if s != [] {
      if s[0].time <= lower {
        assert forall i | 0 <= i < |s| :: s[i].time <= lower;
        SameWindow(s, from, to, lower);
      } else {
        LowerBound(s[1..], from, to, lower);
        PushedTail(s[0], WindowOf(s[1..], from, to), WindowOf(s[1..], from, lower));
      }
    }
  }

  lemma PushedTail(r: Tx, w: seq<Tx>, v: seq<Tx>)
    requires |v| <= |w| && v == w[|w| - |v|..]
    ensures var x := [r] + w; v == x[|x| - |v|..]
  {}

  lemma {:induction false} FreshSkips(page: seq<Tx>, seen: set<string>, m: nat)
    requires m <= |page|
    requires forall h | 0 <= h < |page| :: page[h].id in seen <==> h < m
    ensures Fresh(page, seen) == page[m..]
  {
    if page != [] {
      FreshSkips(page[1..], seen, if m == 0 then 0 else m - 1);
    }
  }

  lemma FreshAfterHead(w: seq<Tx>, m: nat, cap: nat)
    requires Listed(w) && m <= cap && m <= |w|
    ensures Fresh(Take(w, cap), Ids(w[..m])) == Take(w, cap)[m..]
  {
    var page, seen := Take(w, cap), Ids(w[..m]);
    forall h | 0 <= h < |page| ensures page[h].id in seen <==> h < m {
      if h < m {
        assert w[..m][h] == page[h];
      }
    }
    FreshSkips(page, seen, m);
  }

  /** How many rows of a newest-first window are reachable: up to the 500th row of the first
      500 consecutive ones that share a second, if there are such, and all of it if not. */
  function Reached(w: seq<Tx>): nat {
    ReachedFrom(w, 0)
  }

  function ReachedFrom(w: seq<Tx>, i: nat): nat
    decreases |w| - i
  {
    if i + MAX_ROWS > |w| then |w|
    else if w[i].time == w[i + MAX_ROWS - 1].time then i + MAX_ROWS
    else ReachedFrom(w, i + 1)
  }

  lemma {:induction false} ReachedShift(w: seq<Tx>, i: nat, j: nat)
    requires i + j <= |w|
    ensures ReachedFrom(w, i + j) == i + ReachedFrom(w[i..], j)
    decreases |w| - j
  {
    if i + j + MAX_ROWS <= |w| {
      assert w[i..][j] == w[i + j] && w[i..][j + MAX_ROWS - 1] == w[i + j + MAX_ROWS - 1];
      if w[i + j].time != w[i + j + MAX_ROWS - 1].time {
        ReachedShift(w, i, j + 1);
      }
    }
  }

  lemma {:induction false} ReachedSkips(w: seq<Tx>, i: nat, j: nat)
    requires NewestFirst(w) && i <= j < MAX_ROWS <= |w|
    requires forall h | i <= h < j :: w[h].time > w[MAX_ROWS - 1].time
    ensures ReachedFrom(w, i) == ReachedFrom(w, j)
    decreases j - i
  {
    if i < j {
      ReachedSkips(w, i + 1, j);
    }
  }

  /** The least place where 500 rows share a second, if any. */
  lemma {:induction false} ReachedMeans(w: seq<Tx>, i: nat)
    ensures var n := ReachedFrom(w, i);
            && (i <= |w| ==> n <= |w| && (n < i + MAX_ROWS ==> n == |w|))
            && (n < |w| <==> exists h :: i <= h && h + MAX_ROWS < |w| && w[h].time == w[h + MAX_ROWS - 1].time)
    decreases |w| - i
  {
    if i + MAX_ROWS <= |w| && w[i].time != w[i + MAX_ROWS - 1].time {
      ReachedMeans(w, i + 1);
    }
  }

  /** `w[i..]` are the rows no newer than the last row of a full first page. */
  ghost predicate SplitAt(w: seq<Tx>, i: nat) {
    && i < MAX_ROWS <= |w|
    && (forall h | 0 <= h < i :: w[h].time > w[MAX_ROWS - 1].time)
    && (forall h | i <= h < MAX_ROWS :: w[h].time == w[MAX_ROWS - 1].time)
  }

  lemma IdsAtIsHead(w: seq<Tx>, i: nat)
    requires SplitAt(w, i)
    ensures IdsAt(w[..MAX_ROWS], w[MAX_ROWS - 1].time) == Ids(w[i..MAX_ROWS])
  {
    var page, oldest, head := w[..MAX_ROWS], w[MAX_ROWS - 1].time, w[i..MAX_ROWS];
    forall r | r in page && r.time == oldest ensures r in head {
      var h :| 0 <= h < |page| && page[h] == r;
      assert head[h - i] == r;
    }
    forall r | r in head ensures r in page && r.time == oldest {
      var h :| 0 <= h < |head| && head[h] == r;
      assert page[h + i] == r;
    }
  }

  /** The ids a full page leaves behind are those of the head of the lowered window. */
  lemma RememberedIsHead(w: seq<Tx>, i: nat, to: int, m: nat)
    requires SplitAt(w, i) && m <= MAX_ROWS && w[0].time <= to
    requires forall h | 0 <= h < m :: w[h].time == to
    ensures Remembered(w[..MAX_ROWS], to, Ids(w[..m])) == Ids(w[i..MAX_ROWS])
  {
    IdsAtIsHead(w, i);
    if w[MAX_ROWS - 1].time == to {
      assert i == 0;
      assert Ids(w[..m]) <= Ids(w[..MAX_ROWS]) by {
        assert forall r | r in w[..m] :: r in w[..MAX_ROWS];
      }
      assert w[0..MAX_ROWS] == w[..MAX_ROWS];
    }
  }

  lemma LoweredTail(s: seq<Tx>, from: int, to: int) returns (i: nat)
    requires Listed(s)
    requires MAX_ROWS <= |WindowOf(s, from, to)|
    ensures var w := WindowOf(s, from, to);
            && Listed(w) && w[0].time <= to
            && SplitAt(w, i)
            && WindowOf(s, from, w[MAX_ROWS - 1].time) == w[i..]
  {
    hide WindowOf, Listed, SplitAt;
    var w := WindowOf(s, from, to);
    WindowListed(s, from, to);
    WindowMembers(s, from, to);
    var oldest := w[MAX_ROWS - 1].time;
    assert w[MAX_ROWS - 1] in w && w[0] in w;
    LowerBound(s, from, to, oldest);
    var v := WindowOf(s, from, oldest);
    i := |w| - |v|;
    WindowMembers(s, from, oldest);
    HeadShares(w, v, i);
  }

  lemma HeadShares(w: seq<Tx>, v: seq<Tx>, i: nat)
    requires NewestFirst(w) && i < MAX_ROWS <= |w| && v == w[i..]
    requires forall h | 0 <= h < i :: w[h].time > w[MAX_ROWS - 1].time
    requires forall r | r in v :: r.time <= w[MAX_ROWS - 1].time
    ensures SplitAt(w, i)
  {
    forall h | i <= h < MAX_ROWS ensures w[h].time == w[MAX_ROWS - 1].time {
      assert w[h] == v[h - i] && v[h - i] in v;
    }
  }

  /** The window that follows a full page: its head of known rows and what is reachable. */
  lemma LoweredWindow(s: seq<Tx>, from: int, to: int, m: nat) returns (i: nat)
    requires Listed(s)
    requires m < MAX_ROWS <= |WindowOf(s, from, to)|
    requires forall h | 0 <= h < m :: WindowOf(s, from, to)[h].time == to
    ensures i < MAX_ROWS
    ensures var w := WindowOf(s, from, to);
            var oldest := w[MAX_ROWS - 1].time;
            var v := WindowOf(s, from, oldest);
            && |v| >= MAX_ROWS - i && v == w[i..]
            && Remembered(w[..MAX_ROWS], to, Ids(w[..m])) == Ids(v[..MAX_ROWS - i])
            && (forall h | 0 <= h < MAX_ROWS - i :: v[h].time == oldest)
            && Reached(w) == i + Reached(v)
  {
    hide WindowOf;
    var w := WindowOf(s, from, to);
    i := LoweredTail(s, from, to);
    RememberedIsHead(w, i, to, m);
    assert w[i..][..MAX_ROWS - i] == w[i..MAX_ROWS];
    ReachedSkips(w, 0, i);
    ReachedShift(w, i, 0);
  }

  /** With `m` rows of the upper second handed out already, the run hands out the rest of
      what is reachable, in the window's own order. */
  lemma {:induction false} FixedDrain(api: Fetcher, s: seq<Tx>, k: nat, from: int, to: int, m: nat)
    requires Listed(s) && Serves(api, s, MAX_ROWS)
    requires m <= MAX_ROWS && m <= |WindowOf(s, from, to)|
    requires forall h | 0 <= h < m :: WindowOf(s, from, to)[h].time == to
    requires Honest(api, Elems(s), MAX_ROWS)
    ensures var w := WindowOf(s, from, to);
            var trace := DrainTrace(api, Elems(s), k, from, to, Ids(w[..m]));
            m <= Reached(w) <= |w| && Rows(trace) == w[m..Reached(w)] && !Failed(trace)
    decreases |DrainTrace(api, Elems(s), k, from, to, Ids(WindowOf(s, from, to)[..m]))|
  {
    hide DrainTrace, IsNewestPage, Remembered, Reached, WindowOf, Fresh, Listed, Ids, NewestFirst, Elems;
    var rows, w := Elems(s), WindowOf(s, from, to);
    var seen, page := Ids(w[..m]), Take(w, MAX_ROWS);
    TraceRows(api, rows, k, from, to, seen);
    WindowListed(s, from, to);
    FreshAfterHead(w, m, MAX_ROWS);
    ReachedBounds(w);
    assert api(k, from, to) == Success(page);
    hide Serves, Honest;
    if |w| >= MAX_ROWS && m < MAX_ROWS {
      var i := LoweredWindow(s, from, to, m);
      var v := WindowOf(s, from, w[MAX_ROWS - 1].time);
      assert page == w[..MAX_ROWS] && page[MAX_ROWS - 1] == w[MAX_ROWS - 1];
      assert AskAgain(api(k, from, to), seen);
      FixedDrain(api, s, k + 1, from, w[MAX_ROWS - 1].time, MAX_ROWS - i);
      Pieces(w, v, i, m, MAX_ROWS, Reached(w));
    } else {
      assert !AskAgain(api(k, from, to), seen);
      assert page[m..] == w[m..Reached(w)];
    }
  }

  lemma ReachedBounds(w: seq<Tx>)
    ensures Reached(w) <= |w| && (Reached(w) < MAX_ROWS ==> Reached(w) == |w|)
    ensures |w| >= MAX_ROWS && w[0].time == w[MAX_ROWS - 1].time ==> Reached(w) == MAX_ROWS
  {
    ReachedMeans(w, 0);
  }

  lemma Pieces(w: seq<Tx>, v: seq<Tx>, i: nat, m: nat, cut: nat, n: nat)
    requires i <= |w| && v == w[i..] && m <= cut <= n <= |w| && i <= cut
    ensures w[..cut][m..] + v[cut - i..n - i] == w[m..n]
  {}

  /** DrainWindow against a server with one order: a prefix of the window, cut after the
      500th row of the newest second that holds so many. */
  lemma FixedDrainIsPrefix(api: Fetcher, s: seq<Tx>, k: nat, from: int, to: int)
    requires Listed(s) && Serves(api, s, MAX_ROWS)
    ensures Honest(api, Elems(s), MAX_ROWS)
    ensures var w := WindowOf(s, from, to);
            var trace := DrainTrace(api, Elems(s), k, from, to, {});
            Reached(w) <= |w| && Rows(trace) == w[..Reached(w)] && !Failed(trace)
  {
    ServesHonestly(api, s, MAX_ROWS);
    FixedDrain(api, s, k, from, to, 0);
    assert Ids(WindowOf(s, from, to)[..0]) == {};
  }

  /** Exactly when nothing is lost: no 500 rows of one second have another row after them. */
  lemma FixedDrainCompleteIff(api: Fetcher, s: seq<Tx>, k: nat, from: int, to: int)
    requires Listed(s) && Serves(api, s, MAX_ROWS)
    ensures Honest(api, Elems(s), MAX_ROWS)
    ensures var w := WindowOf(s, from, to);
            Rows(DrainTrace(api, Elems(s), k, from, to, {})) == w <==>
            !exists h :: 0 <= h && h + MAX_ROWS < |w| && w[h].time == w[h + MAX_ROWS - 1].time
  {
    FixedDrainIsPrefix(api, s, k, from, to);
    ReachedMeans(WindowOf(s, from, to), 0);
  }

  // ---- exactly which statements every server lets through whole

  /** No second of the window holds 500 rows with another row of the window at or before it. */
  ghost predicate Drainable(rows: set<Tx>, from: int, to: int) {
    forall s | from <= s <= to && Full(rows, s) :: |Window(rows, from, s)| <= MAX_ROWS
  }

  lemma {:induction false} NewestFullExists(rows: set<Tx>, from: int, to: int, s: int) returns (newest: int)
    requires from <= s <= to && Full(rows, s)
    ensures NewestFull(rows, from, to, newest)
    decreases FloorAt(s, to)
  {
    if t :| s < t <= to && Full(rows, t) {
      newest := NewestFullExists(rows, from, to, t);
    } else {
      newest := s;
    }
  }

  lemma DrainableIsDrained(api: Fetcher, rows: set<Tx>, k: nat, from: int, to: int)
    requires Honest(api, rows, MAX_ROWS) && UniqueIds(rows) && Drainable(rows, from, to)
    requires !Failed(DrainTrace(api, rows, k, from, to, {}))
    ensures Elems(Rows(DrainTrace(api, rows, k, from, to, {}))) == Window(rows, from, to)
  {
    hide Honest, DrainTrace, UniqueIds;
    if s :| from <= s <= to && Full(rows, s) {
      var newest := NewestFullExists(rows, from, to, s);
      DrainStopsAtFullSecond(api, rows, k, from, to, newest);
      var given := Elems(Rows(DrainTrace(api, rows, k, from, to, {})));
      SubsetSize(given * At(rows, newest), Window(rows, from, newest));
      assert given * At(rows, newest) == Window(rows, from, newest);
      assert Window(rows, from, to) == Window(rows, from, newest) + Window(rows, newest + 1, to);
    } else {
      DrainIsComplete(api, rows, k, from, to);
    }
  }

  /** Any statement can be listed newest first. */
  lemma {:induction false} CanBeListed(rows: set<Tx>) returns (s: seq<Tx>)
    requires UniqueIds(rows)
    ensures Listed(s) && Elems(s) == rows
    decreases rows
  {
    s := [];
    if rows != {} {
      var newest := NewestOf(rows);
      var rest := CanBeListed(rows - {newest});
      s := [newest] + rest;
      assert forall r :: r in rest <==> r in Elems(rest);
      PushedListed(s, rest);
      assert Elems(s) == {newest} + Elems(rest);
    }
  }

  lemma {:induction false} NewestOf(rows: set<Tx>) returns (newest: Tx)
    requires rows != {}
    ensures newest in rows && forall r | r in rows :: r.time <= newest.time
    decreases rows
  {
    newest :| newest in rows;
    if rows != {newest} {
      var other := NewestOf(rows - {newest});
      newest := if other.time > newest.time then other else newest;
    }
  }

  /** A listed window with 500 rows of one second and another row after them. */
  lemma CrowdInWindow(s: seq<Tx>, from: int, to: int, second: int)
    requires Listed(s) && from <= second <= to && Full(Elems(s), second)
    requires |Window(Elems(s), from, second)| > MAX_ROWS
    ensures var w := WindowOf(s, from, to);
            exists h :: 0 <= h && h + MAX_ROWS < |w| && w[h].time == w[h + MAX_ROWS - 1].time
  {
    hide WindowOf, Listed, Full;
    var w, v := WindowOf(s, from, to), WindowOf(s, from, second);
    LowerBound(s, from, to, second);
    HeadOfCrowd(s, from, second);
    var h := |w| - |v|;
    assert w[h] == v[0] && w[h + MAX_ROWS - 1] == v[MAX_ROWS - 1];
  }

  lemma HeadOfCrowd(s: seq<Tx>, from: int, second: int)
    requires Listed(s) && from <= second && Full(Elems(s), second)
    requires |Window(Elems(s), from, second)| > MAX_ROWS
    ensures var v := WindowOf(s, from, second);
            |v| > MAX_ROWS && v[0].time == second && v[MAX_ROWS - 1].time == second
  {
    hide WindowOf;
    var v := WindowOf(s, from, second);
    WindowListed(s, from, second);
    WindowMembers(s, from, second);
    assert Elems(v) == Window(Elems(s), from, second);
    DistinctSize(v);
    assert v[0] in v && v[MAX_ROWS - 1] in v;
    if v[MAX_ROWS - 1].time < second {
      var head := v[..MAX_ROWS - 1];
      DistinctSize(head);
      forall r | r in At(Elems(s), second) ensures r in Elems(head) {
        assert r in v;
        var i :| 0 <= i < |v| && v[i] == r;
        assert head[i] == r;
      }
      SubsetSize(At(Elems(s), second), Elems(head));
    }
  }

  /** The server with one order that loses rows. */
  lemma LosingServer(rows: set<Tx>, k: nat, from: int, to: int) returns (api: Fetcher)
    requires UniqueIds(rows) && !Drainable(rows, from, to)
    ensures Honest(api, rows, MAX_ROWS)
    ensures var trace := DrainTrace(api, rows, k, from, to, {});
            !Failed(trace) && Elems(Rows(trace)) != Window(rows, from, to)
  {
    var s := CanBeListed(rows);
    api := (_: nat, a: int, b: int) => Success(Take(WindowOf(s, a, b), MAX_ROWS));
    assert Serves(api, s, MAX_ROWS);
    LosesRows(api, s, k, from, to);
  }

  lemma LosesRows(api: Fetcher, s: seq<Tx>, k: nat, from: int, to: int)
    requires Listed(s) && Serves(api, s, MAX_ROWS) && !Drainable(Elems(s), from, to)
    ensures Honest(api, Elems(s), MAX_ROWS)
    ensures var trace := DrainTrace(api, Elems(s), k, from, to, {});
            !Failed(trace) && Elems(Rows(trace)) != Window(Elems(s), from, to)
  {
    var rows, w := Elems(s), WindowOf(s, from, to);
    var second :| from <= second <= to && Full(rows, second) && |Window(rows, from, second)| > MAX_ROWS;
    hide DrainTrace, WindowOf, Honest, Serves, Full, Listed, Reached, Elems, Window;
    CrowdInWindow(s, from, to, second);
    FixedDrainIsPrefix(api, s, k, from, to);
    ReachedShort(w);
    LostRow(s, from, to, Reached(w));
  }

  lemma ReachedShort(w: seq<Tx>)
    requires exists h :: 0 <= h && h + MAX_ROWS < |w| && w[h].time == w[h + MAX_ROWS - 1].time
    ensures Reached(w) < |w|
  {
    ReachedMeans(w, 0);
  }

  lemma LostRow(s: seq<Tx>, from: int, to: int, n: nat)
    requires Listed(s) && n < |WindowOf(s, from, to)|
    ensures Elems(WindowOf(s, from, to)[..n]) != Window(Elems(s), from, to)
  {
    hide WindowOf;
    var w := WindowOf(s, from, to);
    WindowListed(s, from, to);
    WindowMembers(s, from, to);
    assert w[n] in w && w[n] !in Elems(w[..n]);
  }

  /** Over every tie order: all servers that do not fail let the window through whole if and only if no
      second of it holds 500 rows with another row of the window at or before it. */
  lemma DrainCompleteIff(rows: set<Tx>, k: nat, from: int, to: int)
    requires UniqueIds(rows)
    ensures (forall api: Fetcher | Honest(api, rows, MAX_ROWS) && !Failed(DrainTrace(api, rows, k, from, to, {})) ::
               Elems(Rows(DrainTrace(api, rows, k, from, to, {}))) == Window(rows, from, to))
            <==> Drainable(rows, from, to)
  {
    hide DrainTrace, Honest;
    if Drainable(rows, from, to) {
      forall api: Fetcher | Honest(api, rows, MAX_ROWS) && !Failed(DrainTrace(api, rows, k, from, to, {}))
        ensures Elems(Rows(DrainTrace(api, rows, k, from, to, {}))) == Window(rows, from, to)
      {
        DrainableIsDrained(api, rows, k, from, to);
      }
    } else {
      var api := LosingServer(rows, k, from, to);
    }
  }
}
