/** The bank's side of a statement request, and the record of what a client did.
    The server is known only through its contract: a page holds the newest rows
    of an inclusive window of seconds, newest first, cut at a fixed number of
    rows, with no cursor inside a second. */
module Statement {
  import opened Wrappers
  import opened Collections

  type Error = string

  /** One statement row; times have second resolution. */
  datatype Tx = Tx(id: string, time: int)

  /** The answer to the k-th request, for the window [from, to]. Answers may differ
      from one request to the next, in the order of rows inside a second and in
      whether they fail. */
  type Fetcher = (nat, int, int) -> Result<seq<Tx>, Error>

  ghost predicate UniqueIds(rows: set<Tx>) {
    forall a, b | a in rows && b in rows && a.id == b.id :: a == b
  }

  function Window(rows: set<Tx>, from: int, to: int): set<Tx> {
    set r | r in rows && from <= r.time <= to
  }

  /** The rows of one second. */
  function At(rows: set<Tx>, second: int): set<Tx> {
    set r | r in rows && r.time == second
  }

  ghost predicate NewestFirst(s: seq<Tx>) {
    forall i, j | 0 <= i < j < |s| :: s[i].time >= s[j].time
  }

  /** `page` is the newest `cap` rows of the window, in some newest-first order. */
  ghost predicate IsNewestPage(rows: set<Tx>, from: int, to: int, cap: nat, page: seq<Tx>) {
    && |page| <= cap
    && Distinct(page)
    && NewestFirst(page)
    && (forall r | r in page :: r in Window(rows, from, to))
    && (|page| < cap ==> forall r | r in Window(rows, from, to) :: r in page)
    && (page != [] ==> forall r | r in Window(rows, from, to) && r !in page :: r.time <= page[|page| - 1].time)
  }

  /** Every successful answer is a newest page of the one fixed statement. */
  ghost predicate Honest(api: Fetcher, rows: set<Tx>, cap: nat) {
    forall k, from, to :: api(k, from, to).Success? ==> IsNewestPage(rows, from, to, cap, api(k, from, to).value)
  }

  /** What a client does, in order: requests, rows handed to its caller, and the
      error it ends with. */
  datatype Event =
    | Call(from: int, to: int)
    | Row(tx: Tx)
    | Fail(error: Error)

  function Rows(events: seq<Event>): seq<Tx> {
    if events == [] then []
    else (if events[0].Row? then [events[0].tx] else []) + Rows(events[1..])
  }

  function AsRows(txs: seq<Tx>): (events: seq<Event>)
    ensures |events| == |txs|
    ensures forall i | 0 <= i < |txs| :: events[i] == Row(txs[i])
  {
    seq(|txs|, i requires 0 <= i < |txs| => Row(txs[i]))
  }

  /** The number of requests made. */
  function Calls(events: seq<Event>): nat {
    if events == [] then 0
    else (if events[0].Call? then 1 else 0) + Calls(events[1..])
  }

  predicate Failed(events: seq<Event>) {
    events != [] && events[|events| - 1].Fail?
  }

  function ErrorOf(events: seq<Event>): Option<Error> {
    if Failed(events) then Some(events[|events| - 1].error) else None
  }

  /** The rows of `page` whose id is not in `seen`. */
  function Fresh(page: seq<Tx>, seen: set<string>): seq<Tx> {
    if page == [] then []
    else (if page[0].id in seen then [] else [page[0]]) + Fresh(page[1..], seen)
  }

  function Ids(page: seq<Tx>): set<string> {
    set tx | tx in page :: tx.id
  }

  /** The ids of the rows of `page` at one second. */
  function IdsAt(page: seq<Tx>, second: int): set<string> {
    set tx | tx in page && tx.time == second :: tx.id
  }

  /** A consumer that answers, after each row, whether it wants more saw `log` out of
      the full run `events`: everything up to the first row it declined, or everything.
      `cont` tells which. */
  ghost predicate IsDelivery(events: seq<Event>, wants: seq<Tx> -> bool, log: seq<Event>, cont: bool) {
    && log <= events
    && (forall n | 0 < n < |Rows(log)| :: wants(Rows(log)[..n]))
    && (cont ==> log == events && (Rows(log) != [] ==> wants(Rows(log))))
    && (!cont ==> log != [] && log[|log| - 1].Row? && !wants(Rows(log)))
  }

  // ---- facts about the projections

  lemma RowsConcat(a: seq<Event>, b: seq<Event>)
    ensures Rows(a + b) == Rows(a) + Rows(b)
    ensures Calls(a + b) == Calls(a) + Calls(b)
  {
    RowsPlus(a, b);
    CallsPlus(a, b);
  }

  lemma {:induction false} RowsPlus(a: seq<Event>, b: seq<Event>)
    ensures Rows(a + b) == Rows(a) + Rows(b)
  {
    if a == [] {
      assert a + b == b;
    } else {
      assert (a + b)[1..] == a[1..] + b && (a + b)[0] == a[0];
      RowsPlus(a[1..], b);
    }
  }

  lemma {:induction false} CallsPlus(a: seq<Event>, b: seq<Event>)
    ensures Calls(a + b) == Calls(a) + Calls(b)
  {
    if a == [] {
      assert a + b == b;
    } else {
      assert (a + b)[1..] == a[1..] + b && (a + b)[0] == a[0];
      CallsPlus(a[1..], b);
    }
  }

  lemma {:induction false} RowsOfRows(txs: seq<Tx>)
    ensures Rows(AsRows(txs)) == txs
    ensures Calls(AsRows(txs)) == 0
  {
    if txs != [] {
      assert AsRows(txs)[1..] == AsRows(txs[1..]);
      RowsOfRows(txs[1..]);
    }
  }

  lemma {:induction false} FreshMembers(page: seq<Tx>, seen: set<string>)
    ensures forall tx :: tx in Fresh(page, seen) <==> tx in page && tx.id !in seen
  {
    if page != [] {
      FreshMembers(page[1..], seen);
    }
  }

  lemma {:induction false} FreshKeepsOrder(page: seq<Tx>, seen: set<string>)
    requires NewestFirst(page)
    ensures NewestFirst(Fresh(page, seen))
  {
    if page != [] {
      FreshKeepsOrder(page[1..], seen);
      FreshMembers(page[1..], seen);
      assert forall tx | tx in Fresh(page[1..], seen) :: tx.time <= page[0].time;
    }
  }

  lemma {:induction false} FreshKeepsDistinct(page: seq<Tx>, seen: set<string>)
    requires Distinct(page)
    ensures Distinct(Fresh(page, seen))
  {
    if page != [] {
      FreshKeepsDistinct(page[1..], seen);
      FreshMembers(page[1..], seen);
      assert page[0] !in page[1..];
    }
  }

  /** Joining two deliveries, the second to the same consumer after the first. */
  lemma DeliveryThen(e1: seq<Event>, log1: seq<Event>, e2: seq<Event>, log2: seq<Event>,
                     wants: seq<Tx> -> bool, cont: bool)
    requires IsDelivery(e1, wants, log1, true)
    requires IsDelivery(e2, h => wants(Rows(log1) + h), log2, cont)
    ensures IsDelivery(e1 + e2, wants, log1 + log2, cont)
    ensures Rows(log1 + log2) == Rows(log1) + Rows(log2)
  {
    RowsConcat(log1, log2);
    var r1, r2 := Rows(log1), Rows(log2);
    forall n | 0 < n < |r1 + r2| ensures wants((r1 + r2)[..n]) {
      if n < |r1| {
        assert (r1 + r2)[..n] == r1[..n];
      } else if n == |r1| {
        assert (r1 + r2)[..n] == r1;
      } else {
        assert (r1 + r2)[..n] == r1 + r2[..n - |r1|];
      }
    }
    if r2 == [] {
      assert r1 + r2 == r1;
    }
    if !cont {
      LastRowCounts(log2);
      assert (log1 + log2)[|log1 + log2| - 1] == log2[|log2| - 1];
    }
  }

  lemma LastRowCounts(log: seq<Event>)
    requires log != [] && log[|log| - 1].Row?
    ensures Rows(log) != [] && Rows(log)[|Rows(log)| - 1] == log[|log| - 1].tx
  {
    var init := log[..|log| - 1];
    assert log == init + [log[|log| - 1]];
    RowsConcat(init, [log[|log| - 1]]);
  }
}
