/** acquiring.ReconcileStatement: the differences between a bank statement and local records. */
module Reconcile {

  datatype Row = Row(id: string, minor: int, status: string)

  /** An empty status means that only the amount is compared. */
  datatype LocalPayment = LocalPayment(minor: int, status: string)

  datatype Mismatch =
    | AmountMismatch(id: string, local: int, remote: int)
    | StatusMismatch(id: string, localStatus: string, remoteStatus: string)

  datatype Reconciliation = Reconciliation(onlyRemote: seq<Row>, onlyLocal: seq<string>, mismatches: seq<Mismatch>) {
    predicate Clean() {
      |onlyRemote| == 0 && |onlyLocal| == 0 && |mismatches| == 0
    }
  }

  // ---- string order

  /** The order of sort.Strings. */
  predicate Less(a: string, b: string) {
    b != "" && (a == "" || a[0] < b[0] || (a[0] == b[0] && Less(a[1..], b[1..])))
  }

  lemma {:induction false} LessTrans(a: string, b: string, c: string)
    requires Less(a, b) && Less(b, c)
    ensures Less(a, c)
  {
    if a != "" && a[0] == b[0] == c[0] {
      LessTrans(a[1..], b[1..], c[1..]);
    }
  }

  lemma {:induction false} LessTotal(a: string, b: string)
    ensures Less(a, b) || a == b || Less(b, a)
    ensures !(Less(a, b) && Less(b, a)) && !Less(a, a)
  {
    if a != "" && b != "" {
      LessTotal(a[1..], b[1..]);
      if a[1..] == b[1..] && a[0] == b[0] {
        assert a == [a[0]] + a[1..] && b == [b[0]] + b[1..];
      }
    }
    if a != "" {
      LessIrreflexive(a);
    }
  }

  lemma {:induction false} LessIrreflexive(a: string)
    ensures !Less(a, a)
  {
    if a != "" {
      LessIrreflexive(a[1..]);
    }
  }

  /** It is the lexicographic order: a proper prefix comes first, else the smaller character at the first place
      where the two differ. */
  lemma {:induction false} LessIsLexicographic(a: string, b: string)
    ensures Less(a, b) <==>
            exists i :: 0 <= i <= |a| && i < |b| && a[..i] == b[..i] && (i == |a| || a[i] < b[i])
  {
    if a != "" && b != "" && a[0] == b[0] {
      LessIsLexicographic(a[1..], b[1..]);
      if Less(a, b) {
        var i :| 0 <= i <= |a[1..]| && i < |b[1..]| && a[1..][..i] == b[1..][..i] &&
                 (i == |a[1..]| || a[1..][i] < b[1..][i]);
        assert a[..i + 1] == [a[0]] + a[1..][..i] && b[..i + 1] == [b[0]] + b[1..][..i];
      }
      if i :| 0 <= i <= |a| && i < |b| && a[..i] == b[..i] && (i == |a| || a[i] < b[i]) {
        assert i > 0 && a[1..][..i - 1] == a[..i][1..] && b[1..][..i - 1] == b[..i][1..];
      }
    } else if b != "" {
      assert a[..0] == b[..0];
      forall i | 0 < i <= |a| && i < |b| ensures a[..i] != b[..i] {
        assert a[..i][0] == a[0] && b[..i][0] == b[0];
      }
    }
  }

  /** Strictly ascending, so without duplicates. */
  ghost predicate Ascending(s: seq<string>) {
    forall i, j | 0 <= i < j < |s| :: Less(s[i], s[j])
  }

  /** sort.Strings, on a list without duplicates that grows by one. */
  method InsertSorted(s: seq<string>, x: string) returns (t: seq<string>)
    requires Ascending(s) && x !in s
    ensures Ascending(t) && forall y :: y in t <==> y == x || y in s
  {
    var i := 0;
    while i < |s| && Less(s[i], x)
      invariant i <= |s| && forall j | 0 <= j < i :: Less(s[j], x)
    {
      i := i + 1;
    }
    t := s[..i] + [x] + s[i..];
    if i < |s| {
      LessTotal(s[i], x);
      assert Less(x, s[i]);
      forall j | i < j < |s| ensures Less(x, s[j]) {
        LessTrans(x, s[i], s[j]);
      }
    }
    assert s == s[..i] + s[i..];
  }

  /** Ascending lists of the same strings are the same list: the result does not depend on the order
      in which the local records are visited. */
  lemma {:induction false} AscendingUnique(s: seq<string>, t: seq<string>)
    requires Ascending(s) && Ascending(t) && forall y :: y in s <==> y in t
    ensures s == t
    decreases |s|
  {
    EmptyIff(s);
    EmptyIff(t);
    if s != [] {
      assert s[0] in s;
      assert t[0] in t;
      FirstIsLeast(s, t[0]);
      FirstIsLeast(t, s[0]);
      LessTotal(s[0], t[0]);
      TailMembers(s);
      TailMembers(t);
      AscendingUnique(s[1..], t[1..]);
      assert s == [s[0]] + s[1..] && t == [t[0]] + t[1..];
    }
  }

  lemma FirstIsLeast(s: seq<string>, y: string)
    requires Ascending(s) && y in s
    ensures y == s[0] || Less(s[0], y)
  {}

  lemma TailMembers(s: seq<string>)
    requires Ascending(s) && s != []
    ensures forall y :: y in s[1..] <==> y in s && y != s[0]
  {
    LessIrreflexive(s[0]);
    forall y | y in s && y != s[0] ensures y in s[1..] {
      assert s == [s[0]] + s[1..];
    }
  }

  // ---- the differences, row by row

  function OnlyRemote(statement: seq<Row>, local: map<string, LocalPayment>): seq<Row> {
    if statement == [] then []
    else
      var init, row := statement[..|statement| - 1], statement[|statement| - 1];
      OnlyRemote(init, local) + if row.id in local then [] else [row]
  }

  function RowMismatches(row: Row, local: map<string, LocalPayment>): seq<Mismatch> {
    if row.id !in local then []
    else
      var lp := local[row.id];
      (if lp.minor != row.minor then [AmountMismatch(row.id, lp.minor, row.minor)] else []) +
      (if lp.status != "" && lp.status != row.status then [StatusMismatch(row.id, lp.status, row.status)] else [])
  }

  function Mismatches(statement: seq<Row>, local: map<string, LocalPayment>): seq<Mismatch> {
    if statement == [] then []
    else
      var init, row := statement[..|statement| - 1], statement[|statement| - 1];
      Mismatches(init, local) + RowMismatches(row, local)
  }

  ghost predicate HasRow(statement: seq<Row>, id: string) {
    exists i :: 0 <= i < |statement| && statement[i].id == id
  }

  method ReconcileStatement(statement: seq<Row>, local: map<string, LocalPayment>) returns (rec: Reconciliation)
    ensures rec.onlyRemote == OnlyRemote(statement, local)
    ensures rec.mismatches == Mismatches(statement, local)
    ensures Ascending(rec.onlyLocal)
    ensures forall id :: id in rec.onlyLocal <==> id in local && !HasRow(statement, id)
  {
    var onlyRemote, mismatches, seen: set<string> := [], [], {};
    for i := 0 to |statement|
      invariant onlyRemote == OnlyRemote(statement[..i], local)
      invariant mismatches == Mismatches(statement[..i], local)
      invariant forall id :: id in seen <==> HasRow(statement[..i], id)
    {
      var row := statement[i];
      ghost var done := statement[..i + 1];
      assert done[..i] == statement[..i] && done[i] == row;
      RowsGrow(statement, i);
      seen := seen + {row.id};
      if row.id !in local {
        onlyRemote := onlyRemote + [row];
        continue;
      }
      var lp := local[row.id];
      var before := mismatches;
      if lp.minor != row.minor {
        mismatches := mismatches + [AmountMismatch(row.id, lp.minor, row.minor)];
      }
      if lp.status != "" && lp.status != row.status {
        mismatches := mismatches + [StatusMismatch(row.id, lp.status, row.status)];
      }
      assert mismatches == before + RowMismatches(row, local);
    }
    assert statement[..|statement|] == statement;
    var onlyLocal, ids := [], local.Keys;
    while ids != {}
      invariant ids <= local.Keys
      invariant Ascending(onlyLocal)
      invariant forall id :: id in onlyLocal <==> id in local && id !in ids && id !in seen
      decreases |ids|
    {
      var id :| id in ids;
      ids := ids - {id};
      if id !in seen {
        onlyLocal := InsertSorted(onlyLocal, id);
      }
    }
    return Reconciliation(onlyRemote, onlyLocal, mismatches);
  }

  lemma RowsGrow(statement: seq<Row>, i: nat)
    requires i < |statement|
    ensures forall id :: HasRow(statement[..i + 1], id) <==> HasRow(statement[..i], id) || id == statement[i].id
  {
    assert statement[..i + 1] == statement[..i] + [statement[i]];
    forall id | HasRow(statement[..i], id) ensures HasRow(statement[..i + 1], id) {
      var j :| 0 <= j < i && statement[..i][j].id == id;
      assert statement[..i + 1][j].id == id;
    }
    assert statement[..i + 1][i].id == statement[i].id;
  }

  // ---- what the result says

  /** Each row is either reported as unknown locally or compared: it has exactly the mismatches that
      its record shows. */
  lemma {:induction false} EveryRowAccountedFor(statement: seq<Row>, local: map<string, LocalPayment>)
    ensures forall row :: row in OnlyRemote(statement, local) <==> row in statement && row.id !in local
    ensures forall m :: m in Mismatches(statement, local) <==>
                        exists i :: 0 <= i < |statement| && m in RowMismatches(statement[i], local)
    decreases |statement|
  {
    if statement != [] {
      var init, row := statement[..|statement| - 1], statement[|statement| - 1];
      assert statement == init + [row];
      EveryRowAccountedFor(init, local);
      forall m | m in Mismatches(init, local)
        ensures exists i :: 0 <= i < |statement| && m in RowMismatches(statement[i], local)
      {
        var i :| 0 <= i < |init| && m in RowMismatches(init[i], local);
        assert m in RowMismatches(statement[i], local);
      }
      forall m | exists i :: 0 <= i < |statement| && m in RowMismatches(statement[i], local)
        ensures m in Mismatches(statement, local)
      {
        var i :| 0 <= i < |statement| && m in RowMismatches(statement[i], local);
        if i < |init| {
          assert m in RowMismatches(init[i], local);
        }
      }
    }
  }

  /** `m` says of a row where its record differs, with the two values: the amounts if they are not the same,
      the statuses if one is set locally and is not the same. */
  predicate Tells(m: Mismatch, row: Row, lp: LocalPayment) {
    match m
    case AmountMismatch(id, local, remote) =>
      id == row.id && local == lp.minor && remote == row.minor && local != remote
    case StatusMismatch(id, localStatus, remoteStatus) =>
      id == row.id && localStatus == lp.status && remoteStatus == row.status && localStatus != remoteStatus &&
      localStatus != ""
  }

  /** What is reported, exactly: everything that some row tells of its record, and nothing else. */
  lemma MismatchesTell(statement: seq<Row>, local: map<string, LocalPayment>)
    ensures forall m :: m in Mismatches(statement, local) <==>
              exists i :: 0 <= i < |statement| && statement[i].id in local
                          && Tells(m, statement[i], local[statement[i].id])
  {
    EveryRowAccountedFor(statement, local);
    forall i, m | 0 <= i < |statement|
      ensures m in RowMismatches(statement[i], local) <==>
              statement[i].id in local && Tells(m, statement[i], local[statement[i].id])
    {
      RowTells(statement[i], local, m);
    }
  }

  lemma RowTells(row: Row, local: map<string, LocalPayment>, m: Mismatch)
    ensures m in RowMismatches(row, local) <==> row.id in local && Tells(m, row, local[row.id])
  {}

  /** The two lists follow the statement: those of its first rows, then those of the rest. With the lists of
      one row this gives their order, and that a row that is there twice is reported twice. */
  lemma {:induction false} InStatementOrder(a: seq<Row>, b: seq<Row>, local: map<string, LocalPayment>)
    ensures OnlyRemote(a + b, local) == OnlyRemote(a, local) + OnlyRemote(b, local)
    ensures Mismatches(a + b, local) == Mismatches(a, local) + Mismatches(b, local)
    decreases |b|
  {
    hide RowMismatches;
    if b == [] {
      assert a + b == a;
    } else {
      var init := b[..|b| - 1];
      InStatementOrder(a, init, local);
      assert (a + b)[..|a + b| - 1] == a + init && (a + b)[|a + b| - 1] == b[|b| - 1];
    }
  }

  /** The lists of a single row: the row itself if it is unknown, else the amounts before the statuses. */
  lemma OfOneRow(row: Row, local: map<string, LocalPayment>)
    ensures OnlyRemote([row], local) == if row.id in local then [] else [row]
    ensures row.id !in local ==> Mismatches([row], local) == []
    ensures row.id in local ==>
              var lp := local[row.id];
              var statuses :=
                if lp.status in {"", row.status} then [] else [StatusMismatch(row.id, lp.status, row.status)];
              Mismatches([row], local) ==
              if lp.minor == row.minor then statuses else [AmountMismatch(row.id, lp.minor, row.minor)] + statuses
  {
    assert [row][..0] == [];
  }

  /** Both sides agree: the same ids, and each row's amount and, where set locally, status. */
  ghost predicate Agree(statement: seq<Row>, local: map<string, LocalPayment>) {
    && (forall id :: id in local <==> HasRow(statement, id))
    && (forall i | 0 <= i < |statement| && statement[i].id in local ::
          var lp := local[statement[i].id];
          lp.minor == statement[i].minor && (lp.status == "" || lp.status == statement[i].status))
  }

  lemma {:induction false} AllKnownIff(statement: seq<Row>, local: map<string, LocalPayment>)
    ensures OnlyRemote(statement, local) == [] <==> forall i | 0 <= i < |statement| :: statement[i].id in local
    decreases |statement|
  {
    if statement != [] {
      var init, row := statement[..|statement| - 1], statement[|statement| - 1];
      AllKnownIff(init, local);
      assert |OnlyRemote(statement, local)| == |OnlyRemote(init, local)| + if row.id in local then 0 else 1;
      assert forall i | 0 <= i < |init| :: statement[i] == init[i];
    }
  }

  ghost predicate AllMatch(statement: seq<Row>, local: map<string, LocalPayment>) {
    forall i | 0 <= i < |statement| :: RowMismatches(statement[i], local) == []
  }

  lemma AllMatchGrows(statement: seq<Row>, local: map<string, LocalPayment>)
    requires statement != []
    ensures var init, row := statement[..|statement| - 1], statement[|statement| - 1];
            AllMatch(statement, local) <==> AllMatch(init, local) && RowMismatches(row, local) == []
  {
    hide RowMismatches;
    var init := statement[..|statement| - 1];
    assert forall i | 0 <= i < |init| :: init[i] == statement[i];
  }

  lemma {:induction false} NoMismatchIff(statement: seq<Row>, local: map<string, LocalPayment>)
    ensures Mismatches(statement, local) == [] <==> AllMatch(statement, local)
    decreases |statement|
  {
    if statement != [] {
      hide RowMismatches, Mismatches, AllMatch;
      NoMismatchIff(statement[..|statement| - 1], local);
      MismatchesGrow(statement, local);
      AllMatchGrows(statement, local);
    }
  }

  lemma MismatchesGrow(statement: seq<Row>, local: map<string, LocalPayment>)
    requires statement != []
    ensures var init, row := statement[..|statement| - 1], statement[|statement| - 1];
            |Mismatches(statement, local)| == |Mismatches(init, local)| + |RowMismatches(row, local)|
  {}

  lemma CleanIffAgree(statement: seq<Row>, local: map<string, LocalPayment>, rec: Reconciliation)
    requires rec.onlyRemote == OnlyRemote(statement, local)
    requires rec.mismatches == Mismatches(statement, local)
    requires forall id :: id in rec.onlyLocal <==> id in local && !HasRow(statement, id)
    ensures rec.Clean() <==> Agree(statement, local)
  {
    hide OnlyRemote, Mismatches;
    AllKnownIff(statement, local);
    NoMismatchIff(statement, local);
    EmptyIff(rec.onlyLocal);
    forall i | 0 <= i < |statement| ensures HasRow(statement, statement[i].id) {}
  }

  lemma EmptyIff<T(!new)>(s: seq<T>)
    ensures s == [] <==> forall x :: x !in s
  {
    if |s| > 0 {
      assert s[0] in s;
    }
  }
}
