/** What a webhook handler does with a delivery once it is verified: skip it if its key was
    processed, else run OnEvent and remember the key only when that succeeds. Requests are
    handled one at a time, with the in-memory deduper. */
module Delivery {
  import opened Collections
  import opened Dedup

  /** How the checks before deduplication end: an answer, or a delivery with its dedup key. */
  datatype Verdict = Answered(status: int) | Accepted(key: string)

  /** The answer, whether OnEvent ran, and the deduper's keys afterwards. */
  datatype Handled = Handled(status: int, ran: bool, keys: seq<string>)

  /** `ok` is what OnEvent returns if it runs. */
  function Handle(capacity: nat, keys: seq<string>, v: Verdict, ok: bool): Handled {
    match v
    case Answered(status) => Handled(status, false, keys)
    case Accepted(key) =>
      if key != "" && key in keys then Handled(200, false, AfterHas(capacity, keys, key))
      else if !ok then Handled(500, true, AfterHas(capacity, keys, key))
      else Handled(200, true, AfterAdd(capacity, AfterHas(capacity, keys, key), key))
  }

  datatype Request = Request(verdict: Verdict, ok: bool)

  function KeysAfter(capacity: nat, rs: seq<Request>): seq<string> {
    if rs == [] then []
    else
      var last := rs[|rs| - 1];
      Handle(capacity, KeysAfter(capacity, rs[..|rs| - 1]), last.verdict, last.ok).keys
  }

  /** How the i-th request of a run is handled, the deduper empty before the first. */
  function At(capacity: nat, rs: seq<Request>, i: nat): Handled
    requires i < |rs|
  {
    Handle(capacity, KeysAfter(capacity, rs[..i]), rs[i].verdict, rs[i].ok)
  }

  /** A non-empty key is touched when it is found, or when OnEvent succeeds for it. */
  predicate Touches(keys: seq<string>, r: Request) {
    r.verdict.Accepted? && r.verdict.key != "" && (r.verdict.key in keys || r.ok)
  }

  function Touched(capacity: nat, rs: seq<Request>): seq<string> {
    if rs == [] then []
    else
      var before, last := rs[..|rs| - 1], rs[|rs| - 1];
      Touched(capacity, before) +
      if Touches(KeysAfter(capacity, before), last) then [last.verdict.key] else []
  }

  /** OnEvent ran and succeeded for `key` at the j-th request. */
  predicate Succeeded(capacity: nat, rs: seq<Request>, j: nat, key: string)
    requires j < |rs|
  {
    rs[j].verdict == Accepted(key) && At(capacity, rs, j).ran && rs[j].ok
  }

  /** The deduper holds the `capacity` most recently touched keys. */
  lemma {:induction false} KeysAreRecent(capacity: nat, rs: seq<Request>)
    requires capacity > 0
    ensures KeysAfter(capacity, rs) == Take(Recency(Touched(capacity, rs)), capacity)
  {
    if rs != [] {
      var before, last := rs[..|rs| - 1], rs[|rs| - 1];
      KeysAreRecent(capacity, before);
      var uses, keys := Touched(capacity, before), KeysAfter(capacity, before);
      if last.verdict.Accepted? {
        var key := last.verdict.key;
        if last.ok || key in keys {
          OneUse(capacity, uses, Add(key));
        }
      }
      assert uses + [] == uses;
    }
  }

  /** Every key touched was processed successfully. */
  lemma {:induction false} TouchedSucceeded(capacity: nat, rs: seq<Request>, key: string)
    requires capacity > 0 && key in Touched(capacity, rs)
    ensures exists j :: 0 <= j < |rs| && Succeeded(capacity, rs, j, key)
  {
    var before, last := rs[..|rs| - 1], rs[|rs| - 1];
    var n := |rs| - 1;
    if key in Touched(capacity, before) {
      TouchedSucceeded(capacity, before, key);
      var j :| 0 <= j < |before| && Succeeded(capacity, before, j, key);
      assert before[..j] == rs[..j];
      assert Succeeded(capacity, rs, j, key);
    } else {
      KeysAreRecent(capacity, before);
      RecencyMembers(Touched(capacity, before));
      assert Succeeded(capacity, rs, n, key);
    }
  }

  lemma TouchedBefore(capacity: nat, rs: seq<Request>, i: nat, key: string)
    requires capacity > 0 && i <= |rs| && key in Touched(capacity, rs[..i])
    ensures exists j :: 0 <= j < i && Succeeded(capacity, rs, j, key)
  {
    var before := rs[..i];
    TouchedSucceeded(capacity, before, key);
    var j :| 0 <= j < |before| && Succeeded(capacity, before, j, key);
    assert before[..j] == rs[..j];
    assert Succeeded(capacity, rs, j, key);
  }

  /** What the bank is told: 500, which makes it send the delivery again, exactly when OnEvent ran and failed;
      200 for every other accepted delivery, a known one included; and what the checks answered, without
      running OnEvent, for a request they did not let through. */
  lemma AnswerTells(capacity: nat, rs: seq<Request>, i: nat)
    requires i < |rs|
    ensures var h := At(capacity, rs, i);
            match rs[i].verdict
            case Accepted(_) => h.status == if h.ran && !rs[i].ok then 500 else 200
            case Answered(status) => h.status == status && !h.ran
  {}

  /** A delivery answered 200 has been processed: now, or in an earlier request. */
  lemma AckMeansProcessed(capacity: nat, rs: seq<Request>, i: nat)
    requires capacity > 0 && i < |rs| && rs[i].verdict.Accepted?
    requires At(capacity, rs, i).status == 200
    ensures exists j :: 0 <= j <= i && Succeeded(capacity, rs, j, rs[i].verdict.key)
  {
    var key, before := rs[i].verdict.key, rs[..i];
    if At(capacity, rs, i).ran {
      assert Succeeded(capacity, rs, i, key);
    } else {
      KeysAreRecent(capacity, before);
      RecencyMembers(Touched(capacity, before));
      TouchedBefore(capacity, rs, i, key);
    }
  }

  /** Exactly when OnEvent runs: unless the key was touched before with fewer than `capacity` other
      keys touched since. So it runs for every empty key. */
  lemma RunsIff(capacity: nat, rs: seq<Request>, i: nat)
    requires capacity > 0 && i < |rs| && rs[i].verdict.Accepted?
    ensures var key, uses := rs[i].verdict.key, Touched(capacity, rs[..i]);
            At(capacity, rs, i).ran <==> key == "" || key !in uses || |Since(uses, key)| >= capacity
  {
    KeysAreRecent(capacity, rs[..i]);
    PresentIff(capacity, Touched(capacity, rs[..i]), rs[i].verdict.key);
  }

  /** A failed OnEvent never suppresses a later delivery: while none has succeeded for the key,
      every delivery of it runs OnEvent. */
  lemma FailureNeverSuppresses(capacity: nat, rs: seq<Request>, i: nat)
    requires capacity > 0 && i < |rs| && rs[i].verdict.Accepted?
    requires forall j | 0 <= j < i :: !Succeeded(capacity, rs, j, rs[i].verdict.key)
    ensures At(capacity, rs, i).ran
  {
    var key := rs[i].verdict.key;
    RunsIff(capacity, rs, i);
    if key in Touched(capacity, rs[..i]) {
      TouchedBefore(capacity, rs, i, key);
    }
  }

  /** The keys other than `key` touched by the requests between j and i. */
  function Others(capacity: nat, rs: seq<Request>, j: nat, i: nat, key: string): set<string>
    requires j <= i <= |rs|
  {
    set h | j <= h < i && Touches(KeysAfter(capacity, rs[..h]), rs[h]) && rs[h].verdict.key != key :: rs[h].verdict.key
  }

  /** `Since` looks no further back than a success. */
  lemma {:induction false} SinceSuccess(capacity: nat, rs: seq<Request>, j: nat, i: nat, key: string)
    requires capacity > 0 && key != "" && j < i <= |rs| && Succeeded(capacity, rs, j, key)
    ensures var uses := Touched(capacity, rs[..i]);
            key in uses && Since(uses, key) <= Others(capacity, rs, j + 1, i, key)
    decreases i
  {
    hide Touched, KeysAfter, Succeeded;
    var n := i - 1;
    TouchedGrows(capacity, rs, n);
    var before, keys := Touched(capacity, rs[..n]), KeysAfter(capacity, rs[..n]);
    if n == j {
      SuccessTouches(capacity, rs, n, key);
    } else {
      SinceSuccess(capacity, rs, j, n, key);
    }
    if Touches(keys, rs[n]) {
      assert (before + [rs[n].verdict.key])[..|before|] == before;
    } else {
      assert before + [] == before;
    }
  }

  lemma TouchedGrows(capacity: nat, rs: seq<Request>, n: nat)
    requires n < |rs|
    ensures Touched(capacity, rs[..n + 1]) ==
            Touched(capacity, rs[..n]) +
            if Touches(KeysAfter(capacity, rs[..n]), rs[n]) then [rs[n].verdict.key] else []
  {
    assert rs[..n + 1][..n] == rs[..n];
  }

  lemma SuccessTouches(capacity: nat, rs: seq<Request>, n: nat, key: string)
    requires n < |rs| && key != "" && Succeeded(capacity, rs, n, key)
    ensures rs[n].verdict.key == key && Touches(KeysAfter(capacity, rs[..n]), rs[n])
  {}

  /** Once OnEvent has succeeded for a non-empty key, it does not run for it again before at least
      `capacity` other keys were touched. */
  lemma AtMostOnceWithinCapacity(capacity: nat, rs: seq<Request>, j: nat, i: nat, key: string)
    requires capacity > 0 && key != "" && j < i < |rs|
    requires Succeeded(capacity, rs, j, key)
    requires rs[i].verdict == Accepted(key) && At(capacity, rs, i).ran
    ensures |Others(capacity, rs, j + 1, i, key)| >= capacity
  {
    RunsIff(capacity, rs, i);
    SinceSuccess(capacity, rs, j, i, key);
    SubsetSize(Since(Touched(capacity, rs[..i]), key), Others(capacity, rs, j + 1, i, key));
  }
}
