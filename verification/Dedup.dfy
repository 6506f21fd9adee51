/** MemoryDeduper: the keys a webhook handler has processed, the least recently used dropped
    once there are too many. The two packages' dedupers are the same program. */
module Dedup {
  import opened Collections

  /** A key as the list stores it; the index points at these. */
  class Element {
    const value: string

    constructor (value: string)
      ensures this.value == value
    {
      this.value := value;
    }
  }

  function Without<T(==)>(s: seq<T>, x: T): seq<T> {
    if s == [] then []
    else if s[0] == x then s[1..]
    else [s[0]] + Without(s[1..], x)
  }

  /** A key used now goes to the front; past the capacity the last one goes. */
  function Used(capacity: nat, keys: seq<string>, key: string): seq<string> {
    Take([key] + Without(keys, key), capacity)
  }

  function AfterAdd(capacity: nat, keys: seq<string>, key: string): seq<string> {
    if key == "" then keys else Used(capacity, keys, key)
  }

  function AfterHas(capacity: nat, keys: seq<string>, key: string): seq<string> {
    if key != "" && key in keys then Used(capacity, keys, key) else keys
  }

  // ---- facts about Without

  lemma {:induction false} WithoutMembers<T>(s: seq<T>, x: T)
    requires Distinct(s)
    ensures forall y :: y in Without(s, x) <==> y in s && y != x
    ensures Distinct(Without(s, x))
    ensures |Without(s, x)| == if x in s then |s| - 1 else |s|
    ensures x !in s ==> Without(s, x) == s
  {
    if s != [] {
      assert s[0] !in s[1..];
      if s[0] != x {
        WithoutMembers(s[1..], x);
      }
    }
  }

  lemma {:induction false} WithoutAt<T>(s: seq<T>, i: nat)
    requires Distinct(s) && i < |s|
    ensures Without(s, s[i]) == s[..i] + s[i + 1..]
  {
    if i > 0 {
      WithoutAt(s[1..], i - 1);
      assert s[..i] == [s[0]] + s[1..][..i - 1];
    }
  }

  lemma UsedShape(capacity: nat, keys: seq<string>, key: string)
    requires Distinct(keys) && |keys| <= capacity && capacity > 0
    ensures Distinct(Used(capacity, keys, key)) && |Used(capacity, keys, key)| <= capacity
    ensures key in keys ==> Used(capacity, keys, key) == [key] + Without(keys, key)
    ensures key !in keys ==>
              Used(capacity, keys, key) == [key] + if |keys| < capacity then keys else keys[..capacity - 1]
  {
    hide Without, Distinct;
    WithoutMembers(keys, key);
    var all := [key] + Without(keys, key);
    PushedDistinct(key, Without(keys, key));
    if |all| > capacity {
      DistinctPrefix(all, capacity);
      assert key !in keys ==> all[..capacity] == [key] + keys[..capacity - 1];
    }
  }

  // ---- the list and its index

  /** The keys of a list, front first. */
  ghost function Values(order: seq<Element>): (keys: seq<string>)
    ensures |keys| == |order| && forall i | 0 <= i < |order| :: keys[i] == order[i].value
  {
    seq(|order|, i requires 0 <= i < |order| => order[i].value)
  }

  /** The list has no key twice and the index is exactly its elements by key. */
  ghost predicate Indexed(order: seq<Element>, index: map<string, Element>) {
    && Distinct(Values(order))
    && (forall i | 0 <= i < |order| :: order[i].value in index && index[order[i].value] == order[i])
    && (forall k | k in index :: k in Values(order))
  }

  lemma IndexOfKey(order: seq<Element>, index: map<string, Element>, key: string) returns (i: nat)
    requires Indexed(order, index) && key in index
    ensures i < |order| && order[i] == index[key] && order[i].value == key
  {
    i :| 0 <= i < |order| && Values(order)[i] == key;
  }

  lemma IndexedKeys(order: seq<Element>, index: map<string, Element>)
    requires Indexed(order, index)
    ensures Distinct(Values(order))
    ensures forall k :: k in index <==> k in Values(order)
  {
    forall k | k in Values(order) ensures k in index {
      var i :| 0 <= i < |order| && Values(order)[i] == k;
      assert order[i].value == k;
    }
  }

  lemma ValuesCut(order: seq<Element>, i: nat)
    requires i < |order|
    ensures Values(order[..i] + order[i + 1..]) == Values(order)[..i] + Values(order)[i + 1..]
  {}

  lemma MovedIndexed(order: seq<Element>, index: map<string, Element>, i: nat)
    requires Indexed(order, index) && i < |order|
    ensures var moved := [order[i]] + Without(order, order[i]);
            && |moved| == |order|
            && Values(moved) == [order[i].value] + Without(Values(order), order[i].value)
            && Indexed(moved, index)
  {
    hide Without;
    MovedKeys(order, i);
    MovedPointers(order, index, i);
    hide Values, Distinct;
    WithoutMembers(Values(order), order[i].value);
    PushedDistinct(order[i].value, Without(Values(order), order[i].value));
  }

  lemma PushedDistinct(x: string, rest: seq<string>)
    requires Distinct(rest) && x !in rest
    ensures Distinct([x] + rest)
  {}

  lemma MovedKeys(order: seq<Element>, i: nat)
    requires Distinct(Values(order)) && i < |order|
    ensures var moved := [order[i]] + Without(order, order[i]);
            && |moved| == |order|
            && moved == [order[i]] + (order[..i] + order[i + 1..])
            && Values(moved) == [order[i].value] + Without(Values(order), order[i].value)
  {
    hide Without;
    var keys, e := Values(order), order[i];
    assert Distinct(order) by {
      assert forall h, j | 0 <= h < j < |order| :: keys[h] != keys[j];
    }
    WithoutAt(order, i);
    WithoutAt(keys, i);
    ValuesCut(order, i);
    assert Values([e] + (order[..i] + order[i + 1..])) == [e.value] + Values(order[..i] + order[i + 1..]);
  }

  lemma MovedPointers(order: seq<Element>, index: map<string, Element>, i: nat)
    requires i < |order|
    requires forall j | 0 <= j < |order| :: order[j].value in index && index[order[j].value] == order[j]
    ensures var moved := [order[i]] + (order[..i] + order[i + 1..]);
            forall j | 0 <= j < |moved| :: moved[j].value in index && index[moved[j].value] == moved[j]
  {
    var moved := [order[i]] + (order[..i] + order[i + 1..]);
    forall j | 0 <= j < |moved| ensures moved[j].value in index && index[moved[j].value] == moved[j] {
      assert moved[j] == if j == 0 then order[i] else if j <= i then order[j - 1] else order[j];
    }
  }

  lemma DroppedIndexed(order: seq<Element>, index: map<string, Element>)
    requires Indexed(order, index) && order != []
    ensures var kept := order[..|order| - 1];
            && Values(kept) == Values(order)[..|order| - 1]
            && Indexed(kept, index - {order[|order| - 1].value})
  {
    var kept, last := order[..|order| - 1], order[|order| - 1].value;
    assert Values(kept) == Values(order)[..|order| - 1];
    forall k | k in index && k != last ensures k in Values(kept) {
      var i :| 0 <= i < |order| && Values(order)[i] == k;
      assert Values(kept)[i] == k;
    }
  }

  lemma PushedIndexed(order: seq<Element>, index: map<string, Element>, e: Element)
    requires Indexed(order, index) && e.value !in index
    ensures Values([e] + order) == [e.value] + Values(order)
    ensures Indexed([e] + order, index[e.value := e])
  {
    assert Values([e] + order) == [e.value] + Values(order);
    assert forall k | k in Values(order) :: k in index;
  }

  class MemoryDeduper {
    const capacity: nat
    var order: seq<Element>
    var index: map<string, Element>

    ghost predicate Valid()
      reads this
    {
      0 < capacity && |order| <= capacity && Indexed(order, index)
    }

    /** The keys, most recently used first. */
    ghost function Keys(): seq<string>
      reads this
    {
      Values(order)
    }

    constructor (capacity: int)
      ensures Valid() && Keys() == []
      ensures this.capacity == if capacity <= 0 then 1024 else capacity
    {
      this.capacity := if capacity <= 0 then 1024 else capacity;
      order := [];
      index := map[];
    }

    /** list.MoveToFront, for an element of the list. */
    method MoveToFront(e: Element)
      requires Valid() && e.value in index && index[e.value] == e
      modifies this`order
      ensures Valid() && Keys() == Used(capacity, old(Keys()), e.value)
    {
      ghost var i := IndexOfKey(order, index, e.value);
      MovedIndexed(order, index, i);
      UsedShape(capacity, Keys(), e.value);
      order := [e] + Without(order, e);
    }

    method Has(key: string) returns (ok: bool)
      requires Valid()
      modifies this`order
      ensures Valid()
      ensures ok == (key != "" && key in old(Keys()))
      ensures Keys() == AfterHas(capacity, old(Keys()), key)
      ensures Elems(Keys()) == Elems(old(Keys()))
      ensures if ok then Keys()[0] == key else Keys() == old(Keys())
    {
      if key == "" {
        return false;
      }
      IndexedKeys(order, index);
      ok := key in index;
      if ok {
        MoveToFront(index[key]);
      }
    }

    method Add(key: string)
      requires Valid()
      modifies this
      ensures Valid()
      ensures Keys() == AfterAdd(capacity, old(Keys()), key)
      ensures if key == "" then Keys() == old(Keys()) else Keys() != [] && Keys()[0] == key
    {
      hide Indexed, Values, Distinct, Without;
      if key == "" {
        return;
      }
      IndexedKeys(order, index);
      if key in index {
        ghost var i := IndexOfKey(order, index, key);
        MoveToFront(index[key]);
        return;
      }
      UsedShape(capacity, Keys(), key);
      if |order| == capacity {
        var oldest := order[|order| - 1];
        DroppedIndexed(order, index);
        index := index - {oldest.value};
        order := order[..|order| - 1];
      }
      var e := new Element(key);
      PushedIndexed(order, index, e);
      order := [e] + order;
      index := index[key := e];
    }

    method Len() returns (n: nat)
      requires Valid()
      ensures n == |Keys()| <= capacity
    {
      n := |order|;
    }
  }

  // ---- least recently used, by the history of uses

  datatype Op = Has(key: string) | Add(key: string)

  /** Whether an operation counts as a use of its key. */
  predicate Uses(keys: seq<string>, op: Op) {
    op.key != "" && (op.Add? || op.key in keys)
  }

  function After(capacity: nat, keys: seq<string>, op: Op): seq<string> {
    match op
    case Has(key) => AfterHas(capacity, keys, key)
    case Add(key) => AfterAdd(capacity, keys, key)
  }

  function AfterAll(capacity: nat, keys: seq<string>, ops: seq<Op>): seq<string>
    decreases |ops|
  {
    if ops == [] then keys else AfterAll(capacity, After(capacity, keys, ops[0]), ops[1..])
  }

  /** The keys used by a run, in order of use. */
  function History(capacity: nat, keys: seq<string>, ops: seq<Op>): seq<string>
    decreases |ops|
  {
    if ops == [] then []
    else (if Uses(keys, ops[0]) then [ops[0].key] else []) + History(capacity, After(capacity, keys, ops[0]), ops[1..])
  }

  /** Every key of a history once, by most recent use, with no limit on their number. */
  function Recency(uses: seq<string>): seq<string> {
    if uses == [] then []
    else [uses[|uses| - 1]] + Without(Recency(uses[..|uses| - 1]), uses[|uses| - 1])
  }

  /** The other keys used after the last use of `key`. */
  function Since(uses: seq<string>, key: string): set<string> {
    if uses == [] || uses[|uses| - 1] == key then {}
    else Since(uses[..|uses| - 1], key) + {uses[|uses| - 1]}
  }

  lemma {:induction false} RecencyMembers(uses: seq<string>)
    ensures Distinct(Recency(uses)) && forall k :: k in Recency(uses) <==> k in uses
  {
    if uses != [] {
      var init, last := uses[..|uses| - 1], uses[|uses| - 1];
      RecencyMembers(init);
      WithoutMembers(Recency(init), last);
      assert uses == init + [last];
    }
  }

  /** The place from which `last`, not among the first `p + 1`, is cut out. */
  lemma PastHead(r: seq<string>, p: nat, last: string) returns (i: nat)
    requires Distinct(r) && p < |r| && last !in r[..p] && r[p] != last
    ensures p < i <= |r|
    ensures last in r ==> i < |r|
    ensures Without(r, last) == r[..i] + if last in r then r[i + 1..] else []
  {
    if last in r {
      i :| 0 <= i < |r| && r[i] == last;
      WithoutAt(r, i);
      assert forall h | 0 <= h < p :: r[h] in r[..p];
    } else {
      i := |r|;
      WithoutMembers(r, last);
      assert r == r[..i] + [];
    }
  }

  lemma TakeOfUsed(s: seq<string>, key: string, n: nat)
    requires Distinct(s) && n > 0
    ensures Used(n, Take(s, n), key) == Used(n, s, key)
  {
    hide Without, Distinct;
    if |s| > n {
      var t := s[..n];
      DistinctPrefix(s, n);
      if key in t {
        var i :| 0 <= i < n && t[i] == key;
        WithoutAt(s, i);
        WithoutAt(t, i);
        CutPrefix(s, i, n);
      } else {
        WithoutMembers(t, key);
        var i := PastHead(s, n - 1, key);
        assert ([key] + s[..i])[..n] == ([key] + t)[..n];
        CutAfter([key] + s[..i], if key in s then s[i + 1..] else [], n);
      }
    }
  }

  lemma DistinctPrefix(s: seq<string>, n: nat)
    requires Distinct(s) && n <= |s|
    ensures Distinct(s[..n])
  {}

  lemma CutPrefix(s: seq<string>, i: nat, n: nat)
    requires i < n < |s|
    ensures [s[i]] + (s[..n][..i] + s[..n][i + 1..]) == ([s[i]] + (s[..i] + s[i + 1..]))[..n]
  {}

  lemma CutAfter(a: seq<string>, b: seq<string>, n: nat)
    requires n <= |a|
    ensures (a + b)[..n] == a[..n]
  {}

  lemma OneUse(capacity: nat, uses: seq<string>, op: Op)
    requires capacity > 0
    ensures var keys := Take(Recency(uses), capacity);
            After(capacity, keys, op) == Take(Recency(uses + if Uses(keys, op) then [op.key] else []), capacity)
  {
    var keys := Take(Recency(uses), capacity);
    if Uses(keys, op) {
      RecencyMembers(uses);
      TakeOfUsed(Recency(uses), op.key, capacity);
      assert (uses + [op.key])[..|uses|] == uses;
    } else {
      assert uses + [] == uses;
    }
  }

  /** Bounded and unbounded memory agree on the first `capacity` keys, after any run. */
  lemma {:induction false} LeastRecentlyUsed(capacity: nat, uses: seq<string>, ops: seq<Op>)
    requires capacity > 0
    ensures var keys := Take(Recency(uses), capacity);
            AfterAll(capacity, keys, ops) == Take(Recency(uses + History(capacity, keys, ops)), capacity)
    decreases |ops|
  {
    hide Recency, Take, Uses, After;
    var keys := Take(Recency(uses), capacity);
    if ops == [] {
      assert uses + [] == uses;
    } else {
      var more := if Uses(keys, ops[0]) then [ops[0].key] else [];
      OneUse(capacity, uses, ops[0]);
      LeastRecentlyUsed(capacity, uses + more, ops[1..]);
      var later := History(capacity, After(capacity, keys, ops[0]), ops[1..]);
      assert (uses + more) + later == uses + (more + later);
    }
  }

  /** `key` stands at place `p` of `r`, after exactly the keys `ahead`. */
  ghost predicate Placed(r: seq<string>, key: string, ahead: set<string>) {
    |ahead| < |r| && r[|ahead|] == key && forall k :: k in r[..|ahead|] <==> k in ahead
  }

  lemma PlacedAfterUse(r: seq<string>, key: string, ahead: set<string>, last: string)
    requires Distinct(r) && Placed(r, key, ahead) && last != key
    ensures Placed([last] + Without(r, last), key, ahead + {last})
  {
    hide Without;
    var p := |ahead|;
    if last in ahead {
      var i :| 0 <= i < p && r[i] == last;
      WithoutAt(r, i);
      assert ahead + {last} == ahead;
      MovedHead(r, i, p);
    } else {
      var i := PastHead(r, p, last);
      assert r == r[..i] + r[i..];
      PushedHead(r[..i], r[i..], r, last, p, if last in r then r[i + 1..] else []);
      assert |ahead + {last}| == p + 1;
      assert forall k :: k in [last] + r[..p] <==> k in ahead + {last};
    }
  }

  lemma PushedHead(a: seq<string>, b: seq<string>, r: seq<string>, last: string, p: nat, rest: seq<string>)
    requires r == a + b && p < |a|
    ensures var moved := [last] + (a + rest);
            moved[p + 1] == r[p] && moved[..p + 1] == [last] + r[..p]
  {}

  lemma MovedHead(r: seq<string>, i: nat, p: nat)
    requires i < p <= |r|
    ensures var moved := [r[i]] + (r[..i] + r[i + 1..]);
            && (p < |r| ==> moved[p] == r[p])
            && forall k :: k in moved[..p] <==> k in r[..p]
  {
    assert ([r[i]] + (r[..i] + r[i + 1..]))[..p] == [r[i]] + (r[..i] + r[i + 1..p]);
    assert r[..p] == r[..i] + ([r[i]] + r[i + 1..p]);
  }

  /** A key's place is the number of other keys used since. */
  lemma {:induction false} RecencyPlace(uses: seq<string>, key: string)
    requires key in uses
    ensures Placed(Recency(uses), key, Since(uses, key))
    decreases |uses|
  {
    var init, last := uses[..|uses| - 1], uses[|uses| - 1];
    assert uses == init + [last];
    if last != key {
      RecencyPlace(init, key);
      RecencyMembers(init);
      PlacedAfterUse(Recency(init), key, Since(init, key), last);
    }
  }

  /** What Has answers after any run from empty: the key was used, and fewer than `capacity` other
      keys were used since. */
  lemma HasAgrees(capacity: nat, ops: seq<Op>, key: string)
    requires capacity > 0
    ensures var uses := History(capacity, [], ops);
            key in AfterAll(capacity, [], ops) <==> key in uses && |Since(uses, key)| < capacity
  {
    var uses := History(capacity, [], ops);
    LeastRecentlyUsed(capacity, [], ops);
    assert [] + uses == uses;
    PresentIff(capacity, uses, key);
  }

  lemma PresentIff(capacity: nat, uses: seq<string>, key: string)
    ensures key in Take(Recency(uses), capacity) <==> key in uses && |Since(uses, key)| < capacity
  {
    RecencyMembers(uses);
    if key in uses {
      RecencyPlace(uses, key);
      var r, p := Recency(uses), |Since(uses, key)|;
      if p >= capacity {
        assert forall i | 0 <= i < capacity :: r[i] != r[p];
      } else {
        assert Take(r, capacity)[p] == key;
      }
    }
  }
}
