/** The two webhook handlers, one request at a time: acquiring.WebhookHandler and
    webhook.Handler. Signatures, freshness, parsing and the provider are given functions. */
module Handlers {
  import opened Wrappers
  import opened Dedup
  import opened Delivery
  import Refresh

  datatype Body = TooLarge | ReadError | Bytes(content: string)

  datatype Check = Good | BadSignature | OtherFailure

  /** The cached key and the record of its last refresh. `provider(i)` is the i-th answer of
      the key provider, None when it fails or its key does not parse. */
  class KeyCache<K(!new)> {
    const provider: nat -> Option<K>
    var key: Option<K>
    var lastRefreshAt: int
    var fetches: nat

    constructor (provider: nat -> Option<K>, never: int)
      ensures this.provider == provider && key == None && lastRefreshAt == never && fetches == 0
    {
      this.provider := provider;
      key, lastRefreshAt, fetches := None, never, 0;
    }

    method Fetch() returns (ok: bool)
      modifies this`key, this`fetches
      ensures fetches == old(fetches) + 1
      ensures ok <==> provider(old(fetches)).Some?
      ensures key == if ok then provider(old(fetches)) else old(key)
    {
      var answer := provider(fetches);
      fetches := fetches + 1;
      if answer.None? {
        return false;
      }
      key := answer;
      return true;
    }

    ghost function View(): Refresh.Cached<K>
      reads this
    {
      Refresh.Cached(key, lastRefreshAt, fetches)
    }

    /** With no one else in the group: `now` is the time of the checks, `stamp` that of the record. */
    method FetchCoalesced(now: int, stamp: int) returns (ok: bool)
      modifies this
      ensures (View(), ok) == Refresh.Coalesced(old(View()), now, stamp, provider(old(fetches)))
      ensures fetches == old(fetches) + if now - old(lastRefreshAt) < 30_000_000_000 then 0 else 1
      ensures ok <==> fetches == old(fetches) || provider(old(fetches)).Some?
      ensures key == if ok && fetches > old(fetches) then provider(old(fetches)) else old(key)
      ensures lastRefreshAt == if ok && fetches > old(fetches) then stamp else old(lastRefreshAt)
    {
      if now - lastRefreshAt < Refresh.MIN_INTERVAL {
        return true;
      }
      ok := Fetch();
      if ok {
        lastRefreshAt := stamp;
      }
    }
  }

  /** What is left once a delivery is accepted, with the deduper if there is one. */
  method Deliver(dedup: MemoryDeduper?, key: string, eventOk: bool) returns (status: int, ran: bool)
    requires dedup != null ==> dedup.Valid()
    modifies dedup
    ensures dedup != null ==>
              dedup.Valid() &&
              Handled(status, ran, dedup.Keys()) == Handle(dedup.capacity, old(dedup.Keys()), Accepted(key), eventOk)
    ensures ran <==> dedup == null || key == "" || key !in old(dedup.Keys())
    ensures status == if ran && !eventOk then 500 else 200
  {
    if key != "" && dedup != null {
      var known := dedup.Has(key);
      if known {
        return 200, false;
      }
    }
    if !eventOk {
      return 500, true;
    }
    if dedup != null && key != "" {
      dedup.Add(key);
    }
    return 200, true;
  }

  // ---- acquiring

  type PublicKey = string

  datatype Invoice = Invoice(invoiceId: string, modifiedDate: string)

  function DedupKey(inv: Invoice): string {
    if inv.modifiedDate == "" then inv.invoiceId else inv.invoiceId + "|" + inv.modifiedDate
  }

  /** The key tells states of invoices apart as long as no invoice id contains the separator. */
  lemma SameKeyIff(a: Invoice, b: Invoice)
    requires '|' !in a.invoiceId && '|' !in b.invoiceId
    ensures DedupKey(a) == DedupKey(b) <==> a == b
  {
    var s, t := DedupKey(a), DedupKey(b);
    if s == t {
      if a.modifiedDate != "" {
        assert s[|a.invoiceId|] == '|';
      }
      if b.modifiedDate != "" {
        assert t[|b.invoiceId|] == '|';
      }
      assert s[..|a.invoiceId|] == a.invoiceId && t[..|b.invoiceId|] == b.invoiceId;
      assert |a.invoiceId| == |b.invoiceId|;
      assert a.modifiedDate != "" ==> s[|a.invoiceId| + 1..] == a.modifiedDate;
      assert b.modifiedDate != "" ==> t[|b.invoiceId| + 1..] == b.modifiedDate;
    }
  }

  class AcquiringHandler {
    const verify: (PublicKey, string, string) -> Check
    const recent: (string, int) -> bool
    const parse: string -> Option<Invoice>
    const maxAge: int
    const dedup: MemoryDeduper?
    const cache: KeyCache<PublicKey>

    constructor (verify: (PublicKey, string, string) -> Check, recent: (string, int) -> bool,
                 parse: string -> Option<Invoice>, maxAge: int, dedup: MemoryDeduper?, cache: KeyCache<PublicKey>)
      ensures this.verify == verify && this.recent == recent && this.parse == parse
      ensures this.maxAge == maxAge && this.dedup == dedup && this.cache == cache
    {
      this.verify, this.recent, this.parse := verify, recent, parse;
      this.maxAge, this.dedup, this.cache := maxAge, dedup, cache;
    }

    ghost predicate Vouched(used: PublicKey, content: string, sign: string, now: int) {
      verify(used, content, sign) == Good && (maxAge > 0 ==> recent(content, now))
    }

    /** The key that decides on a delivery first checked against `k`: after a bad signature the cached
        one, refreshed unless that failed. */
    ghost function Decisive(k: PublicKey, content: string, sign: string,
                            after: (Refresh.Cached<PublicKey>, bool)): PublicKey
    {
      if verify(k, content, sign) == BadSignature && after.1 && after.0.key.Some? then after.0.key.value else k
    }

    /** Checks against `k`, and after a bad signature once more against a key fetched meanwhile. */
    method Verify(k: PublicKey, content: string, sign: string, now: int, stamp: int)
      returns (pass: bool, used: PublicKey)
      modifies cache
      ensures pass <==> Vouched(used, content, sign, now)
      ensures var after := Refresh.Coalesced(old(cache.View()), now, stamp, cache.provider(old(cache.fetches)));
              && used == Decisive(k, content, sign, after)
              && cache.View() == if verify(k, content, sign) == BadSignature then after.0 else old(cache.View())
    {
      used := k;
      var result := verify(k, content, sign);
      if result == BadSignature {
        var ok := cache.FetchCoalesced(now, stamp);
        if ok && cache.key.Some? && cache.key.value != k {
          used := cache.key.value;
          result := verify(used, content, sign);
        }
      }
      if result != Good {
        return false, used;
      }
      if maxAge > 0 {
        return recent(content, now), used;
      }
      return true, used;
    }

    /** `eventOk` is what OnEvent returns if it is run. The ghost verdict says how the checks ended. */
    method ServeHTTP(verb: string, body: Body, sign: string, now: int, stamp: int, eventOk: bool)
      returns (status: int, ran: bool, ghost verdict: Verdict)
      requires dedup != null ==> dedup.Valid()
      modifies cache, dedup
      ensures dedup != null ==>
                dedup.Valid() &&
                Handled(status, ran, dedup.Keys()) == Handle(dedup.capacity, old(dedup.Keys()), verdict, eventOk)
      ensures match verdict
              case Answered(answer) => status == answer && !ran
              case Accepted(key) =>
                && (ran <==> dedup == null || key == "" || key !in old(dedup.Keys()))
                && status == if ran && !eventOk then 500 else 200
      ensures verb == "GET" ==> verdict == Answered(200)
      ensures verb != "GET" && verb != "POST" ==> verdict == Answered(405)
      ensures verb == "POST" && body.TooLarge? ==> verdict == Answered(413)
      ensures verb == "POST" && body.ReadError? ==> verdict == Answered(400)
      ensures verb == "POST" && body.Bytes? && old(cache.key).None? ==> verdict == Answered(503)
      ensures verb != "POST" || !body.Bytes? || old(cache.key).None? ==> cache.View() == old(cache.View())
      ensures verb == "POST" && body.Bytes? && old(cache.key).Some? ==>
                var k := old(cache.key).value;
                var after := Refresh.Coalesced(old(cache.View()), now, stamp, cache.provider(old(cache.fetches)));
                var used := Decisive(k, body.content, sign, after);
                && cache.View() ==
                     (if verify(k, body.content, sign) == BadSignature then after.0 else old(cache.View()))
                && verdict == if !Vouched(used, body.content, sign, now) then Answered(401)
                              else match parse(body.content)
                                   case None => Answered(400)
                                   case Some(inv) => Accepted(DedupKey(inv))
      ensures verb == "POST" && body.Bytes? && old(cache.key).Some? ==>
                && cache.key.Some?
                && (verdict != Answered(401) <==>
                      && verify(cache.key.value, body.content, sign) == Good
                      && (maxAge <= 0 || recent(body.content, now)))
    {
      if verb == "GET" {
        return 200, false, Answered(200);
      }
      if verb != "POST" {
        return 405, false, Answered(405);
      }
      match body
      case TooLarge => return 413, false, Answered(413);
      case ReadError => return 400, false, Answered(400);
      case Bytes(content) =>
        if cache.key.None? {
          return 503, false, Answered(503);
        }
        var pass, used := Verify(cache.key.value, content, sign, now, stamp);
        if !pass {
          return 401, false, Answered(401);
        }
        var inv := parse(content);
        if inv.None? {
          return 400, false, Answered(400);
        }
        verdict := Accepted(DedupKey(inv.value));
        status, ran := Deliver(dedup, DedupKey(inv.value), eventOk);
    }
  }

  // ---- webhook

  datatype ServerKey = ServerKey(id: string, pub: PublicKey)

  datatype Parsed = Event(transactionId: string) | UnknownType | Malformed

  class BankHandler {
    const verify: (PublicKey, string, string) -> bool
    const parse: string -> Parsed
    const dedup: MemoryDeduper?
    const cache: KeyCache<ServerKey>

    constructor (verify: (PublicKey, string, string) -> bool, parse: string -> Parsed,
                 dedup: MemoryDeduper?, cache: KeyCache<ServerKey>)
      ensures this.verify == verify && this.parse == parse && this.dedup == dedup && this.cache == cache
    {
      this.verify, this.parse, this.dedup, this.cache := verify, parse, dedup, cache;
    }

    method ServeHTTP(verb: string, body: Body, keyId: string, sign: string, now: int, stamp: int, eventOk: bool)
      returns (status: int, ran: bool, ghost verdict: Verdict)
      requires dedup != null ==> dedup.Valid()
      modifies cache, dedup
      ensures dedup != null ==>
                dedup.Valid() &&
                Handled(status, ran, dedup.Keys()) == Handle(dedup.capacity, old(dedup.Keys()), verdict, eventOk)
      ensures match verdict
              case Answered(answer) => status == answer && !ran
              case Accepted(key) =>
                && (ran <==> dedup == null || key == "" || key !in old(dedup.Keys()))
                && status == if ran && !eventOk then 500 else 200
      ensures verb == "GET" ==> verdict == Answered(200)
      ensures verb != "GET" && verb != "POST" ==> verdict == Answered(405)
      ensures verb == "POST" && body.TooLarge? ==> verdict == Answered(413)
      ensures verb == "POST" && body.ReadError? ==> verdict == Answered(400)
      ensures verb == "POST" && body.Bytes? && old(cache.key).None? ==> verdict == Answered(503)
      ensures verb != "POST" || !body.Bytes? || old(cache.key).None? ==> cache.View() == old(cache.View())
      ensures verb == "POST" && body.Bytes? && old(cache.key).Some? ==>
                var after := Refresh.Coalesced(old(cache.View()), now, stamp, cache.provider(old(cache.fetches)));
                var other := keyId != "" && keyId != old(cache.key).value.id;
                && cache.View() == (if other then after.0 else old(cache.View()))
                && cache.key.Some?
                && verdict == if !verify(cache.key.value.pub, body.content, sign) then Answered(401)
                              else match parse(body.content)
                                   case Event(id) => Accepted(id)
                                   case UnknownType => Answered(200)
                                   case Malformed => Answered(400)
    {
      if verb == "GET" {
        return 200, false, Answered(200);
      }
      if verb != "POST" {
        return 405, false, Answered(405);
      }
      match body
      case TooLarge => return 413, false, Answered(413);
      case ReadError => return 400, false, Answered(400);
      case Bytes(content) =>
        if cache.key.None? {
          return 503, false, Answered(503);
        }
        var key := cache.key.value;
        if keyId != "" && keyId != key.id {
          var ok := cache.FetchCoalesced(now, stamp);
          if ok && cache.key.Some? {
            key := cache.key.value;
          }
        }
        if !verify(key.pub, content, sign) {
          return 401, false, Answered(401);
        }
        match parse(content)
        case UnknownType => return 200, false, Answered(200);
        case Malformed => return 400, false, Answered(400);
        case Event(id) =>
          verdict := Accepted(id);
          status, ran := Deliver(dedup, id, eventOk);
    }
  }
}
