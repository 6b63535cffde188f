/**
 The validator over the lifetime of the process: a run of requests served
 one after another against the one shared cache, starting from whatever the
 cache held before.
 */
module Service {
  import opened Wrappers
  import opened Syntax
  import opened Outcomes
  import opened Denylist
  import opened Resolver
  import opened MxCache
  import opened Validator

  /** One request: the address, and what DNS would answer at the time it is served. */
  datatype Request = Request(email: string, resolve: string -> DnsAnswer)

  /** The pairs returned, in request order; the final cache; the domains sent to DNS, in order. */
  datatype Served = Served(outcomes: seq<Outcome>, cache: Cache, lookups: seq<string>)

  /** No domain occurs twice. */
  predicate Distinct(domains: seq<string>) {
    forall k, l :: 0 <= k < l < |domains| ==> domains[k] != domains[l]
  }

  /**
   Serve the requests in order. The cache only grows, by exactly the domains
   looked up; no domain is looked up twice, nor one the cache already held.
   */
  function Serve(requests: seq<Request>, cache: Cache): (r: Served)
    ensures |r.outcomes| == |requests|
    ensures Extends(cache, r.cache)
    ensures forall d :: d in r.cache <==> d in cache || d in r.lookups
    ensures forall k :: 0 <= k < |r.lookups| ==> r.lookups[k] !in cache
    ensures Distinct(r.lookups)
    decreases |requests|
  {
    if |requests| == 0 then
      Served([], cache, [])
    else
      var first := IsValidEmail(requests[0].email, cache, requests[0].resolve);
      var rest := Serve(requests[1..], first.cache);
      var looked := if first.lookup.Some? then [first.lookup.value] else [];
      ExtendsTransitive(cache, first.cache, rest.cache);
      LookupsAppend(cache, first.cache, rest.cache, looked, rest.lookups);
      Served([first.outcome] + rest.outcomes, rest.cache, looked + rest.lookups)
  }

  /**
   One call followed by the rest of the run: if the call adds the domains of
   `looked` to the cache and the rest adds those of `later`, the run adds
   those of `looked + later`, each once.
   */
  lemma LookupsAppend(cache: Cache, mid: Cache, final: Cache, looked: seq<string>, later: seq<string>)
    requires |looked| <= 1
    requires forall d :: d in mid <==> d in cache || d in looked
    requires forall k :: 0 <= k < |looked| ==> looked[k] !in cache
    requires forall d :: d in final <==> d in mid || d in later
    requires forall k :: 0 <= k < |later| ==> later[k] !in mid
    requires Distinct(later)
    ensures forall d :: d in final <==> d in cache || d in looked + later
    ensures forall k :: 0 <= k < |looked + later| ==> (looked + later)[k] !in cache
    ensures Distinct(looked + later)
  {
    var all := looked + later;
    forall k | 0 <= k < |all|
      ensures all[k] !in cache
    {
      if k >= |looked| {
        assert all[k] == later[k - |looked|];
      }
    }
    forall k, l | 0 <= k < l < |all|
      ensures all[k] != all[l]
    {
      assert all[l] == later[l - |looked|];
      if k >= |looked| {
        assert all[k] == later[k - |looked|];
      } else {
        assert all[k] in mid;
      }
    }
  }

  /** The pipeline's cache invariant holds after any run that starts from it, in particular from an empty cache. */
  lemma {:induction false} ServeKeepsInv(requests: seq<Request>, cache: Cache)
    requires CacheInv(cache)
    ensures CacheInv(Serve(requests, cache).cache)
    decreases |requests|
  {
    if |requests| > 0 {
      IsValidEmailKeepsInv(requests[0].email, cache, requests[0].resolve);
      var first := IsValidEmail(requests[0].email, cache, requests[0].resolve);
      ServeKeepsInv(requests[1..], first.cache);
    }
  }

  /**
   Cached entries are final: once a domain is in the cache, every later
   request for an accepted, unlisted address at that domain gets the stored
   pair, whatever DNS answers by then. This is how a transient DNS failure
   stays a failure for the life of the process.
   */
  lemma CachedIsFinal(requests: seq<Request>, cache: Cache, domain: string)
    requires domain in cache && !IsDisposable(domain)
    ensures var r := Serve(requests, cache);
      forall k :: 0 <= k < |requests| && AddressAt(requests[k].email, domain) ==> r.outcomes[k] == cache[domain]
  {
    forall k | 0 <= k < |requests| && AddressAt(requests[k].email, domain)
      ensures Serve(requests, cache).outcomes[k] == cache[domain]
    {
      CachedAt(requests, cache, domain, requests[k].email, k);
    }
  }

  /** The same for the request at position `k`, for address `email`, by induction on its position. */
  lemma {:induction false} CachedAt(requests: seq<Request>, cache: Cache, domain: string, email: string, k: nat)
    requires domain in cache && k < |requests| && requests[k].email == email
    ensures AddressAt(email, domain) && !IsDisposable(domain) ==> Serve(requests, cache).outcomes[k] == cache[domain]
    decreases k
  {
    if k == 0 {
      CachedFirst(requests, cache, domain, email);
    } else {
      var mid := ServeShift(requests, cache, k);
      CachedAt(requests[1..], mid, domain, email, k - 1);
    }
  }

  /** A first request at a cached domain is answered from the cache. */
  lemma CachedFirst(requests: seq<Request>, cache: Cache, domain: string, email: string)
    requires domain in cache && |requests| > 0 && requests[0].email == email
    ensures AddressAt(email, domain) && !IsDisposable(domain) ==> Serve(requests, cache).outcomes[0] == cache[domain]
  {
    CacheHit(email, cache, requests[0].resolve, requests[0].resolve);
  }

  /** Past the first request, the run continues as a run of the rest from the cache the first call left. */
  lemma ServeShift(requests: seq<Request>, cache: Cache, k: nat) returns (mid: Cache)
    requires 0 < k < |requests|
    ensures Extends(cache, mid)
    ensures Serve(requests, cache).outcomes[k] == Serve(requests[1..], mid).outcomes[k - 1]
    ensures requests[1..][k - 1] == requests[k]
  {
    mid := IsValidEmail(requests[0].email, cache, requests[0].resolve).cache;
  }
}
