/**
 The validation pipeline `is_valid_email`: syntax check, domain extraction,
 denylist check, then either a cache hit or one DNS lookup whose
 classification is recorded in the cache.

 The process-wide cache is threaded through explicitly: a call takes the
 cache as it was and returns it as it is afterwards. The DNS lookup is the
 parameter `resolve`, and `Call.lookup` records which domain, if any, was
 sent to it.
 */
module Validator {
  import opened Wrappers
  import opened Text
  import opened Syntax
  import opened Outcomes
  import opened Denylist
  import opened Resolver
  import opened MxCache

  /** The result of one call: the pair returned, the cache afterwards, the domain looked up in DNS (if any). */
  datatype Call = Call(outcome: Outcome, cache: Cache, lookup: Option<string>)

  /** `email.split('@')[1].lower()`; the index fails when there is no '@'. */
  function DomainOf(email: string): string
    requires '@' in email
  {
    Lower(Split(email, '@')[1])
  }

  /** The domain of an accepted address is everything after its one '@', lower-cased. */
  lemma DomainAfterAt(email: string, i: nat)
    requires Matches(email)
    requires i < |email| && email[i] == '@'
    ensures 0 < i && AllIn(email[..i], LocalChar)
    ensures DomainOf(email) == Lower(email[i + 1..])
  {
    var k := AtPosition(email);
    SplitAtOnly(email, '@', i);
  }

  /** For an address assembled from its parts, the domain is the lower-cased text after the '@'. */
  lemma DomainOfAssembled(user: string, host: string, tail: string)
    requires |user| > 0 && |host| > 0 && |tail| > 0
    requires AllIn(user, LocalChar) && AllIn(host, LabelChar) && AllIn(tail, TailChar)
    ensures var email := user + "@" + host + "." + tail;
      BodyMatches(email) && Matches(email) && '@' in email && DomainOf(email) == Lower(host + "." + tail)
  {
    Assemble(user, host, tail);
    var rest := host + "." + tail;
    Regroup(user, "@", host, ".", tail);
    AroundSeparator(user, '@', rest);
    DomainAfterAt(user + "@" + rest, |user|);
  }

  /**
   The domain of an accepted address has no upper-case letter and starts
   with a non-empty label followed by a '.'.
   */
  lemma DomainShape(email: string)
    requires Matches(email) && '@' in email
    ensures var d := DomainOf(email);
      && (forall k :: 0 <= k < |d| ==> !IsUpper(d[k]))
      && exists j :: 0 < j && j + 1 < |d| && d[j] == '.' && AllIn(d[..j], LabelChar)
  {
    var i, n := HostOf(email);
    DomainAfterAt(email, i);
    LowerLabel(email[i + 1..], n);
  }

  /** Lower-casing a host keeps its first label and the '.' after it. */
  lemma LowerLabel(h: string, n: nat)
    requires n < |h| && h[n] == '.' && AllIn(h[..n], LabelChar)
    ensures Lower(h)[n] == '.' && AllIn(Lower(h)[..n], LabelChar)
  {
    LowerPrefix(h, n);
    LowerKeepsClass(h[..n], LabelChar);
  }

  /**
   The trailing-newline quirk of `$`: an address the pattern body matches
   is still accepted with a "\n" appended, and the newline stays on the domain.
   */
  lemma NewlineQuirk(email: string)
    requires BodyMatches(email)
    ensures Matches(email + "\n") && '@' in email
    ensures DomainOf(email + "\n") == DomainOf(email) + "\n"
  {
    var i := BodyAt(email);
    NewlineAccepted(email);
    DomainAfterAt(email, i);
    NewlineDomain(email, i);
  }

  /** With a final "\n" accepted, the domain is the lower-cased text after the '@' followed by that "\n". */
  lemma NewlineDomain(email: string, i: nat)
    requires Matches(email + "\n") && i < |email| && email[i] == '@'
    ensures DomainOf(email + "\n") == Lower(email[i + 1..]) + "\n"
  {
    DomainAfterAt(email + "\n", i);
    SuffixOfAppend(email, "\n", i + 1);
    LowerAppend(email[i + 1..], "\n");
  }

  /** `email` passes the syntax check and its domain is `domain`. */
  ghost predicate AddressAt(email: string, domain: string) {
    Matches(email) && '@' in email && DomainOf(email) == domain
  }

  /** One call of `is_valid_email` against the cache as it stands and the DNS as it answers now. */
  function IsValidEmail(email: string, cache: Cache, resolve: string -> DnsAnswer): (r: Call)
    ensures !Matches(email) ==> r == Call(InvalidSyntax, cache, None)
    ensures Extends(cache, r.cache)
    ensures r.lookup.None? ==> r.cache == cache
    ensures r.lookup.Some? ==>
      && Matches(email) && '@' in email
      && r.lookup.value == DomainOf(email)
      && !IsDisposable(r.lookup.value)
      && r.lookup.value !in cache
      && r.cache.Keys == cache.Keys + {r.lookup.value}
  {
    if !CheckSyntax(email) then
      Call(InvalidSyntax, cache, None)
    else
      var domain := DomainOf(email);
      if IsDisposable(domain) then
        Call(Disposable(domain), cache, None)
      else if domain in cache then
        Call(cache[domain], cache, None)
      else
        var c := Classify(resolve(domain));
        Call(c.returned, cache[domain := c.stored], Some(domain))
  }

  /**
   What every cache built by the pipeline satisfies: each key is a
   lower-cased domain that is not on the denylist, and each value is one
   of the four outcomes a DNS classification stores.
   */
  ghost predicate CacheInv(cache: Cache) {
    forall d :: d in cache ==> cache[d] in StoredOutcomes && !IsDisposable(d) && Lower(d) == d
  }

  lemma EmptyCacheInv()
    ensures CacheInv(map[])
  {
  }

  /** Every call keeps the cache invariant. */
  lemma IsValidEmailKeepsInv(email: string, cache: Cache, resolve: string -> DnsAnswer)
    requires CacheInv(cache)
    ensures CacheInv(IsValidEmail(email, cache, resolve).cache)
  {
    var r := IsValidEmail(email, cache, resolve);
    if r.lookup.Some? {
      LowerIdempotent(Split(email, '@')[1]);
    }
  }

  /**
   The syntax gate: the result is "Invalid syntax" exactly when the pattern
   rejects the address, and then nothing is looked up and the cache is as it was.
   */
  lemma SyntaxGate(email: string, cache: Cache, resolve: string -> DnsAnswer)
    requires CacheInv(cache)
    ensures var r := IsValidEmail(email, cache, resolve);
      && (r.outcome == InvalidSyntax <==> !Matches(email))
      && (!Matches(email) ==> r.cache == cache && r.lookup == None)
  {
    var r := IsValidEmail(email, cache, resolve);
    if Matches(email) {
      var d := DomainOf(email);
      ReasonsDistinct(d);
      if d in cache {
        assert cache[d] in StoredOutcomes;
      }
    }
  }

  /**
   The denylist gate: an accepted address whose lower-cased domain is listed
   is rejected with a reason naming the domain, without a lookup and without
   touching the cache; an unlisted domain never gets that reason.
   */
  lemma DenylistGate(email: string, cache: Cache, resolve: string -> DnsAnswer)
    requires Matches(email) && '@' in email
    requires CacheInv(cache)
    ensures var r := IsValidEmail(email, cache, resolve);
      && (r.outcome == Disposable(DomainOf(email)) <==> IsDisposable(DomainOf(email)))
      && (IsDisposable(DomainOf(email)) ==> r.cache == cache && r.lookup == None)
  {
    var d := DomainOf(email);
    var r := IsValidEmail(email, cache, resolve);
    if !IsDisposable(d) {
      ReasonsDistinct(d);
      if d in cache {
        assert cache[d] in StoredOutcomes;
      }
    }
  }

  /**
   A cache hit returns the stored pair as it is, whatever DNS would answer,
   performs no lookup and leaves the cache unchanged. The hit is stated as
   the hypothesis of each ensures.
   */
  lemma CacheHit(email: string, cache: Cache, resolve: string -> DnsAnswer, resolve': string -> DnsAnswer)
    ensures Hit(email, cache) ==> IsValidEmail(email, cache, resolve) == Call(cache[DomainOf(email)], cache, None)
    ensures Hit(email, cache) ==> IsValidEmail(email, cache, resolve') == IsValidEmail(email, cache, resolve)
  {
  }

  /** The address is accepted, its domain is not listed, and the cache holds the domain. */
  ghost predicate Hit(email: string, cache: Cache) {
    Matches(email) && '@' in email && !IsDisposable(DomainOf(email)) && DomainOf(email) in cache
  }

  /** The address is accepted, its domain is not listed, and the cache does not hold the domain. */
  ghost predicate Miss(email: string, cache: Cache) {
    Matches(email) && '@' in email && !IsDisposable(DomainOf(email)) && DomainOf(email) !in cache
  }

  /**
   A cache miss looks the domain up once, returns the classification's
   returned pair and records its stored pair under the domain; every other
   key keeps its entry. The miss is stated as the hypothesis of the ensures.
   */
  lemma CacheMiss(email: string, cache: Cache, resolve: string -> DnsAnswer)
    ensures Miss(email, cache) ==>
      var d := DomainOf(email);
      var r := IsValidEmail(email, cache, resolve);
      && r.lookup == Some(d)
      && r.outcome == Classify(resolve(d)).returned
      && d in r.cache && r.cache[d] == Classify(resolve(d)).stored
      && forall k :: k != d ==> (k in r.cache <==> k in cache) && (k in cache ==> r.cache[k] == cache[k])
  {
  }

  /**
   A valid result comes only from an accepted, unlisted domain that the
   cache now records as having MX records.
   */
  lemma ValidMeansChecked(email: string, cache: Cache, resolve: string -> DnsAnswer)
    requires CacheInv(cache)
    ensures var r := IsValidEmail(email, cache, resolve);
      r.outcome.isValid ==>
        && Matches(email) && '@' in email
        && !IsDisposable(DomainOf(email))
        && DomainOf(email) in r.cache && r.cache[DomainOf(email)] == ValidMx
  {
    var r := IsValidEmail(email, cache, resolve);
    if r.outcome.isValid {
      assert CheckSyntax(email);
      var d := DomainOf(email);
      ReasonsDistinct(d);
      assert !IsDisposable(d);
      if d in cache {
        assert r.outcome == cache[d] && r.cache == cache;
        StoredValid(cache[d]);
      } else {
        assert resolve(d).Records?;
        assert r.cache[d] == ValidMx;
      }
    }
  }

  /**
   Two calls in a row for addresses with the same domain, with DNS free to
   answer differently in between. The second call never looks anything up
   and leaves the cache alone. A negative first result is repeated
   verbatim; a first successful lookup says "Valid email" and the second
   call then says "Valid MX records".
   */
  lemma RepeatCall(email: string, email': string, domain: string, cache: Cache,
                   resolve: string -> DnsAnswer, resolve': string -> DnsAnswer)
    ensures AddressAt(email, domain) && AddressAt(email', domain) ==>
      var first := IsValidEmail(email, cache, resolve);
      var second := IsValidEmail(email', first.cache, resolve');
      && second.lookup == None
      && second.cache == first.cache
      && second.outcome.isValid == first.outcome.isValid
      && (!first.outcome.isValid ==> second.outcome == first.outcome)
      && (first.lookup.Some? && first.outcome.isValid ==> first.outcome == ValidEmail && second.outcome == ValidMx)
      && (CacheInv(cache) && first.outcome.isValid ==> second.outcome == ValidMx)
  {
    if AddressAt(email, domain) && AddressAt(email', domain) {
      var d := DomainOf(email);
      assert CheckSyntax(email) && CheckSyntax(email');
      ReasonsDistinct(d);
      var first := IsValidEmail(email, cache, resolve);
      if IsDisposable(d) {
        assert first == Call(Disposable(d), cache, None);
      } else if d in cache {
        assert first == Call(cache[d], cache, None);
        if CacheInv(cache) {
          StoredValid(cache[d]);
        }
      } else {
        var c := Classify(resolve(d));
        assert first == Call(c.returned, cache[d := c.stored], Some(d));
      }
    }
  }

}
