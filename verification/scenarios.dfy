/** Concrete calls: example requests, among them the `test@gmail.com` request of the usage note (app.py:10), and the quirks of the pattern and of the cache. */
module Scenarios {
  import opened Wrappers
  import opened Text
  import opened Syntax
  import opened Outcomes
  import opened Denylist
  import opened Resolver
  import opened MxCache
  import opened Validator

  /** A text without '@' fails the syntax check. */
  lemma NotAnEmail(cache: Cache, resolve: string -> DnsAnswer)
    ensures IsValidEmail("not-an-email", cache, resolve) == Call(InvalidSyntax, cache, None)
  {
    assert !Matches("not-an-email") by {
      assert '@' !in "not-an-email";
    }
  }

  /** `$` matches before a final newline: "a@b.c\n" passes the check, and its domain keeps the newline. */
  lemma TrailingNewline()
    ensures Matches("a@b.c\n")
    ensures DomainOf("a@b.c\n") == "b.c\n"
  {
    ShortAddress();
    NewlineQuirk("a@b.c");
    ShortNewline();
  }

  lemma ShortAddress()
    ensures BodyMatches("a@b.c") && DomainOf("a@b.c") == "b.c"
  {
    ShortParts();
    DomainOfAssembled("a", "b", "c");
    ShortLower();
  }

  lemma ShortParts()
    ensures AllIn("a", LocalChar) && AllIn("b", LabelChar) && AllIn("c", TailChar)
    ensures "a@b.c" == "a" + "@" + "b" + "." + "c"
  {
  }

  lemma ShortLower()
    ensures Lower("b" + "." + "c") == "b.c"
  {
    LowerOfLower("b.c");
  }

  lemma ShortNewline()
    ensures "a@b.c" + "\n" == "a@b.c\n"
  {
  }

  /** An address `user@host.tail` passes the syntax check, and its domain is `host.tail` lower-cased. */
  lemma Assembled(user: string, host: string, tail: string, at: string, domain: string)
    requires |user| > 0 && |host| > 0 && |tail| > 0
    requires AllIn(user, LocalChar) && AllIn(host, LabelChar) && AllIn(tail, TailChar)
    requires at == "@" + host + "." + tail && domain == Lower(host + "." + tail)
    ensures AddressAt(user + at, domain) && BodyMatches(user + at)
  {
    Regroup(user, "@", host, ".", tail);
    DomainOfAssembled(user, host, tail);
  }

  // The literal facts about the example addresses. Each sits in a lemma of
  // its own: stated together with the calls that use them, they make the
  // solver unfold the literals over and over.

  lemma MailinatorParts()
    ensures AllIn("mailinator", LabelChar) && AllIn("com", TailChar)
  {
    MailinatorWord();
    ComTail();
  }

  lemma MailinatorWord()
    ensures AllIn("mailinator", LabelChar)
  {
  }

  lemma ComTail()
    ensures AllIn("com", TailChar)
  {
  }

  lemma MailinatorConcat()
    ensures "@mailinator.com" == "@" + "mailinator" + "." + "com"
  {
  }

  lemma MailinatorLower()
    ensures Lower("mailinator" + "." + "com") == "mailinator.com" && IsDisposable("mailinator.com")
  {
    LowerOfLower("mailinator.com");
  }

  lemma MixedCaseParts()
    ensures AllIn("MailInator", LabelChar) && AllIn("COM", TailChar)
  {
    MixedCaseWord();
    UpperComTail();
  }

  lemma MixedCaseWord()
    ensures AllIn("MailInator", LabelChar)
  {
  }

  lemma UpperComTail()
    ensures AllIn("COM", TailChar)
  {
  }

  lemma MixedCaseConcat()
    ensures "@MailInator.COM" == "@" + "MailInator" + "." + "COM"
  {
  }

  lemma MixedCaseLower()
    ensures Lower("MailInator" + "." + "COM") == "mailinator.com"
  {
  }

  lemma MailinatorTail()
    ensures AllIn("mailinator.com", TailChar)
  {
    MailinatorParts();
    LabelIsTail("mailinator");
    DotComTail();
    AllInAppend("mailinator", ".com", TailChar);
    MailinatorDotCom();
  }

  lemma DotComTail()
    ensures AllIn(".com", TailChar)
  {
  }

  lemma MailinatorDotCom()
    ensures "mailinator" + ".com" == "mailinator.com"
  {
  }

  lemma SubdomainParts()
    ensures AllIn("x", LabelChar)
  {
  }

  lemma SubdomainConcat()
    ensures "@x.mailinator.com" == "@" + "x" + "." + "mailinator.com"
  {
  }

  lemma SubdomainLower()
    ensures Lower("x" + "." + "mailinator.com") == "x.mailinator.com"
  {
    LowerOfLower("x.mailinator.com");
  }

  lemma SubdomainUnlisted()
    ensures !IsDisposable("x.mailinator.com")
  {
    MailinatorLower();
    SubdomainNotListed("mailinator.com", "x");
  }

  lemma GmailParts()
    ensures AllIn("gmail", LabelChar) && AllIn("com", TailChar)
  {
    ComTail();
  }

  lemma GmailConcat()
    ensures "@gmail.com" == "@" + "gmail" + "." + "com"
  {
  }

  lemma GmailLower()
    ensures Lower("gmail" + "." + "com") == "gmail.com" && !IsDisposable("gmail.com")
  {
    LowerOfLower("gmail.com");
  }

  lemma ExampleParts()
    ensures AllIn("example", LabelChar) && AllIn("org", TailChar)
  {
  }

  lemma ExampleConcat()
    ensures "@example.org" == "@" + "example" + "." + "org"
  {
  }

  lemma ExampleLower()
    ensures Lower("example" + "." + "org") == "example.org" && !IsDisposable("example.org")
  {
    LowerOfLower("example.org");
  }

  lemma NonexistentParts()
    ensures AllIn("nonexistent-domain-xyz123", LabelChar) && AllIn("com", TailChar)
  {
    NonexistentPieces();
    AllInAppend("nonexistent", "-domain-", LabelChar);
    AllInAppend("nonexistent" + "-domain-", "xyz123", LabelChar);
    NonexistentJoin();
  }

  lemma NonexistentPieces()
    ensures AllIn("nonexistent", LabelChar) && AllIn("-domain-", LabelChar) && AllIn("xyz123", LabelChar)
    ensures AllIn("com", TailChar)
  {
    NonexistentWord();
    DomainWord();
    SuffixWord();
    ComTail();
  }

  lemma SuffixWord()
    ensures AllIn("xyz123", LabelChar)
  {
  }

  lemma NonexistentWord()
    ensures AllIn("nonexistent", LabelChar)
  {
  }

  lemma DomainWord()
    ensures AllIn("-domain-", LabelChar)
  {
  }

  lemma NonexistentJoin()
    ensures "nonexistent" + "-domain-" + "xyz123" == "nonexistent-domain-xyz123"
  {
  }

  lemma NonexistentConcat()
    ensures "@nonexistent-domain-xyz123.com" == "@" + "nonexistent-domain-xyz123" + "." + "com"
  {
  }

  lemma NonexistentLower()
    ensures Lower("nonexistent-domain-xyz123" + "." + "com") == "nonexistent-domain-xyz123.com"
    ensures !IsDisposable("nonexistent-domain-xyz123.com")
  {
    LowerOfLower("nonexistent-domain-xyz123.com");
  }

  // The example addresses: each is accepted and has the domain written after its '@'.

  lemma AtMailinator(user: string)
    requires |user| > 0 && AllIn(user, LocalChar)
    ensures AddressAt(user + "@mailinator.com", "mailinator.com") && BodyMatches(user + "@mailinator.com")
    ensures IsDisposable("mailinator.com")
  {
    MailinatorParts();
    MailinatorConcat();
    MailinatorLower();
    Assembled(user, "mailinator", "com", "@mailinator.com", "mailinator.com");
  }

  lemma AtMixedCase(user: string)
    requires |user| > 0 && AllIn(user, LocalChar)
    ensures AddressAt(user + "@MailInator.COM", "mailinator.com")
  {
    MixedCaseParts();
    MixedCaseConcat();
    MixedCaseLower();
    Assembled(user, "MailInator", "COM", "@MailInator.COM", "mailinator.com");
  }

  lemma AtSubdomain(user: string)
    requires |user| > 0 && AllIn(user, LocalChar)
    ensures AddressAt(user + "@x.mailinator.com", "x.mailinator.com")
    ensures !IsDisposable("x.mailinator.com")
  {
    SubdomainParts();
    MailinatorTail();
    SubdomainConcat();
    SubdomainLower();
    SubdomainUnlisted();
    Assembled(user, "x", "mailinator.com", "@x.mailinator.com", "x.mailinator.com");
  }

  lemma AtGmail(user: string)
    requires |user| > 0 && AllIn(user, LocalChar)
    ensures AddressAt(user + "@gmail.com", "gmail.com") && !IsDisposable("gmail.com")
  {
    GmailParts();
    GmailConcat();
    GmailLower();
    Assembled(user, "gmail", "com", "@gmail.com", "gmail.com");
  }

  lemma AtExample(user: string)
    requires |user| > 0 && AllIn(user, LocalChar)
    ensures AddressAt(user + "@example.org", "example.org") && !IsDisposable("example.org")
  {
    ExampleParts();
    ExampleConcat();
    ExampleLower();
    Assembled(user, "example", "org", "@example.org", "example.org");
  }

  lemma AtNonexistent(user: string)
    requires |user| > 0 && AllIn(user, LocalChar)
    ensures AddressAt(user + "@nonexistent-domain-xyz123.com", "nonexistent-domain-xyz123.com")
    ensures !IsDisposable("nonexistent-domain-xyz123.com")
  {
    NonexistentParts();
    NonexistentConcat();
    NonexistentLower();
    Assembled(user, "nonexistent-domain-xyz123", "com", "@nonexistent-domain-xyz123.com", "nonexistent-domain-xyz123.com");
  }

  /**
   Two calls for one address starting from an empty cache: the first looks
   the domain up and returns the classification's returned pair; the second
   is served from the cache, whatever DNS answers by then.
   */
  lemma TwoCalls(email: string, domain: string, resolve: string -> DnsAnswer, resolve': string -> DnsAnswer)
    requires AddressAt(email, domain) && !IsDisposable(domain)
    ensures var first := IsValidEmail(email, map[], resolve);
      var second := IsValidEmail(email, first.cache, resolve');
      && first.outcome == Classify(resolve(domain)).returned && first.lookup == Some(domain)
      && second.outcome == Classify(resolve(domain)).stored && second.lookup == None
  {
    CacheMiss(email, map[], resolve);
    var first := IsValidEmail(email, map[], resolve);
    CacheHit(email, first.cache, resolve', resolve');
  }

  /**
   Two calls for `email` from an empty cache, DNS answering `before` the
   first time and `after` the second: both return `o`, and only the first
   looks `domain` up.
   */
  ghost predicate SameTwice(email: string, domain: string, before: string -> DnsAnswer, after: string -> DnsAnswer, o: Outcome) {
    var first := IsValidEmail(email, map[], before);
    var second := IsValidEmail(email, first.cache, after);
    && first.outcome == o && first.lookup == Some(domain)
    && second.outcome == o && second.lookup == None
  }

  /** For any accepted, unlisted address whose domain does not exist, both calls say so; only the first asks DNS. */
  lemma MissingTwice(email: string, domain: string, before: string -> DnsAnswer, after: string -> DnsAnswer)
    requires AddressAt(email, domain) && !IsDisposable(domain) && before(domain) == NXDomain
    ensures SameTwice(email, domain, before, after, DomainMissing)
  {
    TwoCalls(email, domain, before, after);
  }

  /** For any accepted, unlisted address whose domain has no MX records, both calls say so; only the first asks DNS. */
  lemma NoMxTwice(email: string, domain: string, before: string -> DnsAnswer, after: string -> DnsAnswer)
    requires AddressAt(email, domain) && !IsDisposable(domain) && before(domain) == NoAnswer
    ensures SameTwice(email, domain, before, after, NoMx)
  {
    TwoCalls(email, domain, before, after);
  }

  /** For any accepted, unlisted address whose lookup fails otherwise, both calls report the failure; only the first asks DNS. */
  lemma FailedTwice(email: string, domain: string, before: string -> DnsAnswer, after: string -> DnsAnswer)
    requires AddressAt(email, domain) && !IsDisposable(domain) && before(domain) == OtherError
    ensures SameTwice(email, domain, before, after, LookupFailed)
  {
    TwoCalls(email, domain, before, after);
  }

  /** Whatever the local part, an address at a listed domain is rejected by name, without a lookup. */
  lemma ListedRejected(user: string, cache: Cache, resolve: string -> DnsAnswer)
    requires |user| > 0 && AllIn(user, LocalChar)
    ensures IsValidEmail(user + "@mailinator.com", cache, resolve) == Call(Disposable("mailinator.com"), cache, None)
  {
    AtMailinator(user);
  }

  /** The denylist test runs on the lower-cased domain, so the case of the address does not matter. */
  lemma MixedCaseRejected(user: string, cache: Cache, resolve: string -> DnsAnswer)
    requires |user| > 0 && AllIn(user, LocalChar)
    ensures IsValidEmail(user + "@MailInator.COM", cache, resolve) == Call(Disposable("mailinator.com"), cache, None)
  {
    AtMixedCase(user);
    MailinatorLower();
  }

  /** A subdomain of a listed domain passes the denylist and goes to DNS. */
  lemma SubdomainLookedUp(user: string, resolve: string -> DnsAnswer)
    requires |user| > 0 && AllIn(user, LocalChar)
    ensures IsValidEmail(user + "@x.mailinator.com", map[], resolve).lookup == Some("x.mailinator.com")
  {
    AtSubdomain(user);
    CacheMiss(user + "@x.mailinator.com", map[], resolve);
  }

  /**
   One trailing newline takes a listed domain past the denylist: the
   domain becomes "mailinator.com\n", which is not on the list, so it is
   looked up, and with records for it the address is reported valid.
   */
  lemma NewlineEvadesDenylist(user: string, resolve: string -> DnsAnswer)
    requires |user| > 0 && AllIn(user, LocalChar)
    ensures var r := IsValidEmail(user + "@mailinator.com\n", map[], resolve);
      && r.lookup == Some("mailinator.com\n")
      && (resolve("mailinator.com\n") == Records ==> r.outcome == ValidEmail)
  {
    MailinatorNewline(user);
    CacheMiss(user + "@mailinator.com\n", map[], resolve);
  }

  /** The address with a newline appended still passes, and its domain, the old one plus the newline, is not listed. */
  lemma WithNewline(email: string, domain: string)
    requires AddressAt(email, domain) && BodyMatches(email)
    ensures AddressAt(email + "\n", domain + "\n") && !IsDisposable(domain + "\n")
  {
    NewlineQuirk(email);
    NewlineNotListed(domain);
  }

  lemma MailinatorNewline(user: string)
    requires |user| > 0 && AllIn(user, LocalChar)
    ensures AddressAt(user + "@mailinator.com\n", "mailinator.com\n") && !IsDisposable("mailinator.com\n")
  {
    AtMailinator(user);
    WithNewline(user + "@mailinator.com", "mailinator.com");
    AppendAssoc(user, "@mailinator.com", "\n");
    MailinatorNewlineLiteral();
  }

  lemma MailinatorNewlineLiteral()
    ensures "@mailinator.com" + "\n" == "@mailinator.com\n"
    ensures "mailinator.com" + "\n" == "mailinator.com\n"
  {
  }

  /**
   With records for the domain, the first call reports "Valid email" and
   the second, served from the cache, "Valid MX records".
   */
  lemma ValidTwice(user: string, resolve: string -> DnsAnswer)
    requires |user| > 0 && AllIn(user, LocalChar)
    requires resolve("gmail.com") == Records
    ensures var first := IsValidEmail(user + "@gmail.com", map[], resolve);
      && first.outcome == ValidEmail
      && IsValidEmail(user + "@gmail.com", first.cache, resolve).outcome == ValidMx
  {
    AtGmail(user);
    TwoCalls(user + "@gmail.com", "gmail.com", resolve, resolve);
  }

  /**
   A domain that does not exist is reported as such, and the answer is
   cached: the next call repeats it without a lookup, even if the domain
   has records by then.
   */
  lemma DomainMissingSticks(user: string, before: string -> DnsAnswer, after: string -> DnsAnswer)
    requires |user| > 0 && AllIn(user, LocalChar)
    requires before("nonexistent-domain-xyz123.com") == NXDomain
    ensures SameTwice(user + "@nonexistent-domain-xyz123.com", "nonexistent-domain-xyz123.com", before, after, DomainMissing)
  {
    AtNonexistent(user);
    MissingTwice(user + "@nonexistent-domain-xyz123.com", "nonexistent-domain-xyz123.com", before, after);
  }

  /**
   A domain without MX records is reported as such, and the answer is
   cached like every other DNS result.
   */
  lemma NoMxSticks(user: string, before: string -> DnsAnswer, after: string -> DnsAnswer)
    requires |user| > 0 && AllIn(user, LocalChar)
    requires before("example.org") == NoAnswer
    ensures SameTwice(user + "@example.org", "example.org", before, after, NoMx)
  {
    AtExample(user);
    NoMxTwice(user + "@example.org", "example.org", before, after);
  }

  /**
   A DNS failure is cached: the next call for the domain gets the same
   failure even though DNS now returns records.
   */
  lemma FailureSticks(user: string, failing: string -> DnsAnswer, healthy: string -> DnsAnswer)
    requires |user| > 0 && AllIn(user, LocalChar)
    requires failing("example.org") == OtherError && healthy("example.org") == Records
    ensures SameTwice(user + "@example.org", "example.org", failing, healthy, LookupFailed)
  {
    AtExample(user);
    FailedTwice(user + "@example.org", "example.org", failing, healthy);
  }
}
