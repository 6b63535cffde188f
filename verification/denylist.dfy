/** The static list of disposable-address domains and the exact-match test against it. */
module Denylist {

  const TempDomains: seq<string> := [
    "mailinator.com", "tempmail.com", "10minutemail.com", "guerrillamail.com",
    "yopmail.com", "disposable.com", "throwawaymail.com", "maildrop.cc",
    "getnada.com", "temp-mail.org", "mailtemp.net", "mailcatch.com"
  ]

  /** List membership: the domain equals one entry exactly. */
  predicate IsDisposable(domain: string) {
    domain in TempDomains
  }

  /**
   Membership is exact, not by suffix: putting any non-empty prefix and a dot in front of a listed
   domain gives a domain that is not listed.
   */
  lemma SubdomainNotListed(domain: string, prefix: string)
    requires IsDisposable(domain)
    requires |prefix| > 0
    ensures !IsDisposable(prefix + "." + domain)
  {
    var sub := prefix + "." + domain;
    assert sub[|sub| - |domain| - 1] == '.';
  }

  /** No listed domain ends in a newline, so a domain with "\n" appended is never listed. */
  lemma NewlineNotListed(domain: string)
    ensures !IsDisposable(domain + "\n")
  {
    var d := domain + "\n";
    assert d[|d| - 1] == '\n';
  }
}
