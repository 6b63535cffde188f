/**
 The pair `(is_valid, reason)` every stage of the validator can end with,
 and the fixed reasons it uses.
 */
module Outcomes {

  datatype Outcome = Outcome(isValid: bool, reason: string)

  const InvalidSyntax := Outcome(false, "Invalid syntax")

  /** The rejection for a listed disposable domain names the domain. */
  function Disposable(domain: string): (o: Outcome)
    ensures !o.isValid
    ensures |o.reason| == |domain| + 20
    ensures o.reason[19..|o.reason| - 1] == domain
  {
    Outcome(false, "Disposable domain (" + domain + ")")
  }

  const ValidEmail := Outcome(true, "Valid email")
  const ValidMx := Outcome(true, "Valid MX records")
  const DomainMissing := Outcome(false, "Domain does not exist")
  const NoMx := Outcome(false, "No MX records")
  const LookupFailed := Outcome(false, "DNS lookup failed")

  /** The outcomes a DNS classification can leave in the cache. */
  const StoredOutcomes: set<Outcome> := {ValidMx, DomainMissing, NoMx, LookupFailed}

  /**
   The reason alone tells which stage ended the call: the syntax rejection,
   a denylist rejection, "Valid email" and the stored DNS outcomes never
   share a reason, nor do they coincide as pairs.
   */
  lemma ReasonsDistinct(domain: string)
    ensures InvalidSyntax !in StoredOutcomes && ValidEmail !in StoredOutcomes
    ensures Disposable(domain) != InvalidSyntax
    ensures Disposable(domain) !in StoredOutcomes
    ensures forall o :: o in StoredOutcomes ==>
      o.reason != InvalidSyntax.reason && o.reason != ValidEmail.reason && o.reason != Disposable(domain).reason
    ensures Disposable(domain).reason != InvalidSyntax.reason && Disposable(domain).reason != ValidEmail.reason
    ensures ValidEmail.reason != InvalidSyntax.reason
  {
    var o := Disposable(domain);
    assert o.reason[0] == 'D' && o.reason[1] == 'i';
  }

  /** The only valid outcome a DNS classification stores is "Valid MX records". */
  lemma StoredValid(o: Outcome)
    requires o in StoredOutcomes
    ensures o.isValid <==> o == ValidMx
  {
  }
}
