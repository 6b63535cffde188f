/**
 The MX lookup as seen by the validator. The lookup itself is network I/O;
 only its four observable results are modelled, and `Classify` maps each
 to the outcome returned to the caller and the outcome stored in the cache.
 */
module Resolver {
  import opened Outcomes

  /** What `dns.resolver.resolve(domain, 'MX')` does: return records, or raise one of three kinds of error. */
  datatype DnsAnswer =
    | Records      // the lookup returned MX records
    | NXDomain     // the domain does not exist
    | NoAnswer     // the domain exists but has no MX records
    | OtherError   // any other exception: timeout, no nameservers, malformed reply, ...

  datatype Classified = Classified(returned: Outcome, stored: Outcome)

  /**
   The handler of each DNS result. Only a successful lookup is valid, and
   only then does the returned reason differ from the stored one.
   */
  function Classify(answer: DnsAnswer): (r: Classified)
    ensures r.returned.isValid <==> answer.Records?
    ensures r.stored.isValid == r.returned.isValid
    ensures r.returned == r.stored <==> !answer.Records?
    ensures r.stored in StoredOutcomes
  {
    match answer
    case Records => Classified(ValidEmail, ValidMx)
    case NXDomain => Classified(DomainMissing, DomainMissing)
    case NoAnswer => Classified(NoMx, NoMx)
    case OtherError => Classified(LookupFailed, LookupFailed)
  }

  /** Distinct DNS results give distinct reasons, both returned and stored: no failure mode is collapsed into another. */
  lemma ClassifyInjective(a: DnsAnswer, b: DnsAnswer)
    ensures Classify(a).returned == Classify(b).returned ==> a == b
    ensures Classify(a).stored == Classify(b).stored ==> a == b
    ensures Classify(a).returned.reason == Classify(b).returned.reason ==> a == b
    ensures Classify(a).stored.reason == Classify(b).stored.reason ==> a == b
  {
  }
}
