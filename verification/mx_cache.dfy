/**
 The process-wide memo table from lower-cased domain to the outcome of its
 first DNS classification. Entries are only ever added.
 */
module MxCache {
  import opened Outcomes

  type Cache = map<string, Outcome>

  /** `after` keeps every entry of `before` unchanged: nothing removed, nothing overwritten. */
  ghost predicate Extends(before: Cache, after: Cache) {
    forall d :: d in before ==> d in after && after[d] == before[d]
  }

  lemma ExtendsTransitive(a: Cache, b: Cache, c: Cache)
    requires Extends(a, b) && Extends(b, c)
    ensures Extends(a, c)
  {
  }
}
