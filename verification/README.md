# Email validation pipeline: a Dafny model

This project models the core of a small email-validation web service: the
function `is_valid_email`, the static denylist of disposable domains, and the
process-wide MX cache it reads and writes. One call runs these steps in order
and stops at the first failure:

1. **Syntax gate.** An anchored regular expression is tried with Python's `re.match`.
2. **Domain extraction.** The text after the `@` is taken and lower-cased.
3. **Denylist.** The domain is checked for exact membership in `TEMP_DOMAINS`.
4. **Cache or DNS.** A cache hit returns the stored pair. On a miss, one MX lookup
   is made, its result is sorted into one of four outcomes, and that outcome is recorded.

Modules, one per component:

- `Text`: `str.find`-style search, `str.split` with a one-character separator and
  its inverse `join`, and ASCII `str.lower`.
- `Syntax`: the address pattern. `Matches` is what the regular expression
  accepts. It includes the rule that Python's `$` also matches just before a
  final `"\n"`. `CheckSyntax` is the executable first-occurrence check the
  pipeline runs. The two are proved to agree on every string.
- `Outcomes`: the `(is_valid, reason)` pair and the fixed reason strings.
- `Denylist`: `TEMP_DOMAINS` and exact membership in it.
- `Resolver`: the four observable DNS results and their classification.
- `MxCache`: the cache type and the "only grows" relation.
- `Validator`: `IsValidEmail`, one call as a pure state transition
  `(email, cache, resolve) -> (outcome, cache', lookup)`. `lookup` names the
  domain sent to DNS, if any. The module also holds the cache invariant and the
  per-call properties.
- `Service`: a run of requests against the one shared cache. It proves that no
  domain is ever looked up twice and that a cached entry is final.
- `Scenarios`: example requests, among them the `test@gmail.com` request of the usage note (app.py:10), and both quirks of the code.

Two behaviours of the code are modelled as written:

- A first successful lookup returns `(true, "Valid email")` but caches
  `(true, "Valid MX records")`. A second call for the same domain therefore
  returns a different reason. `Validator.RepeatCall` and `Scenarios.ValidTwice`
  state both answers.
- `$` accepts one trailing newline. So `a@b.c\n` passes, and its domain is
  `b.c\n`. No listed domain ends in a newline, so a listed domain written with
  a trailing newline passes the denylist and is sent to DNS:
  `Scenarios.NewlineEvadesDenylist` states this for `<local>@mailinator.com\n`.

## Model

| member | source | states |
|---|---|---|
| `Syntax.CheckSyntax` | app.py:37-38 | The executable check accepts exactly the strings the anchored pattern matches under `re.match` (the predicate `Syntax.Matches`), a final "\n" included. Every accepted string contains exactly one '@'. |
| `Syntax.BodyOkIff` | app.py:37 | Checking at the first '@' and the first '.' after it accepts exactly the strings the backtracking pattern body matches. |
| `Syntax.AllInIff` | app.py:37 | The recursive character-class predicate holds exactly when every character is in the class. |
| `Syntax.AtPosition` | app.py:37 | An accepted address has a non-empty local part from `[a-zA-Z0-9_.+-]`, one '@', and no other '@'. |
| `Syntax.NeedsAtThenDot` | app.py:37-38 | A string with no '@', or with no '.' after its '@', is rejected. |
| `Syntax.Assemble` | app.py:37 | Any non-empty local part, label and tail drawn from their classes form an accepted address, with or without one trailing "\n". |
| `Text.IndexOf` | app.py:41 | Reports the first occurrence of the character, or None exactly when it does not occur. |
| `Text.Split` | app.py:41 | `split` gives one more piece than there are separators, and no piece contains the separator. |
| `Text.JoinSplit` | app.py:41 | Joining the pieces of `split` with the separator gives back the original string. |
| `Text.SplitAtOnly` | app.py:41 | A string with exactly one '@' splits into the text before it and the text after it. |
| `Text.Lower` | app.py:41 | Lower-casing keeps the length, turns each upper-case ASCII letter into its lower-case letter, and changes no other character. |
| `Text.LowerIdempotent` | app.py:41 | Lower-casing twice gives the same text as lower-casing once. |
| `Validator.DomainAfterAt` | app.py:41 | For an accepted address, `split('@')[1].lower()`, modelled as `Validator.DomainOf`, is the whole text after the single '@', lower-cased. |
| `Validator.DomainShape` | app.py:37-41 | The domain of an accepted address has no upper-case letter and contains a '.' after a non-empty label. |
| `Syntax.LowerKeepsClass` | app.py:37-41 | Lower-casing text drawn from one of the pattern's classes gives text drawn from the same class. |
| `Validator.NewlineQuirk` | app.py:37-41 | An address the pattern body matches is still accepted with "\n" appended, and its domain then ends in "\n". |
| `Denylist.SubdomainNotListed` | app.py:25-29 | Membership is exact: a listed domain with any label and '.' in front of it is not listed. |
| `Denylist.NewlineNotListed` | app.py:25-29 | No listed domain ends in "\n": any domain with "\n" appended is not listed. |
| `Outcomes.Disposable` | app.py:43 | The denylist rejection is invalid, and its reason contains the domain. |
| `Outcomes.ReasonsDistinct` | app.py:38-62 | The syntax rejection, any denylist rejection, "Valid email" and the four cached DNS outcomes never share a reason string. |
| `Resolver.Classify` | app.py:49-62 | Only found records are valid. The returned and cached pairs agree on validity, and they differ exactly when records were found. |
| `Resolver.ClassifyInjective` | app.py:49-62 | Different DNS results give different returned reason strings and different cached reason strings, and so different pairs. No failure mode is merged with another. |
| `Validator.IsValidEmail` | app.py:34-62 | A string the pattern rejects gives "Invalid syntax", with no lookup and the cache unchanged. The cache only grows. Without a lookup it is unchanged. A lookup happens only for the lower-cased domain of an accepted, unlisted address that is not cached, and adds exactly that key. |
| `Validator.IsValidEmailKeepsInv` | app.py:32-62 | Every call keeps the cache invariant: keys are lower-cased and unlisted, and values are one of the four stored DNS outcomes. |
| `Validator.SyntaxGate` | app.py:37-38 | The result is "Invalid syntax" exactly when the pattern rejects the address, and then nothing is looked up or stored. |
| `Validator.DenylistGate` | app.py:41-43 | An accepted address gets "Disposable domain (<domain>)" exactly when its lower-cased domain is listed, that is when `Denylist.IsDisposable` holds of it. Then nothing is looked up or stored. |
| `Validator.CacheHit` | app.py:46-47 | A cached domain returns the stored pair verbatim, whatever DNS would answer, with no lookup and the cache unchanged. |
| `Validator.CacheMiss` | app.py:49-62 | An uncached domain is looked up once. The call returns the classification's returned pair and stores its cached pair under the domain. Every other key is unchanged. |
| `Validator.ValidMeansChecked` | app.py:37-52 | A valid result implies: the syntax passed, the domain is not listed, and the cache now maps the domain to (true, "Valid MX records"). |
| `Validator.RepeatCall` | app.py:46-62 | A second call for the same domain never looks it up and repeats any negative result. After a first successful lookup, the first call says "Valid email" and the second "Valid MX records". |
| `Service.Serve` | app.py:32-62 | Over a run of requests the cache only grows, by exactly the looked-up domains. No domain is looked up twice, and no domain that was already cached is looked up. |
| `Service.ServeKeepsInv` | app.py:32-62 | Any run that starts from a cache satisfying the invariant, such as the empty one, ends with a cache that satisfies it. |
| `Service.CachedIsFinal` | app.py:46-62 | Once a domain is cached, every later request for it gets the stored pair. This includes a transient "DNS lookup failed". |
| `Scenarios.NotAnEmail` | app.py:37-38 | "not-an-email" gives "Invalid syntax". |
| `Scenarios.TrailingNewline` | app.py:37-41 | "a@b.c\n" is accepted, and its domain is "b.c\n". |
| `Scenarios.NewlineEvadesDenylist` | app.py:37-50 | `<local>@mailinator.com\n` passes the denylist: its domain "mailinator.com\n" is sent to DNS, and with records for it the address is reported valid. |
| `Scenarios.ListedRejected` | app.py:41-43 | Any `<local>@mailinator.com` gives "Disposable domain (mailinator.com)", with no lookup. |
| `Scenarios.MixedCaseRejected` | app.py:41-43 | `<local>@MailInator.COM` is rejected the same way, because the domain is lower-cased first. |
| `Scenarios.SubdomainLookedUp` | app.py:42-50 | `<local>@x.mailinator.com` passes the denylist and is sent to DNS. |
| `Scenarios.ValidTwice` | app.py:46-52 | With MX records, the first call returns "Valid email" and the second returns "Valid MX records". |
| `Scenarios.TwoCalls` | app.py:46-62 | From an empty cache, the first call for an accepted, unlisted address looks its domain up and returns the classification's returned pair; the second call returns the stored pair without a lookup, whatever DNS answers then. |
| `Scenarios.MissingTwice` | app.py:46-56 | For any accepted, unlisted address whose domain does not exist, both calls return "Domain does not exist", and only the first looks it up. |
| `Scenarios.NoMxTwice` | app.py:46-58 | For any accepted, unlisted address whose domain has no MX records, both calls return "No MX records", and only the first looks it up. |
| `Scenarios.FailedTwice` | app.py:46-62 | For any accepted, unlisted address whose lookup fails otherwise, both calls return "DNS lookup failed", and only the first looks it up. |
| `Scenarios.DomainMissingSticks` | app.py:46-56 | `<local>@nonexistent-domain-xyz123.com` with no such domain gives "Domain does not exist" on the first call, with a lookup, and on the second, without one, whatever DNS answers then. |
| `Scenarios.NoMxSticks` | app.py:46-58 | `<local>@example.org` with no MX records gives "No MX records" on both calls, and only the first looks the domain up. |
| `Scenarios.FailureSticks` | app.py:46-62 | After a DNS failure, the next call returns "DNS lookup failed" again without a lookup, even though DNS now has records. |

## Left out

- The HTTP layer is not modelled: the `/validate` and `/health` routes, reading
  `request.args`, `jsonify`, and the 400 answer for a missing or empty `email`
  (app.py:64-88). It is web glue around a single call of the pipeline.
- The real `dns.resolver.resolve` call is not modelled. It is network I/O in a
  foreign library. It becomes the parameter `resolve: string -> DnsAnswer`, and
  its exceptions become the four `DnsAnswer` cases. The text of an "other"
  exception is only logged, so it is not carried.
- Logging is not modelled (app.py:16-20, 60, 75). It does not affect any result.
- The process entry point, `PORT` and the host binding are not modelled (app.py:90-93).
- Concurrent access to the shared cache is not modelled. Each call is one
  sequential state transition on the map, and `Service.Serve` runs requests
  one after another.
- General Python regular expressions are not modelled. Only this one pattern is
  encoded, as `Syntax.Matches`.
- Text.Lower: models `str.lower()` on ASCII letters only. Python lower-cases all
  of Unicode. The pipeline only lower-cases the domain of an accepted address,
  and that text holds ASCII letters, digits, '-', '.' and at most one "\n", so
  the two agree there.
- Validator.DomainOf: requires an '@' in the address. In Python,
  `split('@')[1]` raises `IndexError` without one. The pipeline only calls it
  after the syntax check, which guarantees an '@'.
