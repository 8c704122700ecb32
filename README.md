# URL shortener: a Dafny model

This project models the core of a small URL-shortening service (an Express
application over a MongoDB store). A client posts a long URL and gets back a
numeric short code; a client requesting a short code is redirected to the
original URL. The state is a collection of `(original_url, short_url)`
records, with `original_url` unique, and one counter document `urlId` whose
`seq` field is the last short code issued.

- `Optional.dfy`: the `Option` wrapper.
- `Validation.dfy`: the URL check of the `validateUrl` handler as pure
  functions. The protocol must be `http:` or `https:` and the hostname must be
  present and non-empty. A resolver failure counts as "host not found" when its
  message starts with `getaddrinfo ENOTFOUND`. The URL parser's report
  (`ParsedUrl`) and the resolver's answer (`DnsOutcome`) are inputs.
- `Records.dfy`: the store as a value (`Store`). It holds the two lookups
  (`findOne` by original URL and by short code), the counter increment, and
  `save` with its pre-save hook. It also defines the store invariant: original
  URLs are unique, short codes rise strictly in creation order, and every code
  has already been issued by the counter.
- `Pipeline.dfy`: the submission route (respondWithExisting, validateUrl,
  addUrl, respondWithExisting) and the redirect route, each a function from
  the store before a request to the reply and the store after it. Requests
  served in sequence are modelled by `Serve`. The lemmas here prove the
  fast path, the error answers, creation, idempotent resubmission, the
  submission-to-redirect round trip, and that the invariant holds over any
  sequence of requests.
- `Server.dfy`: the class `UrlShortener`. Its fields `records` and `counter`
  are changed in place by the handlers. Each method is proved equal to the
  matching function above, so the lemmas carry over to it.

On a unique-index refusal the code does not re-read the record: the error
from `save` reaches the error handler through `catchErrors` (server.js:63,
139). `Records.Save` returns `DuplicateKey`, and the submission route turns it
into `Fault(DuplicateOriginal)`. The code the hook already drew is skipped for
good (`Records.SaveDuplicate`).

## Model

| member | source | states |
|---|---|---|
| Validation.Validate | server.js:88-109 | `invalid URL` exactly when the protocol is not `http:`/`https:` or the hostname is missing or empty; `invalid Hostname` exactly when the URL is well formed and resolution fails with a message starting `getaddrinfo ENOTFOUND`; any other resolution failure becomes a lookup error carrying its message; accepted exactly when well formed and resolved |
| Validation.MalformedIgnoresResolver | server.js:93-100 | for a malformed URL the resolver's answer plays no part: the verdict is `invalid URL` whatever it is |
| Validation.NotFoundWithSuffix | server.js:102 | every message that begins with `getaddrinfo ENOTFOUND`, whatever follows, is classed as host-not-found |
| Validation.TransientFailureIsNotNotFound | server.js:102-105 | a `getaddrinfo EAI_AGAIN …` failure (timeout, transient error) is not classed as host-not-found |
| Validation.FtpIsInvalid | server.js:93-95 | an `ftp:` URL is rejected as an invalid URL |
| Records.FindByOriginal | server.js:77-78 | a found record is stored and has the queried original URL; nothing found means no stored record has it |
| Records.FindByShortUrl | server.js:124-127 | a found record is stored and has the queried short code; nothing found means no stored record has it |
| Records.EmptyStoreValid | server.js:29-38 | the empty collection with the counter at its default 0 satisfies the store invariant |
| Records.NextSeqFresh | server.js:43-45 | the counter increment raises `seq` by exactly 1, returns the new value, leaves the records alone, the value exceeds every stored short code, and the store invariant still holds after the draw |
| Records.FindByOriginalUnique | server.js:36 | under the unique index, looking up a stored record's original URL yields exactly that record |
| Records.FindByShortUrlUnique | server.js:124-127 | since short codes rise strictly, looking up a stored record's short code yields exactly that record |
| Records.SaveNew | server.js:40-49 | saving a URL not yet stored appends exactly one record `(url, counter + 1)` and raises the counter to that value |
| Records.SaveDuplicate | server.js:36-49 | saving a URL already stored fails on the unique index and adds no record, yet the counter has been raised (the drawn code is skipped) |
| Records.SavePreservesValid | server.js:35-49 | save, successful or not, keeps original URLs unique and short codes strictly increasing and issued |
| Records.SaveOnlyGrows | server.js:43-45 | save never removes or alters a record, and the counter goes up by exactly one and is never lowered or reset |
| Pipeline.FastPath | server.js:76-86 | submitting a stored original URL answers with its stored pair and leaves records and counter unchanged, whatever the parser and resolver report |
| Pipeline.RejectsInvalidUrl | server.js:93-96 | a new string failing the protocol/hostname check is answered `{error: 'invalid URL'}` and nothing is stored or counted |
| Pipeline.RejectsUnresolvable | server.js:99-106 | a new well-formed URL whose lookup fails with the not-found prefix is answered `{error: 'invalid Hostname'}`; any other lookup failure ends as a fault with that message; the store is unchanged in both cases |
| Pipeline.CreatesRecord | server.js:112-120 | a new, well-formed, resolvable URL is stored as exactly one record with code `counter + 1`, and the answer is that record's pair |
| Pipeline.SubmitAnswers | server.js:135-141 | on a valid store submission never reaches the unique-index fault and never falls off the end of the route |
| Pipeline.SubmitPreservesValid | server.js:135-141 | submission keeps the store invariant |
| Pipeline.SubmitOnlyGrows | server.js:135-141 | submission keeps every existing record in place, and raises the counter by one exactly when it changes the store, otherwise not at all |
| Pipeline.ResubmitIdempotent | server.js:135-141 | after a submission answered with a pair, submitting the same string again answers with the identical pair and changes nothing |
| Pipeline.SubmitThenRedirect | server.js:123-141 | the pair a submission answers with carries the submitted string, and its short code redirects to that string |
| Pipeline.RedirectHit | server.js:123-132 | a stored short code redirects to its record's original URL |
| Pipeline.RedirectMiss | server.js:128-130 | a short code no record has is answered `{error: 'No short url found for given input'}` |
| Pipeline.FirstCodeIsOne | server.js:29-49 | on an empty store with the counter at its default, the first valid submission gets short code 1 |
| Pipeline.ServeKeepsInvariant | server.js:135-144 | across any sequence of requests to both routes, the invariant holds, records are only appended and the counter never decreases |
| Pipeline.RedirectStable | server.js:123-144 | once a short code redirects to a URL, it keeps doing so after any further requests |
| Server.UrlShortener.constructor | server.js:29-38 | a fresh service has no records and its counter at the default 0 |
| Server.UrlShortener.NextSeq | server.js:43-45 | raises the `counter` field by one and returns the new value; nothing else changes, and the invariant is kept |
| Server.UrlShortener.Save | server.js:40-49 | draws a code, then appends the stamped record or refuses a duplicate, exactly as `Records.Save`, keeping the invariant |
| Server.UrlShortener.RespondWithExisting | server.js:76-86 | answers with the pair of the record whose original URL was submitted, or passes on exactly when no record has it |
| Server.UrlShortener.Submit | server.js:135-141 | runs the four handlers with early returns; its reply and new state are exactly those of `Pipeline.Submit`, and it keeps the invariant |
| Server.UrlShortener.Redirect | server.js:123-132 | redirects exactly when some record has the code, then to that record's original URL; otherwise answers the not-found error |
| Server.SubmitTwiceThenFollow | server.js:135-144 | on a fresh service, submitting a URL twice answers the same pair with code 1 both times, and following code 1 leads back to the URL |

## Left out

- HTTP and framework plumbing: routing mechanics, `cors`, body parsing, static files, the index page, environment loading, `listen`, the database connection and its events, and the `unhandledRejection` hook. A redirect is modelled as `RedirectTo(location)`. A fault stands for the error handler. `NotHandled` stands for the framework's default answer when no handler responds.
- URL parsing and DNS resolution are library and network calls. Their results are inputs (`ParsedUrl`, `DnsOutcome`).
- Storage failures (an unavailable database making `findOne`, the counter update or the insert reject, server.js:48, 63) are not modelled. Every store operation is taken to succeed except for the unique-index refusal.
- Concurrency: the atomicity of `$inc` and interleaved identical submissions are not modelled. Requests run one after another. The duplicate-key path of `save` is still modelled (`Records.SaveDuplicate`), and a route that reaches it ends in a fault; sequentially it is never reached (`Pipeline.SubmitAnswers`).
- When resolution fails with a message other than host-not-found, the handler passes the error on and then continues as well. This is modelled as a single fault.
- The short-code path parameter is taken as an integer. String-to-number cast errors are not modelled.
- A missing or non-string `url` form field is not modelled: the submitted URL is a string.
- Short codes and the counter are unbounded integers. The JS `Number` width of `seq` and `short_url` is not modelled; past 2^53 it loses precision, and there the strict increase of codes would fail.
