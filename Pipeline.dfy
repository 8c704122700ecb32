/** The two routes: `POST /api/shorturl/new`, which runs respondWithExisting,
    validateUrl, addUrl and respondWithExisting again in that order, each step
    either answering or passing on to the next; and `GET /api/shorturl/:short_url`,
    which redirects to the stored URL. Both are written here as functions from
    the store before the request to the reply and the store after it. */
module Pipeline {
  import opened Optional
  import opened Validation
  import opened Records

  /** JSON bodies the routes answer with. */
  datatype Body = UrlPair(originalUrl: string, shortUrl: int) | ErrorBody(error: string)

  /** Why a request ended in the error handler instead of an answer. */
  datatype FaultCause = ResolverError(message: string) | DuplicateOriginal

  /** What a request ends with: a JSON answer, a redirect, a fault passed to
      the error handler, or falling off the end of the route (no handler
      answered). */
  datatype Reply = Json(body: Body) | RedirectTo(location: string) | Fault(cause: FaultCause) | NotHandled

  const InvalidUrlMessage: string := "invalid URL"
  const InvalidHostnameMessage: string := "invalid Hostname"
  const NoShortUrlMessage: string := "No short url found for given input"

  /** The `respondWithExisting` step: answer with the stored pair if the
      submitted string is stored, otherwise pass on. */
  function RespondWithExisting(s: Store, url: string): Option<Reply>
  {
    match FindByOriginal(s.records, url)
    case Some(rec) => Some(Json(UrlPair(rec.originalUrl, rec.shortUrl)))
    case None => None
  }

  /** The whole submission route. `parsed` and `dns` are what the URL parser
      and the resolver report for `url`. */
  function Submit(s: Store, url: string, parsed: ParsedUrl, dns: DnsOutcome): (Reply, Store)
  {
    match RespondWithExisting(s, url)
    case Some(reply) => (reply, s)
    case None =>
      match Validate(parsed, dns)
      case InvalidUrl => (Json(ErrorBody(InvalidUrlMessage)), s)
      case InvalidHostname => (Json(ErrorBody(InvalidHostnameMessage)), s)
      case LookupError(message) => (Fault(ResolverError(message)), s)
      case Accepted =>
        var (outcome, saved) := Save(s, url);
        if outcome.DuplicateKey? then (Fault(DuplicateOriginal), saved)
        else
          match RespondWithExisting(saved, url)
          case Some(reply) => (reply, saved)
          case None => (NotHandled, saved)
  }

  /** The redirect route. */
  function Redirect(s: Store, code: int): Reply
  {
    match FindByShortUrl(s.records, code)
    case Some(rec) => RedirectTo(rec.originalUrl)
    case None => Json(ErrorBody(NoShortUrlMessage))
  }

  /** Fast path: a submitted string that is already stored is answered with
      its stored pair, and neither the records nor the counter change. The
      parser's and resolver's answers play no part. */
  lemma FastPath(s: Store, i: int, parsed: ParsedUrl, dns: DnsOutcome)
    requires Valid(s)
    requires 0 <= i < |s.records|
    ensures Submit(s, s.records[i].originalUrl, parsed, dns)
         == (Json(UrlPair(s.records[i].originalUrl, s.records[i].shortUrl)), s)
  {
    FindByOriginalUnique(s.records, i);
  }

  /** A new string that fails the syntactic check is answered `invalid URL`
      and the store is untouched. */
  lemma RejectsInvalidUrl(s: Store, url: string, parsed: ParsedUrl, dns: DnsOutcome)
    requires forall rec :: rec in s.records ==> rec.originalUrl != url
    requires !WellFormed(parsed)
    ensures Submit(s, url, parsed, dns) == (Json(ErrorBody(InvalidUrlMessage)), s)
  {
  }

  /** A new well-formed URL whose host is definitively not found is answered
      `invalid Hostname`; any other resolver failure ends as a fault carrying
      the resolver's message. Either way the store is untouched. */
  lemma RejectsUnresolvable(s: Store, url: string, parsed: ParsedUrl, message: string)
    requires forall rec :: rec in s.records ==> rec.originalUrl != url
    requires WellFormed(parsed)
    ensures IsHostNotFound(message) ==>
      Submit(s, url, parsed, Failed(message)) == (Json(ErrorBody(InvalidHostnameMessage)), s)
    ensures !IsHostNotFound(message) ==>
      Submit(s, url, parsed, Failed(message)) == (Fault(ResolverError(message)), s)
  {
  }

  /** A new, well-formed, resolvable URL is stored as exactly one new record
      carrying the counter's next value, and the reply is that record. */
  lemma CreatesRecord(s: Store, url: string, parsed: ParsedUrl)
    requires forall rec :: rec in s.records ==> rec.originalUrl != url
    requires WellFormed(parsed)
    ensures var doc := UrlRecord(url, s.counter + 1);
      Submit(s, url, parsed, Resolved) == (Json(UrlPair(url, s.counter + 1)), Store(s.records + [doc], s.counter + 1))
  {
    var doc := UrlRecord(url, s.counter + 1);
    SaveNew(s, url);
  }

  /** Submission on a valid store always ends in an answer or a fault of the
      resolver: the unique index is never hit and the route never falls off
      its end, because the fast path catches every stored URL and the final
      step finds the record just saved. */
  lemma SubmitAnswers(s: Store, url: string, parsed: ParsedUrl, dns: DnsOutcome)
    requires Valid(s)
    ensures Submit(s, url, parsed, dns).0 != NotHandled
    ensures Submit(s, url, parsed, dns).0 != Fault(DuplicateOriginal)
  {
    if FindByOriginal(s.records, url).None? && Validate(parsed, dns) == Accepted {
      CreatesRecord(s, url, parsed);
    }
  }

  /** Submission keeps the store invariant. */
  lemma SubmitPreservesValid(s: Store, url: string, parsed: ParsedUrl, dns: DnsOutcome)
    requires Valid(s)
    ensures Valid(Submit(s, url, parsed, dns).1)
  {
    if FindByOriginal(s.records, url).None? && Validate(parsed, dns) == Accepted {
      SavePreservesValid(s, url);
    }
  }

  /** Submission never removes or alters a record and never lowers the
      counter; it raises the counter by one exactly when it saves. */
  lemma SubmitOnlyGrows(s: Store, url: string, parsed: ParsedUrl, dns: DnsOutcome)
    ensures s.records <= Submit(s, url, parsed, dns).1.records
    ensures Submit(s, url, parsed, dns).1.counter == s.counter + (if Submit(s, url, parsed, dns).1 == s then 0 else 1)
  {
    if FindByOriginal(s.records, url).None? && Validate(parsed, dns) == Accepted {
      SaveOnlyGrows(s, url);
    }
  }

  /** Idempotent resubmission: once a submission has answered with a pair,
      submitting the same string again answers with the identical pair and
      changes nothing, whatever the parser and resolver say the second time. */
  lemma ResubmitIdempotent(s: Store, url: string, parsed: ParsedUrl, dns: DnsOutcome,
                           parsed2: ParsedUrl, dns2: DnsOutcome)
    requires Valid(s)
    requires Submit(s, url, parsed, dns).0.Json? && Submit(s, url, parsed, dns).0.body.UrlPair?
    ensures Submit(Submit(s, url, parsed, dns).1, url, parsed2, dns2) == Submit(s, url, parsed, dns)
  {
    var (reply, s') := Submit(s, url, parsed, dns);
    if FindByOriginal(s.records, url).None? && Validate(parsed, dns) == Accepted {
      CreatesRecord(s, url, parsed);
      assert s'.records[|s.records|] == UrlRecord(url, s.counter + 1);
    }
  }

  /** Round trip: the short code a submission answers with redirects to the
      submitted string. */
  lemma SubmitThenRedirect(s: Store, url: string, parsed: ParsedUrl, dns: DnsOutcome)
    requires Valid(s)
    requires Submit(s, url, parsed, dns).0.Json? && Submit(s, url, parsed, dns).0.body.UrlPair?
    ensures Submit(s, url, parsed, dns).0.body.originalUrl == url
    ensures Redirect(Submit(s, url, parsed, dns).1, Submit(s, url, parsed, dns).0.body.shortUrl) == RedirectTo(url)
  {
    var (reply, s') := Submit(s, url, parsed, dns);
    SubmitPreservesValid(s, url, parsed, dns);
    var rec := FindByOriginal(s'.records, url).value;
    if FindByOriginal(s.records, url).None? {
      CreatesRecord(s, url, parsed);
    }
    assert reply == Json(UrlPair(rec.originalUrl, rec.shortUrl));
    var k :| 0 <= k < |s'.records| && s'.records[k] == rec;
    FindByShortUrlUnique(s'.records, k);
  }

  /** A stored short code redirects to its record's original URL. */
  lemma RedirectHit(s: Store, i: int)
    requires Valid(s)
    requires 0 <= i < |s.records|
    ensures Redirect(s, s.records[i].shortUrl) == RedirectTo(s.records[i].originalUrl)
  {
    FindByShortUrlUnique(s.records, i);
  }

  /** An absent short code is answered with the not-found error. */
  lemma RedirectMiss(s: Store, code: int)
    requires forall rec :: rec in s.records ==> rec.shortUrl != code
    ensures Redirect(s, code) == Json(ErrorBody(NoShortUrlMessage))
  {
  }

  /** The first URL submitted to an empty store gets short code 1. */
  lemma FirstCodeIsOne(url: string, parsed: ParsedUrl)
    requires WellFormed(parsed)
    ensures Submit(EmptyStore, url, parsed, Resolved)
         == (Json(UrlPair(url, 1)), Store([UrlRecord(url, 1)], 1))
  {
    CreatesRecord(EmptyStore, url, parsed);
    assert EmptyStore.records + [UrlRecord(url, 1)] == [UrlRecord(url, 1)];
  }

  /** A request to either route. */
  datatype Request =
    | Shorten(url: string, parsed: ParsedUrl, dns: DnsOutcome)
    | Follow(code: int)

  function Handle(s: Store, req: Request): (Reply, Store)
  {
    match req
    case Shorten(url, parsed, dns) => Submit(s, url, parsed, dns)
    case Follow(code) => (Redirect(s, code), s)
  }

  /** Requests served one after another; the replies in order and the final store. */
  function Serve(s: Store, reqs: seq<Request>): (seq<Reply>, Store)
    decreases |reqs|
  {
    if reqs == [] then ([], s)
    else
      var (reply, next) := Handle(s, reqs[0]);
      var (replies, last) := Serve(next, reqs[1..]);
      ([reply] + replies, last)
  }

  /** Along any sequence of requests from a valid store, the invariant holds
      at the end: original URLs unique, short codes strictly increasing in
      creation order, every code issued by the counter. Records are never
      removed or altered, and the counter never goes down. */
  lemma {:induction false} ServeKeepsInvariant(s: Store, reqs: seq<Request>)
    requires Valid(s)
    ensures Valid(Serve(s, reqs).1)
    ensures s.records <= Serve(s, reqs).1.records
    ensures s.counter <= Serve(s, reqs).1.counter
    decreases |reqs|
  {
    if reqs != [] {
      var next := Handle(s, reqs[0]).1;
      if reqs[0].Shorten? {
        var r := reqs[0];
        SubmitPreservesValid(s, r.url, r.parsed, r.dns);
        SubmitOnlyGrows(s, r.url, r.parsed, r.dns);
      }
      ServeKeepsInvariant(next, reqs[1..]);
    }
  }

  /** Once a short code redirects somewhere, it keeps redirecting there after
      any further requests. */
  lemma RedirectStable(s: Store, reqs: seq<Request>, i: int)
    requires Valid(s)
    requires 0 <= i < |s.records|
    ensures Redirect(Serve(s, reqs).1, s.records[i].shortUrl) == RedirectTo(s.records[i].originalUrl)
  {
    var last := Serve(s, reqs).1;
    ServeKeepsInvariant(s, reqs);
    assert last.records[i] == s.records[i];
    RedirectHit(last, i);
  }
}
