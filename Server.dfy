/** The running service: the record collection and the `urlId` counter as
    mutable state, changed step by step by the handlers. Each method is proved
    to do what the matching function of modules Records and Pipeline says, so
    the lemmas proved there (idempotence, round trip, the store invariant)
    carry over to it. */
module Server {
  import opened Optional
  import opened Validation
  import opened Records
  import Pipeline

  class UrlShortener {
    /** The `Url` collection in insertion order. */
    var records: seq<UrlRecord>
    /** The `seq` field of the `urlId` counter document. */
    var counter: nat

    function State(): Store
      reads this
    {
      Store(records, counter)
    }

    ghost predicate Valid()
      reads this
    {
      Records.Valid(State())
    }

    /** A fresh database: no records, counter at its default. */
    constructor ()
      ensures Valid() && State() == EmptyStore
    {
      records := [];
      counter := CounterDefault;
    }

    /** The atomic upsert-and-increment of the `urlId` counter's `seq`,
        returning the new value. */
    method NextSeq() returns (code: nat)
      requires Valid()
      modifies this`counter
      ensures Valid()
      ensures (code, State()) == Records.NextSeq(old(State()))
    {
      NextSeqFresh(State());
      counter := counter + 1;
      code := counter;
    }

    /** `save()` with its pre-save hook: draw a code, stamp it, insert. */
    method Save(url: string) returns (outcome: SaveOutcome)
      requires Valid()
      modifies this
      ensures Valid()
      ensures (outcome, State()) == Records.Save(old(State()), url)
    {
      SavePreservesValid(State(), url);
      var code := NextSeq();
      var doc := UrlRecord(url, code);
      if FindByOriginal(records, url).Some? {
        return DuplicateKey;
      }
      records := records + [doc];
      outcome := Saved(doc);
    }

    /** The `respondWithExisting` step; it only reads. */
    method RespondWithExisting(url: string) returns (reply: Option<Pipeline.Reply>)
      requires Valid()
      ensures reply == Pipeline.RespondWithExisting(State(), url)
      ensures reply.None? <==> forall rec :: rec in records ==> rec.originalUrl != url
      ensures forall i :: 0 <= i < |records| && records[i].originalUrl == url ==>
        reply == Some(Pipeline.Json(Pipeline.UrlPair(url, records[i].shortUrl)))
    {
      var data := FindByOriginal(records, url);
      if data.Some? {
        forall i | 0 <= i < |records| && records[i].originalUrl == url
          ensures data == Some(records[i])
        {
          FindByOriginalUnique(records, i);
        }
        return Some(Pipeline.Json(Pipeline.UrlPair(data.value.originalUrl, data.value.shortUrl)));
      }
      reply := None;
    }

    /** The submission route: the four handlers in order, each returning early
        when it answers. */
    method Submit(url: string, parsed: ParsedUrl, dns: DnsOutcome) returns (reply: Pipeline.Reply)
      requires Valid()
      modifies this
      ensures Valid()
      ensures (reply, State()) == Pipeline.Submit(old(State()), url, parsed, dns)
    {
      var existing := RespondWithExisting(url);
      if existing.Some? {
        return existing.value;
      }
      match Validate(parsed, dns)
      case InvalidUrl =>
        return Pipeline.Json(Pipeline.ErrorBody(Pipeline.InvalidUrlMessage));
      case InvalidHostname =>
        return Pipeline.Json(Pipeline.ErrorBody(Pipeline.InvalidHostnameMessage));
      case LookupError(message) =>
        return Pipeline.Fault(Pipeline.ResolverError(message));
      case Accepted =>
        var outcome := Save(url);
        if outcome.DuplicateKey? {
          return Pipeline.Fault(Pipeline.DuplicateOriginal);
        }
        var created := RespondWithExisting(url);
        if created.Some? {
          return created.value;
        }
        reply := Pipeline.NotHandled;
    }

    /** The redirect route; it only reads. */
    method Redirect(code: int) returns (reply: Pipeline.Reply)
      requires Valid()
      ensures reply == Pipeline.Redirect(State(), code)
      ensures reply.RedirectTo? <==> exists rec :: rec in records && rec.shortUrl == code
      ensures forall i :: 0 <= i < |records| && records[i].shortUrl == code ==>
        reply == Pipeline.RedirectTo(records[i].originalUrl)
      ensures !reply.RedirectTo? ==> reply == Pipeline.Json(Pipeline.ErrorBody(Pipeline.NoShortUrlMessage))
    {
      var data := FindByShortUrl(records, code);
      if data.None? {
        return Pipeline.Json(Pipeline.ErrorBody(Pipeline.NoShortUrlMessage));
      }
      forall i | 0 <= i < |records| && records[i].shortUrl == code
        ensures data == Some(records[i])
      {
        FindByShortUrlUnique(records, i);
      }
      reply := Pipeline.RedirectTo(data.value.originalUrl);
    }
  }

  /** A client of the class: submit a URL twice to a fresh service, then
      follow the code. Both answers are the same pair with code 1, and the
      code leads back to the URL. */
  method SubmitTwiceThenFollow(url: string, host: string) returns (first: Pipeline.Reply, second: Pipeline.Reply, target: Pipeline.Reply)
    requires host != ""
    ensures first == second == Pipeline.Json(Pipeline.UrlPair(url, 1))
    ensures target == Pipeline.RedirectTo(url)
  {
    var service := new UrlShortener();
    var parsed := ParsedUrl(Some("https:"), Some(host));
    Pipeline.FirstCodeIsOne(url, parsed);
    first := service.Submit(url, parsed, Resolved);
    second := service.Submit(url, parsed, Resolved);
    target := service.Redirect(1);
    Pipeline.RedirectHit(service.State(), 0);
  }
}
