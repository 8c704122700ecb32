/** The URL check of the submission route (the `validateUrl` handler).
    Parsing the submitted string and looking up its hostname are done by
    library code outside this model, so their results are inputs here:
    a `ParsedUrl` for what the parser reports and a `DnsOutcome` for what the
    resolver reports. */
module Validation {
  import opened Optional

  /** What the URL parser reports: the protocol with its trailing colon
      (`"https:"`) and the hostname, each `None` when the parser finds none. */
  datatype ParsedUrl = ParsedUrl(protocol: Option<string>, hostname: Option<string>)

  /** Outcome of resolving the hostname: success, or a failure carrying the
      resolver's error message. */
  datatype DnsOutcome = Resolved | Failed(message: string)

  /** What the check decides. `LookupError` is a resolver failure other than
      "host not found"; the route hands it to the error handler. */
  datatype Verdict = Accepted | InvalidUrl | InvalidHostname | LookupError(message: string)

  /** The message prefix by which a definitive "no such host" answer is recognised. */
  const NotFoundPrefix: string := "getaddrinfo ENOTFOUND"

  /** `s` begins with `prefix`, as a string's `startsWith` tests it. */
  predicate StartsWith(s: string, prefix: string)
  {
    prefix <= s
  }

  predicate AllowedProtocol(protocol: Option<string>)
  {
    protocol == Some("http:") || protocol == Some("https:")
  }

  /** A missing hostname and an empty one are both rejected (both are falsy). */
  predicate HasHostname(hostname: Option<string>)
  {
    hostname.Some? && hostname.value != ""
  }

  predicate WellFormed(u: ParsedUrl)
  {
    AllowedProtocol(u.protocol) && HasHostname(u.hostname)
  }

  /** A resolver failure counts as "host not found" exactly when its message
      starts with the not-found prefix. */
  predicate IsHostNotFound(message: string)
  {
    StartsWith(message, NotFoundPrefix)
  }

  /** The check itself: the syntactic test first; the resolver's answer only
      matters for a well-formed URL. */
  function Validate(u: ParsedUrl, dns: DnsOutcome): (v: Verdict)
    ensures v == InvalidUrl <==> !WellFormed(u)
    ensures v == InvalidHostname <==> WellFormed(u) && dns.Failed? && IsHostNotFound(dns.message)
    ensures v.LookupError? <==> WellFormed(u) && dns.Failed? && !IsHostNotFound(dns.message)
    ensures v.LookupError? ==> v.message == dns.message
    ensures v == Accepted <==> WellFormed(u) && dns.Resolved?
  {
    if !WellFormed(u) then InvalidUrl
    else match dns
      case Resolved => Accepted
      case Failed(message) =>
        if IsHostNotFound(message) then InvalidHostname else LookupError(message)
  }

  /** A malformed URL is rejected whatever the resolver would have said:
      the lookup is never consulted. */
  lemma MalformedIgnoresResolver(u: ParsedUrl, dns1: DnsOutcome, dns2: DnsOutcome)
    requires !WellFormed(u)
    ensures Validate(u, dns1) == Validate(u, dns2) == InvalidUrl
  {
  }

  /** Any message that starts with the not-found prefix, whatever follows it
      (typically the hostname), is classified as "host not found". */
  lemma NotFoundWithSuffix(rest: string)
    ensures IsHostNotFound(NotFoundPrefix + rest)
  {
    assert (NotFoundPrefix + rest)[..|NotFoundPrefix|] == NotFoundPrefix;
  }

  /** A transient resolver failure such as a timeout is not "host not found". */
  lemma TransientFailureIsNotNotFound(rest: string)
    ensures !IsHostNotFound("getaddrinfo EAI_AGAIN" + rest)
  {
    var m := "getaddrinfo EAI_AGAIN" + rest;
    assert m[12] == 'E' && m[13] == 'A';
    assert NotFoundPrefix[13] == 'N';
  }

  /** An `ftp:` URL is an invalid URL. */
  lemma FtpIsInvalid(host: string, dns: DnsOutcome)
    ensures Validate(ParsedUrl(Some("ftp:"), Some(host)), dns) == InvalidUrl
  {
  }
}
