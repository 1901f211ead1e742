/** The URL validator (`ArchivableUrl::parse` and `validate_url`): an ordered
    cascade of rejections over a parsed URL. The WHATWG URL parser itself is
    not modelled; it enters as a function `parse` from the raw text to the
    parsed structure, or `None` when the text is not an absolute URL. */
module UrlValidation {
  import opened Wrappers
  import opened Text
  import opened Errors
  import opened IpAddress

  /** The host part of a parsed URL, `url::Host`. */
  datatype Host = Domain(name: string) | V4(v4: Ipv4) | V6(v6: Ipv6)

  /** A parsed URL: its scheme, its host if any, and its serialisation
      (`Url::as_str`, which is also its `Display` text). */
  datatype ParsedUrl = ParsedUrl(scheme: string, host: Option<Host>, text: string)

  /** A URL that passed validation. */
  datatype ArchivableUrl = ArchivableUrl(url: ParsedUrl)

  /** Domains that block archiving requests, matched by substring. */
  const ExcludedDomains: seq<string> :=
    ["archive.org", "jstor.org", "diw.de", "youtube.com", "plato.stanford.edu"]

  const LocalhostMarker: string := "localhost"

  /** The host is a domain name containing "localhost" anywhere. */
  ghost predicate LocalDomain(u: ParsedUrl) {
    u.host.Some? && u.host.value.Domain? && Occurs(LocalhostMarker, u.host.value.name)
  }

  /** The host is a domain name containing some excluded domain. */
  ghost predicate DeniedDomain(u: ParsedUrl) {
    && u.host.Some? && u.host.value.Domain?
    && exists k :: 0 <= k < |ExcludedDomains| && Occurs(ExcludedDomains[k], u.host.value.name)
  }

  /** The host is an IP address of a class that must not be archived. */
  predicate UnsafeAddress(u: ParsedUrl) {
    u.host.Some? &&
    match u.host.value
    case Domain(_) => false
    case V4(ip) => UnsafeV4(ip)
    case V6(ip) => UnsafeV6(ip)
  }

  predicate WebScheme(u: ParsedUrl) {
    u.scheme == "http" || u.scheme == "https"
  }

  /** What an archivable URL is, independently of the order the checks run in. */
  ghost predicate Archivable(u: ParsedUrl) {
    u.host.Some? && !LocalDomain(u) && !DeniedDomain(u) && !UnsafeAddress(u) && WebScheme(u)
  }

  /** The first pattern of `patterns` that occurs in `name`, by position. */
  function FirstMatch(name: string, patterns: seq<string>): (r: Option<nat>)
    ensures r.None? <==> forall k :: 0 <= k < |patterns| ==> !Occurs(patterns[k], name)
    ensures r.Some? ==> r.value < |patterns| && Occurs(patterns[r.value], name)
    ensures r.Some? ==> forall k :: 0 <= k < r.value ==> !Occurs(patterns[k], name)
  {
    if |patterns| == 0 then None
    else if Contains(name, patterns[0]) then Some(0)
    else
      match FirstMatch(name, patterns[1..])
      case None => None
      case Some(k) => Some(k + 1)
  }

  /** `validate_url`: missing host, a "localhost" domain, an excluded domain,
      an unsafe IPv4 or IPv6 address, and only then a scheme other than http
      or https. Every rejection carries the URL's serialisation. */
  function Validate(u: ParsedUrl): (r: Result<ArchivableUrl, Error>)
    ensures r.Ok? <==> Archivable(u)
    ensures r.Ok? ==> r.value.url == u
    ensures r == Err(ExcludedUrl(u.text)) <==> DeniedDomain(u) && !LocalDomain(u)
    ensures r.Err? && !(DeniedDomain(u) && !LocalDomain(u)) ==> r == Err(InvalidUrl(u.text))
  {
    match u.host
    case None => Err(InvalidUrl(u.text))
    case Some(host) =>
      var hostCheck: Option<Error> :=
        match host
        case Domain(name) =>
          if Contains(name, LocalhostMarker) then Some(InvalidUrl(u.text))
          else if FirstMatch(name, ExcludedDomains).Some? then Some(ExcludedUrl(u.text))
          else None
        case V4(ip) => if UnsafeV4(ip) then Some(InvalidUrl(u.text)) else None
        case V6(ip) => if UnsafeV6(ip) then Some(InvalidUrl(u.text)) else None;
      if hostCheck.Some? then Err(hostCheck.value)
      else if !WebScheme(u) then Err(InvalidUrl(u.text))
      else Ok(ArchivableUrl(u))
  }

  /** `ArchivableUrl::parse`: text the URL parser rejects is an invalid URL
      reported with the raw input unchanged; anything else is validated. */
  function Parse(parse: string -> Option<ParsedUrl>, raw: string): (r: Result<ArchivableUrl, Error>)
    ensures parse(raw).None? ==> r == Err(InvalidUrl(raw))
    ensures r.Ok? <==> parse(raw).Some? && Archivable(parse(raw).value)
    ensures r.Ok? ==> r.value.url == parse(raw).value
    ensures parse(raw).Some? && r.Err? ==>
      r.error == ExcludedUrl(parse(raw).value.text) || r.error == InvalidUrl(parse(raw).value.text)
  {
    match parse(raw)
    case None => Err(InvalidUrl(raw))
    case Some(u) => Validate(u)
  }

  /** `as_str` (and `Display`): the serialisation of the validated URL. */
  function AsStr(a: ArchivableUrl): string {
    a.url.text
  }

  /** An accepted URL is written back exactly as the parser serialised it, so
      input already in serialised form survives validation unchanged. */
  lemma AsStrRoundTrip(parse: string -> Option<ParsedUrl>, raw: string)
    requires parse(raw).Some? && parse(raw).value.text == raw
    requires Parse(parse, raw).Ok?
    ensures AsStr(Parse(parse, raw).value) == raw
  {
  }

  /** No excluded domain contains "localhost", so on an excluded domain the
      exclusion, not the localhost rule, decides. */
  lemma ExcludedDomainsAreNotLocal(k: nat)
    requires k < |ExcludedDomains|
    ensures !Occurs(LocalhostMarker, ExcludedDomains[k])
  {
    var d := ExcludedDomains[k];
    // Each entry lacks some letter of "localhost".
    var c := if k == 0 then 'l' else if k == 1 then 'c' else if k == 2 then 'l'
             else if k == 3 then 'l' else 'h';
    assert c in LocalhostMarker;
    assert c !in d;
    if Occurs(LocalhostMarker, d) {
      OccursCharacters(LocalhostMarker, d, c);
    }
  }

  /** Every excluded domain, as the bare host of a URL, is reported as
      excluded with the URL's text, whatever the scheme. */
  lemma ExcludedDomainsAreExcluded(k: nat, scheme: string, text: string)
    requires k < |ExcludedDomains|
    ensures Validate(ParsedUrl(scheme, Some(Domain(ExcludedDomains[k])), text))
            == Err(ExcludedUrl(text))
  {
    var d := ExcludedDomains[k];
    ExcludedDomainsAreNotLocal(k);
    assert OccursAt(d, d, 0);
  }
}
