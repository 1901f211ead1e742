# Wayback Machine archiving client — a Dafny model

This project models the decision logic of `archive-pdf-urls`. The tool
extracts the links of a PDF and submits each one to the Wayback Machine. A
link is skipped when it is not archivable or when a recent snapshot already
exists.

The model covers four parts, all with I/O replaced by inputs:

- the URL validator (`ArchivableUrl::parse`, `validate_url`);
- the freshness check (`check_recent_archive_exists`);
- the archiving pipeline (`archive_url`), with the `Error` taxonomy;
- the command-line batch, which folds per-link outcomes into an exit code,
  together with the PDF link-extraction predicates.

Modules, leaf first:

| file | module | models |
|---|---|---|
| `wrappers.dfy` | `Wrappers` | `Option`, `Result` |
| `text.dfy` | `Text` | `str::contains`; the lexicographic order of `str` and its total-order facts |
| `timestamps.dfy` | `Timestamps` | `%Y%m%d%H%M%S` parsing and formatting; `NaiveDateTime` order; chrono's `ParseError` texts |
| `errors.dfy` | `Errors` | `errors.rs`: the `Error` enum, `Display`, the `From` conversions |
| `ip_address.dfy` | `IpAddress` | the `Ipv4Addr` / `Ipv6Addr` class tests used by the validator |
| `url_validation.dfy` | `UrlValidation` | `archivableurl.rs` |
| `freshness.dfy` | `Freshness` | `check_recent_archive_exists` |
| `retry.dfy` | `Retry` | the retry policy wrapped around the HTTP client |
| `client.dfy` | `Client` | `ClientConfig` and `archive_url` |
| `pdf_links.dfy` | `PdfLinks` | `extract_links`, `is_link_annotation`, `extract_link_dest` |
| `cli.dfy` | `Cli` | the loop of `main` and its exit code |
| `scenarios.dfy` | `Scenarios` | the concrete cases of the repository's tests |

External behaviour enters as parameters:

- The WHATWG URL parser is `parse: string -> Option<ParsedUrl>`.
- The availability response is a `CheckResponse`: a transport failure, a
  decode failure, or the decoded `archived_snapshots` field.
- The submission is the `Attempt` the retry policy finally hands back.
- Hash-map and hash-set iteration orders are `order` sequences that
  enumerate the keys.
- The exclude patterns of `main` are matched by an `isMatch` predicate.
- The per-link archiving call of `main` is an outcome function `archive`.
- The freshness threshold is a `DateTime` fixed in the configuration.

What `lib.rs` does, and how the model follows it:

- `archive_url` validates the URL, makes one availability request, and makes
  at most one submission (lib.rs:177-199).
- The availability response is decoded as an optional `archived_snapshots`
  map. The entry with the greatest timestamp string is the one judged
  (lib.rs:136-139).
- `lib.rs` returns `Error::RecentArchiveExists` from `archive_url`. That
  variant does not exist in `errors.rs`, and `main.rs` matches on an
  `ArchiveResult`. The model uses a three-way outcome:
  `Archived | RecentArchiveExists | Failed(Error)`.
- `archive_url` in `lib.rs` returns `Ok(())` on success. `Archived`
  therefore carries no archived location.

## Model

| member | source | states |
|---|---|---|
| `Text.Contains` | waybackmachine-client/src/archivableurl.rs:37-42 | The domain test `contains` is true exactly when the pattern occurs as a contiguous block of the domain. |
| `Timestamps.ParseTimestamp` | waybackmachine-client/src/lib.rs:141-142 | Parsing succeeds exactly on 14-digit strings naming a valid calendar instant. The result is a valid instant whose `%Y%m%d%H%M%S` rendering is the input itself. |
| `Timestamps.ParseFormat` | waybackmachine-client/src/lib.rs:141-142 | Formatting a valid instant and parsing the text back gives the same instant. |
| `Timestamps.FormatOrder` | waybackmachine-client/src/lib.rs:137-143 | On formatted timestamps, lexicographic string order coincides with chronological order. |
| `Timestamps.LexIsChronological` | waybackmachine-client/src/lib.rs:137-143 | For any two timestamps the parser accepts, one is string-less than the other iff it is chronologically earlier. Picking the maximum string therefore picks the latest snapshot. |
| `Errors.ReparseDisplay` | waybackmachine-client/src/errors.rs:14-25 | Each displayed error is its variant's fixed prefix followed by the payload, e.g. "Invalid URL: " + input, "Failed (" + code + "): " + url. The error can be read back from the text alone; for `CannotArchive` this holds when the code contains no `)`. |
| `Errors.FromHttpError` | waybackmachine-client/src/errors.rs:27-37 | Both HTTP-library error conversions give `RequestFailed`, displayed as "Request failed: " + the library's message. |
| `Errors.FromParseError` | waybackmachine-client/src/errors.rs:39-43 | A timestamp parse error converts to `CannotCheckArchive`, displayed as "Failed to get archive: " + the parse error's text. |
| `IpAddress.PrivateIsRfc1918` | waybackmachine-client/src/archivableurl.rs:49 | The octet test for private addresses selects exactly the three blocks of section 3 of RFC 1918. |
| `IpAddress.UnsafeV4Blocks` | waybackmachine-client/src/archivableurl.rs:47-54 | A rejected IPv4 host is exactly one in 0.0.0.0/32, 127.0.0.0/8, the RFC 1918 blocks or 224.0.0.0/4. |
| `IpAddress.LoopbackV6IsOne` | waybackmachine-client/src/archivableurl.rs:55 | The IPv6 loopback test accepts exactly ::1 (section 2.5.3 of RFC 4291), the address whose 128-bit value is 1. |
| `IpAddress.MulticastV6IsPrefix` | waybackmachine-client/src/archivableurl.rs:55 | The IPv6 multicast mask test accepts exactly the prefix ff00::/8 (section 2.7 of RFC 4291). |
| `UrlValidation.FirstMatch` | waybackmachine-client/src/archivableurl.rs:41-45 | The loop over the exclusion list finds a pattern iff some listed pattern occurs in the domain. What it finds does occur, and no earlier pattern does. |
| `UrlValidation.Validate` | waybackmachine-client/src/archivableurl.rs:28-68 | Accepts iff a host is present, the domain contains neither "localhost" nor an excluded domain, the address is not of a rejected class, and the scheme is http or https. `ExcludedUrl` comes exactly when an excluded domain matches and "localhost" does not, so the localhost rule wins and the scheme is judged last. Every other rejection is `InvalidUrl`. Rejections carry the URL's serialised text. |
| `UrlValidation.Parse` | waybackmachine-client/src/archivableurl.rs:21-25 | Input the URL parser rejects gives `InvalidUrl` with the raw input unchanged. Otherwise the parsed URL is accepted iff it is archivable, and errors carry its serialised text. |
| `UrlValidation.AsStrRoundTrip` | waybackmachine-client/src/archivableurl.rs:71-73 | `as_str` of an accepted URL is the parser's serialisation, so input already in serialised form comes back unchanged. |
| `UrlValidation.ExcludedDomainsAreNotLocal` | waybackmachine-client/src/archivableurl.rs:10-17 | No entry of the exclusion list contains "localhost". |
| `UrlValidation.ExcludedDomainsAreExcluded` | waybackmachine-client/src/archivableurl.rs:168-176 | Every exclusion-list entry used as a host yields `ExcludedUrl` with the URL's text, whatever the scheme. |
| `Freshness.MaxByTimestamp` | waybackmachine-client/src/lib.rs:137-139 | The pick is absent only for an empty map. Otherwise it is a key of the map whose timestamp no other entry's timestamp exceeds in string order. |
| `Freshness.ChosenIsLatest` | waybackmachine-client/src/lib.rs:137-143 | When all timestamps are well formed, the picked snapshot is no earlier than any other. |
| `Freshness.Chosen` | waybackmachine-client/src/lib.rs:136-140 | A snapshot is judged only when the body has a map. It is an entry with maximal timestamp, and none is judged only when the map is empty. |
| `Freshness.CheckRecentArchiveExists` | waybackmachine-client/src/lib.rs:124-152 | A URL that fails validation gives the validator's error. Otherwise the result is `Ok` iff the chosen snapshot's timestamp parses, is strictly after the threshold, is available, and has status "200". A transport or decode failure gives `CannotCheckArchive` with its reason. A malformed chosen timestamp gives the conversion of chrono's parse error. An absent or empty map, or a well-formed chosen snapshot that is stale, unavailable or not "200", gives `NoRecentArchive` with the raw URL. |
| `Retry.SendWithRetries` | waybackmachine-client/src/lib.rs:99-108 | At most `maxRetries + 1` attempts are made, and all but the last were transient. The caller sees the last attempt's outcome. It is non-transient unless the attempts ran out. |
| `Retry.PersistentFailureExhaustsRetries` | waybackmachine-client/src/lib.rs:304-311 | A server that fails transiently every time is asked exactly `maxRetries + 1` times. |
| `Client.ConfiguredTargets` | waybackmachine-client/src/lib.rs:52-72 | For a client built by `ClientConfig::new`, every check goes to the serialised check endpoint + the validated URL, and every submission to the serialised archive endpoint + the validated URL. Every call judges freshness against the threshold given at construction, whatever URL it is for. |
| `Client.DefaultTargets` | waybackmachine-client/src/lib.rs:74-88 | A default client sends checks to https://archive.org/wayback/available?url= + the URL and submissions to https://web.archive.org/save/ + the URL, against the threshold it was built with. |
| `Client.ArchiveUrl` | waybackmachine-client/src/lib.rs:177-199 | An invalid or excluded URL returns the validator's error and issues no request. Otherwise the check request goes to the check endpoint + the validated URL text. A successful check returns `RecentArchiveExists` and issues no submission. Any check failure, `CannotCheckArchive` included, leads to exactly one submission to the archive endpoint + the URL text. A 2xx status gives `Archived`, another status `CannotArchive(status text, raw input)`, and a transport failure `RequestFailed`. |
| `Cli.AnyMatch` | src/main.rs:55 | True iff some exclude pattern matches the URL. |
| `Cli.NextExitCode` | src/main.rs:60-74 | Archived, recent-archive and `ExcludedUrl` outcomes keep the exit code. Every other error sets it to 1. |
| `Cli.ArchiveAll` | src/main.rs:53-77 | A URL matching an exclude pattern is never archived, and every other URL is archived exactly once. The final exit code is 0 or 1. It is 0 iff every archived URL's outcome was benign, so once set to 1 it never returns to 0. |
| `Cli.ArchivePdfLinks` | src/main.rs:50-77 | The archived URLs are exactly the document's distinct link destinations that no exclude pattern matches, each processed once. The exit code is 0 iff all their outcomes were benign. |
| `PdfLinks.IsLinkAnnotation` | src/main.rs:97-103 | True iff the `Subtype` entry exists and is the name `Link`. |
| `PdfLinks.ExtractLinkDest` | src/main.rs:106-116 | Gives a URI iff `A` is a reference to a dictionary whose `URI` entry is a string, and then gives that string. Every other shape gives nothing. |
| `PdfLinks.ExtractLinks` | src/main.rs:81-94 | The result set holds exactly the destinations of link annotations on some page. |
| `Scenarios.ExampleComAccepted` | waybackmachine-client/src/archivableurl.rs:86-102 | http://example.com/ and https://example.com/ are accepted and written back unchanged. |
| `Scenarios.FtpIsInvalid` | waybackmachine-client/src/archivableurl.rs:112-118 | ftp://example.com/ is `InvalidUrl` with the input text. |
| `Scenarios.PrivateAndUnspecifiedHostsInvalid` | waybackmachine-client/src/archivableurl.rs:128-142 | 192.168.1.1 and 0.0.0.0 hosts are `InvalidUrl`. |
| `Scenarios.NoSchemeIsInvalid` | waybackmachine-client/src/lib.rs:259-268 | "example.com" without a scheme fails as `InvalidUrl("example.com")` and issues no request. |
| `Scenarios.LocalUrlIsInvalid` | waybackmachine-client/src/lib.rs:270-279 | http://localhost/page fails as `InvalidUrl` with the input and issues no request. |
| `Scenarios.StaleSnapshotIsNotRecent` | waybackmachine-client/src/lib.rs:136-151 | The tests' 2023-02-27 snapshot, when not after the threshold, gives `NoRecentArchive`. |
| `Scenarios.StaleSnapshotIsArchived` | waybackmachine-client/src/lib.rs:225-257 | With that stale snapshot and a 2xx submission, the call archives, after exactly one check request and one submission request. |
| `Scenarios.PersistentServerErrorFails` | waybackmachine-client/src/lib.rs:281-314 | A submission answered 520 on every attempt is tried `maxRequestRetries + 1` times and fails as `CannotArchive` with the input URL. |
| `Scenarios.RecentSnapshotSkipsSubmission` | waybackmachine-client/src/lib.rs:316-347 | A snapshot newer than the threshold gives `RecentArchiveExists` after the check request alone. Repeating the call gives the same, so the submission endpoint is never asked. |

## Left out

- URL parsing and serialisation per the WHATWG URL Standard (`Url::parse`) is a parameter, not modelled. Percent-encoding and normalisation are out of scope.
- HTTP transport, the user agent, the async runtime and the JSON decoding of the availability response are out. They enter as outcomes.
- The retry middleware is reduced to "repeat transient outcomes up to `maxRetries` extra attempts". Transient means a 5xx status or a transport error flagged transient. The library's full classification (e.g. 408 and 429) and the exponential backoff timing belong to a library that is not part of this model.
- `Utc::now()` and the `TimeDelta` subtraction are out. The threshold instant is a parameter of the configuration, fixed at construction.
- `ClientConfig::new` panics on an endpoint that does not parse. This is a precondition of `Client.NewConfig`.
- `Timestamps.ParseTimestamp` accepts only fixed-width input of 14 digits. chrono's parser also accepts some shorter fields, a signed year and a leap second 60. It also skips whitespace before each numeric field, so " 20230227054528" and "2023 02 27 05 45 28" parse there. The model treats all those strings as malformed, so for them it reports `CannotCheckArchive` where the source may find a recent archive.
- `Timestamps.ParseTimestamp` maps errors to chrono error kinds by a simplified order (invalid character, too short, too long, out of range). chrono's own precedence between kinds for a given malformed string may differ; the error variant, `CannotCheckArchive`, is unaffected.
- Timestamps of snapshots are compared with second precision; the threshold may carry nanoseconds.
- The Rust status text (`StatusCode`'s `Display`) is not computed. The submission outcome carries it as given.
- The PDF is not loaded or decoded. lopdf's `Document::load`, its page-tree walk, its dereferencing inside `get_object`, and the lossy UTF-8 decoding of URI bytes are out. A document is an object table plus the annotation dictionaries of each page.
- Command-line parsing (clap), regular-expression compilation and matching, logging, and `process::exit` are out. The `Document::load` failure path that exits with 1 is out too.
- The test file `tests/archive.rs` calls a three-argument `ClientConfig::new` that no longer exists. It is not modelled.
