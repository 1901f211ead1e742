/** The client's error taxonomy (`waybackmachine_client::Error`), its
    `Display` texts and its `From` conversions. */
module Errors {
  import opened Wrappers
  import Timestamps

  /** One variant per failure kind, each carrying the offending input or a
      diagnostic text. Dafny's datatype equality is the derived `PartialEq`:
      same variant, equal payloads. */
  datatype Error =
    | InvalidUrl(input: string)
    | RequestFailed(reason: string)
    | CannotArchive(code: string, url: string)
    | CannotCheckArchive(reason: string)
    | NoRecentArchive(url: string)
    | ExcludedUrl(url: string)

  const InvalidUrlPrefix: string := "Invalid URL: "
  const RequestFailedPrefix: string := "Request failed: "
  const CannotArchivePrefix: string := "Failed ("
  const CannotArchiveSeparator: string := "): "
  const CannotCheckArchivePrefix: string := "Failed to get archive: "
  const NoRecentArchivePrefix: string := "No recent archive exists: "
  const ExcludedUrlPrefix: string := "Excluded URL: "

  /** `format!("{}", e)`. */
  function Display(e: Error): string {
    match e
    case InvalidUrl(input) => InvalidUrlPrefix + input
    case RequestFailed(reason) => RequestFailedPrefix + reason
    case CannotArchive(code, url) => CannotArchivePrefix + code + CannotArchiveSeparator + url
    case CannotCheckArchive(reason) => CannotCheckArchivePrefix + reason
    case NoRecentArchive(url) => NoRecentArchivePrefix + url
    case ExcludedUrl(url) => ExcludedUrlPrefix + url
  }

  predicate HasPrefix(p: string, s: string) {
    |p| <= |s| && s[..|p|] == p
  }

  /** Index of the first `)` in `s`, if there is one. */
  function FindClose(s: string): (r: Option<nat>)
    ensures r.None? ==> ')' !in s
    ensures r.Some? ==> r.value < |s| && s[r.value] == ')' && ')' !in s[..r.value]
  {
    if |s| == 0 then None
    else if s[0] == ')' then Some(0)
    else
      match FindClose(s[1..])
      case None => None
      case Some(i) =>
        assert s[..i + 1] == [s[0]] + s[1..][..i];
        Some(i + 1)
  }

  /** Reads an error back from its displayed text: the variant from the
      prefix, the payload from the rest. A reference reading of the `Display`
      strings, used to show that they lose nothing. */
  function Reparse(s: string): Option<Error> {
    if HasPrefix(InvalidUrlPrefix, s) then Some(InvalidUrl(s[|InvalidUrlPrefix|..]))
    else if HasPrefix(RequestFailedPrefix, s) then Some(RequestFailed(s[|RequestFailedPrefix|..]))
    else if HasPrefix(CannotCheckArchivePrefix, s) then
      Some(CannotCheckArchive(s[|CannotCheckArchivePrefix|..]))
    else if HasPrefix(CannotArchivePrefix, s) then
      var rest := s[|CannotArchivePrefix|..];
      match FindClose(rest)
      case None => None
      case Some(i) =>
        if HasPrefix(CannotArchiveSeparator, rest[i..])
        then Some(CannotArchive(rest[..i], rest[i + |CannotArchiveSeparator|..]))
        else None
    else if HasPrefix(NoRecentArchivePrefix, s) then Some(NoRecentArchive(s[|NoRecentArchivePrefix|..]))
    else if HasPrefix(ExcludedUrlPrefix, s) then Some(ExcludedUrl(s[|ExcludedUrlPrefix|..]))
    else None
  }

  /** A text that differs from `p` at some position inside `p` does not start with `p`. */
  lemma NotPrefix(p: string, s: string, k: nat)
    requires k < |p| && k < |s| && s[k] != p[k]
    ensures !HasPrefix(p, s)
  {
    assert |p| <= |s| ==> s[..|p|][k] == s[k];
  }

  lemma PrefixOf(p: string, rest: string)
    ensures HasPrefix(p, p + rest) && (p + rest)[|p|..] == rest
  {
    assert (p + rest)[..|p|] == p;
  }

  /** In a text whose first `)` follows `code`, that is the `)` found. */
  lemma {:induction false} FindCloseAfter(code: string, t: string)
    requires ')' !in code && |t| > 0 && t[0] == ')'
    ensures FindClose(code + t) == Some(|code|)
    decreases |code|
  {
    if |code| == 0 {
      assert code + t == t;
    } else {
      assert (code + t)[0] == code[0];
      assert (code + t)[1..] == code[1..] + t;
      FindCloseAfter(code[1..], t);
    }
  }

  lemma ReparseCannotArchive(code: string, url: string)
    requires ')' !in code
    ensures Reparse(Display(CannotArchive(code, url))) == Some(CannotArchive(code, url))
  {
    var s := Display(CannotArchive(code, url));
    var rest := code + (CannotArchiveSeparator + url);
    assert s == CannotArchivePrefix + rest;
    NotPrefix(InvalidUrlPrefix, s, 0);
    NotPrefix(RequestFailedPrefix, s, 0);
    NotPrefix(CannotCheckArchivePrefix, s, 7);
    PrefixOf(CannotArchivePrefix, rest);
    FindCloseAfter(code, CannotArchiveSeparator + url);
    PrefixOf(code, CannotArchiveSeparator + url);
    assert rest[..|code|] == code;
    PrefixOf(CannotArchiveSeparator, url);
  }

  /** Every error's displayed text names its variant by a fixed prefix and
      carries its payload unchanged after it; a status text is recovered
      whenever it contains no `)` (rendered status codes never do). */
  lemma ReparseDisplay(e: Error)
    requires e.CannotArchive? ==> ')' !in e.code
    ensures Reparse(Display(e)) == Some(e)
  {
    var s := Display(e);
    match e
    case InvalidUrl(input) =>
      PrefixOf(InvalidUrlPrefix, input);
    case RequestFailed(reason) =>
      NotPrefix(InvalidUrlPrefix, s, 0);
      PrefixOf(RequestFailedPrefix, reason);
    case CannotCheckArchive(reason) =>
      NotPrefix(InvalidUrlPrefix, s, 0);
      NotPrefix(RequestFailedPrefix, s, 0);
      PrefixOf(CannotCheckArchivePrefix, reason);
    case CannotArchive(code, url) =>
      ReparseCannotArchive(code, url);
    case NoRecentArchive(url) =>
      NotPrefix(InvalidUrlPrefix, s, 0);
      NotPrefix(RequestFailedPrefix, s, 0);
      NotPrefix(CannotCheckArchivePrefix, s, 0);
      NotPrefix(CannotArchivePrefix, s, 0);
      PrefixOf(NoRecentArchivePrefix, url);
    case ExcludedUrl(url) =>
      NotPrefix(InvalidUrlPrefix, s, 0);
      NotPrefix(RequestFailedPrefix, s, 0);
      NotPrefix(CannotCheckArchivePrefix, s, 0);
      NotPrefix(CannotArchivePrefix, s, 0);
      NotPrefix(NoRecentArchivePrefix, s, 0);
      PrefixOf(ExcludedUrlPrefix, url);
  }

  /** The two HTTP-library error types the client converts from:
      `reqwest_middleware::Error` and `reqwest::Error`, each reduced to its
      `to_string()` text. */
  datatype HttpError = MiddlewareError(message: string) | ReqwestError(message: string)

  /** `From<reqwest_middleware::Error>` and `From<reqwest::Error>`: both
      become a request failure that displays the library's message. */
  function FromHttpError(e: HttpError): (r: Error)
    ensures r.RequestFailed?
    ensures Display(r) == RequestFailedPrefix + e.message
  {
    RequestFailed(e.message)
  }

  /** `From<chrono::ParseError>`: a malformed timestamp means the archive
      could not be checked. */
  function FromParseError(e: Timestamps.ParseError): (r: Error)
    ensures r.CannotCheckArchive?
    ensures Display(r) == CannotCheckArchivePrefix + Timestamps.ParseErrorText(e)
  {
    CannotCheckArchive(Timestamps.ParseErrorText(e))
  }
}
