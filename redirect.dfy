/**
  The decision inside `getRedirect` in main.go: what the handler answers for
  a short link, given the table. The handler checks the length of the link,
  answers "Invalid short link" when it is too short, and then, because that
  branch does not return, goes on to the lookup and answers a second time.
 */
module Redirect {
  import opened Shortener

  /** Links shorter than this many bytes are reported as invalid. */
  const MinShortLinkLength := 6

  const InvalidShortLink := "Invalid short link"
  const ShortLinkNotFound := "Short Link not found"

  /** The status code carried in the body of every failure response. */
  const FailedCode := "10"

  /** One response written by the handler. */
  datatype Reply =
    | Failed(message: string, statusCode: string)
    | PermanentRedirect(location: string)

  /** The number of bytes of the UTF-8 encoding of `s`, which is what Go's `len` counts. */
  function Utf8Length(s: string): (n: nat)
    ensures |s| <= n <= 4 * |s|
  {
    if s == [] then 0
    else
      var c := s[0] as int;
      (if c < 0x80 then 1 else if c < 0x800 then 2 else if c < 0x10000 then 3 else 4)
      + Utf8Length(s[1..])
  }

  /**
    The responses `getRedirect` writes for `shortLink`, in order. An empty
    link fails the `required` URI binding: the handler logs and writes
    nothing.
   */
  function GetRedirect(urlMap: map<string, string>, shortLink: string): (replies: seq<Reply>)
    ensures replies == [] <==> shortLink == ""
    ensures forall i :: 0 <= i < |replies| && replies[i].PermanentRedirect? ==>
      shortLink in urlMap && replies[i].location == urlMap[shortLink]
  {
    if shortLink == "" then []
    else
      (if Utf8Length(shortLink) < MinShortLinkLength then [Failed(InvalidShortLink, FailedCode)] else [])
      + (if shortLink in urlMap then [PermanentRedirect(urlMap[shortLink])]
         else [Failed(ShortLinkNotFound, FailedCode)])
  }

  /**
    The decision for a non-empty link: the last response is a redirect to
    the stored URL exactly when the link is in the table, and "Short Link
    not found" otherwise; a link of fewer than six bytes gets "Invalid short
    link" in front of that, and only then are there two responses.
   */
  lemma RedirectDecision(urlMap: map<string, string>, shortLink: string)
    requires shortLink != ""
    ensures var replies := GetRedirect(urlMap, shortLink);
      && 1 <= |replies| <= 2
      && (|replies| == 2 <==> Utf8Length(shortLink) < MinShortLinkLength)
      && (|replies| == 2 ==> replies[0] == Failed(InvalidShortLink, FailedCode))
      && (replies[|replies| - 1].PermanentRedirect? <==> shortLink in urlMap)
      && (shortLink in urlMap ==> replies[|replies| - 1].location == urlMap[shortLink])
      && (shortLink !in urlMap ==> replies[|replies| - 1] == Failed(ShortLinkNotFound, FailedCode))
  {
  }

  /** A code returned by `shorten` redirects to the URL it was made for, with one response. */
  lemma ShortenThenRedirect(urlMap: map<string, string>, hash: Hasher, longUrl: string, depth: nat)
    requires Run(urlMap, hash, longUrl, depth).Returned?
    ensures var r := Run(urlMap, hash, longUrl, depth);
      GetRedirect(r.urlMap, r.code) == [PermanentRedirect(longUrl)]
  {
    ShortenKeepsEntries(urlMap, hash, longUrl, depth);
    ShortenResult(urlMap, hash, longUrl, depth);
  }

  /**
    In a table that only `shorten` has written, every code is eight bytes
    long, so a link of fewer than six bytes is never found: the missing
    return after "Invalid short link" only adds "Short Link not found".
   */
  lemma ShortLinkNeverFound(urlMap: map<string, string>, hash: Hasher, shortLink: string)
    requires Consistent(hash, urlMap)
    requires shortLink != "" && Utf8Length(shortLink) < MinShortLinkLength
    ensures GetRedirect(urlMap, shortLink)
         == [Failed(InvalidShortLink, FailedCode), Failed(ShortLinkNotFound, FailedCode)]
  {
  }
}
