# shorten-url: the short-code table, modelled in Dafny

The service turns a long URL into a short code and redirects short codes back
to their URLs. Its logic is the process-wide table `urlMap` (code to long URL)
and two operations on it in `main.go`:

- `shorten(longUrl)` hashes the URL with SHA-256, keeps the first six digest
  bytes and encodes them with `base64.URLEncoding` (the URL-safe alphabet of
  section 5 of RFC 4648, padded). Six bytes are two full 3-byte groups, so
  every code is eight characters from `A-Z a-z 0-9 - _`, without `=`. If the
  code is free, it is stored with the URL and returned. If it already maps to
  the same URL, it is returned and the table is unchanged. If it maps to a
  different URL, `shorten` calls itself with the same argument and the same
  table. That call repeats the one before it, so it never returns.
- `getRedirect` answers a short link by redirecting to the stored URL, or
  with "Short Link not found". A link of fewer than six bytes first gets
  "Invalid short link". That branch has no `return`, so the handler then
  goes on to the lookup and answers a second time.

Files:

- `wrappers.dfy`: `Option`.
- `base64url.dfy` (module `Base64Url`): the padded base64url encoder, and a
  decoder that serves as its inverse. Encoding is proved to have length
  `4 * ceil(n / 3)`, to use only the alphabet and padding, to use no padding
  for a multiple of three bytes, and to round-trip through the decoder. It is
  therefore injective.
- `shortener.dfy` (module `Shortener`): the hash as a parameter, the code
  derivation, one activation of `shorten` (`Attempt`), and `Run`, which
  follows a call through a bounded number of self-calls. The lemmas state
  what a call does to the table and when it returns. The class `UrlShortener`
  holds `urlMap` as a field, and its `Shorten` method updates it in place.
  The table invariant `Consistent` says that every entry is stored under the
  code of its own URL. `shorten` keeps it, and the table starts empty. So
  `Shorten` may require it as the class invariant: the source always meets it.
- `redirect.dfy` (module `Redirect`): the decision of `getRedirect` as a
  function from (table, link) to the responses it writes, in order.

Non-termination is stated through `Run(urlMap, hash, url, depth)`. This is
the state of a call after at most `depth` nested activations. The model
proves that a call returns at some depth exactly when its code is not taken
by a different URL. On a collision, no depth ever returns. The method
`Shorten` reports that case as the outcome `Diverges` and leaves the table
unchanged.

## Notes on the source

- `shorten` adds no salt or counter before it recurses (main.go:55). The same
  URL therefore always derives the same code: `ShortCode` is a function of the
  URL, and `ShortenIdempotent` shows a repeated call changes nothing.
- `base64.URLEncoding` pads, but a six-byte prefix never needs padding. See
  the `ShortCode` contract.
- The error result of `shorten` is always nil, so main.go:95-101 cannot be
  reached. The model's result carries no error.

## Model

| member | source | states |
|---|---|---|
| `Base64Url.Encode` | main.go:50 | The padded base64url encoding of n bytes is `4 * ((n + 2) / 3)` characters long. |
| `Base64Url.EncodeAlphabet` | main.go:50 | Every character of an encoding is a URL-safe symbol or `=`. When the input length is a multiple of three, there is no `=`. |
| `Base64Url.RoundTrip` | main.go:50 | Decoding the encoding of any byte string gives that byte string back. |
| `Base64Url.EncodeInjective` | main.go:50 | Two byte strings have the same encoding if and only if they are equal. |
| `Shortener.ShortCode` | main.go:49-50 | The candidate code (base64url of the first six SHA-256 bytes) is 8 characters long. All of them are from the URL-safe alphabet, with no padding. |
| `Shortener.ShortCodeCollision` | main.go:49-50 | Two URLs get the same code if and only if their digests agree on the first six bytes. |
| `Shortener.Attempt` | main.go:49-57 | One activation of `shorten`. It recurses exactly on a collision. Otherwise it returns the candidate code, with the table mapping that code to `longUrl`, only that key added and every old entry kept. The whole-call statements are `RunReturnsIffNoCollision` and `ShortenResult`. |
| `Shortener.Run` | main.go:55 | The self-call followed through at most `depth` nested activations. Whenever it returns, it returns what the first activation returns. When it returns at all is stated by `RunReturnsIffNoCollision`, and what it leaves behind by `ShortenResult`. |
| `Shortener.RunReturnsIffNoCollision` | main.go:48-58 | A call returns at some recursion depth if and only if the depth is positive and the code is not mapped to a different URL. It then returns what its first activation returns. |
| `Shortener.ShortenResult` | main.go:51-58 | A returning call yields the candidate code. If the code was absent, the new table is the old one plus `code -> longUrl`, one entry larger. If the code mapped to `longUrl`, the table is unchanged. |
| `Shortener.ShortenKeepsEntries` | main.go:51-57 | A returning call never overwrites or removes an entry, and adds only its own code. Afterwards, `table[code] == longUrl`. |
| `Shortener.ShortenIdempotent` | main.go:49-53 | Shortening the same URL again, in the table the first call left, returns the same code and the same table. |
| `Shortener.CollisionNeverReturns` | main.go:51-55 | When the code maps to a different URL, the activation recurses with the same input and table, and no depth of recursion ever returns. |
| `Shortener.ShortenKeepsConsistent` | main.go:49-58 | A returning call keeps every entry stored under the code of its own URL. |
| `Shortener.CollisionIsDigestClash` | main.go:49-55 | In a consistent table, a collision happens if and only if a different stored URL's digest shares the first six bytes with the new URL's digest. |
| `Shortener.OneCodePerUrl` | main.go:49-57 | In a consistent table, a URL is stored under at most one code. |
| `Shortener.UrlShortener.constructor` | main.go:33 | The table starts empty, which satisfies the invariant. |
| `Shortener.UrlShortener.Shorten` | main.go:48-59 | Updates `urlMap` in place and keeps the invariant. It diverges exactly on a collision, leaving the table unchanged, and no recursion depth returns. Otherwise the code and new table equal those of every positive-depth run. |
| `Redirect.Utf8Length` | main.go:67 | Go's `len` counts UTF-8 bytes: at least one and at most four per character. |
| `Redirect.GetRedirect` | main.go:61-80 | The responses `getRedirect` writes, in order. There are none exactly when the link is empty, and any redirect goes to the URL stored under the link. The full decision is stated by `RedirectDecision`. |
| `Redirect.RedirectDecision` | main.go:67-80 | For a non-empty link, the last response is a redirect to the stored URL if the link is in the table, and "Short Link not found" otherwise. A link under six bytes gets "Invalid short link" first, and only then are there two responses. |
| `Redirect.ShortenThenRedirect` | main.go:73-75 | The code a returning `shorten` gives back resolves to exactly one redirect, to the URL it was made for. |
| `Redirect.ShortLinkNeverFound` | main.go:67-72 | In a table written only by `shorten`, a link under six bytes is never found. It gets "Invalid short link" followed by "Short Link not found". |

## Left out

- SHA-256 (FIPS 180-4) is not modelled. `hash` is a parameter of type `string -> Sha256Digest` (32 bytes), and every property holds for any such function. Hashing the string directly stands for hashing its UTF-8 bytes, an injective step.
- The decoder in `Base64Url` is not in the source. It exists only as the inverse that the encoder is proved against.
- Routing, URI and JSON binding, JSON serialisation, the HTTP status codes and the `/api/ping` handler are HTTP framework glue (main.go:35-46, 83-109). Of the binding, only the `required` check on the link is modelled: an empty link writes no response.
- Logging (`fmt.Println`, `log.Printf`) is output only.
- Concurrent requests on the unsynchronised map are not modelled. The model is single-threaded.
- Running out of stack is not modelled: the recursion on a collision is shown not to return at any depth.
- Short links are taken to be valid UTF-8. A Go string may hold arbitrary bytes, such as a path `/%FF%FF` that is unescaped before it reaches `getRedirect`, but a Dafny `string` cannot represent such a link. Every code in the table is ASCII, so such a link is never found either way.
