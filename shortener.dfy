/**
  The short-code table of the service: `shorten` in main.go and the
  package-level `urlMap` it updates.

  A short code is the padded base64url encoding of the first six bytes of
  the SHA-256 digest of the long URL. The table maps codes to long URLs;
  `shorten` inserts a fresh code, reuses a code already stored for the same
  URL, and on a code stored for a different URL calls itself again with the
  same argument and the same table. That call repeats the one before it, so
  it never returns; `Run` below makes this precise by counting nested calls.
 */
module Shortener {
  import opened Base64Url

  /** A SHA-256 digest: 32 bytes. */
  type Sha256Digest = d: seq<byte> | |d| == 32 witness seq(32, i => 0)

  /**
    `sha256.Sum256` applied to the bytes of a string. SHA-256 itself is not
    modelled: every property below holds for any such function.
   */
  type Hasher = string -> Sha256Digest

  /** How many digest bytes make up a code. */
  const DigestPrefixLength := 6

  /** The length of every code: four symbols per three bytes, no padding. */
  const CodeLength := 8

  /** The candidate code for `longUrl`: base64url of the first six digest bytes. */
  function ShortCode(hash: Hasher, longUrl: string): (code: string)
    ensures |code| == CodeLength
    ensures forall i :: 0 <= i < |code| ==> IsUrlSafe(code[i])
    ensures Padding !in code
  {
    var prefix := hash(longUrl)[..DigestPrefixLength];
    EncodeAlphabet(prefix);
    Encode(prefix)
  }

  /** Two URLs share a code exactly when their digests share the first six bytes. */
  lemma ShortCodeCollision(hash: Hasher, u: string, v: string)
    ensures ShortCode(hash, u) == ShortCode(hash, v)
        <==> hash(u)[..DigestPrefixLength] == hash(v)[..DigestPrefixLength]
  {
    EncodeInjective(hash(u)[..DigestPrefixLength], hash(v)[..DigestPrefixLength]);
  }

  /**
    The invariant of the table: every entry is stored under the code of its
    own URL. The table starts empty and only `shorten` writes it.
   */
  ghost predicate Consistent(hash: Hasher, urlMap: map<string, string>) {
    forall code :: code in urlMap ==> ShortCode(hash, urlMap[code]) == code
  }

  /** The candidate code of `longUrl` is taken by a different URL. */
  predicate Collides(urlMap: map<string, string>, hash: Hasher, longUrl: string) {
    var code := ShortCode(hash, longUrl);
    code in urlMap && urlMap[code] != longUrl
  }

  /**
    The state of a call of `shorten`: it has returned a code with the table it
    left behind, or it is still inside its nested self-calls.
   */
  datatype Call = Returned(code: string, urlMap: map<string, string>) | Recursing

  /** One activation of `shorten`: return, or call itself again with the same argument. */
  function Attempt(urlMap: map<string, string>, hash: Hasher, longUrl: string): (r: Call)
    ensures r.Recursing? <==> Collides(urlMap, hash, longUrl)
    ensures r.Returned? ==>
      && r.code == ShortCode(hash, longUrl)
      && r.code in r.urlMap && r.urlMap[r.code] == longUrl
      && r.urlMap.Keys == urlMap.Keys + {r.code}
      && forall code :: code in urlMap ==> r.urlMap[code] == urlMap[code]
  {
    var code := ShortCode(hash, longUrl);
    if code in urlMap then
      if urlMap[code] == longUrl then Returned(code, urlMap) else Recursing
    else
      Returned(code, urlMap[code := longUrl])
  }

  /**
    `shorten(longUrl)` followed through at most `depth` activations: the self
    call on a collision starts a new activation on the same argument and the
    same table.
   */
  function Run(urlMap: map<string, string>, hash: Hasher, longUrl: string, depth: nat): (r: Call)
    ensures r.Returned? ==> r == Attempt(urlMap, hash, longUrl)
    decreases depth
  {
    if depth == 0 then Recursing
    else
      match Attempt(urlMap, hash, longUrl)
      case Recursing => Run(urlMap, hash, longUrl, depth - 1)
      case returned => returned
  }

  /**
    A call returns, at some depth, exactly when its candidate code is not
    taken by a different URL; it then returns after its first activation.
    On a collision no depth of self-calls ever returns.
   */
  lemma {:induction false} RunReturnsIffNoCollision(urlMap: map<string, string>, hash: Hasher, longUrl: string, depth: nat)
    ensures Run(urlMap, hash, longUrl, depth).Returned? <==> depth > 0 && !Collides(urlMap, hash, longUrl)
    ensures Run(urlMap, hash, longUrl, depth).Returned? ==> Run(urlMap, hash, longUrl, depth) == Attempt(urlMap, hash, longUrl)
    decreases depth
  {
    if depth > 0 && Collides(urlMap, hash, longUrl) {
      RunReturnsIffNoCollision(urlMap, hash, longUrl, depth - 1);
    }
  }

  /**
    What a returning call leaves behind: the candidate code, and the table
    extended by `code -> longUrl` when the code was free, or the table
    unchanged when the code already mapped to `longUrl`.
   */
  lemma ShortenResult(urlMap: map<string, string>, hash: Hasher, longUrl: string, depth: nat)
    requires Run(urlMap, hash, longUrl, depth).Returned?
    ensures var r := Run(urlMap, hash, longUrl, depth);
      && r.code == ShortCode(hash, longUrl)
      && (r.code !in urlMap ==> r.urlMap == urlMap[r.code := longUrl] && |r.urlMap| == |urlMap| + 1)
      && (r.code in urlMap ==> urlMap[r.code] == longUrl && r.urlMap == urlMap)
  {
    RunReturnsIffNoCollision(urlMap, hash, longUrl, depth);
  }

  /**
    A returning call never overwrites or removes an entry, adds at most its
    own code, and afterwards the table maps its code to `longUrl`.
   */
  lemma ShortenKeepsEntries(urlMap: map<string, string>, hash: Hasher, longUrl: string, depth: nat)
    requires Run(urlMap, hash, longUrl, depth).Returned?
    ensures var r := Run(urlMap, hash, longUrl, depth);
      && (forall code :: code in urlMap ==> code in r.urlMap && r.urlMap[code] == urlMap[code])
      && r.urlMap.Keys == urlMap.Keys + {r.code}
      && r.code in r.urlMap && r.urlMap[r.code] == longUrl
  {
    ShortenResult(urlMap, hash, longUrl, depth);
  }

  /** Shortening the same URL again returns the same code and changes nothing. */
  lemma ShortenIdempotent(urlMap: map<string, string>, hash: Hasher, longUrl: string, depth: nat, depth': nat)
    requires Run(urlMap, hash, longUrl, depth).Returned?
    requires depth' > 0
    ensures var r := Run(urlMap, hash, longUrl, depth);
      Run(r.urlMap, hash, longUrl, depth') == r
  {
    var r := Run(urlMap, hash, longUrl, depth);
    ShortenKeepsEntries(urlMap, hash, longUrl, depth);
    ShortenResult(urlMap, hash, longUrl, depth);
    RunReturnsIffNoCollision(r.urlMap, hash, longUrl, depth');
  }

  /** A colliding call leaves the table as it was, since it never returns. */
  lemma CollisionNeverReturns(urlMap: map<string, string>, hash: Hasher, longUrl: string)
    requires Collides(urlMap, hash, longUrl)
    ensures Attempt(urlMap, hash, longUrl) == Recursing
    ensures forall depth: nat :: Run(urlMap, hash, longUrl, depth) == Recursing
  {
    forall depth: nat ensures Run(urlMap, hash, longUrl, depth) == Recursing {
      RunReturnsIffNoCollision(urlMap, hash, longUrl, depth);
    }
  }

  /** A returning call keeps every entry stored under the code of its own URL. */
  lemma ShortenKeepsConsistent(urlMap: map<string, string>, hash: Hasher, longUrl: string, depth: nat)
    requires Consistent(hash, urlMap)
    requires Run(urlMap, hash, longUrl, depth).Returned?
    ensures Consistent(hash, Run(urlMap, hash, longUrl, depth).urlMap)
  {
    ShortenResult(urlMap, hash, longUrl, depth);
  }

  /**
    In a consistent table a collision is a genuine clash of digest prefixes:
    a different stored URL whose digest starts with the same six bytes.
   */
  lemma CollisionIsDigestClash(urlMap: map<string, string>, hash: Hasher, longUrl: string)
    requires Consistent(hash, urlMap)
    ensures Collides(urlMap, hash, longUrl) <==>
      exists code :: code in urlMap && urlMap[code] != longUrl
        && hash(urlMap[code])[..DigestPrefixLength] == hash(longUrl)[..DigestPrefixLength]
  {
    var c := ShortCode(hash, longUrl);
    if Collides(urlMap, hash, longUrl) {
      ShortCodeCollision(hash, urlMap[c], longUrl);
    }
    forall code | code in urlMap && urlMap[code] != longUrl
        && hash(urlMap[code])[..DigestPrefixLength] == hash(longUrl)[..DigestPrefixLength]
      ensures Collides(urlMap, hash, longUrl)
    {
      ShortCodeCollision(hash, urlMap[code], longUrl);
    }
  }

  /** In a consistent table a URL is stored under one code at most. */
  lemma OneCodePerUrl(urlMap: map<string, string>, hash: Hasher)
    requires Consistent(hash, urlMap)
    ensures forall c1, c2 :: c1 in urlMap && c2 in urlMap && urlMap[c1] == urlMap[c2] ==> c1 == c2
  {
  }

  /** What one request to `shorten` yields: a code, or a call that never returns. */
  datatype Outcome = Shortened(code: string) | Diverges

  /** The process-wide table behind the service and the digest it uses. */
  class UrlShortener {
    var urlMap: map<string, string>
    const hash: Hasher

    ghost predicate Valid()
      reads this
    {
      Consistent(hash, urlMap)
    }

    /** The table as the process starts: empty. */
    constructor (hash: Hasher)
      ensures Valid()
      ensures this.hash == hash && urlMap == map[]
    {
      this.hash := hash;
      urlMap := map[];
    }

    /**
      `shorten(longUrl)`. The error result of the source is always nil and is
      not modelled; a collision, on which the source recurses forever, is the
      outcome `Diverges` and leaves the table as it was.
     */
    method Shorten(longUrl: string) returns (outcome: Outcome)
      requires Valid()
      modifies this
      ensures Valid()
      ensures outcome.Diverges? <==> Collides(old(urlMap), hash, longUrl)
      ensures outcome.Diverges? ==>
        urlMap == old(urlMap) && forall depth: nat :: Run(old(urlMap), hash, longUrl, depth) == Recursing
      ensures outcome.Shortened? ==>
        forall depth: nat :: depth > 0 ==> Run(old(urlMap), hash, longUrl, depth) == Returned(outcome.code, urlMap)
    {
      var shortCode := ShortCode(hash, longUrl);
      if shortCode in urlMap {
        if urlMap[shortCode] == longUrl {
          outcome := Shortened(shortCode);
        } else {
          CollisionNeverReturns(urlMap, hash, longUrl);
          outcome := Diverges;
        }
      } else {
        urlMap := urlMap[shortCode := longUrl];
        outcome := Shortened(shortCode);
      }
      forall depth: nat | depth > 0 && outcome.Shortened?
        ensures Run(old(urlMap), hash, longUrl, depth) == Returned(outcome.code, urlMap)
      {
        RunReturnsIffNoCollision(old(urlMap), hash, longUrl, depth);
      }
    }
  }
}
