/**
 * `parseDomain`: the screenshot and PDF endpoints receive the target address
 * base64-encoded in a path segment. The address is decoded, prefixed with
 * `https://`, parsed as a URL, and its query pairs are stably sorted by name,
 * so that addresses differing only in how parameters of different names
 * interleave become the same address.
 *
 * The base64 decoder (with its UTF-8 reading of the bytes) and the URL parser
 * belong to the platform; they are parameters here and are not re-implemented.
 */
module DomainUrl {
  import opened Options
  import opened SearchParams

  /**
   * A parsed URL. `origin` gathers scheme, credentials, host and port; `query`
   * is the list behind the URL's `searchParams`. The query's text is not
   * kept: the serialisation that `sort()` writes back into the URL is left
   * out, and the lemmas below compare pair lists.
   */
  datatype Url = Url(origin: string, path: string, query: Params, fragment: string)

  /** The platform services `parseDomain` calls. */
  datatype Platform = Platform(
    /** `Buffer.from(text, "base64")` read back as text. */
    base64Decode: string -> string,
    /** `new URL(text)`: None when the constructor throws. */
    parseUrl: string -> Option<Url>
  )

  /** The text handed to the URL parser. */
  function Address(domain: string, platform: Platform): string {
    "https://" + platform.base64Decode(domain)
  }

  /** The same URL with its query pairs canonically ordered. */
  function SortQuery(u: Url): (r: Url)
    ensures r.origin == u.origin && r.path == u.path && r.fragment == u.fragment
    ensures Sorted(r.query)
    ensures multiset(r.query) == multiset(u.query)
    ensures forall n :: WithName(r.query, n) == WithName(u.query, n)
  {
    u.(query := Sort(u.query))
  }

  /**
   * `parseDomain(domain)`: None exactly when the URL constructor throws;
   * otherwise the parsed URL, unchanged except that its query pairs are
   * ordered by name, form a permutation of the parsed ones, and keep the
   * relative order of pairs that share a name.
   */
  function ParseDomain(domain: string, platform: Platform): (r: Option<Url>)
    ensures r.None? <==> platform.parseUrl(Address(domain, platform)).None?
    ensures r.Some? ==>
      var u := platform.parseUrl(Address(domain, platform)).value;
      && r.value.origin == u.origin && r.value.path == u.path && r.value.fragment == u.fragment
      && Sorted(r.value.query)
      && multiset(r.value.query) == multiset(u.query)
      && (forall n :: WithName(r.value.query, n) == WithName(u.query, n))
  {
    match platform.parseUrl(Address(domain, platform))
    case None => None
    case Some(u) => Some(SortQuery(u))
  }

  /** URLs that differ at most in how parameters of different names interleave. */
  ghost predicate SameUpToParamOrder(u: Url, v: Url) {
    && u.origin == v.origin && u.path == v.path && u.fragment == v.fragment
    && forall n :: WithName(u.query, n) == WithName(v.query, n)
  }

  /**
   * Two encoded domains yield the same address exactly when their URLs differ
   * at most in the order of parameters of different names: the cache key is
   * stable, and sorting merges nothing else.
   */
  lemma ParseDomainCanonical(d1: string, d2: string, platform: Platform)
    requires platform.parseUrl(Address(d1, platform)).Some?
    requires platform.parseUrl(Address(d2, platform)).Some?
    ensures ParseDomain(d1, platform) == ParseDomain(d2, platform)
      <==> SameUpToParamOrder(platform.parseUrl(Address(d1, platform)).value,
                              platform.parseUrl(Address(d2, platform)).value)
  {
    var u := platform.parseUrl(Address(d1, platform)).value;
    var v := platform.parseUrl(Address(d2, platform)).value;
    SortCanonical(u.query, v.query);
  }

  /**
   * Two encoded domains whose URLs agree except that their query pairs are
   * permutations of each other with pairwise-distinct names yield the same
   * address.
   */
  lemma ParseDomainPermutation(d1: string, d2: string, platform: Platform)
    requires platform.parseUrl(Address(d1, platform)).Some?
    requires platform.parseUrl(Address(d2, platform)).Some?
    requires
      var u := platform.parseUrl(Address(d1, platform)).value;
      var v := platform.parseUrl(Address(d2, platform)).value;
      && u.origin == v.origin && u.path == v.path && u.fragment == v.fragment
      && DistinctNames(u.query) && multiset(u.query) == multiset(v.query)
    ensures ParseDomain(d1, platform) == ParseDomain(d2, platform)
  {
    var u := platform.parseUrl(Address(d1, platform)).value;
    var v := platform.parseUrl(Address(d2, platform)).value;
    SortPermutationDistinct(u.query, v.query);
  }

  /** A URL whose query pairs are already ordered by name comes back with the same pairs and parts. */
  lemma ParseDomainSortedUnchanged(domain: string, platform: Platform)
    requires platform.parseUrl(Address(domain, platform)).Some?
    requires Sorted(platform.parseUrl(Address(domain, platform)).value.query)
    ensures ParseDomain(domain, platform) == platform.parseUrl(Address(domain, platform))
  {
    SortIdempotent(platform.parseUrl(Address(domain, platform)).value.query);
  }
}
