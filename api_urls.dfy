/** URL building for the generic API proxy and the connection test. */
module ApiUrls {
  import opened Strings

  /** `proxy_api_get` / `proxy_api_post`: a URL that starts with `http` is used as it is,
      anything else is a path relative to the configured API base URL. */
  function ProxyUrl(url: string, apiBase: string): (r: string)
    ensures StartsWith(url, "http") ==> r == url
    ensures !StartsWith(url, "http") ==> r == apiBase + url
    ensures |r| >= |url| && r[|r| - |url|..] == url
    ensures StartsWith(apiBase, "http") ==> StartsWith(r, "http")
  {
    if StartsWith(url, "http") then url else apiBase + url
  }

  /** Resolving a URL that is already resolved changes nothing. */
  lemma ProxyUrlIdempotent(url: string, apiBase: string)
    requires StartsWith(apiBase, "http")
    ensures ProxyUrl(ProxyUrl(url, apiBase), apiBase) == ProxyUrl(url, apiBase)
  {
  }

  /** `test_api_connection`: the base URL without trailing `/`, then `/health`. */
  function HealthUrl(baseUrl: string): (r: string)
    ensures |r| >= 7 && r[|r| - 7..] == "/health"
    ensures r[..|r| - 7] == TrimEndMatches(baseUrl, '/')
    ensures !EndsWith(r[..|r| - 7], '/')
  {
    TrimEndMatches(baseUrl, '/') + "/health"
  }

  /** Trailing slashes on the base URL do not change the health URL. */
  lemma HealthUrlIgnoresTrailingSlash(baseUrl: string)
    ensures HealthUrl(baseUrl + "/") == HealthUrl(baseUrl)
  {
    TrimEndMatchesAppend(baseUrl, '/');
  }
}
