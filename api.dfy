/** client/lib/api.ts: how the browser client builds request URLs and the
    authorization header. */
module Api {
  import opened Common
  import opened Text

  predicate EndsWithSlash(s: string) { |s| > 0 && s[|s| - 1] == '/' }

  /** `s.replace(/\/$/, "")`: drops one final "/" if there is one. */
  function TrimTrailingSlash(s: string): (r: string)
    ensures EndsWithSlash(s) ==> r + "/" == s
    ensures !EndsWithSlash(s) ==> r == s
  {
    if EndsWithSlash(s) then s[..|s| - 1] else s
  }

  /** Only one slash goes: "x//" becomes "x/", and a trimmed text + "/" trims back. */
  lemma TrimTrailingSlashAppend(t: string)
    ensures TrimTrailingSlash(t + "/") == t
    ensures TrimTrailingSlash(t + "//") == t + "/"
  {
    assert (t + "/")[..|t|] == t;
    assert (t + "//")[..|t| + 1] == t + "/";
  }

  /** `API_BASE`: the trimmed `VITE_API_BASE_URL` when it is set and non-empty, else "". */
  function ApiBase(env: Option<string>): (base: string)
    ensures env.None? || env.value == "" ==> base == ""
    ensures env.Some? && env.value != "" ==> base == TrimTrailingSlash(env.value)
  {
    if env.Some? && env.value != "" then TrimTrailingSlash(env.value) else ""
  }

  /** `path.startsWith("/") ? path : "/" + path` */
  function NormalizePath(path: string): (r: string)
    ensures StartsWith(r, "/")
    ensures StartsWith(path, "/") ==> r == path
    ensures !StartsWith(path, "/") ==> r == "/" + path
  {
    if StartsWith(path, "/") then path else "/" + path
  }

  lemma NormalizePathIdempotent(path: string)
    ensures NormalizePath(NormalizePath(path)) == NormalizePath(path)
  {
  }

  /** `resolveApiUrl(path)` with the module's `API_BASE` passed in as `base`. */
  function ResolveApiUrl(base: string, path: string): (url: string)
    ensures base == "" ==> url == NormalizePath(path)
    ensures base != "" ==> url == base + NormalizePath(path)
  {
    if base != "" then base + NormalizePath(path) else NormalizePath(path)
  }

  /** With no base, resolving an already resolved URL changes nothing;
      with a base, the URL always ends with the normalized path. */
  lemma {:induction false} ResolveApiUrlProperties(base: string, path: string)
    ensures ResolveApiUrl("", ResolveApiUrl("", path)) == ResolveApiUrl("", path)
    ensures StartsWith(ResolveApiUrl("", path), "/")
    ensures base != "" ==> StartsWith(ResolveApiUrl(base, path), base)
  {
    NormalizePathIdempotent(path);
    if base != "" {
      assert (base + NormalizePath(path))[..|base|] == base;
    }
  }

  /** `authHeaders(token)`: a bearer header for a non-empty token, no header otherwise. */
  function AuthHeaders(token: Option<string>): (h: map<string, string>)
    ensures token.Some? && token.value != "" ==> h == map["Authorization" := "Bearer " + token.value]
    ensures token.None? || token.value == "" ==> h == map[]
  {
    if token.Some? && token.value != "" then map["Authorization" := "Bearer " + token.value] else map[]
  }
}
