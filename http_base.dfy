/** The API base URL of the client (client/src/api/http.js): picked once
    from the build-time environment value and joined with request paths. */
module HttpBase {
  import opened Wrappers
  import opened JsText

  /** The local server the packaged application talks to. */
  const DefaultBase := "http://127.0.0.1:3000"

  /** `replace(/\/$/, '')`: one trailing slash removed, if there is one. */
  function StripTrailingSlash(s: string): (r: string)
    ensures s != [] && s[|s| - 1] == '/' ==> r + "/" == s
    ensures !(s != [] && s[|s| - 1] == '/') ==> r == s
  {
    if s != [] && s[|s| - 1] == '/' then s[..|s| - 1] else s
  }

  /** The base URL from the environment value (None when it is not a
      string): its trimmed text without one trailing slash when that text
      is non-empty, the default otherwise. */
  function BaseUrl(env: Option<string>): (r: string)
    ensures env.None? || Trim(env.value) == "" ==> r == DefaultBase
    ensures env.Some? && Trim(env.value) != "" ==> r == Trim(env.value) || r + "/" == Trim(env.value)
    ensures env.Some? && Trim(env.value) != "" && Trim(env.value)[|Trim(env.value)| - 1] == '/' ==> r + "/" == Trim(env.value)
  {
    if env.Some? && |Trim(env.value)| > 0 then StripTrailingSlash(Trim(env.value)) else DefaultBase
  }

  /** Only one slash goes: a value ending in two keeps the first. */
  lemma OnlyOneSlashStripped(s: string)
    requires s != "" && !IsSpace(s[0])
    ensures BaseUrl(Some(s + "//")) == s + "/"
  {
    var t := s + "//";
    assert t[0] == s[0] && t[|t| - 1] == '/';
    TrimOfTrimmed(t);
    assert t[..|t| - 1] == s + "/";
  }

  /** The example of a value written with two trailing slashes. */
  lemma DoubleSlashExample()
    ensures BaseUrl(Some("x//")) == "x/"
  {
    var x := "x";
    assert !IsSpace(x[0]);
    OnlyOneSlashStripped(x);
    assert x + "//" == "x//" && x + "/" == "x/";
  }

  /** Surrounding whitespace is ignored before the slash is stripped. */
  lemma WhitespaceIgnored(s: string)
    ensures BaseUrl(Some(s)) == BaseUrl(Some(Trim(s)))
  {
    TrimIdempotent(s);
  }

  /** getApiUrl: the base, then the path with exactly one slash between
      them whether or not the path starts with one. */
  function GetApiUrl(env: Option<string>, path: string): (r: string)
    ensures var base := BaseUrl(env);
      |r| > |base| && r[..|base|] == base && r[|base|] == '/'
    ensures var base := BaseUrl(env);
      if path != [] && path[0] == '/' then r[|base|..] == path else r[|base| + 1..] == path
  {
    var base := BaseUrl(env);
    var p := if |path| > 0 && path[0] == '/' then path else "/" + path;
    base + p
  }

  /** A leading slash makes no difference, and the default path '' is the
      base followed by '/'. */
  lemma LeadingSlashOptional(env: Option<string>, p: string)
    requires p == [] || p[0] != '/'
    ensures GetApiUrl(env, "/" + p) == GetApiUrl(env, p)
    ensures GetApiUrl(env, "") == BaseUrl(env) + "/"
  {
  }
}
