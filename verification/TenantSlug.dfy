/** The backend's tenant slugs: their parser, how a request path yields one, and their
    agreement with the frontend's classifier and its own list of reserved names. */
module TenantSlug {
  import opened Wrappers
  import opened HostRouting

  const RESERVED_SLUGS: set<string> :=
    {"www", "login", "admin", "u", "api", "app", "mail", "ftp", "cdn", "static"}

  const TENANTS_PATH_PREFIX: string := "/api/v1/tenants/"

  datatype SlugError = BadLength | BadCharacter | BadHyphen | ReservedSlug

  predicate SlugChar(c: char) {
    'a' <= c <= 'z' || 'A' <= c <= 'Z' || '0' <= c <= '9' || c == '-'
  }

  function Parse(raw: string): Result<string, SlugError> {
    var lower := Lower(raw);
    if |lower| < 3 || |lower| > 63 then Err(BadLength)
    else if exists i :: 0 <= i < |lower| && !SlugChar(lower[i]) then Err(BadCharacter)
    else if "-" <= lower || EndsWith(lower, "-") then Err(BadHyphen)
    else if lower in RESERVED_SLUGS then Err(ReservedSlug)
    else Ok(lower)
  }

  function StripPrefix(s: string, p: string): string {
    if p <= s then s[|p|..] else s
  }

  /** The first segment after the tenants prefix, or of a path already stripped of it. */
  function ExtractTenantSlug(path: string): Option<string> {
    var rest := StripPrefix(StripPrefix(path, TENANTS_PATH_PREFIX), "/");
    var slug := rest[..IndexOf(rest, '/')];
    if slug == "" then None else Some(slug)
  }

  // ---------- Parsing ----------

  ghost predicate SlugLike(s: string) {
    forall i :: 0 <= i < |s| ==> 'a' <= s[i] <= 'z' || '0' <= s[i] <= '9' || s[i] == '-'
  }

  /** A slug of the right shape, whatever it spells. */
  ghost predicate WellFormed(s: string) {
    3 <= |s| <= 63 && SlugLike(s) && s[0] != '-' && s[|s| - 1] != '-'
  }

  ghost predicate IsReserved(s: string) {
    s in {"www", "login", "admin", "u", "api", "app", "mail", "ftp", "cdn", "static"}
  }

  /** Character by character the lower case of a text: of the capitals and of the Kelvin sign. */
  ghost predicate IsLowerCaseOf(s: string, raw: string) {
    |s| == |raw| && forall i :: 0 <= i < |s| ==>
                      s[i] == if 'A' <= raw[i] <= 'Z' then raw[i] - 'A' + 'a'
                              else if raw[i] == '\U{212A}' then 'k' else raw[i]
  }

  lemma LowerIs(s: string, raw: string)
    ensures IsLowerCaseOf(s, raw) <==> s == Lower(raw)
  {
    assert forall i :: 0 <= i < |raw| ==> Lower(raw)[i] == LowerChar(raw[i]);
  }

  lemma CharacterTest(s: string)
    requires forall i :: 0 <= i < |s| ==> !('A' <= s[i] <= 'Z')
    ensures (exists i :: 0 <= i < |s| && !SlugChar(s[i])) <==> !SlugLike(s)
  {
  }

  lemma NoCapitals(s: string, raw: string)
    requires IsLowerCaseOf(s, raw)
    ensures forall i :: 0 <= i < |s| ==> !('A' <= s[i] <= 'Z')
  {
  }

  lemma HyphenTest(s: string)
    requires s != ""
    ensures "-" <= s || EndsWith(s, "-") <==> s[0] == '-' || s[|s| - 1] == '-'
  {
    assert s[|s| - 1..] == [s[|s| - 1]];
  }

  /** What parsing makes of a text, by its lower case: the slug itself if that is well formed and
      not reserved, and otherwise the error of the first of four tests it fails. */
  lemma ParseExact(raw: string, s: string)
    requires IsLowerCaseOf(s, raw)
    ensures Parse(raw) ==
            if |s| < 3 || |s| > 63 then Err(BadLength)
            else if !SlugLike(s) then Err(BadCharacter)
            else if s[0] == '-' || s[|s| - 1] == '-' then Err(BadHyphen)
            else if IsReserved(s) then Err(ReservedSlug)
            else Ok(s)
  {
    hide Lower, SlugLike, SlugChar, EndsWith, IsLowerCaseOf;
    LowerIs(s, raw);
    NoCapitals(s, raw);
    CharacterTest(s);
    if s != "" { HyphenTest(s); }
  }

  /** Parsing accepts exactly the spellings of well-formed unreserved slugs. */
  lemma AcceptsExact(raw: string, s: string)
    ensures Parse(raw) == Ok(s) <==> IsLowerCaseOf(s, raw) && WellFormed(s) && !IsReserved(s)
  {
    hide IsLowerCaseOf, IsReserved, SlugLike;
    LowerIs(s, raw);
    LowerIs(Lower(raw), raw);
    ParseExact(raw, Lower(raw));
  }

  /** An accepted slug is a fixed point of the parser. */
  lemma ParseFixed(raw: string)
    requires Parse(raw).Ok?
    ensures Parse(Parse(raw).value) == Parse(raw)
  {
    LowerTwice(raw);
  }

  lemma SlugOwnCase(s: string)
    requires SlugLike(s)
    ensures IsLowerCaseOf(s, s) && Lower(s) == s && '.' !in s && '/' !in s
  {
    LowerIs(s, s);
  }

  /** The two languages agree: a text is a slug the backend stores if and only if it is well
      formed and the frontend classifies its host as that tenant. */
  lemma SlugIsTenant(s: string, base: string)
    requires Lower(base) == base
    ensures Parse(s) == Ok(s)
            <==> WellFormed(s) && GetHostContext(s + "." + base, base) == Tenant(s)
  {
    hide Parse, GetHostContext, Lower, SlugLike;
    AcceptsExact(s, s);
    if WellFormed(s) {
      SlugOwnCase(s);
      if s == "www" {
        ContextAt(s, base);
        WwwContext(s + "." + base);
      } else {
        PrefixedContext(s, base);
      }
    }
  }

  // ---------- Paths ----------

  lemma FirstSegment(s: string, suffix: string)
    requires s != "" && '/' !in s && (suffix == "" || suffix[0] == '/')
    ensures IndexOf(s + suffix, '/') == |s| && (s + suffix)[..|s|] == s
  {
    IndexOfFirst(s, '/', suffix);
  }

  lemma StripIs(p: string, s: string)
    ensures StripPrefix(p + s, p) == s
  {
  }

  /** The first segment behind the tenants prefix is extracted, whatever it is and whatever follows,
      and nothing if there is none. */
  lemma SegmentRecovered(s: string, suffix: string)
    requires '/' !in s && (suffix == "" || (s != "" && suffix[0] == '/'))
    ensures ExtractTenantSlug("/api/v1/tenants/" + s + suffix) == if s == "" then None else Some(s)
  {
    var rest := s + suffix;
    assert "/api/v1/tenants/" + s + suffix == TENANTS_PATH_PREFIX + rest;
    StripIs(TENANTS_PATH_PREFIX, rest);
    if s != "" {
      assert s[0] != '/' && rest[0] == s[0];
      FirstSegment(s, suffix);
      OtherStart("/", rest);
    }
  }

  /** An accepted slug is recovered from the full path and from the nested router's path, with
      or without its leading slash, whatever follows. */
  lemma SlugRecovered(s: string, suffix: string)
    requires Parse(s) == Ok(s) && (suffix == "" || suffix[0] == '/')
    ensures ExtractTenantSlug("/api/v1/tenants/" + s + suffix) == Some(s)
    ensures ExtractTenantSlug(s + suffix) == Some(s)
    ensures ExtractTenantSlug("/" + s + suffix) == Some(s)
  {
    hide Parse, ExtractTenantSlug;
    SlugText(s);
    SegmentRecovered(s, suffix);
    NestedRecovered(s, suffix);
    NotTenantsPath(s, suffix);
    RootedRecovered(s, suffix);
  }

  lemma SlugText(s: string)
    requires Parse(s) == Ok(s)
    ensures s != "" && '/' !in s
  {
    AcceptsExact(s, s);
  }

  lemma NestedRecovered(s: string, suffix: string)
    requires s != "" && '/' !in s && (suffix == "" || suffix[0] == '/')
    ensures ExtractTenantSlug(s + suffix) == Some(s)
  {
    FirstSegment(s, suffix);
    var rest := s + suffix;
    assert s[0] != '/' && rest[0] == s[0];
    OtherStart("/", rest);
    OtherStart(TENANTS_PATH_PREFIX, rest);
  }

  lemma RootedRecovered(s: string, suffix: string)
    requires s != "" && '/' !in s && (suffix == "" || suffix[0] == '/')
    requires !(TENANTS_PATH_PREFIX <= "/" + (s + suffix))
    ensures ExtractTenantSlug("/" + s + suffix) == Some(s)
  {
    FirstSegment(s, suffix);
    var rest := s + suffix;
    assert "/" + s + suffix == "/" + rest;
    StripIs("/", rest);
  }

  /** A nested path whose slug is not `api` is not mistaken for a full one. */
  lemma NotTenantsPath(s: string, suffix: string)
    requires Parse(s) == Ok(s)
    ensures !(TENANTS_PATH_PREFIX <= "/" + (s + suffix))
  {
    AcceptsExact(s, s);
    var path := "/" + (s + suffix);
    assert path[1..4] == s[..3];
    if |s| == 3 {
      assert s == s[..3] && s != "api";
    } else {
      assert path[4] == s[3] && s[3] != '/';
    }
  }

  /** Under `/api/`, the extracted word is the reserved `api` for every path outside the tenants
      prefix, and the parser rejects it. */
  lemma OtherApiPaths(path: string)
    requires "/api/" <= path && !("/api/v1/tenants/" <= path)
    ensures ExtractTenantSlug(path) == Some("api") && Parse("api") == Err(ReservedSlug)
  {
    var rest := path[1..];
    assert path == "/" + rest;
    StripIs("/", rest);
    assert rest == "api" + path[4..] && path[4] == '/';
    FirstSegment("api", path[4..]);
    assert Lower("api") == "api";
    assert "api"[2..] == "i";
  }
}
