/** Hosts and subdomains: the classifier of hostnames, the builder of URLs, and the proof
    that they undo each other. */
module HostRouting {
  import opened Wrappers

  const RESERVED: set<string> :=
    {"www", "login", "admin", "u", "api", "app", "mail", "ftp", "cdn", "static"}

  datatype HostContext =
    | Apex
    | Login
    | Admin
    | Tenant(slug: string)
    | Profile(username: string)
    | ReservedHost(subdomain: string)
    | Unknown(subdomain: string)

  datatype Location = Location(hostname: string, port: string)

  // ---------- Text ----------

  /** Lower case where it lies in ASCII: besides the capitals only the Kelvin sign's does. */
  function LowerChar(c: char): char {
    if 'A' <= c <= 'Z' then c - 'A' + 'a' else if c == '\U{212A}' then 'k' else c
  }

  function Lower(s: string): string {
    seq(|s|, i requires 0 <= i < |s| => LowerChar(s[i]))
  }

  predicate EndsWith(s: string, suffix: string) {
    |suffix| <= |s| && s[|s| - |suffix|..] == suffix
  }

  /** `slice(n)`. */
  function Slice(s: string, n: nat): string {
    if n <= |s| then s[n..] else ""
  }

  /** Position of the first `c`, or the length of the text. */
  function IndexOf(s: string, c: char): (i: nat)
    ensures i <= |s|
    ensures i < |s| ==> s[i] == c
    ensures c !in s[..i]
  {
    if s == [] || s[0] == c then 0
    else
      var i := IndexOf(s[1..], c);
      assert s[..i + 1] == [s[0]] + s[1..][..i];
      1 + i
  }

  lemma {:induction false} IndexOfFirst(pre: string, c: char, rest: string)
    requires c !in pre && (rest == [] || rest[0] == c)
    ensures IndexOf(pre + rest, c) == |pre|
  {
    if pre == [] {
      assert pre + rest == rest;
    } else {
      assert (pre + rest)[1..] == pre[1..] + rest;
      IndexOfFirst(pre[1..], c, rest);
    }
  }

  // ---------- The classifier ----------

  /** What precedes `.base` in `host`, or nothing. */
  function PrefixOf(host: string, base: string): string {
    if host == base then ""
    else if EndsWith(host, "." + base) then host[..|host| - (|base| + 1)]
    else ""
  }

  /** The first label after a leading `u.`, when a dot follows it. */
  function ProfileLabel(host: string): Option<string> {
    if "u." <= host then
      var rest := host[2..];
      var i := IndexOf(rest, '.');
      if 0 < i < |rest| then Some(rest[..i]) else None
    else None
  }

  /** The context of a host that has something before the base domain. */
  function Subcontext(prefix: string): HostContext {
    if prefix == "login" then Login
    else if prefix == "admin" then Admin
    else if "u." <= prefix then
      (if prefix[2..] != "" then Profile(prefix[2..]) else Unknown(prefix))
    else if '.' in prefix then Unknown(prefix)
    else if prefix in RESERVED then ReservedHost(prefix)
    else Tenant(prefix)
  }

  /** The fallback for a missing or misconfigured base domain. */
  function Heuristic(host: string): HostContext {
    if "login." <= host then Login
    else if "admin." <= host then Admin
    else if ProfileLabel(host).Some? then Profile(ProfileLabel(host).value)
    else Apex
  }

  function GetHostContext(hostname: string, baseDomain: string): HostContext {
    var host := Lower(hostname);
    var prefix := PrefixOf(host, Lower(baseDomain));
    if prefix != "" && prefix != "www" then Subcontext(prefix) else Heuristic(host)
  }

  // ---------- The builder ----------

  function PortSuffix(port: string): string {
    if port == "" then "" else ":" + port
  }

  function HostOf(l: Location): string {
    l.hostname + PortSuffix(l.port)
  }

  /** The configured domain, or else the current hostname. */
  function GetBaseDomain(domain: Option<string>, l: Location): string {
    if domain.Some? then domain.value else l.hostname
  }

  /** The host with its own subdomain cut off, in the contexts that name one. */
  function Strip(context: HostContext, host: string): string {
    match context
    case Login => Slice(host, |"login."|)
    case Admin => Slice(host, |"admin."|)
    case Tenant(slug) => Slice(host, |slug| + 1)
    case Profile(username) => Slice(host, |"u." + username + "."|)
    case _ => if "www." <= host then Slice(host, 4) else host
  }

  function GetBaseHost(domain: Option<string>, l: Location): string {
    var context := GetHostContext(l.hostname, GetBaseDomain(domain, l));
    if context.ReservedHost? || context.Unknown? then
      var base := GetBaseDomain(domain, l);
      if l.port != "" && ':' !in base then base + ":" + l.port else base
    else
      Strip(context, HostOf(l))
  }

  function NormalizePath(path: string): string {
    if "/" <= path then path else "/" + path
  }

  function BuildSubdomainUrl(domain: Option<string>, l: Location, protocol: string, subdomain: string,
      path: string): string
  {
    protocol + "://" + subdomain + "." + GetBaseHost(domain, l) + NormalizePath(path)
  }

  function BuildApexUrl(domain: Option<string>, l: Location, protocol: string, path: string): string {
    protocol + "://" + GetBaseHost(domain, l) + NormalizePath(path)
  }

  // ---------- The sites of one installation ----------

  datatype Site = ApexSite | WwwSite | LoginSite | AdminSite | TenantSite(slug: string) | ProfileSite(name: string)

  ghost predicate IsLabel(s: string) {
    s != "" && Lower(s) == s && '/' !in s && ':' !in s
  }

  ghost predicate ValidSite(site: Site) {
    match site
    case TenantSite(slug) => IsLabel(slug) && '.' !in slug && slug !in RESERVED
    case ProfileSite(name) => IsLabel(name)
    case _ => true
  }

  function Subdomain(site: Site): string {
    match site
    case ApexSite => ""
    case WwwSite => "www."
    case LoginSite => "login."
    case AdminSite => "admin."
    case TenantSite(slug) => slug + "."
    case ProfileSite(name) => "u." + name + "."
  }

  function Hostname(site: Site, base: string): string {
    Subdomain(site) + base
  }

  function Intended(site: Site): HostContext {
    match site
    case ApexSite => Apex
    case WwwSite => Apex
    case LoginSite => Login
    case AdminSite => Admin
    case TenantSite(slug) => Tenant(slug)
    case ProfileSite(name) => Profile(name)
  }

  /** A base domain that begins like a subdomain the classifier looks for. */
  predicate Misread(base: string) {
    "login." <= base || "admin." <= base || ProfileLabel(base).Some?
  }

  /** Or that begins like any platform subdomain. */
  predicate PlatformLike(base: string) {
    Misread(base) || "www." <= base
  }

  /** Only the apex host depends on how the base domain begins. */
  predicate Recovers(site: Site, base: string) {
    site.ApexSite? ==> !PlatformLike(base)
  }

  /** The builder the application uses for a site; nothing builds a `www` URL. */
  function BuildUrl(domain: Option<string>, l: Location, protocol: string, site: Site, path: string): string {
    match site
    case TenantSite(slug) => BuildSubdomainUrl(domain, l, protocol, slug, path)
    case ProfileSite(name) => BuildSubdomainUrl(domain, l, protocol, "u." + name, "/")
    case LoginSite => BuildSubdomainUrl(domain, l, protocol, "login", "/")
    case AdminSite => BuildSubdomainUrl(domain, l, protocol, "admin", path)
    case _ => BuildApexUrl(domain, l, protocol, path)
  }

  // ---------- Classifying each site ----------

  lemma LowerAppend(a: string, b: string)
    ensures Lower(a + b) == Lower(a) + Lower(b)
  {
  }

  lemma LowerTwice(s: string)
    ensures Lower(Lower(s)) == Lower(s)
  {
  }

  /** The same text but for the case of ASCII letters. */
  ghost predicate SameButCase(a: string, b: string) {
    |a| == |b| && forall i :: 0 <= i < |a| ==>
                    a[i] == b[i] || ('A' <= a[i] <= 'Z' && b[i] == a[i] - 'A' + 'a')
                    || ('A' <= b[i] <= 'Z' && a[i] == b[i] - 'A' + 'a')
  }

  /** The classifier ignores the case of both arguments. */
  lemma CaseIgnored(hostname: string, base: string, hostname': string, base': string)
    requires SameButCase(hostname, hostname') && SameButCase(base, base')
    ensures GetHostContext(hostname, base) == GetHostContext(hostname', base')
  {
    hide Subcontext, Heuristic, PrefixOf;
    assert Lower(hostname) == Lower(hostname') && Lower(base) == Lower(base');
  }

  lemma PrefixIs(p: string, base: string)
    ensures PrefixOf(p + "." + base, base) == p
  {
    var host := p + "." + base;
    assert host[|p|..] == "." + base;
    assert |host| == |p| + 1 + |base|;
  }

  lemma SubdomainLower(site: Site, base: string)
    requires ValidSite(site) && Lower(base) == base
    ensures Lower(Hostname(site, base)) == Hostname(site, base)
  {
    LowerAppend(Subdomain(site), base);
    match site
    case TenantSite(slug) => LowerAppend(slug, ".");
    case ProfileSite(name) => LowerAppend("u." + name, "."); LowerAppend("u.", name);
    case _ =>
  }

  /** What a site puts before the dot and the base domain. */
  function Label(site: Site): string {
    match site
    case ApexSite => ""
    case WwwSite => "www"
    case LoginSite => "login"
    case AdminSite => "admin"
    case TenantSite(slug) => slug
    case ProfileSite(name) => "u." + name
  }

  lemma HostnameIsLabel(site: Site, base: string)
    requires !site.ApexSite?
    ensures Hostname(site, base) == Label(site) + "." + base
  {
    match site
    case WwwSite => assert "www." == "www" + ".";
    case LoginSite => assert "login." == "login" + ".";
    case AdminSite => assert "admin." == "admin" + ".";
    case _ =>
  }

  lemma UndottedLabel(slug: string)
    requires '.' !in slug
    ensures !("u." <= slug)
  {
    if 2 <= |slug| { assert slug[1] in slug; }
  }

  lemma LabelContext(site: Site)
    requires ValidSite(site) && !site.ApexSite? && !site.WwwSite?
    ensures Label(site) != "" && Label(site) != "www" && Subcontext(Label(site)) == Intended(site)
  {
    match site
    case TenantSite(slug) => UndottedLabel(slug);
    case ProfileSite(name) =>
      var label' := "u." + name;
      assert label'[0] == 'u' && label'[1] == '.' && label'[2..] == name;
    case _ =>
  }

  lemma OtherStart(p: string, host: string)
    requires p != "" && host != "" && p[0] != host[0]
    ensures !(p <= host)
  {
  }

  lemma WwwContext(host: string)
    requires host != "" && host[0] == 'w'
    ensures Heuristic(host) == Apex
  {
    OtherStart("login.", host);
    OtherStart("admin.", host);
    OtherStart("u.", host);
  }

  /** A site's hostname is classified as that site, unless it is the apex of a domain that
      begins like a login, admin or profile host. */
  lemma Classified(site: Site, base: string)
    requires ValidSite(site) && Lower(base) == base
    ensures GetHostContext(Hostname(site, base), base) == Intended(site) <==> (site.ApexSite? ==> !Misread(base))
  {
    var host := Hostname(site, base);
    SubdomainLower(site, base);
    if site.ApexSite? {
      assert host == base;
    } else {
      HostnameIsLabel(site, base);
      PrefixIs(Label(site), base);
      if site.WwwSite? { WwwContext(host); } else { LabelContext(site); }
    }
  }

  lemma SliceOff(pre: string, rest: string)
    ensures Slice(pre + rest, |pre|) == rest
  {
  }

  /** A port cannot complete a leading `www.`. */
  lemma PortKeepsWww(base: string, port: string)
    ensures "www." <= base + PortSuffix(port) <==> "www." <= base
  {
    var host := base + PortSuffix(port);
    if "www." <= host {
      assert host[0] == 'w' && host[1] == 'w' && host[2] == 'w' && host[3] == '.';
      assert PortSuffix(port) != "" ==> host[|base|] == ':';
      assert 4 <= |base|;
      assert base == host[..|base|];
    }
  }

  lemma StripSite(site: Site, tail: string)
    requires site.ApexSite? ==> !("www." <= tail)
    ensures Strip(Intended(site), Subdomain(site) + tail) == tail
  {
    SliceOff(Subdomain(site), tail);
    match site
    case ApexSite => assert Subdomain(site) + tail == tail;
    case WwwSite => assert (Subdomain(site) + tail)[..4] == "www.";
    case _ =>
  }

  lemma Associate(a: string, b: string, c: string)
    ensures (a + b) + c == a + (b + c)
  {
  }

  lemma NamedHost(site: Site, l: Location, base: string)
    requires !site.ApexSite? && l.hostname == Subdomain(site) + base
    requires GetHostContext(l.hostname, base) == Intended(site)
    ensures GetBaseHost(Some(base), l) == base + PortSuffix(l.port)
  {
    hide GetHostContext, PortSuffix;
    StripSite(site, base + PortSuffix(l.port));
    Associate(Subdomain(site), base, PortSuffix(l.port));
  }

  lemma ApexExact(base: string, port: string)
    requires Lower(base) == base
    ensures Strip(Heuristic(base), base + PortSuffix(port)) == base + PortSuffix(port) <==> !PlatformLike(base)
  {
    PortKeepsWww(base, port);
    var host := base + PortSuffix(port);
    if ProfileLabel(base).Some? {
      assert "u." + ProfileLabel(base).value + "." != "";
    }
    assert forall n: nat :: 0 < n <= |host| ==> |Slice(host, n)| < |host|;
  }

  /** On a site's host the base host is the base domain with the current port, unless the site
      is the apex of a domain that begins like a platform subdomain. */
  lemma BaseHostRecovered(site: Site, base: string, port: string)
    requires ValidSite(site) && Lower(base) == base
    ensures GetBaseHost(Some(base), Location(Hostname(site, base), port)) == base + PortSuffix(port)
            <==> Recovers(site, base)
  {
    hide Subcontext, Lower;
    if site.ApexSite? {
      assert Hostname(site, base) == base;
      ApexExact(base, port);
    } else {
      Classified(site, base);
      NamedHost(site, Location(Hostname(site, base), port), base);
    }
  }

  lemma ContextAt(prefix: string, base: string)
    requires prefix != "" && Lower(prefix) == prefix && Lower(base) == base
    ensures GetHostContext(prefix + "." + base, base)
         == if prefix == "www" then Heuristic(prefix + "." + base) else Subcontext(prefix)
  {
    var host := prefix + "." + base;
    assert Lower(prefix + ".") == prefix + "." by { LowerAppend(prefix, "."); }
    assert Lower(host) == host by { LowerAppend(prefix + ".", base); }
    PrefixIs(prefix, base);
  }

  /** The site whose subdomain is `prefix`, when its context names one. */
  function SiteOf(prefix: string): Site {
    match Subcontext(prefix)
    case Login => LoginSite
    case Admin => AdminSite
    case Profile(name) => ProfileSite(name)
    case _ => TenantSite(prefix)
  }

  lemma SiteOfPrefix(prefix: string)
    ensures Subdomain(SiteOf(prefix)) == prefix + "."
    ensures var c := Subcontext(prefix); c.ReservedHost? || c.Unknown? || c == Intended(SiteOf(prefix))
  {
    if Subcontext(prefix).Profile? {
      assert prefix == "u." + prefix[2..];
    } else if prefix == "login" {
      assert "login" + "." == "login.";
    } else if prefix == "admin" {
      assert "admin" + "." == "admin.";
    }
  }

  /** A reserved or unknown host falls back to the domain itself. */
  lemma FallbackHost(l: Location, base: string)
    requires var c := GetHostContext(l.hostname, base); c.ReservedHost? || c.Unknown?
    ensures GetBaseHost(Some(base), l) == if ':' in base then base else base + PortSuffix(l.port)
  {
    hide GetHostContext;
    assert base + "" == base;
    Associate(base, ":", l.port);
  }

  lemma WwwHost(l: Location, base: string)
    requires l.hostname == "www" + "." + base && GetHostContext(l.hostname, base) == Heuristic(l.hostname)
    ensures GetHostContext(l.hostname, base) == Apex
    ensures GetBaseHost(Some(base), l) == base + PortSuffix(l.port)
  {
    hide GetHostContext, GetBaseHost, Heuristic;
    WwwContext(l.hostname);
    HostnameIsLabel(WwwSite, base);
    NamedHost(WwwSite, l, base);
  }

  /** On every host under the base domain the base host is the base domain with the current
      port, but for a reserved or unknown host when the domain has a port of its own: then that. */
  lemma AnyHostRecovered(prefix: string, base: string, port: string)
    requires prefix != "" && Lower(prefix) == prefix && Lower(base) == base
    ensures var c := GetHostContext(prefix + "." + base, base);
            GetBaseHost(Some(base), Location(prefix + "." + base, port))
            == if (c.ReservedHost? || c.Unknown?) && ':' in base then base else base + PortSuffix(port)
  {
    hide Lower, Subcontext, GetHostContext, GetBaseHost, Heuristic, Subdomain, PortSuffix, Intended;
    var l := Location(prefix + "." + base, port);
    var c := GetHostContext(l.hostname, base);
    ContextAt(prefix, base);
    if prefix == "www" {
      WwwHost(l, base);
    } else if c.ReservedHost? || c.Unknown? {
      FallbackHost(l, base);
    } else {
      SiteOfPrefix(prefix);
      NamedHost(SiteOf(prefix), l, base);
    }
  }

  // ---------- Every host ----------

  /** What any host with something other than `www` before the base domain is classified as. */
  lemma PrefixedContext(prefix: string, base: string)
    requires prefix != "" && prefix != "www" && Lower(prefix) == prefix && Lower(base) == base
    ensures var c := GetHostContext(prefix + "." + base, base);
            && (c == Login <==> prefix == "login")
            && (c == Admin <==> prefix == "admin")
            && (forall n :: c == Profile(n) <==> n != "" && prefix == "u." + n)
            && (c == Tenant(prefix)
                <==> '.' !in prefix
                     && prefix !in {"www", "login", "admin", "u", "api", "app", "mail", "ftp", "cdn", "static"})
            && (c == ReservedHost(prefix) <==> prefix in {"u", "api", "app", "mail", "ftp", "cdn", "static"})
            && (c == Unknown(prefix) <==> '.' in prefix && (prefix == "u." || !("u." <= prefix)))
            && (c == Tenant(prefix) || c == ReservedHost(prefix) || c == Unknown(prefix)
                || c.Login? || c.Admin? || c.Profile?)
  {
    hide Lower, GetHostContext, PrefixOf, Heuristic;
    ContextAt(prefix, base);
    UPrefix(prefix);
    ReservedUndotted(prefix);
  }

  lemma UPrefix(prefix: string)
    ensures "u." <= prefix ==> prefix == "u." + prefix[2..] && '.' in prefix
    ensures forall n :: prefix == "u." + n ==> "u." <= prefix && prefix[2..] == n
  {
    if "u." <= prefix { assert prefix[1] == '.'; }
  }

  lemma ReservedUndotted(prefix: string)
    ensures prefix in {"www", "login", "admin", "u", "api", "app", "mail", "ftp", "cdn", "static"}
            ==> '.' !in prefix
  {
  }

  /** Every other host is classified by how it begins: the base domain itself, with `www` before it
      or with nothing before the dot, and hosts that are not under the domain at all. */
  lemma PlainContext(host: string, base: string)
    requires Lower(host) == host && Lower(base) == base
    requires forall p :: p != "" && p != "www" ==> host != p + "." + base
    ensures var c := GetHostContext(host, base);
            && (c == Login <==> "login." <= host)
            && (c == Admin <==> "admin." <= host)
            && (forall n :: c == Profile(n) <==> n != "" && '.' !in n && "u." + n + "." <= host)
            && (c.Login? || c.Admin? || c.Profile? || c == Apex)
  {
    hide Lower, PrefixOf, Subcontext, ProfileLabel;
    BeginsOnce(host);
    ProfileStart(host);
    NotPrefixed(host, base);
  }

  lemma NotPrefixed(host: string, base: string)
    requires forall p :: p != "" && p != "www" ==> host != p + "." + base
    ensures PrefixOf(host, base) == "" || PrefixOf(host, base) == "www"
  {
    if EndsWith(host, "." + base) {
      var p := host[..|host| - (|base| + 1)];
      assert host == p + ("." + base);
      Associate(p, ".", base);
    }
  }

  lemma BeginsOnce(host: string)
    ensures !("login." <= host && "admin." <= host)
    ensures ProfileLabel(host).Some? ==> !("login." <= host) && !("admin." <= host)
  {
    if host != "" {
      if host[0] != 'l' { OtherStart("login.", host); }
      if host[0] != 'a' { OtherStart("admin.", host); }
      if host[0] != 'u' { OtherStart("u.", host); }
    }
  }

  lemma ProfileStart(host: string)
    ensures forall n :: ProfileLabel(host) == Some(n) <==> n != "" && '.' !in n && "u." + n + "." <= host
  {
    hide ProfileLabel;
    forall n ensures ProfileLabel(host) == Some(n) <==> n != "" && '.' !in n && "u." + n + "." <= host {
      if n != "" && '.' !in n && "u." + n + "." <= host { StartGivesProfile(host, n); }
      if ProfileLabel(host) == Some(n) { ProfileGivesStart(host, n); }
    }
  }

  lemma StartGivesProfile(host: string, n: string)
    requires n != "" && '.' !in n && "u." + n + "." <= host
    ensures ProfileLabel(host) == Some(n)
  {
    var rest := host[|n| + 3..];
    assert host == "u." + n + "." + rest;
    assert host[2..] == n + ("." + rest);
    IndexOfFirst(n, '.', "." + rest);
  }

  lemma ProfileGivesStart(host: string, n: string)
    requires ProfileLabel(host) == Some(n)
    ensures n != "" && '.' !in n && "u." + n + "." <= host
  {
    var i := IndexOf(host[2..], '.');
    assert host[2..][..i] == n && host[2..][i] == '.';
    assert "u." + n + "." == host[..i + 3];
  }
}
