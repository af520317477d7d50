/** Building a URL and reading it back, over any number of navigations, and the exact limits
    of what the builder can recover. */
module UrlRoundTrip {
  import opened Wrappers
  import opened HostRouting

  // ---------- Reading a URL back ----------

  function Authority(url: string): string {
    var rest := Slice(url, IndexOf(url, ':') + 3);
    rest[..IndexOf(rest, '/')]
  }

  /** The location a browser is at after following `url`. */
  function Follow(url: string): Location {
    var authority := Authority(url);
    var i := IndexOf(authority, ':');
    Location(authority[..i], Slice(authority, i + 1))
  }

  lemma AuthorityReads(protocol: string, authority: string, path: string)
    requires ':' !in protocol && '/' !in authority && "/" <= path
    ensures Authority(protocol + "://" + authority + path) == authority
  {
    var head, tail := protocol + "://", authority + path;
    assert protocol + "://" + authority + path == head + tail;
    assert head + tail == protocol + ("://" + tail);
    IndexOfFirst(protocol, ':', "://" + tail);
    SliceOff(head, tail);
    IndexOfFirst(authority, '/', path);
    assert tail[..|authority|] == authority;
  }

  lemma PortReads(hostname: string, port: string)
    requires ':' !in hostname
    ensures var authority := hostname + PortSuffix(port);
            var i := IndexOf(authority, ':');
            authority[..i] == hostname && Slice(authority, i + 1) == port
  {
    var authority := hostname + PortSuffix(port);
    IndexOfFirst(hostname, ':', PortSuffix(port));
    assert authority[..|hostname|] == hostname;
    if port != "" {
      assert authority == (hostname + ":") + port;
      SliceOff(hostname + ":", port);
    }
  }

  lemma FollowReads(protocol: string, hostname: string, port: string, path: string)
    requires ':' !in protocol && ':' !in hostname && '/' !in hostname && '/' !in port && "/" <= path
    ensures Follow(protocol + "://" + hostname + PortSuffix(port) + path) == Location(hostname, port)
  {
    var authority := hostname + PortSuffix(port);
    AuthorityReads(protocol, authority, path);
    Associate(protocol + "://", hostname, PortSuffix(port));
    PortReads(hostname, port);
  }

  // ---------- The round trip ----------

  /** Where a navigation to `site` leads: the application links to the apex, never to `www`. */
  function Landing(site: Site): Site {
    if site.WwwSite? then ApexSite else site
  }

  /** The path a link leads to: rooted, and the root itself on profile and login hosts. */
  function PathFor(site: Site, path: string): string {
    if site.ProfileSite? || site.LoginSite? then "/" else if "/" <= path then path else "/" + path
  }

  lemma Regroup(head: string, sub: string, host: string, path: string)
    ensures head + sub + "." + host + path == (head + (sub + ".")) + host + path
  {
  }

  /** The URL names exactly the target's hostname, the port and the path if and only if the
      base domain is recovered on the current host. */
  lemma BuiltUrl(from: Site, site: Site, base: string, port: string, protocol: string, path: string)
    requires ValidSite(from) && Lower(base) == base
    ensures var url := BuildUrl(Some(base), Location(Hostname(from, base), port), protocol, site, path);
            var target := protocol + "://" + Hostname(Landing(site), base) + PortSuffix(port);
            url == target + PathFor(site, path) <==> Recovers(from, base)
  {
    hide GetBaseHost, Recovers;
    BaseHostRecovered(from, base, port);
    BuiltFrom(Location(Hostname(from, base), port), site, base, port, protocol, path);
  }

  lemma SameMiddle(head: string, a: string, b: string, tail: string)
    ensures head + a + tail == head + b + tail <==> a == b
  {
    if head + a + tail == head + b + tail {
      assert |a| == |b|;
      assert (head + a + tail)[|head|..][..|a|] == a;
      assert (head + b + tail)[|head|..][..|b|] == b;
    }
  }

  /** A site's URL is its subdomain in front of whatever base host the current location gives. */
  lemma BuiltParts(l: Location, domain: Option<string>, site: Site, protocol: string, path: string)
    ensures BuildUrl(domain, l, protocol, site, path)
         == (protocol + "://" + Subdomain(Landing(site))) + GetBaseHost(domain, l) + PathFor(site, path)
  {
    hide GetBaseHost;
    var head, host, p := protocol + "://", GetBaseHost(domain, l), PathFor(site, path);
    match site
    case TenantSite(slug) => Regroup(head, slug, host, p);
    case ProfileSite(name) => Regroup(head, "u." + name, host, p);
    case LoginSite => Regroup(head, "login", host, p); assert "login" + "." == "login.";
    case AdminSite => Regroup(head, "admin", host, p); assert "admin" + "." == "admin.";
    case _ => assert head + "" == head;
  }

  lemma BuiltFrom(l: Location, site: Site, base: string, port: string, protocol: string, path: string)
    ensures var url := BuildUrl(Some(base), l, protocol, site, path);
            var target := protocol + "://" + Hostname(Landing(site), base) + PortSuffix(port);
            url == target + PathFor(site, path) <==> GetBaseHost(Some(base), l) == base + PortSuffix(port)
  {
    hide BuildUrl, GetBaseHost, PortSuffix, PathFor, Subdomain;
    var head, sub, p := protocol + "://", Subdomain(Landing(site)), PathFor(site, path);
    BuiltParts(l, Some(base), site, protocol, path);
    assert head + (sub + base) + PortSuffix(port) == head + sub + (base + PortSuffix(port));
    SameMiddle(head + sub, GetBaseHost(Some(base), l), base + PortSuffix(port), p);
  }

  /** A base domain as a URL may hold it. */
  ghost predicate CleanBase(base: string) {
    Lower(base) == base && '/' !in base && ':' !in base
  }

  lemma HostnameClean(site: Site, base: string)
    requires ValidSite(site) && CleanBase(base)
    ensures ':' !in Hostname(site, base) && '/' !in Hostname(site, base)
  {
  }

  lemma PathRooted(site: Site, path: string)
    ensures "/" <= PathFor(site, path)
  {
  }

  /** From any site that recovers the base domain to any site: following the built URL reaches
      exactly the hostname meant, on the same port, and that hostname is classified as the site
      meant unless it is the apex of a domain that begins like another site. */
  lemma NavigationRoundTrip(from: Site, site: Site, base: string, port: string, protocol: string, path: string)
    requires ValidSite(from) && ValidSite(site) && CleanBase(base) && ':' !in protocol && '/' !in port
    requires Recovers(from, base)
    ensures var l := Follow(BuildUrl(Some(base), Location(Hostname(from, base), port), protocol, site, path));
            && l == Location(Hostname(Landing(site), base), port)
            && (GetHostContext(l.hostname, base) == Intended(site) <==> (Landing(site).ApexSite? ==> !Misread(base)))
  {
    hide BuildUrl, GetHostContext, PathFor, Hostname, PortSuffix, Follow, Recovers, Misread;
    BuiltUrl(from, site, base, port, protocol, path);
    HostnameClean(Landing(site), base);
    PathRooted(site, path);
    FollowReads(protocol, Hostname(Landing(site), base), port, PathFor(site, path));
    Classified(Landing(site), base);
  }

  /** One link of a browsing session. */
  datatype Link = Link(site: Site, path: string)

  function Browse(base: string, l: Location, protocol: string, links: seq<Link>): Location {
    if links == [] then l
    else
      var n := |links| - 1;
      Follow(BuildUrl(Some(base), Browse(base, l, protocol, links[..n]), protocol, links[n].site, links[n].path))
  }

  /** Over any number of navigations among sites that recover the base domain the base host
      never drifts: no prefix is doubled or lost. */
  lemma {:induction false} BrowsingNeverDrifts(from: Site, base: string, port: string, protocol: string,
      links: seq<Link>)
    requires ValidSite(from) && Recovers(from, base) && CleanBase(base) && ':' !in protocol && '/' !in port
    requires forall i :: 0 <= i < |links| ==> ValidSite(links[i].site) && Recovers(Landing(links[i].site), base)
    ensures var l := Browse(base, Location(Hostname(from, base), port), protocol, links);
            var site := if links == [] then from else Landing(links[|links| - 1].site);
            && l == Location(Hostname(site, base), port)
            && GetHostContext(l.hostname, base) == Intended(site)
            && GetBaseHost(Some(base), l) == base + PortSuffix(port)
  {
    hide BuildUrl, Follow, GetHostContext, GetBaseHost, Hostname, Intended, CleanBase, PortSuffix, PlatformLike;
    var site := if links == [] then from else Landing(links[|links| - 1].site);
    StaysOnSite(site, base, port);
    if links != [] {
      var n := |links| - 1;
      BrowsingNeverDrifts(from, base, port, protocol, links[..n]);
      var before := if n == 0 then from else Landing(links[n - 1].site);
      assert links[..n] != [] ==> links[..n][|links[..n]| - 1] == links[n - 1];
      NavigationRoundTrip(before, links[n].site, base, port, protocol, links[n].path);
    }
  }

  lemma StaysOnSite(site: Site, base: string, port: string)
    requires ValidSite(site) && Recovers(site, base) && CleanBase(base)
    ensures GetHostContext(Hostname(site, base), base) == Intended(site)
    ensures GetBaseHost(Some(base), Location(Hostname(site, base), port)) == base + PortSuffix(port)
  {
    hide GetHostContext, GetBaseHost, Hostname, Intended, PortSuffix;
    Classified(site, base);
    BaseHostRecovered(site, base, port);
  }

  // ---------- Exact limits ----------

  lemma MissingDomain(hostname: string, port: string)
    requires Lower(hostname) == hostname && !Heuristic(hostname).ReservedHost? && !Heuristic(hostname).Unknown?
    ensures GetBaseHost(None, Location(hostname, port)) == Strip(Heuristic(hostname), hostname + PortSuffix(port))
  {
    assert GetHostContext(hostname, hostname) == Heuristic(hostname);
  }

  /** A configured domain that the host is not under, or is the host itself, acts as a missing one. */
  lemma MisconfiguredIsMissing(hostname: string, port: string, domain: string)
    requires Lower(hostname) == hostname && Lower(domain) == domain
    requires forall p :: p != "" && p != "www" ==> hostname != p + "." + domain
    ensures GetBaseHost(Some(domain), Location(hostname, port)) == GetBaseHost(None, Location(hostname, port))
  {
    hide Lower, Subcontext, Heuristic, PrefixOf, Strip;
    NotPrefixed(hostname, domain);
    PlainContext(hostname, domain);
    HostItself(hostname);
  }

  lemma HostItself(host: string)
    ensures GetHostContext(host, host) == Heuristic(Lower(host))
  {
  }

  lemma PlainSite(site: Site, base: string)
    requires site.WwwSite? || site.LoginSite? || site.AdminSite?
    ensures Heuristic(Hostname(site, base)) == Intended(site)
  {
    var host := Hostname(site, base);
    match site
    case WwwSite => WwwContext(host);
    case LoginSite => assert host[..6] == "login.";
    case AdminSite => assert host[..6] == "admin."; OtherStart("login.", host);
  }

  lemma PlainHeuristic(site: Site, base: string, port: string)
    requires Lower(base) == base && (site.WwwSite? || site.LoginSite? || site.AdminSite?)
    ensures GetBaseHost(None, Location(Hostname(site, base), port)) == base + PortSuffix(port)
  {
    SubdomainLower(site, base);
    PlainSite(site, base);
    MissingDomain(Hostname(site, base), port);
    StripSite(site, base + PortSuffix(port));
    Associate(Subdomain(site), base, PortSuffix(port));
  }

  lemma ApexHeuristic(base: string, port: string)
    requires Lower(base) == base
    ensures GetBaseHost(None, Location(Hostname(ApexSite, base), port)) == base + PortSuffix(port)
            <==> !PlatformLike(base)
  {
    assert Hostname(ApexSite, base) == base;
    MissingDomain(base, port);
    ApexExact(base, port);
  }

  /** Without a configured domain only the heuristics remain: they recover the base domain on
      every site except a tenant's, a profile whose name has a dot, and the apex of a domain
      that begins like a platform subdomain. */
  lemma MissingDomainExact(site: Site, base: string, port: string)
    requires ValidSite(site) && Lower(base) == base
    ensures GetBaseHost(None, Location(Hostname(site, base), port)) == base + PortSuffix(port)
            <==> !site.TenantSite? && (site.ProfileSite? ==> '.' !in site.name) && Recovers(site, base)
  {
    hide GetBaseHost, Hostname, PortSuffix;
    match site
    case ApexSite => ApexHeuristic(base, port);
    case TenantSite(slug) => TenantHeuristic(slug, base, port);
    case ProfileSite(name) => ProfileHeuristic(name, base, port);
    case _ => PlainHeuristic(site, base, port);
  }

  lemma FirstLabel(first: string, rest: string, other: string)
    requires '.' !in first && '.' !in other && other + "." <= first + "." + rest
    ensures first == other
  {
    var s := first + "." + rest;
    IndexOfFirst(first, '.', "." + rest);
    assert s == first + ("." + rest);
    IndexOfFirst(other, '.', "." + s[|other| + 1..]);
    assert s == other + ("." + s[|other| + 1..]);
    assert s[..|first|] == first && s[..|other|] == other;
  }

  lemma TenantContext(slug: string, base: string)
    requires ValidSite(TenantSite(slug))
    ensures Heuristic(slug + "." + base) == Apex && !("www." <= slug + "." + base)
  {
    var hostname := slug + "." + base;
    if "login." <= hostname { FirstLabel(slug, base, "login"); }
    if "admin." <= hostname { FirstLabel(slug, base, "admin"); }
    if "www." <= hostname { FirstLabel(slug, base, "www"); }
    if "u." <= hostname { FirstLabel(slug, base, "u"); }
  }

  lemma TenantHeuristic(slug: string, base: string, port: string)
    requires ValidSite(TenantSite(slug)) && Lower(base) == base
    ensures GetBaseHost(None, Location(Hostname(TenantSite(slug), base), port)) != base + PortSuffix(port)
  {
    var hostname := Hostname(TenantSite(slug), base);
    SubdomainLower(TenantSite(slug), base);
    TenantContext(slug, base);
    MissingDomain(hostname, port);
    PortKeepsWww(hostname, port);
    assert |hostname + PortSuffix(port)| > |base + PortSuffix(port)|;
  }

  lemma FirstDot(name: string, base: string)
    ensures IndexOf(name + "." + base, '.') == IndexOf(name, '.') < |name + "." + base|
  {
    var i := IndexOf(name, '.');
    var more := name[i..] + "." + base;
    assert name + "." + base == name[..i] + more;
    IndexOfFirst(name[..i], '.', more);
  }

  lemma LabelAfterU(rest: string)
    ensures var i := IndexOf(rest, '.');
            ProfileLabel("u." + rest) == if 0 < i < |rest| then Some(rest[..i]) else None
  {
    var host := "u." + rest;
    assert host[..2] == "u." && host[2..] == rest;
  }

  lemma ProfileContext(name: string, base: string)
    ensures var i := IndexOf(name, '.');
            Heuristic("u." + (name + "." + base)) == if i == 0 then Apex else Profile(name[..i])
  {
    var rest, i := name + "." + base, IndexOf(name, '.');
    FirstDot(name, base);
    LabelAfterU(rest);
    assert rest[..i] == name[..i];
    OtherStart("login.", "u." + rest);
    OtherStart("admin.", "u." + rest);
  }

  lemma IndexOfAbsent(name: string)
    ensures '.' !in name <==> IndexOf(name, '.') == |name|
  {
    assert name[..|name|] == name;
  }

  lemma DottedTooLong(name: string, host: string, tail: string)
    requires '.' in name && host != "" && host[0] == 'u' && |host| == |name| + 3 + |tail|
    ensures var i := IndexOf(name, '.'); Strip(if i == 0 then Apex else Profile(name[..i]), host) != tail
  {
    var i := IndexOf(name, '.');
    IndexOfAbsent(name);
    OtherStart("www.", host);
    assert |"u." + name[..i] + "."| == i + 3;
  }

  lemma ProfileHeuristic(name: string, base: string, port: string)
    requires ValidSite(ProfileSite(name)) && Lower(base) == base
    ensures GetBaseHost(None, Location(Hostname(ProfileSite(name), base), port)) == base + PortSuffix(port)
            <==> '.' !in name
  {
    var site, tail, i := ProfileSite(name), base + PortSuffix(port), IndexOf(name, '.');
    var hostname := Hostname(site, base);
    SubdomainLower(site, base);
    Associate("u.", name + ".", base);
    Associate("u.", name, ".");
    Associate(name, ".", base);
    ProfileContext(name, base);
    MissingDomain(hostname, port);
    Associate(Subdomain(site), base, PortSuffix(port));
    IndexOfAbsent(name);
    if '.' in name {
      DottedTooLong(name, Subdomain(site) + tail, tail);
    } else {
      assert name[..i] == name;
      StripSite(site, tail);
    }
  }
}
