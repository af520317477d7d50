/** Which address a request is attributed to behind trusted proxies, and CIDR matching across
    IPv4 and IPv4-mapped IPv6 addresses (section 2.5.5.2 of RFC 4291). Addresses are numbers
    below 2^32 and 2^128; parsing one address from text is an argument. */
module ClientIp {
  import opened Numbers
  import opened Wrappers

  const P32: nat := 0x1_0000_0000
  const P128: nat := 0x1_0000_0000_0000_0000_0000_0000_0000_0000
  const MAPPED_HIGH: nat := 0xffff

  type U32 = n: nat | n < P32 witness 0
  type U128 = n: nat | n < P128 witness 0
  type Prefix4 = n: nat | n <= 32 witness 0
  type Prefix6 = n: nat | n <= 128 witness 0

  datatype IpAddr = V4(v4: U32) | V6(v6: U128)

  datatype IpNet = Net4(a4: U32, p4: Prefix4) | Net6(a6: U128, p6: Prefix6)

  // ---------- CIDR arithmetic ----------

  function Pow2(n: nat): (r: nat)
    ensures r >= 1
  {
    if n == 0 then 1 else 2 * Pow2(n - 1)
  }

  /** The first address of the block of `size` addresses that holds `addr`. */
  function Network(addr: nat, size: nat): nat
    requires size >= 1
  {
    addr - addr % size
  }

  predicate InBlock(addr: nat, size: nat, v: nat)
    requires size >= 1
  {
    Network(addr, size) <= v <= Network(addr, size) + size - 1
  }

  predicate Contains(net: IpNet, ip: IpAddr) {
    match (net, ip)
    case (Net4(a, p), V4(v)) => InBlock(a, Pow2(32 - p), v)
    case (Net6(a, p), V6(v)) => InBlock(a, Pow2(128 - p), v)
    case _ => false
  }

  function ToMapped(v: U32): U128 {
    MAPPED_HIGH * P32 + v
  }

  function FromMapped(v: U128): Option<U32> {
    if v / P32 == MAPPED_HIGH then Some(v % P32) else None
  }

  function Normalize(ip: IpAddr): IpAddr {
    match ip
    case V6(v) => (match FromMapped(v) case Some(w) => V4(w) case None => ip)
    case V4(_) => ip
  }

  predicate Matches(ip: IpAddr, net: IpNet) {
    Contains(net, ip) ||
    match (ip, net)
    case (V4(v), Net6(_, _)) => Contains(net, V6(ToMapped(v)))
    case (V6(v), Net4(_, _)) => (match FromMapped(v) case Some(w) => Contains(net, V4(w)) case None => false)
    case _ => false
  }

  predicate IsTrusted(ip: IpAddr, nets: seq<IpNet>) {
    exists i :: 0 <= i < |nets| && Matches(ip, nets[i])
  }

  lemma Pow2Splits(a: nat, b: nat)
    ensures Pow2(a + b) == Pow2(a) * Pow2(b)
  {
    if a > 0 { Pow2Splits(a - 1, b); }
  }

  lemma Pow32Is()
    ensures Pow2(32) == P32
  {
    Pow2Splits(16, 16);
    assert Pow2(8) == 256;
    Pow2Splits(8, 8);
  }

  lemma QuotientUnique(x: nat, size: nat, q: nat, r: nat)
    requires r < size && x == q * size + r
    ensures x / size == q
  {
    ScaleStrict(q, x / size, size);
    ScaleStrict(x / size, q, size);
  }

  /** Being in a block is having the same quotient: the leading bits agree. */
  lemma BlockIsPrefix(addr: nat, size: nat, v: nat)
    requires size >= 1
    ensures InBlock(addr, size, v) <==> v / size == addr / size
  {
    var q := addr / size;
    assert addr == q * size + addr % size;
    if InBlock(addr, size, v) {
      QuotientUnique(v, size, q, v - q * size);
    }
    if v / size == q {
      assert v == q * size + v % size;
    }
  }

  /** A net holds the addresses of its own family whose leading bits are its own, as many as the
      prefix says. */
  lemma ContainsExact(net: IpNet, ip: IpAddr)
    ensures Contains(net, ip) <==>
            match (net, ip)
            case (Net4(a, p), V4(v)) => v / Pow2(32 - p) == a / Pow2(32 - p)
            case (Net6(a, p), V6(v)) => v / Pow2(128 - p) == a / Pow2(128 - p)
            case _ => false
  {
    hide Pow2, InBlock;
    match (net, ip)
    case (Net4(a, p), V4(v)) => BlockIsPrefix(a, Pow2(32 - p), v);
    case (Net6(a, p), V6(v)) => BlockIsPrefix(a, Pow2(128 - p), v);
    case _ =>
  }

  lemma ShiftQuotient(high: nat, n: nat, size: nat, blocks: nat, v: nat)
    requires size >= 1 && n == blocks * size
    ensures (high * n + v) / size == high * blocks + v / size
  {
    var q := high * blocks;
    assert high * n == q * size;
    assert (q + v / size) * size == q * size + (v / size) * size;
    QuotientUnique(high * n + v, size, q + v / size, v % size);
  }

  /** A block inside one span of `n` addresses stays inside it. */
  lemma BlockInSpan(high: nat, n: nat, size: nat, blocks: nat, a: nat, v: nat)
    requires size >= 1 && n == blocks * size && a < n && InBlock(high * n + a, size, v)
    ensures high * n <= v < high * n + n
  {
    BlockIsPrefix(high * n + a, size, v);
    ShiftQuotient(high, n, size, blocks, a);
    QuotientBelow(a, size, blocks);
    SpanOf(high * blocks, blocks, size, v);
    assert (high * blocks) * size == high * n;
  }

  lemma QuotientBelow(a: nat, size: nat, blocks: nat)
    requires size >= 1 && a < blocks * size
    ensures a / size < blocks
  {
    ScaleStrict(blocks, a / size, size);
    assert a == (a / size) * size + a % size;
  }

  lemma SpanOf(k: nat, blocks: nat, size: nat, v: nat)
    requires size >= 1 && k <= v / size < k + blocks
    ensures k * size <= v < k * size + blocks * size
  {
    var q := v / size;
    assert v == q * size + v % size;
    ScaleStrict(k, q, size);
    ScaleStrict(q, k + blocks, size);
    assert (k + blocks) * size == k * size + blocks * size;
  }

  /** Mapping an address shifts its quotient by a constant, for every block of a mapped net. */
  lemma MappedQuotient(p: Prefix4, v: U32)
    ensures ToMapped(v) / Pow2(32 - p) == MAPPED_HIGH * Pow2(p) + v / Pow2(32 - p)
  {
    Pow32Is();
    Pow2Splits(p, 32 - p);
    ShiftQuotient(MAPPED_HIGH, P32, Pow2(32 - p), Pow2(p), v);
  }

  /** The IPv6 form of an IPv4 net: `::ffff:a.b.c.d/(96+p)`. */
  function MapNet(net: IpNet): IpNet {
    match net
    case Net4(a, p) => Net6(ToMapped(a), 96 + p)
    case Net6(_, _) => net
  }

  /** a.b.c.d/p holds v if and only if ::ffff:a.b.c.d/(96+p) holds the mapped v. */
  lemma MappedContains(a: U32, p: Prefix4, v: U32)
    ensures Contains(Net4(a, p), V4(v)) <==> Contains(Net6(ToMapped(a), 96 + p), V6(ToMapped(v)))
  {
    var size := Pow2(32 - p);
    BlockIsPrefix(a, size, v);
    BlockIsPrefix(ToMapped(a), size, ToMapped(v));
    MappedQuotient(p, a);
    MappedQuotient(p, v);
    assert 128 - (96 + p) == 32 - p;
  }

  lemma UnmapMap(v: U32)
    ensures FromMapped(ToMapped(v)) == Some(v)
  {
  }

  lemma MapUnmap(v: U128)
    ensures FromMapped(v).Some? ==> ToMapped(FromMapped(v).value) == v
  {
  }

  /** A mapped net holds mapped addresses only. */
  lemma MappedNetHoldsMapped(a: U32, p: Prefix4, v: U128)
    requires Contains(Net6(ToMapped(a), 96 + p), V6(v))
    ensures FromMapped(v).Some?
  {
    assert 128 - (96 + p) == 32 - p;
    Pow32Is();
    Pow2Splits(p, 32 - p);
    BlockInSpan(MAPPED_HIGH, P32, Pow2(32 - p), Pow2(p), a, v);
  }

  /** The IPv4 address a mapped IPv6 address stands for: `::ffff:a.b.c.d` and no other. */
  lemma NormalizeExact(ip: IpAddr, w: IpAddr)
    ensures Normalize(ip) == w <==>
            match ip
            case V4(_) => w == ip
            case V6(v) =>
              if 0xffff_0000_0000 <= v < 0x1_0000_0000_0000
              then w.V4? && w.v4 == v - 0xffff_0000_0000 else w == ip
  {
  }

  /** What a net matches, in numbers: addresses of its family by their leading bits, an IPv4
      address in an IPv6 net by its mapped form, a mapped IPv6 address in an IPv4 net by the
      IPv4 address it stands for. */
  lemma MatchesExact(ip: IpAddr, net: IpNet)
    ensures Matches(ip, net) <==>
            match (ip, net)
            case (V4(v), Net4(a, p)) => v / Pow2(32 - p) == a / Pow2(32 - p)
            case (V6(v), Net6(a, p)) => v / Pow2(128 - p) == a / Pow2(128 - p)
            case (V4(v), Net6(a, p)) => (0xffff_0000_0000 + v) / Pow2(128 - p) == a / Pow2(128 - p)
            case (V6(v), Net4(a, p)) =>
              && 0xffff_0000_0000 <= v < 0x1_0000_0000_0000
              && (v - 0xffff_0000_0000) / Pow2(32 - p) == a / Pow2(32 - p)
  {
    hide Pow2, Contains;
    ContainsExact(net, ip);
    match (ip, net)
    case (V4(v), Net6(_, _)) => ContainsExact(net, V6(ToMapped(v)));
    case (V6(v), Net4(_, _)) => if FromMapped(v).Some? { ContainsExact(net, V4(FromMapped(v).value)); }
    case _ =>
  }

  /** An IPv4 address and its mapped IPv6 form match exactly the same nets. */
  lemma MatchMappedAddress(v: U32, net: IpNet)
    ensures Matches(V4(v), net) <==> Matches(V6(ToMapped(v)), net)
  {
    UnmapMap(v);
  }

  /** Every address matches an IPv4 net exactly when it matches the net's mapped form. */
  lemma MatchMappedNet(ip: IpAddr, net: IpNet)
    ensures Matches(ip, net) <==> Matches(ip, MapNet(net))
  {
    match (ip, net)
    case (V4(v), Net4(a, p)) => MappedContains(a, p, v);
    case (V6(v), Net4(a, p)) =>
      MapUnmap(v);
      if FromMapped(v).Some? {
        MappedContains(a, p, FromMapped(v).value);
      } else if Contains(MapNet(net), ip) {
        MappedNetHoldsMapped(a, p, v);
      }
    case _ =>
  }

  lemma TrustNormalized(ip: IpAddr, nets: seq<IpNet>)
    ensures IsTrusted(ip, nets) <==> IsTrusted(Normalize(ip), nets)
  {
    if ip.V6? && FromMapped(ip.v6).Some? {
      MapUnmap(ip.v6);
      forall i | 0 <= i < |nets| ensures Matches(ip, nets[i]) <==> Matches(Normalize(ip), nets[i]) {
        MatchMappedAddress(FromMapped(ip.v6).value, nets[i]);
      }
    }
  }

  function MapNets(nets: seq<IpNet>): seq<IpNet> {
    seq(|nets|, i requires 0 <= i < |nets| => MapNet(nets[i]))
  }

  lemma TrustMappedNets(ip: IpAddr, nets: seq<IpNet>)
    ensures IsTrusted(ip, nets) <==> IsTrusted(ip, MapNets(nets))
  {
    forall i | 0 <= i < |nets| ensures Matches(ip, nets[i]) <==> Matches(ip, MapNets(nets)[i]) {
      MatchMappedNet(ip, nets[i]);
    }
  }

  // ---------- The header ----------

  /** `str::split(',')`. */
  function Split(s: string): (parts: seq<string>)
    ensures parts != []
  {
    if s == [] then [[]]
    else
      var rest := Split(s[1..]);
      if s[0] == ',' then [[]] + rest else [[s[0]] + rest[0]] + rest[1..]
  }

  /** White space a header value can hold. */
  predicate IsBlank(c: char) {
    c == ' ' || c == '\t'
  }

  function TrimStart(s: string): string {
    if s != [] && IsBlank(s[0]) then TrimStart(s[1..]) else s
  }

  function TrimEnd(s: string): string {
    if s != [] && IsBlank(s[|s| - 1]) then TrimEnd(s[..|s| - 1]) else s
  }

  function Trim(s: string): string {
    TrimEnd(TrimStart(s))
  }

  ghost predicate AllBlank(s: string) {
    forall i :: 0 <= i < |s| ==> s[i] == ' ' || s[i] == '\t'
  }

  /** A text without blanks at its ends. */
  ghost predicate Bare(s: string) {
    s != [] ==> s[0] != ' ' && s[0] != '\t' && s[|s| - 1] != ' ' && s[|s| - 1] != '\t'
  }

  lemma {:induction false} TrimStartDrops(pre: string, s: string)
    requires AllBlank(pre) && (s != [] ==> !IsBlank(s[0]))
    ensures TrimStart(pre + s) == s
  {
    if pre == [] {
      assert pre + s == s;
    } else {
      assert (pre + s)[1..] == pre[1..] + s;
      TrimStartDrops(pre[1..], s);
    }
  }

  lemma {:induction false} TrimEndDrops(s: string, post: string)
    requires AllBlank(post) && (s != [] ==> !IsBlank(s[|s| - 1]))
    ensures TrimEnd(s + post) == s
  {
    if post == [] {
      assert s + post == s;
    } else {
      assert (s + post)[..|s + post| - 1] == s + post[..|post| - 1];
      TrimEndDrops(s, post[..|post| - 1]);
    }
  }

  /** Trimming removes exactly the blanks around an entry. */
  lemma TrimExact(pre: string, s: string, post: string)
    requires AllBlank(pre) && AllBlank(post) && Bare(s)
    ensures Trim(pre + s + post) == s
  {
    if s == [] {
      assert pre + s + post == (pre + post) + [];
      TrimStartDrops(pre + post, []);
    } else {
      assert pre + s + post == pre + (s + post);
      TrimStartDrops(pre, s + post);
      TrimEndDrops(s, post);
    }
  }

  function Join(parts: seq<string>): string
    requires parts != []
  {
    if |parts| == 1 then parts[0] else parts[0] + "," + Join(parts[1..])
  }

  /** Splitting and joining are inverse, and no entry holds a comma. */
  lemma {:induction false} SplitExact(s: string)
    ensures Join(Split(s)) == s
    ensures forall i :: 0 <= i < |Split(s)| ==> ',' !in Split(s)[i]
  {
    if s != [] {
      SplitExact(s[1..]);
      var rest := Split(s[1..]);
      if s[0] == ',' {
        assert Split(s)[1..] == rest;
      } else if |rest| > 1 {
        assert Split(s)[1..] == rest[1..];
      }
    }
  }

  /** The normalized address of an entry that parses and is not trusted. */
  function Candidate(part: string, nets: seq<IpNet>, parse: string -> Option<IpAddr>): Option<IpAddr> {
    match parse(Trim(part))
    case None => None
    case Some(ip) => if IsTrusted(Normalize(ip), nets) then None else Some(Normalize(ip))
  }

  /** The rightmost entry that is a candidate. */
  function Rightmost(parts: seq<string>, nets: seq<IpNet>, parse: string -> Option<IpAddr>): Option<IpAddr> {
    if parts == [] then None
    else
      var c := Candidate(parts[|parts| - 1], nets, parse);
      if c.Some? then c else Rightmost(parts[..|parts| - 1], nets, parse)
  }

  /** It is the k-th entry for the largest k that is a candidate, and none without one. */
  lemma {:induction false} RightmostExact(parts: seq<string>, nets: seq<IpNet>, parse: string -> Option<IpAddr>)
    ensures var r := Rightmost(parts, nets, parse);
            && (r.None? <==> forall k :: 0 <= k < |parts| ==> Candidate(parts[k], nets, parse).None?)
            && (r.Some? ==> exists k :: 0 <= k < |parts| && Candidate(parts[k], nets, parse) == r
                                        && forall j :: k < j < |parts| ==> Candidate(parts[j], nets, parse).None?)
  {
    if parts != [] {
      var front := parts[..|parts| - 1];
      RightmostExact(front, nets, parse);
      assert forall k :: 0 <= k < |front| ==> front[k] == parts[k];
    }
  }

  function ClientIp(nets: seq<IpNet>, peer: IpAddr, header: Option<string>, parse: string -> Option<IpAddr>): IpAddr {
    var peerIp := Normalize(peer);
    if nets == [] || !IsTrusted(peerIp, nets) || header.None? then peerIp
    else
      match Rightmost(Split(header.value), nets, parse)
      case Some(ip) => ip
      case None => peerIp
  }

  method ResolveClientIp(nets: seq<IpNet>, peer: IpAddr, header: Option<string>, parse: string -> Option<IpAddr>)
    returns (ip: IpAddr)
    ensures ip == ClientIp(nets, peer, header, parse)
  {
    var peerIp := Normalize(peer);
    if nets == [] {
      return peerIp;
    }
    var peerTrusted := AnyMatches(peerIp, nets);
    if !peerTrusted {
      return peerIp;
    }
    if header.Some? {
      var parts := Split(header.value);
      var n := |parts|;
      assert parts[..n] == parts;
      while n > 0
        invariant 0 <= n <= |parts|
        invariant Rightmost(parts, nets, parse) == Rightmost(parts[..n], nets, parse)
      {
        n := n - 1;
        RightmostSplit(parts, n, nets, parse);
        var parsed := parse(Trim(parts[n]));
        if parsed.Some? {
          var entry := Normalize(parsed.value);
          var trusted := AnyMatches(entry, nets);
          if !trusted {
            return entry;
          }
        }
      }
    }
    return peerIp;
  }

  lemma RightmostSplit(parts: seq<string>, n: nat, nets: seq<IpNet>, parse: string -> Option<IpAddr>)
    requires n < |parts|
    ensures Rightmost(parts[..n + 1], nets, parse)
         == if Candidate(parts[n], nets, parse).Some? then Candidate(parts[n], nets, parse)
            else Rightmost(parts[..n], nets, parse)
  {
    assert parts[..n + 1][..n] == parts[..n];
  }

  method AnyMatches(ip: IpAddr, nets: seq<IpNet>) returns (found: bool)
    ensures found == IsTrusted(ip, nets)
  {
    for i := 0 to |nets|
      invariant forall j :: 0 <= j < i ==> !Matches(ip, nets[j])
    {
      if Matches(ip, nets[i]) {
        return true;
      }
    }
    return false;
  }

  // ---------- What the header cannot do ----------

  lemma {:induction false} SplitPrepend(x: string, s: string)
    ensures Split(x + "," + s) == Split(x) + Split(s)
  {
    var whole := x + "," + s;
    if x == [] {
      assert whole[1..] == s;
    } else {
      assert whole[1..] == x[1..] + "," + s;
      SplitPrepend(x[1..], s);
    }
  }

  lemma {:induction false} RightmostAppend(a: seq<string>, b: seq<string>, nets: seq<IpNet>,
      parse: string -> Option<IpAddr>)
    ensures Rightmost(a + b, nets, parse)
         == if Rightmost(b, nets, parse).Some? then Rightmost(b, nets, parse) else Rightmost(a, nets, parse)
  {
    if b == [] {
      assert a + b == a;
    } else {
      assert (a + b)[..|a + b| - 1] == a + b[..|b| - 1];
      RightmostAppend(a, b[..|b| - 1], nets, parse);
    }
  }

  /** The trimmed entry parses, and no net matches the address it stands for. */
  ghost predicate Untrusted(part: string, nets: seq<IpNet>, parse: string -> Option<IpAddr>) {
    && parse(Trim(part)).Some?
    && forall i :: 0 <= i < |nets| ==> !Matches(Normalize(parse(Trim(part)).value), nets[i])
  }

  /** Entry `k` is untrusted and no entry to its right is. */
  ghost predicate IsChosen(parts: seq<string>, k: nat, nets: seq<IpNet>, parse: string -> Option<IpAddr>) {
    k < |parts| && Untrusted(parts[k], nets, parse) && forall j :: k < j < |parts| ==> !Untrusted(parts[j], nets, parse)
  }

  lemma CandidateIsUntrusted(part: string, nets: seq<IpNet>, parse: string -> Option<IpAddr>)
    ensures Candidate(part, nets, parse)
         == if Untrusted(part, nets, parse) then Some(Normalize(parse(Trim(part)).value)) else None
  {
  }

  /** If a net matches the peer and the header has an untrusted entry, the address is that of the
      rightmost one; in every other case it is the peer's own. */
  lemma AttributionExact(nets: seq<IpNet>, peer: IpAddr, header: Option<string>, parse: string -> Option<IpAddr>)
    ensures var ip := ClientIp(nets, peer, header, parse);
            if (exists i :: 0 <= i < |nets| && Matches(peer, nets[i]))
               && header.Some? && exists k: nat :: IsChosen(Split(header.value), k, nets, parse)
            then forall k: nat :: IsChosen(Split(header.value), k, nets, parse) ==>
                   ip == Normalize(parse(Trim(Split(header.value)[k])).value)
            else ip == Normalize(peer)
  {
    hide Matches, Trim, Candidate;
    TrustNormalized(peer, nets);
    if header.Some? {
      forall k | 0 <= k < |Split(header.value)|
        ensures Candidate(Split(header.value)[k], nets, parse)
             == if Untrusted(Split(header.value)[k], nets, parse)
                then Some(Normalize(parse(Trim(Split(header.value)[k])).value)) else None
      {
        CandidateIsUntrusted(Split(header.value)[k], nets, parse);
      }
      var parts := Split(header.value);
      RightmostExact(parts, nets, parse);
      var r := Rightmost(parts, nets, parse);
      if r.Some? {
        var k: nat :| k < |parts| && Candidate(parts[k], nets, parse) == r
                      && forall j :: k < j < |parts| ==> Candidate(parts[j], nets, parse).None?;
        assert IsChosen(parts, k, nets, parse);
        forall m: nat | IsChosen(parts, m, nets, parse) ensures m == k {
          assert !(m < k) && !(k < m);
        }
      }
    }
  }

  /** Text prepended to a header changes the attributed address only when the header held no
      untrusted address of its own. */
  lemma PrependIgnored(nets: seq<IpNet>, peer: IpAddr, x: string, header: string, parse: string -> Option<IpAddr>)
    requires Rightmost(Split(header), nets, parse).Some?
    ensures ClientIp(nets, peer, Some(x + "," + header), parse) == ClientIp(nets, peer, Some(header), parse)
  {
    SplitPrepend(x, header);
    RightmostAppend(Split(x), Split(header), nets, parse);
  }

  /** The attributed address is never an IPv4-mapped one, so one client cannot appear under
      two forms; and unless it is the peer's own, it is untrusted. */
  lemma ResultNormalized(nets: seq<IpNet>, peer: IpAddr, header: Option<string>, parse: string -> Option<IpAddr>)
    ensures var ip := ClientIp(nets, peer, header, parse);
            && Normalize(ip) == ip
            && (ip == Normalize(peer) || (IsTrusted(peer, nets) && !IsTrusted(ip, nets)))
  {
    TrustNormalized(peer, nets);
    if header.Some? { RightmostUntrusted(Split(header.value), nets, parse); }
  }

  lemma {:induction false} RightmostUntrusted(parts: seq<string>, nets: seq<IpNet>, parse: string -> Option<IpAddr>)
    ensures var r := Rightmost(parts, nets, parse);
            r.Some? ==> Normalize(r.value) == r.value && !IsTrusted(r.value, nets)
  {
    if parts != [] { RightmostUntrusted(parts[..|parts| - 1], nets, parse); }
  }

  /** The attribution does not depend on which form of the peer's address the socket reports. */
  lemma PeerFormIrrelevant(nets: seq<IpNet>, v: U32, header: Option<string>, parse: string -> Option<IpAddr>)
    ensures ClientIp(nets, V4(v), header, parse) == ClientIp(nets, V6(ToMapped(v)), header, parse)
  {
    UnmapMap(v);
  }

  /** Nor on whether the operator wrote the trusted nets as IPv4 or as mapped IPv6 nets. */
  lemma NetFormIrrelevant(nets: seq<IpNet>, peer: IpAddr, header: Option<string>, parse: string -> Option<IpAddr>)
    ensures ClientIp(MapNets(nets), peer, header, parse) == ClientIp(nets, peer, header, parse)
  {
    TrustMappedNets(Normalize(peer), nets);
    if header.Some? {
      RightmostMapped(Split(header.value), nets, parse);
    }
  }

  lemma {:induction false} RightmostMapped(parts: seq<string>, nets: seq<IpNet>, parse: string -> Option<IpAddr>)
    ensures Rightmost(parts, MapNets(nets), parse) == Rightmost(parts, nets, parse)
  {
    if parts != [] {
      RightmostMapped(parts[..|parts| - 1], nets, parse);
      var parsed := parse(Trim(parts[|parts| - 1]));
      if parsed.Some? { TrustMappedNets(Normalize(parsed.value), nets); }
    }
  }
}
