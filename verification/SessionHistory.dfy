/** The stored sessions are a function of history: which are live, and what they know of
    their user's memberships, is decided by the calls made so far and nothing else. */
module SessionHistory {
  import opened Wrappers
  import opened SessionModel
  import opened Sequences

  // ---------- History, without any store ----------

  predicate IssuedAt(trace: seq<Call>, i: nat, token: Id) {
    i < |trace| && trace[i].op.Issue? && trace[i].op.token == token
  }

  function Expiry(trace: seq<Call>, i: nat, c: Config): int
    requires i < |trace| && trace[i].op.Issue?
  {
    trace[i].now + match trace[i].op.kind
                   case Access => c.accessSeconds
                   case LongLived => c.longSeconds
                   case Refresh => c.refreshSeconds
  }

  /** The session issued by call `i` has not been revoked by a call before `n`. */
  ghost predicate LiveAt(trace: seq<Call>, n: nat, i: nat, c: Config)
    requires i < n <= |trace| && trace[i].op.Issue?
    decreases n, 0
  {
    forall j :: i < j < n ==> !Revokes(trace, j, i, c)
  }

  /** Call `j` revokes the session issued by call `i`. */
  ghost predicate Revokes(trace: seq<Call>, j: nat, i: nat, c: Config)
    requires i < j < |trace| && trace[i].op.Issue?
    decreases j, 1
  {
    var issue := trace[i].op;
    match trace[j].op
    case Issue(_, _, _, _, _) => false
    case Revoke(token) => token == issue.token
    case RevokePair(pair, exceptToken) => issue.pair == Some(pair) && issue.token != exceptToken
    case RevokeById(user, publicId) =>
      publicId == issue.publicId && user == issue.user && trace[j].now < Expiry(trace, i, c)
    case InvalidateBoth(token) =>
      exists k :: 0 <= k < j && IssuedAt(trace, k, token)
                  && LiveAt(trace, j, k, c) && trace[j].now < Expiry(trace, k, c)
                  && (k == i || (issue.pair.Some? && trace[k].op.pair == issue.pair))
    case Member(_) => false
  }

  /** One membership event on a map from tenant to role. */
  function Replay1(m: map<Id, string>, e: MembershipEvent): map<Id, string> {
    match e
    case Added(tenant, _, role) => m[tenant := role]
    case Updated(tenant, _, role) => if tenant in m then m[tenant := role] else m
    case Removed(tenant, _) => m - {tenant}
  }

  /** The user's events after call `i` and before call `n`, replayed onto no memberships. */
  function Replay(trace: seq<Call>, i: nat, n: nat, user: Id, c: Config): map<Id, string>
    requires i < n <= |trace|
  {
    if n == i + 1 then map[]
    else
      var m := Replay(trace, i, n - 1, user, c);
      var op := trace[n - 1].op;
      if c.syncEnabled && op.Member? && op.event.user == user then Replay1(m, op.event) else m
  }

  ghost predicate OnePerTenant(list: seq<Snapshot>) {
    forall i, j :: 0 <= i < j < |list| ==> list[i].tenant != list[j].tenant
  }

  /** The list holds one entry per tenant of the map, with its role, and nothing else. */
  ghost predicate ListIsMap(list: seq<Snapshot>, m: map<Id, string>) {
    && OnePerTenant(list)
    && (forall x :: x in list <==> x.tenant in m && m[x.tenant] == x.role)
  }

  // ---------- Membership lists follow their map ----------

  lemma {:induction false} RetainDistinct(list: seq<Snapshot>, tenant: Id)
    requires OnePerTenant(list)
    ensures OnePerTenant(Retain(list, tenant))
  {
    if list != [] {
      RetainDistinct(list[1..], tenant);
      forall x | x in Retain(list[1..], tenant) ensures x.tenant != list[0].tenant {
        assert x in list[1..];
        var k :| 0 <= k < |list[1..]| && list[1..][k] == x;
      }
    }
  }

  lemma SetRole(list: seq<Snapshot>, m: map<Id, string>, i: nat, role: string)
    requires ListIsMap(list, m) && i < |list|
    ensures ListIsMap(list[i := list[i].(role := role)], m[list[i].tenant := role])
    ensures list[i].tenant in m
  {
    var list', new' := list[i := list[i].(role := role)], list[i].(role := role);
    assert list[i] in list;
    forall x ensures x in list' <==> x == new' || (x in list && x.tenant != new'.tenant) {
      if x in list && x.tenant != new'.tenant {
        var j :| 0 <= j < |list| && list[j] == x;
        assert list'[j] == x;
      }
      if x in list' && x != new' {
        var j :| 0 <= j < |list| && list'[j] == x;
        assert j != i && list[j] == x;
      }
      assert list'[i] == new';
    }
  }

  lemma PresentTenant(list: seq<Snapshot>, m: map<Id, string>, tenant: Id)
    requires ListIsMap(list, m) && tenant in m
    ensures Find(list, tenant) < |list|
  {
    assert Snapshot(tenant, m[tenant]) in list;
  }

  lemma EventOnList(list: seq<Snapshot>, m: map<Id, string>, e: MembershipEvent)
    requires ListIsMap(list, m)
    ensures ListIsMap(ApplyToList(list, e), Replay1(m, e))
  {
    var i := Find(list, e.tenant);
    if e.tenant in m { PresentTenant(list, m, e.tenant); }
    if e.Removed? {
      RetainDistinct(list, e.tenant);
    } else if i < |list| {
      SetRole(list, m, i, e.role);
    } else {
      assert forall x :: x in list ==> x.tenant != e.tenant;
    }
  }

  /** On a list with one entry per tenant an added or updated role replaces the tenant's in place,
      an added tenant goes to the end, a removed one is cut out, and nothing else changes. */
  lemma EventInPlace(list: seq<Snapshot>, e: MembershipEvent, k: nat)
    requires OnePerTenant(list)
    ensures k < |list| && list[k].tenant == e.tenant ==>
              ApplyToList(list, e) == if e.Removed? then list[..k] + list[k + 1..]
                                      else list[k := Snapshot(e.tenant, e.role)]
    ensures (forall i :: 0 <= i < |list| ==> list[i].tenant != e.tenant) ==>
              ApplyToList(list, e) == if e.Added? then list + [Snapshot(e.tenant, e.role)] else list
  {
    hide Retain;
    if k < |list| && list[k].tenant == e.tenant {
      assert !(Find(list, e.tenant) < k) && !(k < Find(list, e.tenant));
      if e.Removed? { RetainCuts(list, e.tenant, k); }
    } else if forall i :: 0 <= i < |list| ==> list[i].tenant != e.tenant {
      if e.Removed? { RetainAll(list, e.tenant); }
    }
  }

  lemma OnePerTenantTail(list: seq<Snapshot>)
    requires OnePerTenant(list) && list != []
    ensures OnePerTenant(list[1..]) && forall i :: 0 <= i < |list[1..]| ==> list[1..][i].tenant != list[0].tenant
  {
  }

  lemma {:induction false} RetainCuts(list: seq<Snapshot>, tenant: Id, k: nat)
    requires OnePerTenant(list) && k < |list| && list[k].tenant == tenant
    ensures Retain(list, tenant) == list[..k] + list[k + 1..]
  {
    hide OnePerTenant;
    OnePerTenantTail(list);
    if k == 0 {
      RetainAll(list[1..], tenant);
    } else {
      RetainCuts(list[1..], tenant, k - 1);
      CutTail(list, k);
      assert list[1..][k - 1].tenant != list[0].tenant;
    }
  }

  lemma {:induction false} RetainAll(list: seq<Snapshot>, tenant: Id)
    requires forall i :: 0 <= i < |list| ==> list[i].tenant != tenant
    ensures Retain(list, tenant) == list
  {
    if list != [] { RetainAll(list[1..], tenant); }
  }

  // ---------- The store follows history ----------

  /** What the store holds for the session issued by call `i`, after `n` calls. */
  ghost predicate Records(stored: Stored, trace: seq<Call>, n: nat, i: nat, c: Config)
    requires i < n <= |trace| && trace[i].op.Issue?
  {
    stored.publicId == trace[i].op.publicId && Describes(stored.session, trace, n, i, c)
  }

  /** The session issued by call `i`, as calls before `n` have left it. */
  ghost predicate Describes(session: Session, trace: seq<Call>, n: nat, i: nat, c: Config)
    requires i < n <= |trace| && trace[i].op.Issue?
  {
    var issue := trace[i].op;
    && session.user == issue.user
    && session.kind == issue.kind
    && session.pair == issue.pair
    && session.expiresAt == Expiry(trace, i, c)
    && ListIsMap(session.memberships, Replay(trace, i, n, issue.user, c))
  }

  /** Every stored token was issued. */
  lemma {:induction false} StoredWasIssued(trace: seq<Call>, n: nat, token: Id, c: Config)
    requires n <= |trace| && token in StoreAt(trace, n, c)
    ensures exists i :: 0 <= i < n && IssuedAt(trace, i, token)
  {
    if IssuedAt(trace, n - 1, token) {
    } else {
      StoredWasIssued(trace, n - 1, token, c);
    }
  }

  /** The call drops a stored token. */
  ghost predicate Removes(s: Sessions, call: Call, token: Id)
    requires token in s
  {
    match call.op
    case Revoke(t) => t == token
    case RevokePair(pair, exceptToken) => s[token].session.pair == Some(pair) && token != exceptToken
    case RevokeById(user, publicId) => OwnsId(s[token], user, publicId, call.now)
    case InvalidateBoth(t) => token !in InvalidatePair(s, t, call.now)
    case _ => false
  }

  /** What one call does to one stored token it does not issue. */
  lemma OneToken(s: Sessions, call: Call, token: Id, c: Config)
    requires token in s && (call.op.Issue? ==> call.op.token != token)
    ensures var s' := Apply(s, call, c);
            && (token in s' <==> !Removes(s, call, token))
            && (token in s' ==>
                  s'[token] == if call.op.Member? && c.syncEnabled then Update(s[token], call.op.event) else s[token])
  {
  }

  lemma AbsentStays(s: Sessions, call: Call, token: Id, c: Config)
    requires token !in s && (call.op.Issue? ==> call.op.token != token)
    ensures token !in Apply(s, call, c)
  {
  }

  lemma RevokesIsRemoves(trace: seq<Call>, j: nat, i: nat, c: Config)
    requires Legal(trace) && i < j < |trace| && trace[i].op.Issue? && LiveAt(trace, j, i, c)
    requires trace[i].op.token in StoreAt(trace, j, c)
    requires Records(StoreAt(trace, j, c)[trace[i].op.token], trace, j, i, c)
    ensures Revokes(trace, j, i, c) <==> Removes(StoreAt(trace, j, c), trace[j], trace[i].op.token)
    decreases j, 2
  {
    if trace[j].op.InvalidateBoth? {
      PairRevoked(trace, j, i, trace[j].op.token, c);
    }
  }

  lemma RecordsStep(stored: Stored, trace: seq<Call>, n: nat, i: nat, c: Config)
    requires i < n < |trace| && trace[i].op.Issue? && Records(stored, trace, n, i, c)
    ensures var op := trace[n].op;
            Records(if op.Member? && c.syncEnabled then Update(stored, op.event) else stored, trace, n + 1, i, c)
  {
    if trace[n].op.Member? {
      EventOnList(stored.session.memberships, Replay(trace, i, n, trace[i].op.user, c), trace[n].op.event);
    }
  }

  /** A session is stored if and only if history says it is live, and then as history says. */
  lemma {:induction false} StoreIsHistory(trace: seq<Call>, n: nat, i: nat, c: Config)
    requires Legal(trace) && i < n <= |trace| && trace[i].op.Issue?
    ensures trace[i].op.token in StoreAt(trace, n, c) <==> LiveAt(trace, n, i, c)
    ensures LiveAt(trace, n, i, c) ==> Records(StoreAt(trace, n, c)[trace[i].op.token], trace, n, i, c)
    decreases n, 0
  {
    if n > i + 1 {
      StoreIsHistory(trace, n - 1, i, c);
      assert LiveAt(trace, n, i, c) <==> LiveAt(trace, n - 1, i, c) && !Revokes(trace, n - 1, i, c);
      var s, call, token := StoreAt(trace, n - 1, c), trace[n - 1], trace[i].op.token;
      if token in s {
        OneToken(s, call, token, c);
        RevokesIsRemoves(trace, n - 1, i, c);
        RecordsStep(s[token], trace, n - 1, i, c);
      } else {
        AbsentStays(s, call, token, c);
      }
    }
  }

  /** `invalidate_pair` removes a live session exactly when history says it revokes it. */
  lemma PairRevoked(trace: seq<Call>, j: nat, i: nat, t: Id, c: Config)
    requires Legal(trace) && i < j < |trace| && trace[i].op.Issue? && LiveAt(trace, j, i, c)
    requires trace[j].op == InvalidateBoth(t)
    requires trace[i].op.token in StoreAt(trace, j, c)
    requires Records(StoreAt(trace, j, c)[trace[i].op.token], trace, j, i, c)
    ensures Revokes(trace, j, i, c)
            <==> trace[i].op.token !in InvalidatePair(StoreAt(trace, j, c), t, trace[j].now)
    decreases j, 1
  {
    var s, now, token := StoreAt(trace, j, c), trace[j].now, trace[i].op.token;
    if FindValid(s, t, now).Some? {
      StoredWasIssued(trace, j, t, c);
      var k :| 0 <= k < j && IssuedAt(trace, k, t);
      StoreIsHistory(trace, j, k, c);
    }
    if Revokes(trace, j, i, c) {
      var k :| 0 <= k < j && IssuedAt(trace, k, t) && LiveAt(trace, j, k, c) && now < Expiry(trace, k, c)
               && (k == i || (trace[i].op.pair.Some? && trace[k].op.pair == trace[i].op.pair));
      StoreIsHistory(trace, j, k, c);
    }
  }

  // ---------- What follows for callers ----------

  /** The session issued by call `i` under the token is there to be found at `now`. */
  ghost predicate InForce(trace: seq<Call>, i: nat, token: Id, now: int, c: Config) {
    IssuedAt(trace, i, token) && LiveAt(trace, |trace|, i, c) && now < Expiry(trace, i, c)
  }

  /** A token validates if and only if a session was issued under it, its time is not over, and no
      call since has revoked it; what is returned is that session with its replayed memberships. */
  lemma ValidExact(trace: seq<Call>, token: Id, now: int, c: Config)
    requires Legal(trace)
    ensures var found := FindValid(StoreAt(trace, |trace|, c), token, now);
            && (found.Some? <==> exists i: nat :: InForce(trace, i, token, now, c))
            && (found.Some? ==> exists i: nat ::
                  InForce(trace, i, token, now, c) && Describes(found.value, trace, |trace|, i, c))
  {
    var n := |trace|;
    var found := FindValid(StoreAt(trace, n, c), token, now);
    if found.Some? {
      StoredWasIssued(trace, n, token, c);
      var i: nat :| i < n && IssuedAt(trace, i, token);
      StoreIsHistory(trace, n, i, c);
      assert InForce(trace, i, token, now, c) && Describes(found.value, trace, n, i, c);
    }
    if i: nat :| InForce(trace, i, token, now, c) {
      StoreIsHistory(trace, n, i, c);
    }
  }

  /** Call `i` issued an access or a long-lived session under the token, which no call has revoked
      and whose time is not over. */
  ghost predicate Authorizes(trace: seq<Call>, i: nat, token: Id, now: int, c: Config) {
    && IssuedAt(trace, i, token) && LiveAt(trace, |trace|, i, c)
    && match trace[i].op.kind
       case Access => now < trace[i].now + c.accessSeconds
       case LongLived => now < trace[i].now + c.longSeconds
       case Refresh => false
  }

  /** A token authorizes an API request now if and only if an access session was issued under it
      less than `accessSeconds` ago, or a long-lived one less than `longSeconds` ago, and no call
      since has revoked it. A refresh token never does. */
  lemma AccessExact(trace: seq<Call>, token: Id, now: int, c: Config)
    requires Legal(trace)
    ensures var r := ValidateAccess(StoreAt(trace, |trace|, c), token, now);
            && (r.Ok? <==> exists i: nat :: Authorizes(trace, i, token, now, c))
            && (r.Ok? ==> exists i: nat ::
                  InForce(trace, i, token, now, c) && Describes(r.value, trace, |trace|, i, c))
            && (r.Err? ==> r.error == InvalidToken)
  {
    hide LiveAt, ListIsMap, Replay, Legal, StoreAt, FindValid;
    ValidExact(trace, token, now, c);
    var found := FindValid(StoreAt(trace, |trace|, c), token, now);
    if found.Some? {
      var i: nat :| InForce(trace, i, token, now, c) && Describes(found.value, trace, |trace|, i, c);
      forall j: nat | IssuedAt(trace, j, token) ensures j == i {
        IssuedOnce(trace, i, j, token);
      }
      assert Authorizes(trace, i, token, now, c) <==> trace[i].op.kind != Refresh;
    }
    if i: nat :| Authorizes(trace, i, token, now, c) {
      assert InForce(trace, i, token, now, c);
    }
  }

  lemma IssuedOnce(trace: seq<Call>, i: nat, j: nat, token: Id)
    requires Legal(trace) && IssuedAt(trace, i, token) && IssuedAt(trace, j, token)
    ensures i == j
  {
    assert !(i < j) && !(j < i);
  }

  lemma LiveShrinks(trace: seq<Call>, n: nat, m: nat, i: nat, c: Config)
    requires i < n <= m <= |trace| && trace[i].op.Issue? && LiveAt(trace, m, i, c)
    ensures LiveAt(trace, n, i, c)
  {
  }

  /** Once an issued token has stopped validating it never validates again. */
  lemma NeverAgain(trace: seq<Call>, n: nat, token: Id, now: int, later: int, c: Config)
    requires Legal(trace) && n <= |trace| && now <= later
    requires exists i :: 0 <= i < n && IssuedAt(trace, i, token)
    requires FindValid(StoreAt(trace, n, c), token, now).None?
    ensures FindValid(StoreAt(trace, |trace|, c), token, later).None?
  {
    var i :| 0 <= i < n && IssuedAt(trace, i, token);
    StoreIsHistory(trace, n, i, c);
    StoreIsHistory(trace, |trace|, i, c);
    if LiveAt(trace, |trace|, i, c) { LiveShrinks(trace, n, |trace|, i, c); }
  }

  /** Every stored session lists its memberships as the replay of its user's events since it
      was issued, one entry per tenant. */
  lemma MembershipsAreReplay(trace: seq<Call>, token: Id, c: Config)
    requires Legal(trace) && token in StoreAt(trace, |trace|, c)
    ensures exists i :: 0 <= i < |trace| && IssuedAt(trace, i, token)
              && ListIsMap(StoreAt(trace, |trace|, c)[token].session.memberships,
                           Replay(trace, i, |trace|, StoreAt(trace, |trace|, c)[token].session.user, c))
  {
    StoredWasIssued(trace, |trace|, token, c);
    var i :| 0 <= i < |trace| && IssuedAt(trace, i, token);
    StoreIsHistory(trace, |trace|, i, c);
  }

  /** `invalidate_pair` removes exactly the token and its whole pair; every other session
      stays as it was, and an invalid token removes nothing. */
  lemma InvalidatePairExact(s: Sessions, token: Id, now: int)
    ensures var valid, s' := FindValid(s, token, now), InvalidatePair(s, token, now);
            && (valid.None? ==> s' == s)
            && (forall t :: t in s' ==> t in s && s'[t] == s[t])
            && (valid.Some? ==> forall t :: t in s ==>
                  (t !in s' <==> t == token || (valid.value.pair.Some? && s[t].session.pair == valid.value.pair)))
  {
  }

  /** No two stored sessions share a public id. */
  ghost predicate UniqueIds(s: Sessions) {
    forall t, u :: t in s && u in s && s[t].publicId == s[u].publicId ==> t == u
  }

  lemma ReachableUniqueIds(trace: seq<Call>, n: nat, c: Config)
    requires Legal(trace) && n <= |trace|
    ensures UniqueIds(StoreAt(trace, n, c))
  {
    var s := StoreAt(trace, n, c);
    forall t, u | t in s && u in s && s[t].publicId == s[u].publicId ensures t == u {
      StoredWasIssued(trace, n, t, c);
      StoredWasIssued(trace, n, u, c);
      var i :| 0 <= i < n && IssuedAt(trace, i, t);
      var j :| 0 <= j < n && IssuedAt(trace, j, u);
      StoreIsHistory(trace, n, i, c);
      StoreIsHistory(trace, n, j, c);
      assert !(i < j) && !(j < i);
    }
  }
}
