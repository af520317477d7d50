/** Tenant desktop layouts guarded by an etag; a call is one atomic step. */
module TenantLayouts {
  import opened Wrappers

  type Id = string

  datatype Scope = Shared | User

  datatype Layout = Layout(tenant: Id, scope: Scope, user: Option<Id>, content: string, etag: string)

  datatype Key = Key(tenant: Id, scope: Scope, user: Option<Id>)

  type Repo = map<Key, Layout>

  datatype LayoutError = EtagMismatch

  function KeyOf(l: Layout): Key {
    Key(l.tenant, l.scope, l.user)
  }

  function SharedKey(tenant: Id): Key {
    Key(tenant, Shared, None)
  }

  predicate Accepts(repo: Repo, tenant: Id, etag: string) {
    SharedKey(tenant) in repo ==> repo[SharedKey(tenant)].etag == etag
  }

  datatype Op =
    | UpdateShared(tenant: Id, layout: Layout, etag: string)
    | UpdateOverride(layout: Layout)

  function Apply(repo: Repo, op: Op): Repo {
    match op
    case UpdateShared(tenant, layout, etag) =>
      if Accepts(repo, tenant, etag) then repo[KeyOf(layout) := layout] else repo
    case UpdateOverride(layout) => repo[KeyOf(layout) := layout]
  }

  /** What is filed under every key after a call. A shared update files the layout under its own
      tenant, scope and user if nothing is filed as the tenant's shared layout or that has the
      presented etag, and nothing else changes; an override is filed in any case. */
  lemma FiledExact(repo: Repo, op: Op, key: Key)
    ensures var own := Key(op.layout.tenant, op.layout.scope, op.layout.user);
            var accepted := op.UpdateOverride?
                            || Key(op.tenant, Shared, None) !in repo
                            || repo[Key(op.tenant, Shared, None)].etag == op.etag;
            var repo' := Apply(repo, op);
            && (key in repo' <==> key in repo || (accepted && key == own))
            && (key in repo' ==> repo'[key] == if accepted && key == own then op.layout else repo[key])
  {
  }

  function RepoAt(start: Repo, trace: seq<Op>, n: nat): Repo
    requires n <= |trace|
  {
    if n == 0 then start else Apply(RepoAt(start, trace, n - 1), trace[n - 1])
  }

  /** Call `i` updated the tenant's shared layout. */
  predicate Succeeded(start: Repo, trace: seq<Op>, i: nat, tenant: Id) {
    i < |trace| && trace[i].UpdateShared? && trace[i].tenant == tenant
        && Accepts(RepoAt(start, trace, i), tenant, trace[i].etag)
  }

  /** How the gateway builds the layouts it passes: a shared update carries the tenant's own
      shared layout, an override carries a user's. */
  predicate Addressed(op: Op) {
    match op
    case UpdateShared(tenant, layout, _) => KeyOf(layout) == SharedKey(tenant)
    case UpdateOverride(layout) => layout.scope == User
  }

  /** A written layout's etag was never presented before. */
  ghost predicate FreshEtags(trace: seq<Op>) {
    forall i, k :: 0 <= i <= k < |trace| && trace[i].UpdateShared? && trace[k].UpdateShared?
      ==> trace[k].layout.etag != trace[i].etag
  }

  /** After a success the shared layout is the one some success since then wrote. */
  lemma {:induction false} CurrentIsWritten(start: Repo, trace: seq<Op>, i: nat, n: nat, tenant: Id)
    requires i < n <= |trace| && Succeeded(start, trace, i, tenant)
    requires forall k :: 0 <= k < |trace| ==> Addressed(trace[k])
    ensures var repo := RepoAt(start, trace, n);
            SharedKey(tenant) in repo
            && exists k :: i <= k < n && trace[k].UpdateShared? && repo[SharedKey(tenant)] == trace[k].layout
  {
    assert Addressed(trace[n - 1]);
    if n == i + 1 {
      assert RepoAt(start, trace, n)[SharedKey(tenant)] == trace[i].layout;
    } else {
      CurrentIsWritten(start, trace, i, n - 1, tenant);
    }
  }

  /** In any trace at most one update of a tenant's shared layout succeeds with a given etag. */
  lemma OneSuccessPerEtag(start: Repo, trace: seq<Op>, i: nat, j: nat, tenant: Id)
    requires forall k :: 0 <= k < |trace| ==> Addressed(trace[k])
    requires FreshEtags(trace)
    requires i < j && Succeeded(start, trace, i, tenant) && Succeeded(start, trace, j, tenant)
    ensures trace[i].etag != trace[j].etag
  {
    CurrentIsWritten(start, trace, i, j, tenant);
    var k :| i <= k < j && trace[k].UpdateShared? && RepoAt(start, trace, j)[SharedKey(tenant)] == trace[k].layout;
    assert trace[k].layout.etag != trace[i].etag;
  }

  /** An update spends the etag it presented if and only if it files the new layout, under a
      new etag, as the tenant's shared layout; filed elsewhere it could be accepted again. */
  lemma EtagSpentExact(repo: Repo, tenant: Id, layout: Layout, etag: string)
    requires Accepts(repo, tenant, etag)
    ensures !Accepts(Apply(repo, UpdateShared(tenant, layout, etag)), tenant, etag)
            <==> KeyOf(layout) == SharedKey(tenant) && layout.etag != etag
  {
  }

  class LayoutService {
    var repo: Repo

    constructor (repo: Repo)
      ensures this.repo == repo
    {
      this.repo := repo;
    }

    method UpdateSharedLayout(tenant: Id, layout: Layout, etag: string) returns (r: Result<Layout, LayoutError>)
      modifies this
      ensures repo == Apply(old(repo), UpdateShared(tenant, layout, etag))
      ensures r == if Accepts(old(repo), tenant, etag) then Ok(layout) else Err(EtagMismatch)
    {
      if SharedKey(tenant) in repo {
        var current := repo[SharedKey(tenant)];
        if current.etag != etag {
          return Err(EtagMismatch);
        }
      }
      repo := repo[KeyOf(layout) := layout];
      return Ok(layout);
    }

    method UpdateUserOverride(layout: Layout) returns (r: Layout)
      modifies this
      ensures repo == Apply(old(repo), UpdateOverride(layout)) && r == layout
    {
      repo := repo[KeyOf(layout) := layout];
      return layout;
    }
  }
}
