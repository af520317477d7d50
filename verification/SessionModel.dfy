/** Sessions as values: what each call does to the stored sessions, and a trace of calls. */
module SessionModel {
  import opened Wrappers

  /** Tokens, public ids, users, pairs and tenants are identified by their UUIDs' text. */
  type Id = string

  datatype Kind = Access | LongLived | Refresh

  predicate IsAccess(k: Kind) {
    k.Access? || k.LongLived?
  }

  datatype Snapshot = Snapshot(tenant: Id, role: string)

  datatype Session = Session(user: Id, expiresAt: int, kind: Kind, pair: Option<Id>, memberships: seq<Snapshot>)

  datatype Stored = Stored(session: Session, publicId: Id)

  type Sessions = map<Id, Stored>

  datatype Config = Config(accessSeconds: nat, longSeconds: nat, refreshSeconds: nat, syncEnabled: bool)

  datatype MembershipEvent =
    | Added(tenant: Id, user: Id, role: string)
    | Updated(tenant: Id, user: Id, role: string)
    | Removed(tenant: Id, user: Id)

  datatype SessionError = InvalidToken | Forbidden

  function Duration(c: Config, k: Kind): nat {
    match k
    case Access => c.accessSeconds
    case LongLived => c.longSeconds
    case Refresh => c.refreshSeconds
  }

  // ---------- Membership lists ----------

  /** Position of the tenant's entry, or the length of the list. */
  function Find(list: seq<Snapshot>, tenant: Id): (i: nat)
    ensures i <= |list|
    ensures i < |list| ==> list[i].tenant == tenant
    ensures forall j :: 0 <= j < i ==> list[j].tenant != tenant
  {
    if list == [] || list[0].tenant == tenant then 0 else 1 + Find(list[1..], tenant)
  }

  function Retain(list: seq<Snapshot>, tenant: Id): (r: seq<Snapshot>)
    ensures forall x :: x in r <==> x in list && x.tenant != tenant
  {
    if list == [] then []
    else if list[0].tenant == tenant then Retain(list[1..], tenant)
    else [list[0]] + Retain(list[1..], tenant)
  }

  function ApplyToList(list: seq<Snapshot>, e: MembershipEvent): seq<Snapshot> {
    var i := Find(list, e.tenant);
    match e
    case Added(tenant, _, role) =>
      if i < |list| then list[i := list[i].(role := role)] else list + [Snapshot(tenant, role)]
    case Updated(_, _, role) =>
      if i < |list| then list[i := list[i].(role := role)] else list
    case Removed(tenant, _) => Retain(list, tenant)
  }

  // ---------- Calls on the store ----------

  function Expired(s: Session, now: int): bool {
    now >= s.expiresAt
  }

  function FindValid(s: Sessions, token: Id, now: int): Option<Session> {
    if token in s && !Expired(s[token].session, now) then Some(s[token].session) else None
  }

  function ValidateAccess(s: Sessions, token: Id, now: int): Result<Session, SessionError> {
    match FindValid(s, token, now)
    case Some(session) => if IsAccess(session.kind) then Ok(session) else Err(InvalidToken)
    case None => Err(InvalidToken)
  }

  function WithoutPair(s: Sessions, pair: Id, exceptToken: Id): Sessions {
    map t | t in s && !(s[t].session.pair == Some(pair) && t != exceptToken) :: s[t]
  }

  predicate OwnsId(stored: Stored, user: Id, publicId: Id, now: int) {
    stored.publicId == publicId && stored.session.user == user && !Expired(stored.session, now)
  }

  function WithoutId(s: Sessions, user: Id, publicId: Id, now: int): Sessions {
    map t | t in s && !OwnsId(s[t], user, publicId, now) :: s[t]
  }

  function InvalidatePair(s: Sessions, token: Id, now: int): Sessions {
    match FindValid(s, token, now)
    case None => s
    case Some(session) =>
      var s1 := s - {token};
      if session.pair.Some? then WithoutPair(s1, session.pair.value, token) else s1
  }

  function Update(stored: Stored, e: MembershipEvent): Stored {
    if stored.session.user == e.user then
      stored.(session := stored.session.(memberships := ApplyToList(stored.session.memberships, e)))
    else stored
  }

  function Synchronize(s: Sessions, e: MembershipEvent): Sessions {
    map t | t in s :: Update(s[t], e)
  }

  // ---------- Traces of calls ----------

  datatype Op =
    | Issue(token: Id, publicId: Id, user: Id, kind: Kind, pair: Option<Id>)
    | Revoke(token: Id)
    | RevokePair(pairId: Id, exceptToken: Id)
    | RevokeById(user: Id, publicId: Id)
    | InvalidateBoth(token: Id)
    | Member(event: MembershipEvent)

  datatype Call = Call(now: int, op: Op)

  function Apply(s: Sessions, call: Call, c: Config): Sessions {
    match call.op
    case Issue(token, publicId, user, kind, pair) =>
      s[token := Stored(Session(user, call.now + Duration(c, kind), kind, pair, []), publicId)]
    case Revoke(token) => s - {token}
    case RevokePair(pair, exceptToken) => WithoutPair(s, pair, exceptToken)
    case RevokeById(user, publicId) => WithoutId(s, user, publicId, call.now)
    case InvalidateBoth(token) => InvalidatePair(s, token, call.now)
    case Member(e) => if c.syncEnabled then Synchronize(s, e) else s
  }

  /** The store after the first `n` calls. */
  function StoreAt(trace: seq<Call>, n: nat, c: Config): Sessions
    requires n <= |trace|
  {
    if n == 0 then map[] else Apply(StoreAt(trace, n - 1, c), trace[n - 1], c)
  }

  /** Time does not go back, and tokens and public ids are generated afresh. */
  ghost predicate Legal(trace: seq<Call>) {
    && (forall i, j :: 0 <= i < j < |trace| ==> trace[i].now <= trace[j].now)
    && (forall i, j :: 0 <= i < j < |trace| && trace[i].op.Issue? && trace[j].op.Issue?
          ==> trace[i].op.token != trace[j].op.token && trace[i].op.publicId != trace[j].op.publicId)
  }
}
