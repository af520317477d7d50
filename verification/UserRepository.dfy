/** The in-memory user repository: the users by id and an index of ids by email. */
module UserRepository {
  import opened Wrappers
  import opened Pagination

  type Id = string

  datatype Status = Pending | Active | Suspended

  datatype User = User(
    id: Id, email: string, username: string, fullName: Option<string>,
    passwordHash: string, status: Status, deletedAt: Option<int>)

  datatype Repo = Repo(users: map<Id, User>, index: map<string, Id>)

  datatype RepoError = Conflict | NotFound

  // ---------- The calls ----------

  function Insert(r: Repo, u: User): Repo {
    Repo(r.users[u.id := u], r.index[u.email := u.id])
  }

  function FindByEmail(r: Repo, email: string): Option<User> {
    if email in r.index && r.index[email] in r.users && r.users[r.index[email]].deletedAt.None? then
      Some(r.users[r.index[email]])
    else None
  }

  function CreateError(r: Repo, username: string, email: string): bool {
    email in r.index || exists id :: id in r.users && r.users[id].username == username
  }

  function NewUser(id: Id, fullName: string, username: string, email: string, hash: string): User {
    User(id, email, username, if fullName == "" then None else Some(fullName), hash, Pending, None)
  }

  function CreatePending(r: Repo, id: Id, fullName: string, username: string, email: string, hash: string): Repo {
    if CreateError(r, username, email) then r else Insert(r, NewUser(id, fullName, username, email, hash))
  }

  predicate IsLive(r: Repo, id: Id) {
    id in r.users && r.users[id].deletedAt.None?
  }

  function Activate(r: Repo, id: Id): Repo {
    if IsLive(r, id) then r.(users := r.users[id := r.users[id].(status := Active)]) else r
  }

  function UpdatePassword(r: Repo, id: Id, hash: string): Repo {
    if IsLive(r, id) then r.(users := r.users[id := r.users[id].(passwordHash := hash)]) else r
  }

  function Delete(r: Repo, id: Id, now: int): Repo {
    if IsLive(r, id) then r.(users := r.users[id := r.users[id].(deletedAt := Some(now))]) else r
  }

  function Update(r: Repo, u: User): Repo {
    if u.id !in r.users then r
    else
      var existing := r.users[u.id];
      var index := if existing.email != u.email then (r.index - {existing.email})[u.email := u.id] else r.index;
      Repo(r.users[u.id := u], index)
  }

  // ---------- The index ----------

  /** The index is the exact inverse of the users' emails. */
  ghost predicate IndexExact(r: Repo) {
    && (forall id :: id in r.users ==>
          r.users[id].id == id && r.users[id].email in r.index && r.index[r.users[id].email] == id)
    && (forall e :: e in r.index ==> r.index[e] in r.users && r.users[r.index[e]].email == e)
  }

  /** With an exact index the lookup finds exactly the live user a scan would. */
  lemma FindIsScan(r: Repo, email: string)
    requires IndexExact(r)
    ensures forall u :: FindByEmail(r, email) == Some(u)
                        <==> (u.id in r.users && r.users[u.id] == u && u.email == email && u.deletedAt.None?)
  {
  }

  /** `insert` keeps the index exact if and only if nobody else owns the email and the id, if
      taken, keeps its email. */
  lemma InsertExact(r: Repo, u: User)
    requires IndexExact(r)
    ensures IndexExact(Insert(r, u))
            <==> (u.email in r.index ==> r.index[u.email] == u.id)
                 && (u.id in r.users ==> r.users[u.id].email == u.email)
  {
    var r' := Insert(r, u);
    if u.email in r.index && r.index[u.email] != u.id {
      var owner := r.index[u.email];
      assert owner in r'.users && r'.users[owner].email == u.email;
    }
    if u.id in r.users && r.users[u.id].email != u.email {
      assert r.users[u.id].email in r'.index;
    }
  }

  /** `update` keeps it exact if and only if nobody else owns the new email. */
  lemma UpdateExact(r: Repo, u: User)
    requires IndexExact(r)
    ensures IndexExact(Update(r, u)) <==> u.id !in r.users || (u.email in r.index ==> r.index[u.email] == u.id)
  {
    if u.id in r.users && u.email in r.index && r.index[u.email] != u.id {
      var r', owner := Update(r, u), r.index[u.email];
      assert owner in r'.users && r'.users[owner].email == u.email;
      assert r'.index[u.email] == u.id;
    }
  }

  /** Every other call keeps it exact. */
  lemma OthersKeepIndex(r: Repo, id: Id, hash: string, now: int)
    requires IndexExact(r)
    ensures IndexExact(Activate(r, id)) && IndexExact(UpdatePassword(r, id, hash)) && IndexExact(Delete(r, id, now))
  {
  }

  /** `create_pending` keeps it exact if and only if it reports a conflict or the id is new. */
  lemma CreateExact(r: Repo, id: Id, fullName: string, username: string, email: string, hash: string)
    requires IndexExact(r)
    ensures IndexExact(CreatePending(r, id, fullName, username, email, hash))
            <==> CreateError(r, username, email) || id !in r.users
  {
    InsertExact(r, NewUser(id, fullName, username, email, hash));
  }

  datatype Op =
    | Inserting(user: User)
    | Creating(id: Id, fullName: string, username: string, email: string, hash: string)
    | Activating(id: Id)
    | SettingPassword(id: Id, hash: string)
    | Updating(user: User)
    | Deleting(id: Id, now: int)

  function Apply(r: Repo, op: Op): Repo {
    match op
    case Inserting(u) => Insert(r, u)
    case Creating(id, fullName, username, email, hash) => CreatePending(r, id, fullName, username, email, hash)
    case Activating(id) => Activate(r, id)
    case SettingPassword(id, hash) => UpdatePassword(r, id, hash)
    case Updating(u) => Update(r, u)
    case Deleting(id, now) => Delete(r, id, now)
  }

  /** What a caller must respect: no call takes over another user's id or email. */
  predicate Respects(r: Repo, op: Op) {
    match op
    case Inserting(u) =>
      (u.email in r.index ==> r.index[u.email] == u.id) && (u.id in r.users ==> r.users[u.id].email == u.email)
    case Creating(id, _, username, email, _) => CreateError(r, username, email) || id !in r.users
    case Updating(u) => u.id in r.users && u.email in r.index ==> r.index[u.email] == u.id
    case _ => true
  }

  function Run(ops: seq<Op>): Repo {
    if ops == [] then Repo(map[], map[]) else Apply(Run(ops[..|ops| - 1]), ops[|ops| - 1])
  }

  lemma StepExact(r: Repo, op: Op)
    requires IndexExact(r)
    ensures IndexExact(Apply(r, op)) <==> Respects(r, op)
  {
    hide IndexExact;
    match op
    case Inserting(u) => InsertExact(r, u);
    case Updating(u) => UpdateExact(r, u);
    case Creating(id, fullName, username, email, hash) => CreateExact(r, id, fullName, username, email, hash);
    case Activating(id) => OthersKeepIndex(r, id, "", 0);
    case SettingPassword(id, hash) => OthersKeepIndex(r, id, hash, 0);
    case Deleting(id, now) => OthersKeepIndex(r, id, "", now);
  }

  ghost predicate RespectfulRun(ops: seq<Op>) {
    ops == [] || (RespectfulRun(ops[..|ops| - 1]) && Respects(Run(ops[..|ops| - 1]), ops[|ops| - 1]))
  }

  ghost predicate ExactThroughout(ops: seq<Op>) {
    IndexExact(Run(ops)) && (ops == [] || ExactThroughout(ops[..|ops| - 1]))
  }

  /** The index is exact after every call of a run if and only if every call respects the users
      that are there. */
  lemma {:induction false} RunExact(ops: seq<Op>)
    ensures ExactThroughout(ops) <==> RespectfulRun(ops)
  {
    if ops != [] {
      var before, op := ops[..|ops| - 1], ops[|ops| - 1];
      RunExact(before);
      if IndexExact(Run(before)) { StepExact(Run(before), op); }
    }
  }

  // ---------- What callers see ----------

  /** What a lookup by email finds after a call that respects the users there: the created, inserted
      or updated user with the fields given, the changed one with its new status or password, nobody
      after a delete, and for every other email what it found before. */
  lemma LookupExact(r: Repo, op: Op, e: string)
    requires IndexExact(r) && Respects(r, op)
    ensures var found := FindByEmail(Apply(r, op), e);
            match op
            case Inserting(u) =>
              found == if e == u.email then (if u.deletedAt.None? then Some(u) else None) else FindByEmail(r, e)
            case Creating(id, fullName, username, email, hash) =>
              found == if e == email && email !in r.index && UsernameFree(r, username)
                       then Some(User(id, email, username, if fullName == "" then None else Some(fullName), hash,
                                      Pending, None))
                       else FindByEmail(r, e)
            case Activating(id) =>
              found == (match FindByEmail(r, e)
                        case Some(u) => Some(if u.id == id then u.(status := Active) else u)
                        case None => None)
            case SettingPassword(id, hash) =>
              found == (match FindByEmail(r, e)
                        case Some(u) => Some(if u.id == id then u.(passwordHash := hash) else u)
                        case None => None)
            case Updating(u) =>
              found == if u.id !in r.users then FindByEmail(r, e)
                       else if e == u.email then (if u.deletedAt.None? then Some(u) else None)
                       else if e == r.users[u.id].email then None
                       else FindByEmail(r, e)
            case Deleting(id, now) =>
              found == (match FindByEmail(r, e)
                        case Some(u) => if u.id == id then None else Some(u)
                        case None => None)
  {
  }

  ghost predicate UsernameFree(r: Repo, username: string) {
    forall id :: id in r.users ==> r.users[id].username != username
  }

  /** Calls on a user who is not there or deleted, and creates with a taken email or username,
      change nothing; a delete keeps the user's other fields and its time. */
  lemma RefusedExact(r: Repo, id: Id, fullName: string, username: string, email: string, hash: string, now: int)
    ensures id !in r.users || r.users[id].deletedAt.Some? ==>
              Activate(r, id) == r && UpdatePassword(r, id, hash) == r && Delete(r, id, now) == r
    ensures id !in r.users ==> forall u: User :: u.id == id ==> Update(r, u) == r
    ensures email in r.index || !UsernameFree(r, username) ==>
              CreatePending(r, id, fullName, username, email, hash) == r
    ensures id in r.users && r.users[id].deletedAt.None? ==>
              Delete(r, id, now).users == r.users[id := r.users[id].(deletedAt := Some(now))]
  {
  }

  /** No two users, deleted ones included, share a username. */
  ghost predicate UniqueUsernames(r: Repo) {
    forall x, y :: x in r.users && y in r.users && r.users[x].username == r.users[y].username ==> x == y
  }

  /** A call that may write a whole user record over another one. */
  predicate Overwrites(op: Op) {
    op.Inserting? || op.Updating?
  }

  lemma StepKeepsUsernames(r: Repo, op: Op)
    requires IndexExact(r) && Respects(r, op) && !Overwrites(op) && UniqueUsernames(r)
    ensures UniqueUsernames(Apply(r, op))
  {
  }

  /** Usernames stay unique over every run of creates, activations, password changes and deletes. */
  lemma {:induction false} RunKeepsUsernames(ops: seq<Op>)
    requires RespectfulRun(ops) && forall op :: op in ops ==> !Overwrites(op)
    ensures UniqueUsernames(Run(ops))
  {
    hide Apply, Respects, UniqueUsernames, IndexExact;
    if ops == [] {
      NoUsernames();
    } else {
      var before, op := ops[..|ops| - 1], ops[|ops| - 1];
      RunKeepsUsernames(before);
      RunExact(before);
      assert op in ops;
      StepKeepsUsernames(Run(before), op);
    }
  }

  lemma NoUsernames()
    ensures UniqueUsernames(Repo(map[], map[]))
  {
  }

  ghost predicate IsDeleted(r: Repo, id: Id) {
    id in r.users && r.users[id].id == id && r.users[id].deletedAt.Some?
  }

  /** The call writes a record under that id. */
  predicate Writes(op: Op, id: Id) {
    match op
    case Inserting(u) => u.id == id
    case Updating(u) => u.id == id
    case Creating(x, _, _, _, _) => x == id
    case _ => false
  }

  /** A deleted user is never found again under any email, whatever is called later, short of
      writing a new record under the same id. */
  lemma {:induction false} DeletedStaysGone(ops: seq<Op>, n: nat, id: Id, e: string)
    requires n <= |ops| && IsDeleted(Run(ops[..n]), id) && RespectfulRun(ops)
    requires forall i :: n <= i < |ops| ==> !Writes(ops[i], id)
    ensures IsDeleted(Run(ops), id)
    ensures FindByEmail(Run(ops), e).Some? ==> FindByEmail(Run(ops), e).value.id != id
  {
    hide Apply, Respects, IndexExact, IsDeleted, FindByEmail, Writes;
    RunExact(ops);
    if n == |ops| {
      assert ops[..n] == ops;
    } else {
      var before := ops[..|ops| - 1];
      assert before[..n] == ops[..n];
      DeletedStaysGone(before, n, id, e);
      DeletedStep(Run(before), ops[|ops| - 1], id);
    }
    DeletedNotFound(Run(ops), id, e);
  }

  lemma DeletedStep(r: Repo, op: Op, id: Id)
    requires IsDeleted(r, id) && !Writes(op, id)
    ensures IsDeleted(Apply(r, op), id)
  {
  }

  lemma DeletedNotFound(r: Repo, id: Id, e: string)
    requires IndexExact(r) && IsDeleted(r, id)
    ensures FindByEmail(r, e).Some? ==> FindByEmail(r, e).value.id != id
  {
  }

  // ---------- Listing ----------

  /** An order in which the users map may be iterated. */
  ghost predicate Enumerates(order: seq<Id>, users: map<Id, User>) {
    && (forall id :: id in order <==> id in users)
    && (forall i, j :: 0 <= i < j < |order| ==> order[i] != order[j])
  }

  function LiveUsers(order: seq<Id>, users: map<Id, User>): seq<User>
    requires forall id :: id in order ==> id in users
  {
    if order == [] then []
    else
      var u := users[order[0]];
      (if u.deletedAt.None? then [u] else []) + LiveUsers(order[1..], users)
  }

  lemma {:induction false} LiveUsersOnce(order: seq<Id>, users: map<Id, User>)
    requires forall id :: id in order ==> id in users && users[id].id == id
    requires forall i, j :: 0 <= i < j < |order| ==> order[i] != order[j]
    ensures var live := LiveUsers(order, users);
            && (forall u :: u in live <==> u.id in order && users[u.id] == u && u.deletedAt.None?)
            && (forall i, j :: 0 <= i < j < |live| ==> live[i].id != live[j].id)
  {
    if order != [] {
      LiveUsersOnce(order[1..], users);
      var rest := LiveUsers(order[1..], users);
      forall j | 0 <= j < |rest| ensures rest[j].id != order[0] {
        assert rest[j] in rest && rest[j].id in order[1..];
        var k :| 0 <= k < |order[1..]| && order[1..][k] == rest[j].id;
      }
    }
  }

  /** Reading all pages of an unchanged repository yields every live user exactly once. */
  lemma PagesListEachOnce(r: Repo, order: seq<Id>, size: nat)
    requires IndexExact(r) && Enumerates(order, r.users) && 1 <= size <= 100 && |order| <= U32_MAX
    ensures var live := LiveUsers(order, r.users);
            var read := ReadPages(live, size, TotalPages(|live|, size));
            && read.Some?
            && (forall u :: u in read.value <==> u.id in r.users && r.users[u.id] == u && u.deletedAt.None?)
            && (forall i, j :: 0 <= i < j < |read.value| ==> read.value[i].id != read.value[j].id)
  {
    LiveUsersOnce(order, r.users);
    LiveNoMore(order, r.users);
    PagesCover(LiveUsers(order, r.users), size);
  }

  lemma {:induction false} LiveNoMore(order: seq<Id>, users: map<Id, User>)
    requires forall id :: id in order ==> id in users
    ensures |LiveUsers(order, users)| <= |order|
  {
    if order != [] { LiveNoMore(order[1..], users); }
  }

  // ---------- The repository in place ----------

  class FakeUserRepository {
    var users: map<Id, User>
    var emailIndex: map<string, Id>

    function Contents(): Repo
      reads this
    {
      Repo(users, emailIndex)
    }

    constructor ()
      ensures Contents() == Repo(map[], map[]) && IndexExact(Contents())
    {
      users, emailIndex := map[], map[];
    }

    method InsertUser(user: User)
      modifies this
      ensures Contents() == Insert(old(Contents()), user)
    {
      emailIndex := emailIndex[user.email := user.id];
      users := users[user.id := user];
    }

    method LookUpEmail(email: string) returns (found: Option<User>)
      ensures found == FindByEmail(Contents(), email)
    {
      if email !in emailIndex || emailIndex[email] !in users {
        return None;
      }
      var user := users[emailIndex[email]];
      return if user.deletedAt.Some? then None else Some(user);
    }

    method CreatePendingUser(id: Id, fullName: string, username: string, email: string, hash: string)
      returns (r: Result<Id, RepoError>)
      modifies this
      ensures Contents() == CreatePending(old(Contents()), id, fullName, username, email, hash)
      ensures r == if CreateError(old(Contents()), username, email) then Err(Conflict) else Ok(id)
    {
      if email in emailIndex {
        return Err(Conflict);
      }
      if exists k :: k in users && users[k].username == username {
        return Err(Conflict);
      }
      InsertUser(NewUser(id, fullName, username, email, hash));
      return Ok(id);
    }

    method ActivateUser(id: Id) returns (r: Result<(), RepoError>)
      modifies this
      ensures Contents() == Activate(old(Contents()), id)
      ensures r == if IsLive(old(Contents()), id) then Ok(()) else Err(NotFound)
    {
      if id !in users || users[id].deletedAt.Some? {
        return Err(NotFound);
      }
      users := users[id := users[id].(status := Active)];
      return Ok(());
    }

    method SetPassword(id: Id, hash: string) returns (r: Result<(), RepoError>)
      modifies this
      ensures Contents() == UpdatePassword(old(Contents()), id, hash)
      ensures r == if IsLive(old(Contents()), id) then Ok(()) else Err(NotFound)
    {
      if id !in users || users[id].deletedAt.Some? {
        return Err(NotFound);
      }
      users := users[id := users[id].(passwordHash := hash)];
      return Ok(());
    }

    method UpdateUser(user: User) returns (r: Result<User, RepoError>)
      modifies this
      ensures Contents() == Update(old(Contents()), user)
      ensures r == if user.id in old(users) then Ok(user) else Err(NotFound)
    {
      if user.id !in users {
        return Err(NotFound);
      }
      var existing := users[user.id];
      if existing.email != user.email {
        emailIndex := emailIndex - {existing.email};
        emailIndex := emailIndex[user.email := user.id];
      }
      users := users[user.id := user];
      return Ok(user);
    }

    method DeleteUser(id: Id, now: int) returns (r: Result<(), RepoError>)
      modifies this
      ensures Contents() == Delete(old(Contents()), id, now)
      ensures r == if IsLive(old(Contents()), id) then Ok(()) else Err(NotFound)
    {
      if id !in users || users[id].deletedAt.Some? {
        return Err(NotFound);
      }
      users := users[id := users[id].(deletedAt := Some(now))];
      return Ok(());
    }
  }
}
