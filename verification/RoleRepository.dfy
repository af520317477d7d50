/** The in-memory role repository: the same roles in two maps, by (tenant, name) and by id. */
module RoleRepository {
  type Id = string

  datatype Role = Role(id: Id, tenant: Id, name: string, permissions: seq<Id>)

  datatype Key = Key(tenant: Id, name: string)

  datatype Roles = Roles(byKey: map<Key, Role>, byId: map<Id, Role>)

  function KeyOf(role: Role): Key {
    Key(role.tenant, role.name)
  }

  function Insert(r: Roles, role: Role): Roles {
    Roles(r.byKey[KeyOf(role) := role], r.byId[role.id := role])
  }

  function UpdatePermissions(r: Roles, tenant: Id, id: Id, permissions: seq<Id>): Roles {
    if id !in r.byId then r
    else
      var key := Key(tenant, r.byId[id].name);
      Roles(if key in r.byKey then r.byKey[key := r.byKey[key].(permissions := permissions)] else r.byKey,
            r.byId[id := r.byId[id].(permissions := permissions)])
  }

  function Delete(r: Roles, tenant: Id, id: Id): Roles {
    if id !in r.byId then r
    else Roles(r.byKey - {Key(tenant, r.byId[id].name)}, r.byId - {id})
  }

  /** Both maps hold the same roles, each under its own key and id. */
  ghost predicate Agree(r: Roles) {
    && (forall k :: k in r.byKey ==>
          KeyOf(r.byKey[k]) == k && r.byKey[k].id in r.byId && r.byId[r.byKey[k].id] == r.byKey[k])
    && (forall id :: id in r.byId ==>
          r.byId[id].id == id && KeyOf(r.byId[id]) in r.byKey && r.byKey[KeyOf(r.byId[id])] == r.byId[id])
  }

  lemma KeyDisagrees(r: Roles, k: Key)
    requires k in r.byKey && (r.byKey[k].id !in r.byId || r.byId[r.byKey[k].id] != r.byKey[k])
    ensures !Agree(r)
  {
  }

  lemma IdDisagrees(r: Roles, id: Id)
    requires id in r.byId && (KeyOf(r.byId[id]) !in r.byKey || r.byKey[KeyOf(r.byId[id])] != r.byId[id])
    ensures !Agree(r)
  {
  }

  lemma InsertKeeps(r: Roles, role: Role)
    requires Agree(r)
    requires KeyOf(role) in r.byKey ==> r.byKey[KeyOf(role)].id == role.id
    requires role.id in r.byId ==> KeyOf(r.byId[role.id]) == KeyOf(role)
    ensures Agree(Insert(r, role))
  {
  }

  /** Inserting (or creating) keeps them in agreement if and only if neither the id nor the
      (tenant, name) belongs to another role. */
  lemma InsertExact(r: Roles, role: Role)
    requires Agree(r)
    ensures Agree(Insert(r, role))
            <==> (KeyOf(role) in r.byKey ==> r.byKey[KeyOf(role)].id == role.id)
                 && (role.id in r.byId ==> KeyOf(r.byId[role.id]) == KeyOf(role))
  {
    if KeyOf(role) in r.byKey && r.byKey[KeyOf(role)].id != role.id {
      IdDisagrees(Insert(r, role), r.byKey[KeyOf(role)].id);
    } else if role.id in r.byId && KeyOf(r.byId[role.id]) != KeyOf(role) {
      KeyDisagrees(Insert(r, role), KeyOf(r.byId[role.id]));
    } else {
      InsertKeeps(r, role);
    }
  }

  lemma UpdateOwnKeeps(r: Roles, tenant: Id, id: Id, permissions: seq<Id>)
    requires Agree(r) && (id in r.byId ==> r.byId[id].tenant == tenant)
    ensures Agree(UpdatePermissions(r, tenant, id, permissions))
  {
  }

  lemma Unchanged(r: Roles, tenant: Id, id: Id, permissions: seq<Id>)
    requires id in r.byId && r.byId[id].permissions == permissions
    requires var key := Key(tenant, r.byId[id].name); key in r.byKey ==> r.byKey[key].permissions == permissions
    ensures UpdatePermissions(r, tenant, id, permissions) == r
  {
    var key := Key(tenant, r.byId[id].name);
    assert r.byId[id := r.byId[id]] == r.byId;
    if key in r.byKey { assert r.byKey[key := r.byKey[key]] == r.byKey; }
  }

  /** Updating permissions keeps agreement if and only if the tenant passed is the role's own,
      or nothing actually changes in either map. */
  lemma UpdateExact(r: Roles, tenant: Id, id: Id, permissions: seq<Id>)
    requires Agree(r)
    ensures Agree(UpdatePermissions(r, tenant, id, permissions))
            <==> id !in r.byId || r.byId[id].tenant == tenant
                 || (r.byId[id].permissions == permissions
                     && var key := Key(tenant, r.byId[id].name);
                        key in r.byKey ==> r.byKey[key].permissions == permissions)
  {
    if id !in r.byId || r.byId[id].tenant == tenant {
      UpdateOwnKeeps(r, tenant, id, permissions);
    } else {
      var r', key := UpdatePermissions(r, tenant, id, permissions), Key(tenant, r.byId[id].name);
      if r.byId[id].permissions != permissions {
        IdDisagrees(r', id);
      } else if key in r.byKey && r.byKey[key].permissions != permissions {
        KeyDisagrees(r', key);
      } else {
        Unchanged(r, tenant, id, permissions);
      }
    }
  }

  /** Deleting keeps agreement if and only if the tenant passed is the role's own. */
  lemma DeleteExact(r: Roles, tenant: Id, id: Id)
    requires Agree(r)
    ensures Agree(Delete(r, tenant, id)) <==> id !in r.byId || r.byId[id].tenant == tenant
  {
    if id in r.byId {
      var r', own := Delete(r, tenant, id), KeyOf(r.byId[id]);
      if r.byId[id].tenant != tenant {
        assert own in r'.byKey && r'.byKey[own].id == id;
      }
    }
  }

  // ---------- Runs ----------

  datatype Op =
    | Creating(role: Role)
    | Updating(tenant: Id, id: Id, permissions: seq<Id>)
    | Deleting(tenant: Id, id: Id)

  function Apply(r: Roles, op: Op): Roles {
    match op
    case Creating(role) => Insert(r, role)
    case Updating(tenant, id, permissions) => UpdatePermissions(r, tenant, id, permissions)
    case Deleting(tenant, id) => Delete(r, tenant, id)
  }

  /** What a caller must respect: a role takes over no other role's id or name, and changes name
      the role's own tenant unless they change nothing. */
  predicate Respects(r: Roles, op: Op) {
    match op
    case Creating(role) =>
      && (KeyOf(role) in r.byKey ==> r.byKey[KeyOf(role)].id == role.id)
      && (role.id in r.byId ==> KeyOf(r.byId[role.id]) == KeyOf(role))
    case Updating(tenant, id, permissions) =>
      id in r.byId && r.byId[id].tenant != tenant ==>
        && r.byId[id].permissions == permissions
        && var key := Key(tenant, r.byId[id].name);
           key in r.byKey ==> r.byKey[key].permissions == permissions
    case Deleting(tenant, id) => id in r.byId ==> r.byId[id].tenant == tenant
  }

  lemma StepExact(r: Roles, op: Op)
    requires Agree(r)
    ensures Agree(Apply(r, op)) <==> Respects(r, op)
  {
    hide Agree;
    match op
    case Creating(role) => InsertExact(r, role);
    case Updating(tenant, id, permissions) => UpdateExact(r, tenant, id, permissions);
    case Deleting(tenant, id) => DeleteExact(r, tenant, id);
  }

  /** What callers find after a call that respects the roles there. By id: the role created, the
      permissions given, nothing after a delete, and every other role as it was. By (tenant, name):
      exactly the same roles. */
  lemma LookupExact(r: Roles, op: Op)
    requires Agree(r) && Respects(r, op)
    ensures var r' := Apply(r, op);
            && (match op
                case Creating(role) => r'.byId == r.byId[role.id := role]
                case Updating(_, id, permissions) =>
                  r'.byId == if id in r.byId then r.byId[id := r.byId[id].(permissions := permissions)] else r.byId
                case Deleting(_, id) => r'.byId == r.byId - {id})
            && (forall tenant, name ::
                  Key(tenant, name) in r'.byKey
                  <==> exists id :: id in r'.byId && r'.byId[id].tenant == tenant && r'.byId[id].name == name)
            && (forall id :: id in r'.byId ==> r'.byKey[Key(r'.byId[id].tenant, r'.byId[id].name)] == r'.byId[id])
  {
    hide Agree;
    StepExact(r, op);
    var r' := Apply(r, op);
    RolesAfter(r, op);
    KeysOwn(r');
    forall tenant, name
      ensures Key(tenant, name) in r'.byKey
              <==> exists id :: id in r'.byId && r'.byId[id].tenant == tenant && r'.byId[id].name == name
    {
      ByKeyIsById(r', tenant, name);
    }
  }

  lemma RolesAfter(r: Roles, op: Op)
    ensures Apply(r, op).byId ==
            match op
            case Creating(role) => r.byId[role.id := role]
            case Updating(_, id, permissions) =>
              if id in r.byId then r.byId[id := r.byId[id].(permissions := permissions)] else r.byId
            case Deleting(_, id) => r.byId - {id}
  {
  }

  lemma KeysOwn(r: Roles)
    requires Agree(r)
    ensures forall id :: id in r.byId ==>
              var key := Key(r.byId[id].tenant, r.byId[id].name); key in r.byKey && r.byKey[key] == r.byId[id]
  {
  }

  lemma ByKeyIsById(r: Roles, tenant: Id, name: string)
    requires Agree(r)
    ensures Key(tenant, name) in r.byKey
            <==> exists id :: id in r.byId && r.byId[id].tenant == tenant && r.byId[id].name == name
  {
    if Key(tenant, name) in r.byKey { assert r.byKey[Key(tenant, name)].id in r.byId; }
  }

  function Run(ops: seq<Op>): Roles {
    if ops == [] then Roles(map[], map[]) else Apply(Run(ops[..|ops| - 1]), ops[|ops| - 1])
  }

  ghost predicate RespectfulRun(ops: seq<Op>) {
    ops == [] || (RespectfulRun(ops[..|ops| - 1]) && Respects(Run(ops[..|ops| - 1]), ops[|ops| - 1]))
  }

  ghost predicate AgreeThroughout(ops: seq<Op>) {
    Agree(Run(ops)) && (ops == [] || AgreeThroughout(ops[..|ops| - 1]))
  }

  /** The maps agree after every call of a run if and only if every call respects the roles that
      are there. */
  lemma {:induction false} RunExact(ops: seq<Op>)
    ensures AgreeThroughout(ops) <==> RespectfulRun(ops)
  {
    if ops != [] {
      var before, op := ops[..|ops| - 1], ops[|ops| - 1];
      RunExact(before);
      if Agree(Run(before)) { StepExact(Run(before), op); }
    }
  }

  class FakeRoleRepository {
    var roles: map<Key, Role>
    var rolesById: map<Id, Role>

    function Contents(): Roles
      reads this
    {
      Roles(roles, rolesById)
    }

    constructor ()
      ensures Contents() == Roles(map[], map[]) && Agree(Contents())
    {
      roles, rolesById := map[], map[];
    }

    method CreateRole(role: Role)
      modifies this
      ensures Contents() == Insert(old(Contents()), role)
    {
      roles := roles[Key(role.tenant, role.name) := role];
      rolesById := rolesById[role.id := role];
    }

    method UpdateRolePermissions(tenant: Id, id: Id, permissions: seq<Id>)
      modifies this
      ensures Contents() == UpdatePermissions(old(Contents()), tenant, id, permissions)
    {
      if id in rolesById {
        var name := rolesById[id].name;
        rolesById := rolesById[id := rolesById[id].(permissions := permissions)];
        if Key(tenant, name) in roles {
          roles := roles[Key(tenant, name) := roles[Key(tenant, name)].(permissions := permissions)];
        }
      }
    }

    method DeleteRole(tenant: Id, id: Id)
      modifies this
      ensures Contents() == Delete(old(Contents()), tenant, id)
    {
      if id in rolesById {
        var role := rolesById[id];
        rolesById := rolesById - {id};
        roles := roles - {Key(tenant, role.name)};
      }
    }
  }
}
