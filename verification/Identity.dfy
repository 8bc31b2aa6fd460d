/**
 Who there is, who is attached to which tenant, and what each was granted: the stored records,
 the writes the store carries out as one, and what every run of the management api keeps of them.
 */
module Identity {
  import opened Common

  type Id = string

  datatype Kind = SystemAdministrator | Regular

  datatype Standing = Owner | Member

  datatype Capability = TenantMgr | UserMgr | ApiAccess | ApiAdvMgr | LimitMgr | SysAgent | Observer {
    /** The capability this one only means something beside. */
    function Prerequisite(): Option<Capability> {
      match this
      case ApiAdvMgr | LimitMgr => Some(ApiAccess)
      case _ => None
    }

    /** Whether this capability is granted at scopes of this shape. */
    predicate Suits(scope: Scope) {
      match this
      case TenantMgr => scope.OfUser?
      case UserMgr | SysAgent | Observer => scope.InTenant?
      case ApiAccess | ApiAdvMgr | LimitMgr => scope.OnApi?
    }
  }

  datatype Scope = OfUser(user: Id) | InTenant(user: Id, tenant: Id) | OnApi(user: Id, tenant: Id, api: Id)

  datatype Grant = Grant(capability: Capability, scope: Scope)

  datatype Role = TenantAdmin(owned: Id) | NoRole {
    predicate Implies(capability: Capability, scope: Scope) {
      && TenantAdmin?
      && capability != TenantMgr
      && capability.Suits(scope)
      && !scope.OfUser? && scope.tenant == owned
    }
  }

  /** The stored records; a membership is kept under its user and its tenant. */
  datatype Store = Store(
    users: map<Id, Kind>,
    tenants: set<Id>,
    members: map<(Id, Id), Standing>,
    grants: set<Grant>)
  {
    predicate Owns(user: Id, tenant: Id) {
      (user, tenant) in members && members[(user, tenant)] == Owner
    }

    predicate IsMember(user: Id, tenant: Id) {
      (user, tenant) in members && members[(user, tenant)] == Member
    }

    predicate IsRegular(user: Id) {
      user in users && users[user] == Regular
    }

    predicate IsAdministrator(user: Id) {
      user in users && users[user] == SystemAdministrator
    }

    /** Whether stored grants alone give a capability at a scope: it suits, and it and what it needs are stored. */
    predicate Holds(capability: Capability, scope: Scope) {
      && capability.Suits(scope)
      && (capability.Prerequisite().Some? ==> Grant(capability.Prerequisite().value, scope) in grants)
      && Grant(capability, scope) in grants
    }

    /** Whether a caller may do something at a scope of its own, by role or by grant. */
    predicate Allows(caller: Id, capability: Capability, scope: Scope) {
      IsAdministrator(caller) ||
      (if scope.OfUser? then Holds(capability, scope)
       else
         && (caller, scope.tenant) in members
         && (RoleOf(caller, scope.tenant).Implies(capability, scope) || Holds(capability, scope)))
    }

    function RoleOf(user: Id, tenant: Id): Role {
      if Owns(user, tenant) then TenantAdmin(tenant) else NoRole
    }

    /** Whether a caller is the tenant's owner or a system administrator, which is what granting inside it takes. */
    predicate Administers(caller: Id, tenant: Id) {
      IsAdministrator(caller) || Owns(caller, tenant)
    }
  }

  // ----- what is kept -----

  ghost predicate AttachmentsSound(s: Store) {
    forall key <- s.members :: s.IsRegular(key.0) && key.1 in s.tenants
  }

  /** Each tenant has exactly one owner, and no account owns two tenants. */
  ghost predicate OwnersSound(s: Store) {
    && (forall t <- s.tenants :: exists u :: s.Owns(u, t))
    && (forall u, v, t :: s.Owns(u, t) && s.Owns(v, t) ==> u == v)
    && (forall u, t, t' :: s.Owns(u, t) && s.Owns(u, t') ==> t == t')
  }

  /** A grant suits its scope, a regular account holds it, and inside a tenant only a member that does not own it. */
  predicate Grantable(s: Store, g: Grant) {
    && g.capability.Suits(g.scope)
    && s.IsRegular(g.scope.user)
    && (!g.scope.OfUser? ==> s.IsMember(g.scope.user, g.scope.tenant))
    && (g.capability.Prerequisite().Some? ==> Grant(g.capability.Prerequisite().value, g.scope) in s.grants)
  }

  ghost predicate GrantsSound(s: Store) {
    forall g <- s.grants :: Grantable(s, g)
  }

  ghost predicate Sound(s: Store) {
    AttachmentsSound(s) && OwnersSound(s) && GrantsSound(s)
  }

  // ----- what the store carries out as one -----

  datatype Write =
    | CreateTenant(tenant: Id, owner: Id)
    | DeleteTenant(tenant: Id)
    | CreateMember(user: Id, tenant: Id)
    | DeleteUser(user: Id)
    | Attach(user: Id, tenant: Id)
    | Detach(user: Id, tenant: Id)
    | AddGrant(grant: Grant)
    | DropGrant(grant: Grant)
    | CreateAdministrator(user: Id)

  datatype StoreError = Taken | Missing

  /** One transaction or statement, with the rows its deletes cascade to. */
  function Apply(s: Store, w: Write): Result<Store, StoreError> {
    match w
    case CreateTenant(tenant, owner) =>
      if tenant in s.tenants || owner in s.users then Err(Taken)
      else Ok(s.(tenants := s.tenants + {tenant}, users := s.users[owner := Regular],
                 members := s.members[(owner, tenant) := Owner]))
    case DeleteTenant(tenant) =>
      if tenant !in s.tenants then Err(Missing)
      else Ok(s.(tenants := s.tenants - {tenant},
                 members := map key | key in s.members && key.1 != tenant :: s.members[key],
                 grants := set g | g in s.grants && (g.scope.OfUser? || g.scope.tenant != tenant)))
    case CreateMember(user, tenant) =>
      if user in s.users then Err(Taken)
      else if tenant !in s.tenants then Err(Missing)
      else Ok(s.(users := s.users[user := Regular], members := s.members[(user, tenant) := Member]))
    case DeleteUser(user) =>
      if user !in s.users then Err(Missing)
      else Ok(s.(users := s.users - {user},
                 members := map key | key in s.members && key.0 != user :: s.members[key],
                 grants := set g | g in s.grants && g.scope.user != user))
    case Attach(user, tenant) =>
      if tenant !in s.tenants || user !in s.users then Err(Missing)
      else Ok(s.(members := s.members[(user, tenant) := Member]))
    case Detach(user, tenant) =>
      if (user, tenant) !in s.members then Err(Missing)
      else Ok(s.(members := s.members - {(user, tenant)},
                 grants := set g | g in s.grants
                                   && (g.scope.OfUser? || g.scope.user != user || g.scope.tenant != tenant)))
    case AddGrant(grant) =>
      if grant.scope.user !in s.users || (!grant.scope.OfUser? && grant.scope.tenant !in s.tenants) then Err(Missing)
      else Ok(s.(grants := s.grants + {grant}))
    case DropGrant(grant) =>
      if grant !in s.grants then Err(Missing) else Ok(s.(grants := s.grants - {grant}))
    case CreateAdministrator(user) =>
      if user in s.users then Err(Taken) else Ok(s.(users := s.users[user := SystemAdministrator]))
  }

  // ----- which writes keep it -----

  predicate OwnsNothing(s: Store, user: Id) {
    forall key <- s.members :: key.0 == user ==> s.members[key] == Member
  }

  predicate NothingDepends(s: Store, grant: Grant) {
    forall g <- s.grants :: g.scope == grant.scope ==> g.capability.Prerequisite() != Some(grant.capability)
  }

  /** What a write must find in the store to leave it sound. */
  predicate Harmless(s: Store, w: Write) {
    match w
    case DeleteUser(user) => OwnsNothing(s, user)
    case Attach(user, tenant) => s.IsRegular(user) && !s.Owns(user, tenant)
    case Detach(user, tenant) => !s.Owns(user, tenant)
    case AddGrant(grant) => Grantable(s, grant)
    case DropGrant(grant) => NothingDepends(s, grant)
    case _ => true
  }

  /** Owners are sound where what is left of the tenants keeps its owners and nobody comes to own. */
  lemma OwnersStay(s: Store, s': Store)
    requires OwnersSound(s) && s'.tenants <= s.tenants
    requires forall u, t :: s'.Owns(u, t) ==> s.Owns(u, t)
    requires forall u, t :: t in s'.tenants && s.Owns(u, t) ==> s'.Owns(u, t)
    ensures OwnersSound(s')
  {
  }

  lemma ANewAccountIsApart(s: Store, user: Id)
    requires Sound(s) && user !in s.users
    ensures forall key <- s.members :: key.0 != user
    ensures forall g <- s.grants :: g.scope.user != user
  {
  }

  lemma CreatingATenantKeeps(s: Store, tenant: Id, owner: Id)
    requires Sound(s) && tenant !in s.tenants && owner !in s.users
    ensures Sound(Apply(s, CreateTenant(tenant, owner)).value)
  {
    var s' := Apply(s, CreateTenant(tenant, owner)).value;
    ANewAccountIsApart(s, owner);
    forall u, t ensures s'.Owns(u, t) <==> s.Owns(u, t) || (u == owner && t == tenant) {
    }
    forall t <- s'.tenants ensures exists u :: s'.Owns(u, t) {
      if t == tenant {
        assert s'.Owns(owner, t);
      } else {
        var u :| s.Owns(u, t);
        assert s'.Owns(u, t);
      }
    }
    forall u, t | s.Owns(u, t) ensures u != owner && t != tenant {
      assert (u, t) in s.members;
    }
    forall g <- s'.grants ensures Grantable(s', g) {
      assert Grantable(s, g);
    }
  }

  lemma CreatingAnAccountKeeps(s: Store, w: Write)
    requires Sound(s) && Apply(s, w).Ok? && (w.CreateMember? || w.CreateAdministrator?)
    ensures Sound(Apply(s, w).value)
  {
    var s' := Apply(s, w).value;
    ANewAccountIsApart(s, w.user);
    OwnersStay(s, s');
    forall g <- s'.grants ensures Grantable(s', g) {
      assert Grantable(s, g);
    }
  }

  lemma DeletingATenantKeeps(s: Store, tenant: Id)
    requires Sound(s) && tenant in s.tenants
    ensures Sound(Apply(s, DeleteTenant(tenant)).value)
  {
    var s' := Apply(s, DeleteTenant(tenant)).value;
    OwnersStay(s, s');
    forall g <- s'.grants ensures Grantable(s', g) {
      assert Grantable(s, g);
    }
  }

  lemma DeletingAUserKeepsExactly(s: Store, user: Id)
    requires Sound(s) && user in s.users
    ensures Sound(Apply(s, DeleteUser(user)).value) <==> OwnsNothing(s, user)
  {
    var s' := Apply(s, DeleteUser(user)).value;
    if OwnsNothing(s, user) {
      OwnersStay(s, s');
      forall g <- s'.grants ensures Grantable(s', g) {
        assert Grantable(s, g);
      }
    } else {
      var key :| key in s.members && key.0 == user && s.members[key] == Owner;
      AnOwnerGone(s, s', user, key.1);
    }
  }

  /** A tenant whose one owner is its owner no longer has none. */
  lemma AnOwnerGone(s: Store, s': Store, user: Id, tenant: Id)
    requires Sound(s) && s.Owns(user, tenant)
    requires s'.tenants == s.tenants && !s'.Owns(user, tenant)
    requires forall u :: s'.Owns(u, tenant) ==> s.Owns(u, tenant)
    ensures !Sound(s')
  {
  }

  lemma AttachingKeepsExactly(s: Store, user: Id, tenant: Id)
    requires Sound(s) && Apply(s, Attach(user, tenant)).Ok?
    ensures Sound(Apply(s, Attach(user, tenant)).value) <==> Harmless(s, Attach(user, tenant))
  {
    var s' := Apply(s, Attach(user, tenant)).value;
    assert (user, tenant) in s'.members;
    if s.Owns(user, tenant) {
      AnOwnerGone(s, s', user, tenant);
    } else if s.IsRegular(user) {
      OwnersStay(s, s');
      forall g <- s'.grants ensures Grantable(s', g) {
        assert Grantable(s, g);
      }
    }
  }

  lemma DetachingKeepsExactly(s: Store, user: Id, tenant: Id)
    requires Sound(s) && (user, tenant) in s.members
    ensures Sound(Apply(s, Detach(user, tenant)).value) <==> !s.Owns(user, tenant)
  {
    var s' := Apply(s, Detach(user, tenant)).value;
    if s.Owns(user, tenant) {
      AnOwnerGone(s, s', user, tenant);
    } else {
      OwnersStay(s, s');
      forall g <- s'.grants ensures Grantable(s', g) {
        assert Grantable(s, g);
      }
    }
  }

  lemma GrantingKeepsExactly(s: Store, g: Grant)
    requires Sound(s) && Apply(s, AddGrant(g)).Ok?
    ensures Sound(Apply(s, AddGrant(g)).value) <==> Grantable(s, g)
  {
    var s' := Apply(s, AddGrant(g)).value;
    assert g in s'.grants;
    OwnersStay(s, s');
    if Grantable(s, g) {
      forall h <- s'.grants ensures Grantable(s', h) {
        assert h in s.grants ==> Grantable(s, h);
      }
    } else {
      assert !Grantable(s', g);
    }
  }

  lemma RevokingKeepsExactly(s: Store, g: Grant)
    requires Sound(s) && g in s.grants
    ensures Sound(Apply(s, DropGrant(g)).value) <==> NothingDepends(s, g)
  {
    var s' := Apply(s, DropGrant(g)).value;
    OwnersStay(s, s');
    if NothingDepends(s, g) {
      forall h <- s'.grants ensures Grantable(s', h) {
        assert Grantable(s, h);
      }
    } else {
      var h :| h in s.grants && h.scope == g.scope && h.capability.Prerequisite() == Some(g.capability);
      assert h in s'.grants && !Grantable(s', h);
    }
  }

  /** Of the writes a sound store carries out, exactly the harmless leave it sound. */
  lemma AWriteKeepsExactly(s: Store, w: Write)
    requires Sound(s) && Apply(s, w).Ok?
    ensures Sound(Apply(s, w).value) <==> Harmless(s, w)
  {
    match w {
      case CreateTenant(tenant, owner) => CreatingATenantKeeps(s, tenant, owner);
      case CreateMember(_, _) => CreatingAnAccountKeeps(s, w);
      case CreateAdministrator(_) => CreatingAnAccountKeeps(s, w);
      case DeleteTenant(tenant) => DeletingATenantKeeps(s, tenant);
      case DeleteUser(user) => DeletingAUserKeepsExactly(s, user);
      case Attach(user, tenant) => AttachingKeepsExactly(s, user, tenant);
      case Detach(user, tenant) => DetachingKeepsExactly(s, user, tenant);
      case AddGrant(grant) => GrantingKeepsExactly(s, grant);
      case DropGrant(grant) => RevokingKeepsExactly(s, grant);
    }
  }

  // ----- what all this comes to, in terms of the stored records alone -----

  /** The shape of scope each capability is granted at, and the two that need another beside them. */
  lemma EachCapabilityHasItsShape(c: Capability, scope: Scope)
    ensures c == TenantMgr ==> (c.Suits(scope) <==> scope.OfUser?)
    ensures c in {UserMgr, SysAgent, Observer} ==> (c.Suits(scope) <==> scope.InTenant?)
    ensures c in {ApiAccess, ApiAdvMgr, LimitMgr} ==> (c.Suits(scope) <==> scope.OnApi?)
    ensures c in {ApiAdvMgr, LimitMgr} ==> c.Prerequisite() == Some(ApiAccess)
    ensures c !in {ApiAdvMgr, LimitMgr} ==> c.Prerequisite() == None
  {
  }

  /** An account stored as a system administrator. */
  predicate StoredAdministrator(s: Store, user: Id) {
    user in s.users && s.users[user] == SystemAdministrator
  }

  /** A tenant's owner, a member of it granted the management of its users, or a system administrator. */
  predicate ManagesUsers(s: Store, caller: Id, tenant: Id) {
    || StoredAdministrator(s, caller)
    || ((caller, tenant) in s.members
        && (s.members[(caller, tenant)] == Owner || Grant(UserMgr, InTenant(caller, tenant)) in s.grants))
  }

  predicate ManagesTenants(s: Store, caller: Id) {
    StoredAdministrator(s, caller) || Grant(TenantMgr, OfUser(caller)) in s.grants
  }

  /** What a caller may do at a scope of its own comes from being an administrator, from owning, or from a grant. */
  lemma AllowedExactly(s: Store, caller: Id, c: Capability, scope: Scope)
    requires scope.user == caller
    ensures
      var granted :=
        && Grant(c, scope) in s.grants
        && (c in {ApiAdvMgr, LimitMgr} ==> Grant(ApiAccess, scope) in s.grants);
      s.Allows(caller, c, scope) <==>
      || StoredAdministrator(s, caller)
      || (c == TenantMgr && scope.OfUser? && granted)
      || (&& c in {UserMgr, SysAgent, Observer} && scope.InTenant? && (caller, scope.tenant) in s.members
          && (s.members[(caller, scope.tenant)] == Owner || granted))
      || (&& c in {ApiAccess, ApiAdvMgr, LimitMgr} && scope.OnApi? && (caller, scope.tenant) in s.members
          && (s.members[(caller, scope.tenant)] == Owner || granted))
  {
  }

  /** Exactly which accounts, tenants, memberships and grants there are after a write that is carried out. */
  lemma WhatAWriteDoes(s: Store, w: Write, user: Id, tenant: Id, g: Grant)
    requires Apply(s, w).Ok?
    ensures
      var t := Apply(s, w).value;
      var key := (user, tenant);
      match w
      case CreateTenant(made, owner) =>
        && made !in s.tenants && owner !in s.users
        && t.tenants == s.tenants + {made} && t.users == s.users[owner := Regular]
        && t.members == s.members[(owner, made) := Owner] && t.grants == s.grants
      case CreateMember(made, into) =>
        && made !in s.users && into in s.tenants
        && t.tenants == s.tenants && t.users == s.users[made := Regular]
        && t.members == s.members[(made, into) := Member] && t.grants == s.grants
      case CreateAdministrator(made) =>
        made !in s.users && t == s.(users := s.users[made := SystemAdministrator])
      case Attach(who, into) => t == s.(members := s.members[(who, into) := Member])
      case Detach(who, from) =>
        && t.users == s.users && t.tenants == s.tenants
        && (key in t.members <==> key in s.members && !(user == who && tenant == from))
        && (key in t.members ==> t.members[key] == s.members[key])
        && (g in t.grants <==> g in s.grants && (g.scope.OfUser? || (g.scope.user, g.scope.tenant) != (who, from)))
      case DeleteTenant(gone) =>
        && t.users == s.users && t.tenants == s.tenants - {gone}
        && (key in t.members <==> key in s.members && tenant != gone)
        && (key in t.members ==> t.members[key] == s.members[key])
        && (g in t.grants <==> g in s.grants && (g.scope.OfUser? || g.scope.tenant != gone))
      case DeleteUser(gone) =>
        && t.tenants == s.tenants && (user in t.users <==> user in s.users && user != gone)
        && (user in t.users ==> t.users[user] == s.users[user])
        && (key in t.members <==> key in s.members && user != gone)
        && (key in t.members ==> t.members[key] == s.members[key])
        && (g in t.grants <==> g in s.grants && g.scope.user != gone)
      case AddGrant(given) => t == s.(grants := s.grants + {given})
      case DropGrant(taken) => taken in s.grants && t == s.(grants := s.grants - {taken})
  {
  }

  /** Owning a tenant gives nothing on an account or in another tenant. */
  lemma AnOwnersRoleEndsWithItsTenant(owned: Id, c: Capability, scope: Scope)
    ensures TenantAdmin(owned).Implies(c, scope) <==> c.Suits(scope) && !scope.OfUser? && scope.tenant == owned
    ensures TenantAdmin(owned).Implies(c, scope) ==> c != TenantMgr
    ensures !NoRole.Implies(c, scope)
  {
  }

  /** When the store refuses a write, and how. */
  lemma WhenAWriteIsRefused(s: Store, w: Write)
    ensures Apply(s, w) == Err(Taken) <==>
            || (w.CreateTenant? && (w.tenant in s.tenants || w.owner in s.users))
            || (w.CreateMember? && w.user in s.users)
            || (w.CreateAdministrator? && w.user in s.users)
    ensures Apply(s, w) == Err(Missing) <==>
            || (w.DeleteTenant? && w.tenant !in s.tenants)
            || (w.CreateMember? && w.user !in s.users && w.tenant !in s.tenants)
            || (w.DeleteUser? && w.user !in s.users)
            || (w.Attach? && (w.user !in s.users || w.tenant !in s.tenants))
            || (w.Detach? && (w.user, w.tenant) !in s.members)
            || (&& w.AddGrant?
                && (w.grant.scope.user !in s.users
                    || (!w.grant.scope.OfUser? && w.grant.scope.tenant !in s.tenants)))
            || (w.DropGrant? && w.grant !in s.grants)
  {
  }
}
