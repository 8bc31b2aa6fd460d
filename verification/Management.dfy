/**
 The management api over the identity store: who may ask for which write, the handlers that check
 and carry it out, and what holds over every run of them, each handler one step.
 */
module Management {
  import opened Common
  import opened Identity

  /** Whether a caller may see a whole account, and so end it. */
  predicate SeesAll(s: Store, caller: Id, user: Id) {
    || s.IsAdministrator(caller)
    || ((exists key <- s.members :: key.0 == user)
        && forall key <- s.members :: key.0 == user ==> s.Allows(caller, UserMgr, InTenant(caller, key.1)))
  }

  /** Whether a caller may know an account is there: one tenant of it to manage the users of is enough. */
  predicate Shown(s: Store, caller: Id, user: Id) {
    && user in s.users
    && (|| s.IsAdministrator(caller)
        || exists key <- s.members :: key.0 == user && s.Allows(caller, UserMgr, InTenant(caller, key.1)))
  }

  /** Which writes a caller may ask for, whatever the store makes of them. */
  predicate Authorized(s: Store, caller: Id, w: Write) {
    match w
    case CreateTenant(_, _) => s.Allows(caller, TenantMgr, OfUser(caller))
    case DeleteTenant(_) => s.Allows(caller, TenantMgr, OfUser(caller))
    case CreateMember(_, tenant) => s.Allows(caller, UserMgr, InTenant(caller, tenant))
    case Attach(_, tenant) => s.Allows(caller, UserMgr, InTenant(caller, tenant))
    case Detach(_, tenant) => s.Allows(caller, UserMgr, InTenant(caller, tenant))
    case DeleteUser(user) => caller != user && !s.IsAdministrator(user) && SeesAll(s, caller, user)
    case AddGrant(grant) => MayGrant(s, caller, grant.scope)
    case DropGrant(grant) => MayGrant(s, caller, grant.scope)
    case CreateAdministrator(_) => false
  }

  predicate MayGrant(s: Store, caller: Id, scope: Scope) {
    if scope.OfUser? then s.IsAdministrator(caller) else s.Administers(caller, scope.tenant)
  }

  predicate Accepted(s: Store, caller: Id, w: Write) {
    Authorized(s, caller, w) && Harmless(s, w) && Apply(s, w).Ok?
  }

  /** The store after one request: the write asked for where it is accepted, and untouched otherwise. */
  function Next(s: Store, caller: Id, w: Write): Store {
    if Accepted(s, caller, w) then Apply(s, w).value else s
  }

  // ----- the handlers -----

  datatype Answer = Done | Already | Forbidden | NotFound | Conflict | Unprocessable

  function Refusal(error: StoreError): Answer {
    match error
    case Taken => Conflict
    case Missing => NotFound
  }

  class Directory {
    var store: Store

    constructor ()
      ensures store == Store(map[], {}, map[], {}) && Sound(store)
    {
      store := Store(map[], {}, map[], {});
    }

    /** Carries out one write, answering as the store does. */
    method Carry(w: Write) returns (answer: Answer)
      modifies this
      ensures store == if Apply(old(store), w).Ok? then Apply(old(store), w).value else old(store)
      ensures answer == if Apply(old(store), w).Ok? then Done else Refusal(Apply(old(store), w).error)
    {
      match Apply(store, w) {
        case Ok(changed) =>
          store := changed;
          answer := Done;
        case Err(error) => answer := Refusal(error);
      }
    }

    method CreateTenant(caller: Id, tenant: Id, owner: Id) returns (answer: Answer)
      requires Sound(store) && caller in store.users
      modifies this
      ensures Sound(store) && store == Next(old(store), caller, Write.CreateTenant(tenant, owner))
      ensures answer == Done <==> Accepted(old(store), caller, Write.CreateTenant(tenant, owner))
      ensures answer == Forbidden <==> !old(store).Allows(caller, TenantMgr, OfUser(caller))
      ensures answer != Done && answer != Forbidden ==>
                answer == Conflict && (tenant in old(store).tenants || owner in old(store).users)
    {
      hide Apply, Sound;
      StepKeeps(store, caller, Write.CreateTenant(tenant, owner));
      WhenAWriteIsRefused(store, Write.CreateTenant(tenant, owner));
      if !store.Allows(caller, TenantMgr, OfUser(caller)) {
        return Forbidden;
      }
      answer := Carry(Write.CreateTenant(tenant, owner));
    }

    method RemoveTenant(caller: Id, tenant: Id) returns (answer: Answer)
      requires Sound(store) && caller in store.users
      modifies this
      ensures Sound(store) && store == Next(old(store), caller, DeleteTenant(tenant))
      ensures answer == Done <==> Accepted(old(store), caller, DeleteTenant(tenant))
      ensures answer == Forbidden <==> !old(store).Allows(caller, TenantMgr, OfUser(caller))
      ensures answer != Done && answer != Forbidden ==> answer == NotFound && tenant !in old(store).tenants
    {
      hide Apply, Sound;
      StepKeeps(store, caller, DeleteTenant(tenant));
      WhenAWriteIsRefused(store, DeleteTenant(tenant));
      if !store.Allows(caller, TenantMgr, OfUser(caller)) {
        return Forbidden;
      }
      answer := Carry(DeleteTenant(tenant));
    }

    method CreateUser(caller: Id, user: Id, tenant: Id) returns (answer: Answer)
      requires Sound(store) && caller in store.users
      modifies this
      ensures Sound(store) && store == Next(old(store), caller, CreateMember(user, tenant))
      ensures answer == Done <==> Accepted(old(store), caller, CreateMember(user, tenant))
      ensures answer == Forbidden <==> !old(store).Allows(caller, UserMgr, InTenant(caller, tenant))
      ensures answer != Done && answer != Forbidden ==>
                if user in old(store).users then answer == Conflict
                else answer == NotFound && tenant !in old(store).tenants
    {
      hide Apply, Sound;
      StepKeeps(store, caller, CreateMember(user, tenant));
      WhenAWriteIsRefused(store, CreateMember(user, tenant));
      if !store.Allows(caller, UserMgr, InTenant(caller, tenant)) {
        return Forbidden;
      }
      answer := Carry(CreateMember(user, tenant));
    }

    /** The tenants an account is attached to, and those of them a caller may be shown. */
    method Found(caller: Id, user: Id) returns (attached: set<Id>, shown: set<Id>)
      ensures attached == AttachedTo(store, user)
      ensures shown == if store.IsAdministrator(caller) || caller == user then attached
                       else set t | t in attached && store.Allows(caller, UserMgr, InTenant(caller, t))
    {
      attached := AttachedTo(store, user);
      if store.IsAdministrator(caller) || caller == user {
        return attached, attached;
      }
      shown := {};
      var rest := attached;
      while rest != {}
        invariant rest <= attached
        invariant shown == set t | t in attached - rest && store.Allows(caller, UserMgr, InTenant(caller, t))
      {
        var t :| t in rest;
        if store.Allows(caller, UserMgr, InTenant(caller, t)) {
          shown := shown + {t};
        }
        rest := rest - {t};
      }
    }

    method RemoveUser(caller: Id, user: Id) returns (answer: Answer)
      requires Sound(store) && caller in store.users
      modifies this
      ensures Sound(store) && store == Next(old(store), caller, DeleteUser(user))
      ensures answer == Done <==> Accepted(old(store), caller, DeleteUser(user))
      ensures answer == Conflict <==>
              && user in old(store).users && Authorized(old(store), caller, DeleteUser(user))
              && !OwnsNothing(old(store), user)
      ensures answer == NotFound <==> caller != user && !Shown(old(store), caller, user)
      ensures answer in {Done, Conflict, NotFound, Forbidden}
    {
      hide Apply, Sound;
      StepKeeps(store, caller, DeleteUser(user));
      if caller == user {
        return Forbidden;
      }
      if user !in store.users {
        NobodyToRemove(store, user);
        return NotFound;
      }
      var attached, shown := Found(caller, user);
      SeeingAllIsCounting(store, caller, user, attached, shown);
      if shown == {} && !store.IsAdministrator(caller) {
        return NotFound;
      }
      if store.IsAdministrator(user) {
        return Forbidden;
      }
      if |shown| != |attached| {
        return Forbidden;
      }
      if exists t <- shown :: store.Owns(user, t) {
        return Conflict;
      }
      RemovalIsCarried(store, user);
      answer := Carry(DeleteUser(user));
    }

    method Attach(caller: Id, user: Id, tenant: Id) returns (answer: Answer)
      requires Sound(store) && caller in store.users
      modifies this
      ensures Sound(store) && store == Next(old(store), caller, Write.Attach(user, tenant))
      ensures answer == Done || answer == Already <==> Accepted(old(store), caller, Write.Attach(user, tenant))
      ensures answer == Already ==> store == old(store) && store.IsMember(user, tenant)
      ensures answer == Done ==> (user, tenant) !in old(store).members
      ensures answer == Forbidden <==> !old(store).Allows(caller, UserMgr, InTenant(caller, tenant))
      ensures answer !in {Done, Already, Forbidden} ==>
                if old(store).IsAdministrator(user) || old(store).Owns(user, tenant) then answer == Conflict
                else answer == NotFound && (user !in old(store).users || tenant !in old(store).tenants)
    {
      hide Sound;
      StepKeeps(store, caller, Write.Attach(user, tenant));
      if !store.Allows(caller, UserMgr, InTenant(caller, tenant)) {
        return Forbidden;
      }
      if user !in store.users {
        StrangersAreInNoTenant(store, user, tenant);
        return NotFound;
      }
      if store.users[user] == SystemAdministrator {
        return Conflict;
      }
      if (user, tenant) in store.members {
        if store.members[(user, tenant)] == Owner {
          return Conflict;
        }
        AttachedIsThere(store, user, tenant);
        return Already;
      }
      answer := Carry(Write.Attach(user, tenant));
    }

    method Detach(caller: Id, user: Id, tenant: Id) returns (answer: Answer)
      requires Sound(store) && caller in store.users
      modifies this
      ensures Sound(store) && store == Next(old(store), caller, Write.Detach(user, tenant))
      ensures answer == Done <==> Accepted(old(store), caller, Write.Detach(user, tenant))
      ensures answer == Forbidden <==> !old(store).Allows(caller, UserMgr, InTenant(caller, tenant))
      ensures answer != Done && answer != Forbidden ==>
                if old(store).Owns(user, tenant) then answer == Conflict
                else answer == NotFound && (user, tenant) !in old(store).members
    {
      hide Sound;
      StepKeeps(store, caller, Write.Detach(user, tenant));
      if !store.Allows(caller, UserMgr, InTenant(caller, tenant)) {
        return Forbidden;
      }
      if (user, tenant) !in store.members {
        return NotFound;
      }
      if store.members[(user, tenant)] == Owner {
        return Conflict;
      }
      answer := Carry(Write.Detach(user, tenant));
    }

    /** Why a grant inside a tenant may not be given or taken, and nothing when it may. */
    method MemberRefusal(caller: Id, grant: Grant) returns (refusal: Option<Answer>)
      requires !grant.scope.OfUser?
      ensures refusal == None
        <==> (&& grant.capability.Suits(grant.scope)
              && MayGrant(store, caller, grant.scope)
              && store.IsMember(grant.scope.user, grant.scope.tenant))
      ensures refusal == Some(Unprocessable) <==> !grant.capability.Suits(grant.scope)
      ensures refusal == Some(Forbidden)
        <==> grant.capability.Suits(grant.scope) && !MayGrant(store, caller, grant.scope)
      ensures refusal == Some(Conflict) ==> store.Owns(grant.scope.user, grant.scope.tenant)
      ensures refusal == Some(NotFound) ==> (grant.scope.user, grant.scope.tenant) !in store.members
      ensures refusal !in {Some(Done), Some(Already)}
    {
      if !grant.capability.Suits(grant.scope) {
        return Some(Unprocessable);
      }
      if !store.Administers(caller, grant.scope.tenant) {
        return Some(Forbidden);
      }
      if (grant.scope.user, grant.scope.tenant) !in store.members {
        return Some(NotFound);
      }
      if store.members[(grant.scope.user, grant.scope.tenant)] == Owner {
        return Some(Conflict);
      }
      return None;
    }

    method Give(caller: Id, grant: Grant) returns (answer: Answer)
      requires Sound(store) && caller in store.users && !grant.scope.OfUser?
      modifies this
      ensures Sound(store) && store == Next(old(store), caller, AddGrant(grant))
      ensures answer == Done <==> Accepted(old(store), caller, AddGrant(grant))
      ensures answer == Unprocessable <==> !grant.capability.Suits(grant.scope)
      ensures answer == Forbidden
        <==> grant.capability.Suits(grant.scope) && !MayGrant(old(store), caller, grant.scope)
      ensures answer == NotFound ==> (grant.scope.user, grant.scope.tenant) !in old(store).members
      ensures answer == Conflict ==>
                || old(store).Owns(grant.scope.user, grant.scope.tenant)
                || (&& grant.capability.Prerequisite().Some?
                    && !old(store).Holds(grant.capability.Prerequisite().value, grant.scope))
      ensures answer != Already
    {
      StepKeeps(store, caller, AddGrant(grant));
      var refusal := MemberRefusal(caller, grant);
      if refusal.Some? {
        return refusal.value;
      }
      var prerequisite := grant.capability.Prerequisite();
      if prerequisite.Some? && !store.Holds(prerequisite.value, grant.scope) {
        return Conflict;
      }
      hide Sound;
      answer := Carry(AddGrant(grant));
    }

    method Take(caller: Id, grant: Grant) returns (answer: Answer)
      requires Sound(store) && caller in store.users && !grant.scope.OfUser?
      modifies this
      ensures Sound(store) && store == Next(old(store), caller, DropGrant(grant))
      ensures answer == Done <==> Accepted(old(store), caller, DropGrant(grant))
      ensures answer == Unprocessable <==> !grant.capability.Suits(grant.scope)
      ensures answer == Forbidden
        <==> grant.capability.Suits(grant.scope) && !MayGrant(old(store), caller, grant.scope)
      ensures answer == NotFound ==> grant !in old(store).grants
      ensures answer == Conflict ==>
                || old(store).Owns(grant.scope.user, grant.scope.tenant)
                || !NothingDepends(old(store), grant)
      ensures answer != Already
    {
      StepKeeps(store, caller, DropGrant(grant));
      var refusal := MemberRefusal(caller, grant);
      if refusal.Some? {
        return refusal.value;
      }
      if exists g <- store.grants :: g.scope == grant.scope && g.capability.Prerequisite() == Some(grant.capability) {
        return Conflict;
      }
      hide Sound;
      answer := Carry(DropGrant(grant));
    }

    /** Why a grant against an account itself may not be given or taken, and nothing when it may. */
    method AccountRefusal(caller: Id, grant: Grant) returns (refusal: Option<Answer>)
      requires grant.scope.OfUser?
      ensures refusal == None
        <==> store.IsAdministrator(caller) && grant.capability.Suits(grant.scope) && store.IsRegular(grant.scope.user)
      ensures refusal == Some(Forbidden) <==> !store.IsAdministrator(caller)
      ensures refusal == Some(Unprocessable) <==> store.IsAdministrator(caller) && !grant.capability.Suits(grant.scope)
      ensures refusal == Some(Conflict) ==> store.IsAdministrator(grant.scope.user)
      ensures refusal == Some(NotFound) ==> grant.scope.user !in store.users
      ensures refusal !in {Some(Done), Some(Already)}
    {
      if !store.IsAdministrator(caller) {
        return Some(Forbidden);
      }
      if !grant.capability.Suits(grant.scope) {
        return Some(Unprocessable);
      }
      if grant.scope.user !in store.users {
        return Some(NotFound);
      }
      if store.users[grant.scope.user] == SystemAdministrator {
        return Some(Conflict);
      }
      return None;
    }

    method GiveOnAccount(caller: Id, grant: Grant) returns (answer: Answer)
      requires Sound(store) && caller in store.users && grant.scope.OfUser?
      modifies this
      ensures Sound(store) && store == Next(old(store), caller, AddGrant(grant))
      ensures answer == Done <==> Accepted(old(store), caller, AddGrant(grant))
      ensures answer == Forbidden <==> !old(store).IsAdministrator(caller)
      ensures answer == Unprocessable
        <==> old(store).IsAdministrator(caller) && !grant.capability.Suits(grant.scope)
      ensures answer == Conflict ==> old(store).IsAdministrator(grant.scope.user)
      ensures answer == NotFound ==> grant.scope.user !in old(store).users
      ensures answer != Already
    {
      hide Sound;
      StepKeeps(store, caller, AddGrant(grant));
      var refusal := AccountRefusal(caller, grant);
      if refusal.Some? {
        return refusal.value;
      }
      answer := Carry(AddGrant(grant));
    }

    method TakeOnAccount(caller: Id, grant: Grant) returns (answer: Answer)
      requires Sound(store) && caller in store.users && grant.scope.OfUser?
      modifies this
      ensures Sound(store) && store == Next(old(store), caller, DropGrant(grant))
      ensures answer == Done <==> Accepted(old(store), caller, DropGrant(grant))
      ensures answer == Forbidden <==> !old(store).IsAdministrator(caller)
      ensures answer == Unprocessable
        <==> old(store).IsAdministrator(caller) && !grant.capability.Suits(grant.scope)
      ensures answer == Conflict ==> old(store).IsAdministrator(grant.scope.user)
      ensures answer == NotFound ==> grant !in old(store).grants
      ensures answer != Already
    {
      StepKeeps(store, caller, DropGrant(grant));
      assert grant in store.grants ==> Grantable(store, grant);
      var refusal := AccountRefusal(caller, grant);
      if refusal.Some? {
        return refusal.value;
      }
      assert NothingDepends(store, grant) by {
        forall g <- store.grants | g.scope == grant.scope
          ensures g.capability.Prerequisite() != Some(grant.capability)
        {
          assert Grantable(store, g);
        }
      }
      hide Sound;
      answer := Carry(DropGrant(grant));
    }
  }

  function AttachedTo(s: Store, user: Id): set<Id> {
    set key | key in s.members && key.0 == user :: key.1
  }

  lemma StepKeeps(s: Store, caller: Id, w: Write)
    requires Sound(s)
    ensures Sound(Next(s, caller, w))
  {
    if Apply(s, w).Ok? {
      AWriteKeepsExactly(s, w);
    }
  }

  lemma NobodyToRemove(s: Store, user: Id)
    requires user !in s.users
    ensures Apply(s, DeleteUser(user)).Err?
  {
  }

  lemma RemovalIsCarried(s: Store, user: Id)
    requires user in s.users
    ensures Apply(s, DeleteUser(user)).Ok?
  {
  }

  lemma StrangersAreInNoTenant(s: Store, user: Id, tenant: Id)
    requires Sound(s) && user !in s.users
    ensures (user, tenant) !in s.members
  {
  }

  lemma AttachedIsThere(s: Store, user: Id, tenant: Id)
    requires Sound(s) && s.IsMember(user, tenant)
    ensures Apply(s, Write.Attach(user, tenant)) == Ok(s) && s.IsRegular(user)
  {
    assert s.members[(user, tenant) := Member] == s.members;
  }

  /** Being shown as many attachments as there are is being shown them all. */
  lemma SeeingAllIsCounting(s: Store, caller: Id, user: Id, attached: set<Id>, shown: set<Id>)
    requires caller != user && attached == AttachedTo(s, user)
    requires shown == if s.IsAdministrator(caller) then attached
                      else set t | t in attached && s.Allows(caller, UserMgr, InTenant(caller, t))
    ensures SeesAll(s, caller, user) <==> (s.IsAdministrator(caller) || shown != {}) && |shown| == |attached|
    ensures user in s.users ==> (Shown(s, caller, user) <==> s.IsAdministrator(caller) || shown != {})
    ensures SeesAll(s, caller, user) ==> (OwnsNothing(s, user) <==> !exists t <- shown :: s.Owns(user, t))
  {
    assert forall t :: t in attached <==> (user, t) in s.members by {
      assert forall t :: (user, t) in s.members ==> (user, t).0 == user;
    }
    assert forall key <- s.members :: key.0 == user ==> key == (user, key.1);
    if t :| t in shown {
      assert (user, t) in s.members && (user, t).0 == user && (user, t).1 == t;
    }
    if key :| key in s.members && key.0 == user && s.Allows(caller, UserMgr, InTenant(caller, key.1)) {
      assert key.1 in attached && key.1 in shown;
    }
    if |shown| == |attached| {
      SameSize(shown, attached);
    }
    if SeesAll(s, caller, user) {
      assert shown == attached;
    }
  }

  lemma SameSize(part: set<Id>, whole: set<Id>)
    requires part <= whole && |part| == |whole|
    ensures part == whole
  {
    assert |whole - part| == |whole| - |part|;
  }

  // ----- runs -----

  /** A run takes requests one at a time, and the command line, which alone makes a system administrator. */
  datatype Step = Called(caller: Id, write: Write) | CommandLine(user: Id)

  function After(s: Store, run: seq<Step>): Store
    decreases |run|
  {
    if run == [] then s
    else
      var before := After(s, run[..|run| - 1]);
      match run[|run| - 1]
      case Called(caller, write) => Next(before, caller, write)
      case CommandLine(user) =>
        if Apply(before, CreateAdministrator(user)).Ok? then Apply(before, CreateAdministrator(user)).value else before
  }

  /** The store a step of a run is taken in. */
  function Before(s: Store, run: seq<Step>, i: nat): Store
    requires i <= |run|
  {
    After(s, run[..i])
  }

  /** Every run keeps the store sound. */
  lemma {:induction false} RunsKeepSound(s: Store, run: seq<Step>)
    requires Sound(s)
    ensures Sound(After(s, run))
    decreases |run|
  {
    if run != [] {
      hide Sound, Apply;
      var before := After(s, run[..|run| - 1]);
      RunsKeepSound(s, run[..|run| - 1]);
      match run[|run| - 1] {
        case Called(caller, write) => StepKeeps(before, caller, write);
        case CommandLine(user) =>
          if Apply(before, CreateAdministrator(user)).Ok? {
            AWriteKeepsExactly(before, CreateAdministrator(user));
          }
      }
    }
  }

  /** No request makes or ends a system administrator. */
  lemma {:induction false} AdministratorsAreFixed(s: Store, run: seq<Step>, user: Id)
    requires forall i :: 0 <= i < |run| ==> run[i].Called?
    ensures After(s, run).IsAdministrator(user) <==> s.IsAdministrator(user)
    decreases |run|
  {
    if run != [] {
      AdministratorsAreFixed(s, run[..|run| - 1], user);
      var last := run[|run| - 1];
      ARequestSparesAdministrators(After(s, run[..|run| - 1]), last.caller, last.write, user);
    }
  }

  lemma ARequestSparesAdministrators(s: Store, caller: Id, w: Write, user: Id)
    ensures Next(s, caller, w).IsAdministrator(user) <==> s.IsAdministrator(user)
  {
  }

  /** While nobody allowed to manage tenants calls, every tenant keeps its owner and none comes or goes. */
  lemma {:induction false} OwnershipNeedsATenantManager(s: Store, run: seq<Step>)
    requires Sound(s)
    requires forall i :: 0 <= i < |run| && run[i].Called? ==>
      !ManagesTenants(Before(s, run, i), run[i].caller)
    ensures After(s, run).tenants == s.tenants
    ensures forall u, t :: After(s, run).Owns(u, t) <==> s.Owns(u, t)
    decreases |run|
  {
    if run != [] {
      var n := |run| - 1;
      var before := After(s, run[..n]);
      EarlierStepsOf(s, run);
      OwnershipNeedsATenantManager(s, run[..n]);
      RunsKeepSound(s, run[..n]);
      assert Before(s, run, n) == before;
      match run[n] {
        case Called(caller, write) => ARequestSparesOwners(before, caller, write);
        case CommandLine(user) =>
      }
    }
  }

  lemma EarlierStepsOf(s: Store, run: seq<Step>)
    requires run != []
    ensures forall i :: 0 <= i < |run| - 1 ==> Before(s, run[..|run| - 1], i) == Before(s, run, i)
  {
    forall i | 0 <= i < |run| - 1 ensures Before(s, run[..|run| - 1], i) == Before(s, run, i) {
      assert run[..|run| - 1][..i] == run[..i];
    }
  }

  lemma ARequestSparesOwners(s: Store, caller: Id, w: Write)
    requires Sound(s) && !ManagesTenants(s, caller)
    ensures Next(s, caller, w).tenants == s.tenants
    ensures forall u, t :: Next(s, caller, w).Owns(u, t) <==> s.Owns(u, t)
  {
  }

  /** Who may give or take a grant: a system administrator, and inside a tenant its owner too. */
  predicate Gives(s: Store, caller: Id, scope: Scope) {
    || StoredAdministrator(s, caller)
    || (!scope.OfUser? && (caller, scope.tenant) in s.members && s.members[(caller, scope.tenant)] == Owner)
  }

  /** A caller that manages the users of every tenant an account is in, and it is in one. */
  ghost predicate ManagesAllOf(s: Store, caller: Id, user: Id) {
    && (exists t :: (user, t) in s.members)
    && forall t :: (user, t) in s.members ==> ManagesUsers(s, caller, t)
  }

  /** Exactly who may ask for each write, in terms of what is stored. */
  lemma WhoMayAsk(s: Store, caller: Id, w: Write)
    ensures Authorized(s, caller, w) <==>
            match w
            case CreateTenant(_, _) => ManagesTenants(s, caller)
            case DeleteTenant(_) => ManagesTenants(s, caller)
            case CreateMember(_, tenant) => ManagesUsers(s, caller, tenant)
            case Attach(_, tenant) => ManagesUsers(s, caller, tenant)
            case Detach(_, tenant) => ManagesUsers(s, caller, tenant)
            case DeleteUser(user) =>
              && caller != user && !StoredAdministrator(s, user)
              && (StoredAdministrator(s, caller) || ManagesAllOf(s, caller, user))
            case AddGrant(g) => Gives(s, caller, g.scope)
            case DropGrant(g) => Gives(s, caller, g.scope)
            case CreateAdministrator(_) => false
  {
    if w.DeleteUser? {
      assert forall key <- s.members :: key == (key.0, key.1);
      assert forall t :: (w.user, t) in s.members ==> (w.user, t).0 == w.user && (w.user, t).1 == t;
    }
  }

  /** Where a request of a run changed something, and what it was: the last step before which it had not changed. */
  lemma {:induction false} SomethingWasAskedFor(s: Store, run: seq<Step>, held: Store -> bool) returns (i: nat)
    requires !held(s) && held(After(s, run))
    ensures i < |run| && !held(Before(s, run, i)) && held(Before(s, run, i + 1))
    decreases |run|
  {
    i := |run| - 1;
    assert run[..|run|] == run && run[..i + 1] == run;
    if held(Before(s, run, i)) {
      i := SomethingWasAskedFor(s, run[..i], held);
      assert run[..|run| - 1][..i] == run[..i] && run[..|run| - 1][..i + 1] == run[..i + 1];
    }
  }

  lemma OneStepFurther(s: Store, run: seq<Step>, i: nat)
    requires i < |run|
    ensures
      var before, after := Before(s, run, i), Before(s, run, i + 1);
      match run[i]
      case Called(caller, w) =>
        after == if Accepted(before, caller, w) then Apply(before, w).value else before
      case CommandLine(user) =>
        after == if user in before.users then before else before.(users := before.users[user := SystemAdministrator])
  {
    assert run[..i + 1][..i] == run[..i];
  }

  /**
   A membership that is there after a run and was not before came with its tenant, asked for by one who
   manages tenants, or was made or joined by the asking of one who managed the tenant's users then.
   */
  lemma MembershipsComeFromManagers(s: Store, run: seq<Step>, user: Id, tenant: Id) returns (i: nat)
    requires (user, tenant) in After(s, run).members && (user, tenant) !in s.members
    ensures i < |run| && run[i].Called?
    ensures
      var before, caller, w := Before(s, run, i), run[i].caller, run[i].write;
      || (w == CreateTenant(tenant, user) && ManagesTenants(before, caller))
      || (w in {CreateMember(user, tenant), Attach(user, tenant)} && ManagesUsers(before, caller, tenant))
  {
    i := SomethingWasAskedFor(s, run, (t: Store) => (user, tenant) in t.members);
    OneStepFurther(s, run, i);
    if run[i].Called? {
      WhoMayAsk(Before(s, run, i), run[i].caller, run[i].write);
    }
  }

  /**
   A membership that is gone after a run went with its tenant, asked for by one who manages tenants,
   with its account, asked for by an administrator or by one who managed the users of every tenant the
   account was in, or by the asking of one who managed the tenant's users, and then was not the owner's.
   */
  lemma MembershipsGoByManagers(s: Store, run: seq<Step>, user: Id, tenant: Id) returns (i: nat)
    requires (user, tenant) in s.members && (user, tenant) !in After(s, run).members
    ensures i < |run| && run[i].Called?
    ensures
      var before, caller, w := Before(s, run, i), run[i].caller, run[i].write;
      || (w == DeleteTenant(tenant) && ManagesTenants(before, caller))
      || (w == DeleteUser(user) && (StoredAdministrator(before, caller) || ManagesAllOf(before, caller, user)))
      || (w == Detach(user, tenant) && ManagesUsers(before, caller, tenant) && before.IsMember(user, tenant))
  {
    i := SomethingWasAskedFor(s, run, (t: Store) => (user, tenant) !in t.members);
    OneStepFurther(s, run, i);
    if run[i].Called? {
      WhoMayAsk(Before(s, run, i), run[i].caller, run[i].write);
    }
  }

  /**
   An account that is gone after a run was regular and owned nothing, and was ended by another that was
   an administrator or managed the users of every tenant it was in.
   */
  lemma AccountsGoByManagers(s: Store, run: seq<Step>, user: Id) returns (i: nat)
    requires user in s.users && user !in After(s, run).users
    ensures i < |run| && run[i].Called? && run[i].write == DeleteUser(user) && run[i].caller != user
    ensures
      var before, caller := Before(s, run, i), run[i].caller;
      && before.IsRegular(user) && (forall t :: (user, t) in before.members ==> before.members[(user, t)] == Member)
      && (StoredAdministrator(before, caller) || ManagesAllOf(before, caller, user))
  {
    i := SomethingWasAskedFor(s, run, (t: Store) => user !in t.users);
    OneStepFurther(s, run, i);
    if run[i].Called? {
      WhoMayAsk(Before(s, run, i), run[i].caller, run[i].write);
      assert forall t :: (user, t) in Before(s, run, i).members ==> (user, t).0 == user;
    }
  }

  /** A grant that a run leaves was there before it or was given, as it stands, by one who may give it. */
  lemma {:induction false} GrantsComeFromAdministrators(s: Store, run: seq<Step>, g: Grant)
    requires g in After(s, run).grants && g !in s.grants
    ensures exists i ::
              && 0 <= i < |run| && run[i].Called? && run[i].write == AddGrant(g)
              && Gives(Before(s, run, i), run[i].caller, g.scope)
    decreases |run|
  {
    var n := |run| - 1;
    var before := After(s, run[..n]);
    if g in before.grants {
      GrantsComeFromAdministrators(s, run[..n], g);
      EarlierStepsOf(s, run);
      var i :| 0 <= i < n && run[..n][i].Called? && run[..n][i].write == AddGrant(g)
               && Gives(Before(s, run[..n], i), run[..n][i].caller, g.scope);
      assert run[i] == run[..n][i];
    } else {
      assert Before(s, run, n) == before && run[n].Called?;
      OnlyGivingAdds(before, run[n].caller, run[n].write, g);
    }
  }

  lemma OnlyGivingAdds(s: Store, caller: Id, w: Write, g: Grant)
    requires g in Next(s, caller, w).grants && g !in s.grants
    ensures w == AddGrant(g) && Gives(s, caller, g.scope)
  {
  }

  /**
   An account taken out of a tenant loses every grant inside it, and whatever follows, being put
   in again included, a grant comes back only where one who administers the tenant gives it again.
   */
  lemma NothingComesBack(s: Store, caller: Id, user: Id, tenant: Id, run: seq<Step>, g: Grant)
    requires Accepted(s, caller, Detach(user, tenant))
    requires !g.scope.OfUser? && g.scope.user == user && g.scope.tenant == tenant
    requires var left := Next(s, caller, Detach(user, tenant));
      forall i :: 0 <= i < |run| && run[i].Called? && run[i].write == AddGrant(g) ==>
        !Before(left, run, i).Administers(run[i].caller, tenant)
    ensures g !in After(Next(s, caller, Detach(user, tenant)), run).grants
  {
    var left := Next(s, caller, Detach(user, tenant));
    assert g !in left.grants;
    if g in After(left, run).grants {
      GrantsComeFromAdministrators(left, run, g);
    }
  }

  /** In a sound store a grant is held exactly where it is stored: prerequisites never stand in its way. */
  lemma AStoredGrantIsHeld(s: Store, g: Grant)
    requires Sound(s)
    ensures s.Holds(g.capability, g.scope) <==> g in s.grants
  {
  }

  /**
   With the check and the write of two requests interleaved the last promise fails: a grant checked
   before its member left and written after is stored, unsound, and held once the account is put in again.
   */
  lemma ALateGrantComesBack(s: Store, user: Id, tenant: Id, capability: Capability)
    requires Sound(s) && s.IsMember(user, tenant) && capability.Suits(InTenant(user, tenant))
    ensures
      var given := AddGrant(Grant(capability, InTenant(user, tenant)));
      && Harmless(s, given)
      && var left := Apply(s, Detach(user, tenant)).value;
         && Sound(left) && Apply(left, given).Ok? && !Harmless(left, given)
         && var late := Apply(left, given).value;
            && !Sound(late) && Harmless(late, Attach(user, tenant)) && Apply(late, Attach(user, tenant)).Ok?
            && Apply(late, Attach(user, tenant)).value.Allows(user, capability, InTenant(user, tenant))
  {
    var given := AddGrant(Grant(capability, InTenant(user, tenant)));
    assert s.IsRegular(user) && tenant in s.tenants by { assert (user, tenant) in s.members; }
    DetachingKeepsExactly(s, user, tenant);
    var left := Apply(s, Detach(user, tenant)).value;
    GrantingKeepsExactly(left, given.grant);
  }
}
