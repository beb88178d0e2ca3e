/**
 * The server and its database.  Each method is one request: it works on a copy
 * of the tables and commits by replacing the stored ones, so a failed request
 * leaves the database as it was.
 */
module IamServer {
  import opened Common
  import opened ScimTables
  import opened ScimReconcile
  import opened ScimOperations
  import opened AccessOperations
  import opened RoleOperations
  import opened ScimTheorems
  import opened ScimServer
  import opened AccessServer
  import ScimPatch
  import PatchTheorems
  import ProvisioningTheorems

  predicate VersionsCover(rows: map<Id, ScimRow>, versions: set<(Id, ScimRow)>) {
    forall id :: id in rows ==> (id, rows[id]) in versions
  }

  predicate DistinctStamps(versions: set<(Id, ScimRow)>) {
    forall v, w :: v in versions && w in versions && v.0 == w.0 && v.1.updatedAt == w.1.updatedAt ==> v == w
  }

  /** The clock has moved on since every stored version. */
  predicate Later(now: nat, versions: set<(Id, ScimRow)>) {
    forall v :: v in versions ==> v.1.updatedAt < now
  }

  /** Every new row content gets a new stamp. */
  lemma NewVersion(t: Tables, op: UserOp, t': Tables, viewer: Id, id: Id, versions: set<(Id, ScimRow)>)
    requires UserCommits(t, op, t', viewer) && VersionsCover(t.rows, versions) && DistinctStamps(versions)
    requires id == if op.Provision? then NewRowId(t, op.input, op.user) else op.id
    requires Later(if op.Provision? then op.input.now else op.now, versions)
    ensures id in t'.rows
    ensures VersionsCover(t'.rows, versions + {(id, t'.rows[id])}) && DistinctStamps(versions + {(id, t'.rows[id])})
  {
    hide Consistent, UserWrite, UserOpAllowed, Grants, Reconciled, NewRowId;
    UserWriteTables(t, op);
  }

  class Server {
    var db: Tables

    /** Every version a SCIM row ever had. */
    ghost var versions: set<(Id, ScimRow)>

    ghost predicate Valid()
      reads this
    {
      Consistent(db) && VersionsCover(db.rows, versions) && DistinctStamps(versions)
    }

    /** A SCIM user as a client reads it, some time before writing it back. */
    method GetScimUser(org: string, id: Id) returns (r: Option<ScimRow>)
      requires Valid()
      ensures r.Some? <==> Live(db.rows, id) && db.rows[id].org == org
      ensures r.Some? ==> r.value == db.rows[id] && (id, r.value) in versions
    {
      if id in db.rows && !db.rows[id].deleted && db.rows[id].org == org {
        r := Some(db.rows[id]);
      } else {
        r := None;
      }
    }

    method PostUser(input: NewUser) returns (failure: Option<Failure>, reload: Reload, ghost user: Id)
      requires Valid() && Later(input.now, versions)
      modifies this
      ensures Valid()
      ensures failure.Some? ==> db == old(db) && versions == old(versions)
      ensures failure.None? ==> Commits(old(db), OfUser(Provision(input, user)), db) && versions >= old(versions)
      ensures failure.None? ==> reload != NoReload && (reload != Synchronous ==> Grants(old(db)) <= Grants(db))
    {
      hide Consistent, Grants, UserCommits, VersionsCover, DistinctStamps, Later;
      var r;
      ghost var viewer;
      r, reload, user, viewer := ProvisionUser(db, input);
      if r.Err? {
        return Some(r.error), reload, user;
      }
      ghost var op := Provision(input, user);
      ghost var id := NewRowId(db, input, user);
      CommitConsistent(db, OfUser(op), r.value);
      NewVersion(db, op, r.value, viewer, id, versions);
      versions := versions + {(id, r.value.rows[id])};
      db := r.value;
      failure := None;
    }

    /** PUT and PATCH: `existing` was read earlier, so the row may have moved on since. */
    method WriteUser(id: Id, existing: ScimRow, updated: ScimRow, email: string, now: nat)
      returns (failure: Option<Failure>, reload: Reload)
      requires Valid() && Later(now, versions) && (id, existing) in versions && SameResource(existing, updated)
      modifies this
      ensures Valid()
      ensures failure.Some? ==> db == old(db) && versions == old(versions)
      ensures failure.None? ==> Commits(old(db), OfUser(Update(id, existing, updated, email, now)), db) && versions >= old(versions)
      ensures failure.None? ==> reload != NoReload && (reload != Synchronous ==> Grants(old(db)) <= Grants(db))
    {
      hide Consistent, Grants, UserCommits, Later;
      ReadIsCurrent(db.rows, versions, id, existing);
      var r;
      ghost var viewer;
      r, reload, viewer := UpdateUser(db, id, existing, updated, email, now);
      if r.Err? {
        return Some(r.error), reload;
      }
      ghost var op := Update(id, existing, updated, email, now);
      CommitConsistent(db, OfUser(op), r.value);
      NewVersion(db, op, r.value, viewer, id, versions);
      versions := versions + {(id, r.value.rows[id])};
      db := r.value;
      failure := None;
    }

    /** The operations are folded over the record as the handler read it. */
    method PatchUser(id: Id, existing: ScimRow, hasSchema: bool, raws: seq<ScimPatch.RawOp>, now: nat)
      returns (failure: Option<Failure>, reload: Reload, ghost ops: seq<ScimPatch.Op>)
      requires Valid() && Later(now, versions) && (id, existing) in versions
      modifies this
      ensures Valid()
      ensures failure.Some? ==> db == old(db) && versions == old(versions)
      ensures failure.None? ==>
        && hasSchema && ScimPatch.Normalizes(raws, ops) && reload != NoReload
        && var read := ScimPatch.UserEdit(existing.active, existing.userName, existing.externalId, None, None);
           var edit := ScimPatch.Fold(ScimPatch.EditUser, Some(read), ops);
           && edit.Some? && versions >= old(versions)
           && Commits(old(db), OfUser(Update(id, existing,
                ScimRow(existing.org, existing.user, edit.value.userName, edit.value.externalId, edit.value.active, existing.deleted, existing.updatedAt),
                if edit.value.email.Some? then edit.value.email.value else "", now)), db)
      ensures !(hasSchema && 1 <= |raws| <= 1000 && forall raw :: raw in raws ==> PatchTheorems.Acceptable(raw)) ==> failure == Some(BadRequest)
      ensures failure.None? && existing.active && PatchedInactive(raws) ==>
        && id in db.rows && !db.rows[id].active
        && forall g :: g in Grants(db) <==> g in Grants(old(db)) && !(g.membership.org == existing.org && g.membership.user == existing.user)
    {
      hide Valid, UserCommits, Grants, PatchedInactive, PatchTheorems.Acceptable, ScimPatch.WellFormedOp;
      ValidIsConsistent();
      reload, ops := NoReload, [];
      var normalized := ScimPatch.NormalizePatchOps(hasSchema, raws);
      AllAcceptedIff(raws);
      if normalized.Err? {
        return Some(BadRequest), reload, ops;
      }
      ops := normalized.value;
      var edited := ScimPatch.FoldUser(ScimPatch.UserEditOf(existing), normalized.value);
      if edited.None? {
        return Some(BadRequest), reload, ops;
      }
      failure, reload := WriteUser(id, existing, ScimPatch.PatchedRow(existing, edited.value), ScimPatch.SentEmail(edited.value), now);
      if failure.None? && existing.active && PatchedInactive(raws) {
        PatchWithdraws(old(db), db, id, existing, raws, ops, now);
      }
    }

    /** A full replacement: what is not sent is cleared, except the email, and a record without a flag is active. */
    method PutUser(id: Id, existing: ScimRow, userName: string, externalId: string, active: Option<bool>, email: string, now: nat)
      returns (failure: Option<Failure>, reload: Reload)
      requires Valid() && Later(now, versions) && (id, existing) in versions
      modifies this
      ensures Valid()
      ensures failure.Some? ==> db == old(db) && versions == old(versions)
      ensures ScimPatch.Blank(userName) ==> failure == Some(BadRequest)
      ensures failure.None? ==>
        && versions >= old(versions) && reload != NoReload
        && Commits(old(db), OfUser(Update(id, existing,
             ScimRow(existing.org, existing.user, userName, if externalId == "" then None else Some(externalId), active != Some(false),
                     existing.deleted, existing.updatedAt), email, now)), db)
    {
      hide Valid, UserCommits;
      reload := NoReload;
      if ScimPatch.Blank(userName) {
        return Some(BadRequest), reload;
      }
      var updated := existing.(userName := userName, active := true, externalId := None);
      if active.Some? {
        updated := updated.(active := active.value);
      }
      if externalId != "" {
        updated := updated.(externalId := Some(externalId));
      }
      failure, reload := WriteUser(id, existing, updated, email, now);
    }

    method RemoveUser(id: Id, existing: ScimRow, now: nat) returns (failure: Option<Failure>, reload: Reload)
      requires Valid() && Later(now, versions) && (id, existing) in versions
      modifies this
      ensures Valid()
      ensures failure.Some? ==> db == old(db) && versions == old(versions)
      ensures failure.None? ==> Commits(old(db), OfUser(Delete(id, existing, now)), db) && versions >= old(versions)
      ensures failure.None? ==> reload == Synchronous
      ensures failure.Some? <==> !(Live(old(db).rows, id) && old(db).rows[id] == existing)
    {
      hide Consistent, Grants, UserCommits, Later;
      ReadIsCurrent(db.rows, versions, id, existing);
      var r;
      r, reload := DeleteUser(db, id, existing, now);
      if r.Err? {
        return Some(r.error), reload;
      }
      ghost var op := Delete(id, existing, now);
      assert UserCommits(db, op, r.value, 0);
      CommitConsistent(db, OfUser(op), r.value);
      NewVersion(db, op, r.value, 0, id, versions);
      versions := versions + {(id, r.value.rows[id])};
      db := r.value;
      failure := None;
    }

    /** One group, mapping or access transaction, whichever the request was; rows stay as they are. */
    method Commit(ghost x: Transaction, t: Tables)
      requires Valid() && !x.OfUser? && Commits(db, x, t)
      modifies this`db
      ensures Valid() && db == t
    {
      hide Consistent, Grants, GroupCommits, AccessCommits, VersionsCover, DistinctStamps;
      CommitConsistent(db, x, t);
      RowsStay(db, x, t);
      db := t;
    }

    method PostGroup(org: string, name: string, externalId: Option<string>, members: seq<Id>)
      returns (failure: Option<Failure>, reload: Reload)
      requires Valid()
      modifies this`db
      ensures Valid() && (failure.Some? ==> db == old(db))
      ensures failure.None? ==> reload == Synchronous
      ensures failure.None? ==> Commits(old(db), OfGroup(SaveGroup(old(db).nextId, Group(org, name, externalId, AsSet(members)))), db)
    {
      hide Valid, GroupCommits;
      reload := NoReload;
      ghost var viewer;
      assert Consistent(db) by { ValidIsConsistent(); }
      var r;
      r, viewer := CreateGroup(db, org, name, externalId, members);
      if r.Err? {
        return Some(r.error), reload;
      }
      Commit(OfGroup(SaveGroup(db.nextId, Group(org, name, externalId, AsSet(members)))), r.value);
      failure, reload := None, Synchronous;
    }

    lemma ValidIsConsistent()
      requires Valid()
      ensures Consistent(db)
    {
    }

    method PutGroup(org: string, id: Id, name: string, externalId: Option<string>, members: seq<Id>)
      returns (failure: Option<Failure>, reload: Reload)
      requires Valid()
      modifies this`db
      ensures Valid() && (failure.Some? ==> db == old(db))
      ensures failure.None? ==> reload == Synchronous && id in old(db).groups && old(db).groups[id].org == org
      ensures failure.None? ==> Commits(old(db), OfGroup(SaveGroup(id, Group(org, name, externalId, AsSet(members)))), db)
    {
      hide Valid, GroupCommits;
      reload := NoReload;
      if !(id in db.groups && db.groups[id].org == org) {
        return Some(NotFound), reload;
      }
      ValidIsConsistent();
      var r;
      ghost var viewer;
      r, viewer := SaveExistingGroup(db, id, name, externalId, members);
      if r.Err? {
        return Some(r.error), reload;
      }
      Commit(OfGroup(SaveGroup(id, Group(org, name, externalId, AsSet(members)))), r.value);
      failure, reload := None, Synchronous;
    }

    /** The operations are folded over the group as it is stored under the lock. */
    method PatchGroup(org: string, id: Id, ops: seq<ScimPatch.Op>) returns (failure: Option<Failure>, reload: Reload)
      requires Valid()
      modifies this`db
      ensures Valid() && (failure.Some? ==> db == old(db))
      ensures failure.None? ==> reload == Synchronous && id in old(db).groups && old(db).groups[id].org == org
      ensures failure.None? ==>
        var group := old(db).groups[id];
        var edited := ScimPatch.Fold(ScimPatch.EditGroup, Some(ScimPatch.GroupEdit(group.name, group.externalId, group.members)), ops);
        edited.Some? && Commits(old(db), OfGroup(SaveGroup(id, Group(org, edited.value.name, edited.value.externalId, edited.value.members))), db)
    {
      hide Valid, GroupCommits;
      reload := NoReload;
      if !(id in db.groups && db.groups[id].org == org) {
        return Some(NotFound), reload;
      }
      ValidIsConsistent();
      var edited := ScimPatch.FoldGroup(EditOf(db.groups[id]), ops);
      if edited.None? {
        return Some(BadRequest), reload;
      }
      var members := Rows(edited.value.members);
      assert AsSet(members) == edited.value.members;
      failure, reload := PutGroup(org, id, edited.value.name, edited.value.externalId, members);
    }

    method DropGroup(org: string, id: Id) returns (failure: Option<Failure>, reload: Reload)
      requires Valid()
      modifies this`db
      ensures Valid() && (failure.Some? ==> db == old(db))
      ensures failure.None? ==> reload == Synchronous && Commits(old(db), OfGroup(DeleteGroup(id)), db)
    {
      hide Valid, GroupCommits;
      reload := NoReload;
      ValidIsConsistent();
      var r;
      ghost var viewer;
      r, viewer := RemoveGroup(db, org, id);
      if r.Err? {
        return Some(r.error), reload;
      }
      Commit(OfGroup(DeleteGroup(id)), r.value);
      failure, reload := None, Synchronous;
    }

    method PutMapping(org: string, name: string, role: Id) returns (failure: Option<Failure>, reload: Reload)
      requires Valid()
      modifies this`db
      ensures Valid() && (failure.Some? ==> db == old(db))
      ensures failure.None? ==> reload == Synchronous && Commits(old(db), OfGroup(SaveMapping(org, name, role)), db)
    {
      hide Valid, GroupCommits;
      reload := NoReload;
      ValidIsConsistent();
      var r;
      ghost var viewer;
      r, viewer := UpsertMapping(db, org, name, role);
      if r.Err? {
        return Some(r.error), reload;
      }
      Commit(OfGroup(SaveMapping(org, name, role)), r.value);
      failure, reload := None, Synchronous;
    }

    method DropMapping(org: string, name: string) returns (failure: Option<Failure>, reload: Reload)
      requires Valid()
      modifies this`db
      ensures Valid() && (failure.Some? ==> db == old(db))
      ensures failure.None? ==> reload == Synchronous && Commits(old(db), OfGroup(DeleteMapping(org, name)), db)
    {
      hide Valid, GroupCommits;
      reload := NoReload;
      ValidIsConsistent();
      var r;
      ghost var viewer;
      r, viewer := RemoveMapping(db, org, name);
      if r.Err? {
        return Some(r.error), reload;
      }
      Commit(OfGroup(DeleteMapping(org, name)), r.value);
      failure, reload := None, Synchronous;
    }

    method PostRole(org: string, name: string) returns (failure: bool, reload: Reload)
      requires Valid()
      modifies this`db
      ensures Valid() && (failure ==> db == old(db))
      ensures failure <==> !RoleOpAllowed(old(db), CreateRole(org, name))
      ensures !failure ==> reload == Synchronous && Commits(old(db), OfRole(CreateRole(org, name)), db)
    {
      hide Valid, RolesAfter, MappingsAfter, NextIdAfter, RoleExists;
      reload := NoReload;
      if IsBuiltin(name) || RoleExists(db.roles, Role(org, name)) {
        return true, reload;
      }
      Commit(OfRole(CreateRole(org, name)), RoleWrite(db, CreateRole(org, name)));
      failure, reload := false, Synchronous;
    }

    /** Built-in roles cannot be deleted, nor roles a membership refers to. */
    method DropRole(org: string, role: Id) returns (failure: bool, reload: Reload)
      requires Valid()
      modifies this`db
      ensures Valid() && (failure ==> db == old(db))
      ensures failure <==> !(role in old(db).roles && old(db).roles[role].org == org && RoleOpAllowed(old(db), DeleteRole(role)))
      ensures !failure ==> reload == Synchronous && Commits(old(db), OfRole(DeleteRole(role)), db)
    {
      hide Valid, RolesAfter, MappingsAfter, NextIdAfter, Assigned;
      reload := NoReload;
      if !(role in db.roles && db.roles[role].org == org) || IsBuiltin(db.roles[role].name) || Assigned(db, role) {
        return true, reload;
      }
      Commit(OfRole(DeleteRole(role)), RoleWrite(db, DeleteRole(role)));
      failure, reload := false, Synchronous;
    }

    method PutRole(org: string, role: Id, name: string) returns (failure: bool, reload: Reload)
      requires Valid()
      modifies this`db
      ensures Valid() && (failure ==> db == old(db))
      ensures failure <==> !(role in old(db).roles && old(db).roles[role].org == org && RoleOpAllowed(old(db), RenameRole(role, name)))
      ensures !failure ==> reload == Synchronous && Commits(old(db), OfRole(RenameRole(role, name)), db)
    {
      hide Valid, RolesAfter, MappingsAfter, NextIdAfter, RoleExists;
      reload := NoReload;
      if !(role in db.roles && db.roles[role].org == org) || IsBuiltin(db.roles[role].name)
        || IsBuiltin(name) || RoleExists(db.roles - {role}, Role(org, name)) {
        return true, reload;
      }
      Commit(OfRole(RenameRole(role, name)), RoleWrite(db, RenameRole(role, name)));
      failure, reload := false, Synchronous;
    }

    method Login(org: string, key: string, email: string) returns (failure: Option<Failure>, reload: Reload, ghost op: AccessOp)
      requires Valid()
      modifies this`db
      ensures Valid() && (failure.Some? ==> db == old(db))
      ensures op.Login? && op.org == org && op.key == key && op.email == email
      ensures failure.None? ==> Commits(old(db), OfAccess(op), db) && reload == if AccessAdds(old(db), op) != {} then Synchronous else NoReload
    {
      hide Valid, AccessCommits, AccessAdds;
      ValidIsConsistent();
      var r;
      r, reload, op := GetSsoCallback(db, org, key, email);
      if r.Err? {
        return Some(r.error), reload, op;
      }
      Commit(OfAccess(op), r.value);
      failure := None;
    }

    method RedeemInvite(org: string, invitation: Id, user: Id) returns (failure: Option<Failure>, reload: Reload)
      requires Valid() && user in db.users
      modifies this`db
      ensures Valid() && (failure.Some? ==> db == old(db))
      ensures failure.None? ==> reload == Synchronous && Commits(old(db), OfAccess(Redeem(invitation, user)), db)
    {
      hide Valid, AccessCommits;
      reload := NoReload;
      ValidIsConsistent();
      var r := RedeemInvitation(db, org, invitation, user);
      if r.Err? {
        return Some(r.error), reload;
      }
      Commit(OfAccess(Redeem(invitation, user)), r.value);
      failure, reload := None, Synchronous;
    }

    method InternalCreateMembership(org: string, user: Id, subject: Subject, scope: string) returns (failure: Option<Failure>, reload: Reload)
      requires Valid()
      modifies this`db
      ensures Valid() && (failure.Some? ==> db == old(db))
      ensures failure.None? ==> reload == Synchronous && Commits(old(db), OfAccess(GrantByHuman(org, user, subject, scope)), db)
    {
      hide Valid, AccessCommits;
      reload := NoReload;
      ValidIsConsistent();
      var r := CreateOrgMembership(db, org, user, subject, scope);
      if r.Err? {
        return Some(r.error), reload;
      }
      Commit(OfAccess(GrantByHuman(org, user, subject, scope)), r.value);
      failure, reload := None, Synchronous;
    }

    method ReplaceMemberships(org: string, user: Id, requests: seq<(Subject, string)>) returns (failure: Option<Failure>, reload: Reload)
      requires Valid()
      modifies this`db
      ensures Valid() && (failure.Some? ==> db == old(db))
      ensures failure.None? ==> reload == Synchronous && Commits(old(db), OfAccess(ReplaceByHuman(org, user, requests)), db)
    {
      hide Valid, AccessCommits;
      reload := NoReload;
      ValidIsConsistent();
      var r := ReplaceOrgUserMemberships(db, org, user, requests);
      if r.Err? {
        return Some(r.error), reload;
      }
      Commit(OfAccess(ReplaceByHuman(org, user, requests)), r.value);
      failure, reload := None, Synchronous;
    }

    method DeleteMembership(org: string, membership: Id) returns (failure: Option<Failure>, reload: Reload)
      requires Valid()
      modifies this`db
      ensures Valid() && (failure.Some? ==> db == old(db))
      ensures failure.None? ==> reload == Synchronous && Commits(old(db), OfAccess(RemoveByHuman(membership)), db)
    {
      hide Valid, AccessCommits, SameSubject;
      reload := NoReload;
      ValidIsConsistent();
      var r := DeleteOrgMembership(db, org, membership);
      if r.Err? {
        return Some(r.error), reload;
      }
      Commit(OfAccess(RemoveByHuman(membership)), r.value);
      failure, reload := None, Synchronous;
    }
  }

  lemma AllAcceptedIff(raws: seq<ScimPatch.RawOp>)
    ensures forall raw :: raw in raws ==> (ScimPatch.WellFormedOp(raw) <==> PatchTheorems.Acceptable(raw))
  {
    forall raw | raw in raws ensures ScimPatch.WellFormedOp(raw) <==> PatchTheorems.Acceptable(raw) {
      PatchTheorems.AcceptedIff(raw);
    }
  }

  /** The last operation with a say on the active flag says false, as a flag or as a word. */
  ghost predicate PatchedInactive(raws: seq<ScimPatch.RawOp>) {
    exists k :: PatchTheorems.Decided(raws, "active", k, PatchTheorems.IsActive(false))
  }

  lemma PatchWithdraws(t: Tables, t': Tables, id: Id, existing: ScimRow, raws: seq<ScimPatch.RawOp>, ops: seq<ScimPatch.Op>, now: nat)
    requires Consistent(t) && existing.active && PatchedInactive(raws) && ScimPatch.Normalizes(raws, ops)
    requires ScimPatch.Fold(ScimPatch.EditUser, Some(ScimPatch.UserEditOf(existing)), ops).Some?
    requires var edit := ScimPatch.Fold(ScimPatch.EditUser, Some(ScimPatch.UserEditOf(existing)), ops).value;
      Commits(t, OfUser(Update(id, existing, ScimPatch.PatchedRow(existing, edit), ScimPatch.SentEmail(edit), now)), t')
    ensures id in t'.rows && !t'.rows[id].active
    ensures forall g :: g in Grants(t') <==> g in Grants(t) && !(g.membership.org == existing.org && g.membership.user == existing.user)
  {
    hide Consistent, UserCommits, Grants, ScimPatch.Normalizes, ScimPatch.EditUser, ScimPatch.Fold;
    var k :| PatchTheorems.Decided(raws, "active", k, PatchTheorems.IsActive(false));
    hide PatchTheorems.Decided;
    ProvisioningTheorems.PatchedInactive(t, t', id, existing, raws, ops, k, now);
  }

  function EditOf(group: Group): ScimPatch.GroupEdit {
    ScimPatch.GroupEdit(group.name, group.externalId, group.members)
  }

  lemma ReadIsCurrent(rows: map<Id, ScimRow>, versions: set<(Id, ScimRow)>, id: Id, existing: ScimRow)
    requires VersionsCover(rows, versions) && DistinctStamps(versions) && (id, existing) in versions
    ensures Live(rows, id) && rows[id].updatedAt == existing.updatedAt ==> rows[id] == existing
  {
    if id in rows {
      assert (id, rows[id]) in versions;
    }
  }
}
