/**
 * Group membership synchronisation (`syncUserGroups`): after every group
 * mutation each user's `groups` list is rebuilt from the groups' `memberIds`,
 * by a full recomputation over all groups.
 */
module Membership {
  import opened Wrappers
  import opened Seqs
  import opened Tables
  import opened Schema
  import opened Storage
  import opened Access

  /**
   * What the rebuild gives user `uid`: scanning the groups in order, one copy
   * of the group's id per occurrence of `uid` in its member list.
   */
  function MembershipOf(uid: string, gs: seq<Group>): seq<string> {
    if gs == [] then []
    else
      var g := gs[|gs| - 1];
      MembershipOf(uid, gs[..|gs| - 1]) + Repeat(g.id, Count(g.memberIds, uid))
  }

  /** Reference definition: the ids of the groups listing `uid`, in group order. */
  function GroupsContaining(uid: string, gs: seq<Group>): seq<string> {
    if gs == [] then [] else (if uid in gs[0].memberIds then [gs[0].id] else []) + GroupsContaining(uid, gs[1..])
  }

  lemma {:induction false} GroupsContainingSnoc(uid: string, gs: seq<Group>, g: Group)
    ensures GroupsContaining(uid, gs + [g]) == GroupsContaining(uid, gs) + (if uid in g.memberIds then [g.id] else [])
  {
    if gs != [] {
      assert (gs + [g])[1..] == gs[1..] + [g];
      GroupsContainingSnoc(uid, gs[1..], g);
    }
  }

  /**
   * When no group lists a member twice, the rebuilt list is exactly the ids
   * of the groups whose members include the user, in group order.
   */
  lemma {:induction false} MembershipIsGroupsContaining(uid: string, gs: seq<Group>)
    requires forall i :: 0 <= i < |gs| ==> Distinct(gs[i].memberIds)
    ensures MembershipOf(uid, gs) == GroupsContaining(uid, gs)
  {
    if gs != [] {
      var init, g := gs[..|gs| - 1], gs[|gs| - 1];
      MembershipIsGroupsContaining(uid, init);
      CountDistinct(g.memberIds, uid);
      assert gs == init + [g];
      GroupsContainingSnoc(uid, init, g);
    }
  }

  /** Every listed id belongs to a group that lists the user, and every such group is listed. */
  lemma {:induction false} MembershipOfExact(uid: string, gs: seq<Group>, gid: string)
    ensures gid in MembershipOf(uid, gs) <==> exists i :: 0 <= i < |gs| && gs[i].id == gid && uid in gs[i].memberIds
  {
    if gs != [] {
      var init, g := gs[..|gs| - 1], gs[|gs| - 1];
      MembershipOfExact(uid, init, gid);
      CountPositive(g.memberIds, uid);
      if exists i :: 0 <= i < |gs| && gs[i].id == gid && uid in gs[i].memberIds {
        var i :| 0 <= i < |gs| && gs[i].id == gid && uid in gs[i].memberIds;
        if i < |init| {
          assert init[i] == gs[i];
        } else {
          assert Repeat(g.id, Count(g.memberIds, uid))[0] == gid;
        }
      }
      if gid in MembershipOf(uid, gs) {
        if gid !in MembershipOf(uid, init) {
          assert gid in Repeat(g.id, Count(g.memberIds, uid));
          assert gs[|gs| - 1].id == gid && uid in gs[|gs| - 1].memberIds;
        } else {
          var i :| 0 <= i < |init| && init[i].id == gid && uid in init[i].memberIds;
          assert gs[i] == init[i];
        }
      }
    }
  }

  /** `memberships[uid] || []`. */
  function MembershipsAt(m: map<string, seq<string>>, uid: string): seq<string> {
    if uid in m then m[uid] else []
  }

  lemma CountStep(s: seq<string>, j: nat, uid: string)
    requires j < |s|
    ensures Count(s[..j + 1], uid) == Count(s[..j], uid) + (if s[j] == uid then 1 else 0)
  {
    assert s[..j + 1][..j] == s[..j];
  }

  lemma MembershipStep(gs: seq<Group>, i: nat, uid: string)
    requires i < |gs|
    ensures MembershipOf(uid, gs[..i + 1]) == MembershipOf(uid, gs[..i]) + Repeat(gs[i].id, Count(gs[i].memberIds, uid))
  {
    assert gs[..i + 1][..i] == gs[..i];
  }

  /** The nested `forEach` that fills the `memberships` record. */
  method BuildMemberships(gs: seq<Group>) returns (m: map<string, seq<string>>)
    ensures forall uid :: MembershipsAt(m, uid) == MembershipOf(uid, gs)
  {
    m := map[];
    for i := 0 to |gs|
      invariant forall uid :: MembershipsAt(m, uid) == MembershipOf(uid, gs[..i])
    {
      var g := gs[i];
      for j := 0 to |g.memberIds|
        invariant forall uid :: MembershipsAt(m, uid) == MembershipOf(uid, gs[..i]) + Repeat(g.id, Count(g.memberIds[..j], uid))
      {
        var member := g.memberIds[j];
        MemberAddedStep(m, gs, i, j);
        m := m[member := MembershipsAt(m, member) + [g.id]];
      }
      GroupDoneStep(m, gs, i);
    }
    assert gs[..|gs|] == gs;
  }

  /** One pass of the inner `forEach`: appending the group id for its `j`-th member. */
  lemma MemberAddedStep(m: map<string, seq<string>>, gs: seq<Group>, i: nat, j: nat)
    requires i < |gs| && j < |gs[i].memberIds|
    requires forall uid :: MembershipsAt(m, uid) == MembershipOf(uid, gs[..i]) + Repeat(gs[i].id, Count(gs[i].memberIds[..j], uid))
    ensures var member := gs[i].memberIds[j];
      var m' := m[member := MembershipsAt(m, member) + [gs[i].id]];
      forall uid :: MembershipsAt(m', uid) == MembershipOf(uid, gs[..i]) + Repeat(gs[i].id, Count(gs[i].memberIds[..j + 1], uid))
  {
    var member := gs[i].memberIds[j];
    var m' := m[member := MembershipsAt(m, member) + [gs[i].id]];
    forall uid
      ensures MembershipsAt(m', uid) == MembershipOf(uid, gs[..i]) + Repeat(gs[i].id, Count(gs[i].memberIds[..j + 1], uid))
    {
      CountStep(gs[i].memberIds, j, uid);
    }
  }

  /** After the inner `forEach`, the map holds the memberships of the first `i + 1` groups. */
  lemma GroupDoneStep(m: map<string, seq<string>>, gs: seq<Group>, i: nat)
    requires i < |gs|
    requires var ids := gs[i].memberIds;
      forall uid :: MembershipsAt(m, uid) == MembershipOf(uid, gs[..i]) + Repeat(gs[i].id, Count(ids[..|ids|], uid))
    ensures forall uid :: MembershipsAt(m, uid) == MembershipOf(uid, gs[..i + 1])
  {
    assert gs[i].memberIds[..|gs[i].memberIds|] == gs[i].memberIds;
    forall uid ensures MembershipsAt(m, uid) == MembershipOf(uid, gs[..i + 1]) {
      MembershipStep(gs, i, uid);
    }
  }

  /** The user table after the rebuild: every user's `groups` replaced, nothing else touched. */
  function SyncedUsers(t: Table<User>, gs: seq<Group>): (r: Table<User>)
    requires t.Valid()
    ensures r.Valid() && r.order == t.order && r.rows.Keys == t.rows.Keys
  {
    Table(t.order, map k | k in t.rows :: t.rows[k].(groups := MembershipOf(t.rows[k].id, gs)))
  }

  /** The invariant the rebuild restores: each user's groups are those listing it. */
  ghost predicate MembershipConsistent(t: Table<User>, gs: seq<Group>) {
    forall k :: k in t.rows ==> t.rows[k].groups == MembershipOf(t.rows[k].id, gs)
  }

  /** The rebuild establishes consistency and keeps each user's other fields. */
  lemma SyncedUsersConsistent(t: Table<User>, gs: seq<Group>)
    requires t.Valid()
    ensures MembershipConsistent(SyncedUsers(t, gs), gs)
    ensures forall k :: k in t.rows ==>
      && SyncedUsers(t, gs).rows[k].id == t.rows[k].id
      && SyncedUsers(t, gs).rows[k].username == t.rows[k].username
      && SyncedUsers(t, gs).rows[k].password == t.rows[k].password
      && SyncedUsers(t, gs).rows[k].role == t.rows[k].role
  {
  }

  /** The user table part-way through the rebuild: only the users under keys in `done` are rewritten. */
  function PartlySynced(t: Table<User>, gs: seq<Group>, done: set<string>): Table<User> {
    Table(t.order, map k | k in t.rows :: if k in done then t.rows[k].(groups := MembershipOf(t.rows[k].id, gs)) else t.rows[k])
  }

  /** Rewriting the user under key `k` extends the rewritten set by `k`. */
  lemma PartlySyncedStep(t: Table<User>, gs: seq<Group>, done: set<string>, k: string)
    requires t.Valid() && k in t.rows
    ensures PartlySynced(t, gs, done).Valid()
    ensures PartlySynced(t, gs, done).Set(k, t.rows[k].(groups := MembershipOf(t.rows[k].id, gs)))
         == PartlySynced(t, gs, done + {k})
  {
    var p := PartlySynced(t, gs, done);
    assert p.rows.Keys == t.rows.Keys;
    assert p.Set(k, t.rows[k].(groups := MembershipOf(t.rows[k].id, gs))).rows == PartlySynced(t, gs, done + {k}).rows;
  }

  /** Once every key is rewritten, the table is the synchronised one. */
  lemma PartlySyncedAll(t: Table<User>, gs: seq<Group>, done: set<string>)
    requires t.Valid()
    requires forall k :: k in t.rows ==> k in done
    ensures PartlySynced(t, gs, done) == SyncedUsers(t, gs)
  {
  }

  /**
   * `syncUserGroups`: list the groups and the users, build the memberships,
   * then write every user back with its rebuilt `groups`.
   */
  method SyncUserGroups(s: Storage)
    requires s.Valid()
    modifies s
    ensures s.Valid()
    ensures s.components == old(s.components) && s.groups == old(s.groups) && s.warehouses == old(s.warehouses)
    ensures UsersKeyed(old(s.users)) ==> s.users == SyncedUsers(old(s.users), old(s.ListGroups()))
    ensures UsersKeyed(old(s.users)) ==> UsersKeyed(s.users) && MembershipConsistent(s.users, s.ListGroups())
  {
    var gs := s.ListGroups();
    var us := s.ListUsers();
    var memberships := BuildMemberships(gs);
    ghost var before := s.users;
    ghost var keyed := UsersKeyed(before);
    ghost var done: set<string> := {};
    for i := 0 to |us|
      invariant s.Valid()
      invariant s.components == old(s.components) && s.groups == old(s.groups) && s.warehouses == old(s.warehouses)
      invariant forall j :: 0 <= j < i ==> before.order[j] in done
      invariant keyed ==> s.users == PartlySynced(before, gs, done)
    {
      var u := us[i];
      var patched := u.(groups := MembershipsAt(memberships, u.id));
      MergeFullPatch(u, patched, AdminWarehouse, AdminWarehouse);
      if keyed {
        assert before.order[i] in before.rows;
        assert u == before.rows[before.order[i]] && u.id == before.order[i];
        PartlySyncedStep(before, gs, done, u.id);
      }
      var _ := s.UpdateUser(u.id, FullUserPatch(patched));
      KeysCoveredStep(before.order, i, done);
      done := done + {before.order[i]};
    }
    if keyed {
      forall k | k in before.rows ensures k in done {
        var j :| 0 <= j < |before.order| && before.order[j] == k;
      }
      PartlySyncedAll(before, gs, done);
      SyncedUsersConsistent(before, gs);
    }
  }

  /** Adding the `i`-th key to a set holding the keys before it covers the first `i + 1`. */
  lemma KeysCoveredStep(order: seq<string>, i: nat, done: set<string>)
    requires i < |order| && forall j :: 0 <= j < i ==> order[j] in done
    ensures forall j :: 0 <= j <= i ==> order[j] in done + {order[i]}
  {
  }

  /**
   * Under consistent memberships, a non-admin reaches a group warehouse
   * exactly when it is a member of a group with that warehouse's group id.
   */
  lemma GroupWarehouseForMembers(w: Warehouse, u: User, gs: seq<Group>)
    requires !IsAdmin(u) && w.kind == "group"
    requires u.groups == MembershipOf(u.id, gs)
    requires w.warehouseGroupId.Some? && w.warehouseGroupId.value != ""
    ensures CanAccessWarehouse(Some(w), Some(u)) <==>
      exists i :: 0 <= i < |gs| && gs[i].id == w.warehouseGroupId.value && u.id in gs[i].memberIds
  {
    MembershipOfExact(u.id, gs, w.warehouseGroupId.value);
  }
}
