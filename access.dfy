/**
 * The access resolver of the request handlers: which warehouses and
 * components a user may see. Absent users or warehouses are denied; admins
 * see every warehouse; a group warehouse is open to the members of its
 * group only; any other warehouse is open to its owner and to users sharing
 * one of its listed groups.
 */
module Access {
  import opened Wrappers
  import opened Seqs
  import opened Schema
  import opened Storage

  predicate IsAdmin(u: User) {
    u.role == "admin"
  }

  /** `groupIds.some((gid) => groups.includes(gid))`. */
  predicate SharesGroup(groupIds: seq<string>, groups: seq<string>) {
    exists i :: 0 <= i < |groupIds| && groupIds[i] in groups
  }

  /** `canAccessWarehouse(warehouse, user)`. */
  predicate CanAccessWarehouse(w: Option<Warehouse>, u: Option<User>) {
    if u.None? || w.None? then false
    else if IsAdmin(u.value) then true
    else if w.value.kind == "group" then
      // `!!warehouse.warehouseGroupId`: null and the empty string both deny
      w.value.warehouseGroupId.Some? && w.value.warehouseGroupId.value != ""
      && w.value.warehouseGroupId.value in u.value.groups
    else
      w.value.ownerId == u.value.id || SharesGroup(w.value.groupIds, u.value.groups)
  }

  /** The warehouse a component points at: the first one in `ws` with that id. */
  function WarehouseOf(c: Component, ws: seq<Warehouse>): Option<Warehouse> {
    Find(ws, (w: Warehouse) => Some(w.id) == c.warehouseId)
  }

  /** `canAccessComponent(component, user, warehouses)`. */
  predicate CanAccessComponent(c: Component, u: Option<User>, ws: seq<Warehouse>) {
    u.Some? && CanAccessWarehouse(WarehouseOf(c, ws), u)
  }

  /** `getAccessibleWarehouses(user)` over the listing `ws`. */
  function AccessibleWarehouses(u: Option<User>, ws: seq<Warehouse>): (r: seq<Warehouse>)
    ensures forall i :: 0 <= i < |r| ==> r[i] in ws && CanAccessWarehouse(Some(r[i]), u)
    ensures forall i :: 0 <= i < |ws| && CanAccessWarehouse(Some(ws[i]), u) ==> ws[i] in r
  {
    Filter(ws, (w: Warehouse) => CanAccessWarehouse(Some(w), u))
  }

  /** Admins are granted every warehouse, whatever its type, owner or groups. */
  lemma AdminSeesAll(u: User, ws: seq<Warehouse>)
    requires IsAdmin(u)
    ensures forall i :: 0 <= i < |ws| ==> CanAccessWarehouse(Some(ws[i]), Some(u))
    ensures AccessibleWarehouses(Some(u), ws) == ws
  {
    FilterAll(ws, (w: Warehouse) => CanAccessWarehouse(Some(w), Some(u)));
  }

  /** Nobody is granted an absent warehouse, and an absent user is granted nothing. */
  lemma AbsentDenied(w: Option<Warehouse>, u: Option<User>)
    requires w.None? || u.None?
    ensures !CanAccessWarehouse(w, u)
  {
  }

  /**
   * For a non-admin, a group warehouse is open exactly when its group id is
   * set and among the user's groups; owning it does not help.
   */
  lemma GroupWarehouseRule(w: Warehouse, u: User)
    requires !IsAdmin(u) && w.kind == "group"
    ensures CanAccessWarehouse(Some(w), Some(u)) <==>
      exists gid :: w.warehouseGroupId == Some(gid) && gid != "" && gid in u.groups
    ensures w.warehouseGroupId.None? ==> !CanAccessWarehouse(Some(w), Some(u))
  {
  }

  /**
   * For a non-admin, any other warehouse is open exactly to its owner and to
   * users sharing one of its listed groups.
   */
  lemma PersonalWarehouseRule(w: Warehouse, u: User)
    requires !IsAdmin(u) && w.kind != "group"
    ensures CanAccessWarehouse(Some(w), Some(u)) <==>
      w.ownerId == u.id || exists g :: g in w.groupIds && g in u.groups
  {
    if exists g :: g in w.groupIds && g in u.groups {
      var g :| g in w.groupIds && g in u.groups;
      var i :| 0 <= i < |w.groupIds| && w.groupIds[i] == g;
      assert SharesGroup(w.groupIds, u.groups);
    }
  }

  /** Joining more groups never takes access away. */
  lemma {:induction false} AccessMonotoneInGroups(w: Warehouse, u: User, extra: seq<string>)
    requires CanAccessWarehouse(Some(w), Some(u))
    ensures CanAccessWarehouse(Some(w), Some(u.(groups := u.groups + extra)))
  {
    var u' := u.(groups := u.groups + extra);
    if !IsAdmin(u) && w.kind != "group" && w.ownerId != u.id {
      var i :| 0 <= i < |w.groupIds| && w.groupIds[i] in u.groups;
      assert w.groupIds[i] in u'.groups;
    }
  }

  /**
   * An orphaned component (no warehouse id) matches no warehouse, so it is
   * hidden from everyone, admins included.
   */
  lemma OrphanHidden(c: Component, u: Option<User>, ws: seq<Warehouse>)
    requires c.warehouseId.None?
    ensures !CanAccessComponent(c, u, ws)
  {
    assert WarehouseOf(c, ws).None?;
  }

  /**
   * Resolving a component against the accessible warehouses (as every
   * handler does) grants it exactly when some accessible warehouse carries
   * its warehouse id.
   */
  lemma {:induction false} ComponentViaAccessible(c: Component, u: User, ws: seq<Warehouse>)
    ensures CanAccessComponent(c, Some(u), AccessibleWarehouses(Some(u), ws)) <==>
      exists i :: 0 <= i < |ws| && Some(ws[i].id) == c.warehouseId && CanAccessWarehouse(Some(ws[i]), Some(u))
  {
    var acc := AccessibleWarehouses(Some(u), ws);
    var found := WarehouseOf(c, acc);
    if found.Some? {
      var i :| 0 <= i < |acc| && acc[i] == found.value && Some(acc[i].id) == c.warehouseId;
      assert acc[i] in ws;
      var j :| 0 <= j < |ws| && ws[j] == acc[i];
      assert CanAccessWarehouse(Some(ws[j]), Some(u));
    }
  }

  /** With distinct warehouse ids, resolving against the accessible list agrees with resolving against all. */
  lemma ComponentViaAllWarehouses(c: Component, u: User, ws: seq<Warehouse>)
    requires forall i, j :: 0 <= i < j < |ws| ==> ws[i].id != ws[j].id
    ensures CanAccessComponent(c, Some(u), AccessibleWarehouses(Some(u), ws)) <==> CanAccessComponent(c, Some(u), ws)
  {
    ComponentViaAccessible(c, u, ws);
    var found := WarehouseOf(c, ws);
    if found.Some? {
      var i :| 0 <= i < |ws| && ws[i] == found.value && Some(ws[i].id) == c.warehouseId;
      forall j | 0 <= j < |ws| && Some(ws[j].id) == c.warehouseId ensures j == i {
      }
    }
  }
}
