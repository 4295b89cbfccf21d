/**
 * The entity store: four insertion-ordered keyed collections (components,
 * users, groups, warehouses) with create / shallow-merge update / delete and
 * the read-only component queries. `Storage` models `MemStorage` and the
 * in-memory side of `FileStorage`; the JSON files behind the latter are not
 * modelled (every write to them is best effort and never changes memory).
 */
module Storage {
  import opened Wrappers
  import opened Seqs
  import opened Text
  import opened Tables
  import opened Schema

  /** A user record; `groups` is the projection rebuilt from the groups' member lists. */
  datatype User = User(id: string, username: string, password: string, role: string, groups: seq<string>)

  /** A group record; `memberIds` is the authoritative membership. */
  datatype Group = Group(id: string, name: string, memberIds: seq<string>)

  /** The object handed to `createComponent`; `None` is a field left undefined (or null). */
  datatype ComponentDraft = ComponentDraft(
    name: string,
    category: string,
    quantity: Option<int>,
    location: string,
    description: string,
    minStockLevel: Option<int>,
    ownerId: Option<string>,
    groupIds: Option<seq<string>>,
    warehouseId: Option<string>,
    warehouseType: Option<string>,
    warehouseGroupId: Option<string>)

  /** The objects handed to `createUser`, `createGroup` and `createWarehouse`. */
  datatype UserDraft = UserDraft(username: string, password: string, role: string, groups: seq<string>)
  datatype GroupDraft = GroupDraft(name: string, memberIds: seq<string>)
  datatype WarehouseDraft = WarehouseDraft(
    id: Option<string>, name: string, ownerId: string, groupIds: seq<string>,
    kind: string, warehouseGroupId: Option<string>)

  /** Partial objects spread over stored users, groups and warehouses; `None` is an absent key. */
  datatype UserPatch = UserPatch(
    id: Option<string>, username: Option<string>, password: Option<string>,
    role: Option<string>, groups: Option<seq<string>>)
  datatype GroupPatch = GroupPatch(id: Option<string>, name: Option<string>, memberIds: Option<seq<string>>)
  datatype WarehousePatch = WarehousePatch(
    id: Option<string>, name: Option<string>, ownerId: Option<string>, groupIds: Option<seq<string>>,
    kind: Option<string>, warehouseGroupId: Option<Option<string>>)

  /** The id of the administrator's default warehouse, which the store's defaults point at. */
  const AdminWarehouseId: string := "admin-default"

  /** The record `createComponent` stores for `d` under `id`: omitted fields take the store's defaults. */
  function NewComponent(d: ComponentDraft, id: string): Component {
    Component(
      id, d.name, d.category, d.quantity.GetOr(0), d.location, d.description,
      d.minStockLevel.GetOr(10), d.ownerId.GetOr("admin"), d.groupIds.GetOr([]),
      Some(d.warehouseId.GetOr(AdminWarehouseId)), d.warehouseType.GetOr("personal"), d.warehouseGroupId)
  }

  /**
   * The store keeps every field the draft supplies and fills each one it
   * leaves out with its own default.
   */
  lemma NewComponentDefaults(d: ComponentDraft, id: string)
    ensures var c := NewComponent(d, id);
      && c.id == id && c.name == d.name && c.category == d.category
      && c.location == d.location && c.description == d.description
      && c.quantity == (if d.quantity.Some? then d.quantity.value else DefaultQuantity)
      && c.minStockLevel == (if d.minStockLevel.Some? then d.minStockLevel.value else DefaultMinStockLevel)
      && c.ownerId == (if d.ownerId.Some? then d.ownerId.value else "admin")
      && c.groupIds == (if d.groupIds.Some? then d.groupIds.value else [])
      && c.warehouseId == Some(if d.warehouseId.Some? then d.warehouseId.value else AdminWarehouseId)
      && c.warehouseType == (if d.warehouseType.Some? then d.warehouseType.value else "personal")
      && c.warehouseGroupId == d.warehouseGroupId
  {
  }

  /** A field of `{...existing, ...updates}`: the update's value when present, else the old one. */
  function Over<T>(v: T, upd: Option<T>): T {
    upd.GetOr(v)
  }

  /** `{...existing, ...updates}` on a component. */
  function MergeComponent(c: Component, p: ComponentPatch): Component {
    Component(
      Over(c.id, p.id), Over(c.name, p.name), Over(c.category, p.category),
      Over(c.quantity, p.quantity), Over(c.location, p.location), Over(c.description, p.description),
      Over(c.minStockLevel, p.minStockLevel), Over(c.ownerId, p.ownerId), Over(c.groupIds, p.groupIds),
      Over(c.warehouseId, p.warehouseId), Over(c.warehouseType, p.warehouseType),
      Over(c.warehouseGroupId, p.warehouseGroupId))
  }

  /** One field of `{...p, ...q}`: the later patch's key wins when present. */
  function Later<T>(p: Option<T>, q: Option<T>): Option<T> {
    if q.Some? then q else p
  }

  /** `{...p, ...q}`: two successive patches as one. */
  function ThenPatch(p: ComponentPatch, q: ComponentPatch): ComponentPatch {
    ComponentPatch(
      Later(p.id, q.id), Later(p.name, q.name), Later(p.category, q.category),
      Later(p.quantity, q.quantity), Later(p.location, q.location), Later(p.description, q.description),
      Later(p.minStockLevel, q.minStockLevel), Later(p.ownerId, q.ownerId), Later(p.groupIds, q.groupIds),
      Later(p.warehouseId, q.warehouseId), Later(p.warehouseType, q.warehouseType),
      Later(p.warehouseGroupId, q.warehouseGroupId))
  }

  /** The empty patch leaves a component unchanged. */
  lemma MergeEmpty(c: Component)
    ensures MergeComponent(c, EmptyPatch) == c
  {
  }

  /** Merging `p` then `q` is merging the combined patch `{...p, ...q}`. */
  lemma MergeThen(c: Component, p: ComponentPatch, q: ComponentPatch)
    ensures MergeComponent(MergeComponent(c, p), q) == MergeComponent(c, ThenPatch(p, q))
  {
  }

  /** Re-applying the same patch changes nothing more. */
  lemma MergeIdempotent(c: Component, p: ComponentPatch)
    ensures MergeComponent(MergeComponent(c, p), p) == MergeComponent(c, p)
  {
  }

  /**
   * A patch that passed the update schema cannot move a component: id,
   * owner, groups and warehouse fields keep their values.
   */
  lemma ValidatedPatchKeepsPlacement(c: Component, p: ComponentPatch)
    requires TouchesOnlyInsertFields(p)
    ensures var m := MergeComponent(c, p);
      && m.id == c.id && m.ownerId == c.ownerId && m.groupIds == c.groupIds
      && m.warehouseId == c.warehouseId && m.warehouseType == c.warehouseType
      && m.warehouseGroupId == c.warehouseGroupId
  {
  }

  /** `{...existing, ...updates}` on users, groups and warehouses. */
  function MergeUser(u: User, p: UserPatch): User {
    User(Over(u.id, p.id), Over(u.username, p.username), Over(u.password, p.password),
         Over(u.role, p.role), Over(u.groups, p.groups))
  }

  function MergeGroup(g: Group, p: GroupPatch): Group {
    Group(Over(g.id, p.id), Over(g.name, p.name), Over(g.memberIds, p.memberIds))
  }

  function MergeWarehouse(w: Warehouse, p: WarehousePatch): Warehouse {
    Warehouse(Over(w.id, p.id), Over(w.name, p.name), Over(w.ownerId, p.ownerId),
              Over(w.groupIds, p.groupIds), Over(w.kind, p.kind), Over(w.warehouseGroupId, p.warehouseGroupId))
  }

  /** The patch `{...u}`: every field of `u` spelled out. */
  function FullUserPatch(u: User): UserPatch {
    UserPatch(Some(u.id), Some(u.username), Some(u.password), Some(u.role), Some(u.groups))
  }

  /** The patch `{...w}`. */
  function FullWarehousePatch(w: Warehouse): WarehousePatch {
    WarehousePatch(Some(w.id), Some(w.name), Some(w.ownerId), Some(w.groupIds), Some(w.kind), Some(w.warehouseGroupId))
  }

  /** Spreading a whole record over any record yields that record. */
  lemma MergeFullPatch(u: User, v: User, w: Warehouse, x: Warehouse)
    ensures MergeUser(u, FullUserPatch(v)) == v
    ensures MergeWarehouse(w, FullWarehousePatch(x)) == x
  {
  }

  /**
   * Every record is stored under its own id. The create operations establish
   * this; only an update whose patch carries a different `id` can break it.
   */
  ghost predicate ComponentsKeyed(t: Table<Component>) {
    forall k :: k in t.rows ==> t.rows[k].id == k
  }

  ghost predicate UsersKeyed(t: Table<User>) {
    forall k :: k in t.rows ==> t.rows[k].id == k
  }

  ghost predicate WarehousesKeyed(t: Table<Warehouse>) {
    forall k :: k in t.rows ==> t.rows[k].id == k
  }

  // ---- Read-only component queries ----------------------------------------

  /** The search test: the lowered query occurs in the lowered name, description, category or location. */
  predicate MatchesQuery(c: Component, lowerQuery: string) {
    Includes(Lower(c.name), lowerQuery) || Includes(Lower(c.description), lowerQuery)
    || Includes(Lower(c.category), lowerQuery) || Includes(Lower(c.location), lowerQuery)
  }

  /** `searchComponents(query)` over a listing. */
  function Search(cs: seq<Component>, query: string): (r: seq<Component>)
    ensures forall i :: 0 <= i < |r| ==> r[i] in cs && MatchesQuery(r[i], Lower(query))
    ensures forall i :: 0 <= i < |cs| && MatchesQuery(cs[i], Lower(query)) ==> cs[i] in r
  {
    Filter(cs, c => MatchesQuery(c, Lower(query)))
  }

  /** An empty query matches every component. */
  lemma SearchEmptyQuery(cs: seq<Component>)
    ensures Search(cs, "") == cs
  {
    forall i | 0 <= i < |cs| ensures MatchesQuery(cs[i], Lower("")) {
      IncludesEmpty(Lower(cs[i].name));
    }
    FilterAll(cs, c => MatchesQuery(c, Lower("")));
  }

  /** The search ignores ASCII case in the query: `q` and its lowered form select the same components. */
  lemma SearchCaseInsensitive(cs: seq<Component>, query: string)
    ensures Search(cs, Lower(query)) == Search(cs, query)
  {
    LowerIdempotent(query);
  }

  /** `getComponentsByCategory(category)`: exact, case-sensitive equality. */
  function ByCategory(cs: seq<Component>, category: string): (r: seq<Component>)
    ensures forall i :: 0 <= i < |r| ==> r[i] in cs && r[i].category == category
    ensures forall i :: 0 <= i < |cs| && cs[i].category == category ==> cs[i] in r
  {
    Filter(cs, (c: Component) => c.category == category)
  }

  /** `getLowStockComponents()`: the components with `quantity <= minStockLevel`. */
  function LowStock(cs: seq<Component>): (r: seq<Component>)
    ensures |r| <= |cs|
    ensures forall i :: 0 <= i < |r| ==> r[i] in cs && IsLowStock(r[i])
    ensures forall i :: 0 <= i < |cs| && IsLowStock(cs[i]) ==> cs[i] in r
  {
    Filter(cs, IsLowStock)
  }

  /** The low-stock listing keeps the listing order: it distributes over concatenation. */
  lemma LowStockOrder(a: seq<Component>, b: seq<Component>)
    ensures LowStock(a + b) == LowStock(a) + LowStock(b)
  {
    FilterConcat(a, b, IsLowStock);
  }

  // ---- The five sample components -----------------------------------------

  /** The sample payloads of the first start-up. */
  const SampleComponents: seq<InsertComponent> := [
    InsertComponent("ATmega328P-PU", "Integrated Circuits", 45, "A1-B3", "8-bit AVR Microcontroller", 10),
    InsertComponent("470µF Electrolytic", "Capacitors", 8, "C2-A1", "25V Radial Electrolytic Capacitor", 20),
    InsertComponent("10kΩ Resistor", "Resistors", 250, "R1-A5", "1/4W Carbon Film Resistor", 50),
    InsertComponent("2N3904 NPN", "Transistors", 0, "T1-C2", "General Purpose NPN Transistor", 15),
    InsertComponent("1N4148 Diode", "Diodes", 5, "D1-A2", "High-speed switching diode", 25)]

  /** A seeded component: owned by "admin", in the admin's personal default warehouse. */
  function SampleComponent(s: InsertComponent, id: string): Component {
    Component(id, s.name, s.category, s.quantity, s.location, s.description, s.minStockLevel,
              "admin", [], Some(AdminWarehouseId), "personal", None)
  }

  /** The administrator's default warehouse. */
  const AdminWarehouse: Warehouse := Warehouse(AdminWarehouseId, "Admin Warehouse", "admin", [], "personal", None)

  /**
   * Slot `i` past the end of `before` holds sample `i`, under a key that was
   * not in `before`.
   */
  ghost predicate SampleAt(before: Table<Component>, after: Table<Component>, samples: seq<InsertComponent>, i: nat)
    requires i < |samples| && |before.order| + i < |after.order|
  {
    var k := after.order[|before.order| + i];
    k !in before.rows && k in after.rows && after.rows[k] == SampleComponent(samples[i], k)
  }

  /**
   * `after` is `before` with the records for the first `m` of `samples`
   * appended, each under a key new to `before`, in sample order.
   */
  ghost predicate SeededUpTo(before: Table<Component>, after: Table<Component>, samples: seq<InsertComponent>, m: nat)
    requires m <= |samples|
  {
    var n := |before.order|;
    && |after.order| == n + m
    && after.order[..n] == before.order
    && (forall k :: k in before.rows ==> k in after.rows && after.rows[k] == before.rows[k])
    && (forall i :: 0 <= i < m ==> SampleAt(before, after, samples, i))
  }

  /** `after` is `before` with all the samples appended. */
  ghost predicate SeededFrom(before: Table<Component>, after: Table<Component>) {
    SeededUpTo(before, after, SampleComponents, |SampleComponents|)
  }

  /** Storing the next sample under a fresh key extends the seeded prefix by one. */
  lemma SeedStep(before: Table<Component>, t: Table<Component>, samples: seq<InsertComponent>, i: nat, id: string)
    requires i < |samples| && t.Valid()
    requires SeededUpTo(before, t, samples, i) && id !in t.rows
    ensures SeededUpTo(before, t.Set(id, SampleComponent(samples[i], id)), samples, i + 1)
  {
    var n := |before.order|;
    var t' := t.Set(id, SampleComponent(samples[i], id));
    assert t'.order == t.order + [id];
    assert t'.order[..n] == t.order[..n];
    forall k | k in before.rows ensures k in t'.rows && t'.rows[k] == before.rows[k] {
      assert k in t.rows && k != id;
    }
    forall j | 0 <= j < i + 1 ensures SampleAt(before, t', samples, j) {
      if j < i {
        SeedOldSlot(before, t, samples, j, id, SampleComponent(samples[i], id));
      } else {
        assert t'.order[n + j] == id;
        assert id !in before.rows;
      }
    }
  }

  /** Storing under a key new to `t` keeps each already seeded slot. */
  lemma SeedOldSlot(before: Table<Component>, t: Table<Component>, samples: seq<InsertComponent>, j: nat, id: string, c: Component)
    requires t.Valid() && id !in t.rows
    requires j < |samples| && |before.order| + j < |t.order|
    requires SampleAt(before, t, samples, j)
    ensures |before.order| + j < |t.Set(id, c).order|
    ensures SampleAt(before, t.Set(id, c), samples, j)
  {
    var k := t.order[|before.order| + j];
    var t' := t.Set(id, c);
    assert t'.order[|before.order| + j] == k;
    assert k != id && t'.Get(k) == t.Get(k);
  }

  class Storage {
    var components: Table<Component>
    var users: Table<User>
    var groups: Table<Group>
    var warehouses: Table<Warehouse>
    /** Set once the first-access initialization has run. */
    var initialized: bool

    ghost predicate TablesValid()
      reads this
    {
      components.Valid() && users.Valid() && groups.Valid() && warehouses.Valid()
    }

    ghost predicate Valid()
      reads this
    {
      TablesValid() && initialized
    }

    /**
     * A fresh store with no persisted data: empty collections, then the
     * one-time initialization seeds the sample components and the admin
     * warehouse.
     */
    constructor ()
      ensures Valid()
      ensures SeededFrom(Empty(), components)
      ensures warehouses == Empty<Warehouse>().Set(AdminWarehouseId, AdminWarehouse)
      ensures users == Empty() && groups == Empty()
    {
      components := Empty();
      users := Empty();
      groups := Empty();
      warehouses := Empty();
      initialized := false;
      new;
      EnsureInitialized();
    }

    /** The run-once initialization guard: seeds on the first call, does nothing afterwards. */
    method EnsureInitialized()
      requires TablesValid()
      modifies this
      ensures Valid()
      ensures old(initialized) ==> unchanged(this)
      ensures !old(initialized) ==>
        && SeededFrom(old(components), components)
        && warehouses == old(warehouses).Set(AdminWarehouseId, AdminWarehouse)
        && users == old(users) && groups == old(groups)
    {
      if !initialized {
        SeedSampleData();
        initialized := true;
      }
    }

    /** `initializeSampleData`: the admin warehouse, then one fresh-keyed record per sample. */
    method SeedSampleData()
      requires TablesValid()
      modifies this
      ensures TablesValid() && initialized == old(initialized)
      ensures SeededFrom(old(components), components)
      ensures warehouses == old(warehouses).Set(AdminWarehouseId, AdminWarehouse)
      ensures users == old(users) && groups == old(groups)
    {
      warehouses := warehouses.Set(AdminWarehouseId, AdminWarehouse);
      AddSamples(SampleComponents);
    }

    /** The loop of `initializeSampleData`: each sample is stored under a fresh key, in order. */
    method AddSamples(samples: seq<InsertComponent>)
      requires TablesValid()
      modifies this
      ensures TablesValid()
      ensures SeededUpTo(old(components), components, samples, |samples|)
      ensures users == old(users) && groups == old(groups) && warehouses == old(warehouses)
      ensures initialized == old(initialized)
    {
      ghost var before := components;
      assert components.order[..|before.order|] == before.order;
      for i := 0 to |samples|
        invariant components.Valid()
        invariant users == old(users) && groups == old(groups) && warehouses == old(warehouses)
        invariant initialized == old(initialized)
        invariant SeededUpTo(before, components, samples, i)
      {
        var id := components.FreshKey();
        SeedStep(before, components, samples, i, id);
        components := components.Set(id, SampleComponent(samples[i], id));
      }
    }

    // ---- Components --------------------------------------------------------

    /** `getComponents()`. */
    function ListComponents(): seq<Component>
      reads this
      requires Valid()
    {
      components.Values()
    }

    /** `createComponent`: a fresh id, defaults for omitted fields, appended to the listing. */
    method CreateComponent(d: ComponentDraft) returns (c: Component)
      requires Valid()
      modifies this
      ensures Valid()
      ensures c.id !in old(components.rows) && c == NewComponent(d, c.id)
      ensures components == old(components).Set(c.id, c)
      ensures ListComponents() == old(ListComponents()) + [c]
      ensures users == old(users) && groups == old(groups) && warehouses == old(warehouses)
    {
      var id := components.FreshKey();
      c := NewComponent(d, id);
      SetNewValues(components, id, c);
      components := components.Set(id, c);
    }

    /** `updateComponent`: shallow merge under the same key, or `undefined` for an unknown id. */
    method UpdateComponent(id: string, p: ComponentPatch) returns (r: Option<Component>)
      requires Valid()
      modifies this
      ensures Valid()
      ensures id !in old(components.rows) ==> r == None && components == old(components)
      ensures id in old(components.rows) ==>
        && r == Some(MergeComponent(old(components.rows[id]), p))
        && components == old(components).Set(id, r.value)
      ensures users == old(users) && groups == old(groups) && warehouses == old(warehouses)
    {
      if id !in components.rows {
        return None;
      }
      var updated := MergeComponent(components.rows[id], p);
      components := components.Set(id, updated);
      r := Some(updated);
    }

    /** `deleteComponent`: true exactly when the id was present. */
    method DeleteComponent(id: string) returns (removed: bool)
      requires Valid()
      modifies this
      ensures Valid()
      ensures removed == (id in old(components.rows))
      ensures components == old(components).Delete(id)
      ensures users == old(users) && groups == old(groups) && warehouses == old(warehouses)
    {
      removed := id in components.rows;
      components := components.Delete(id);
    }

    /** `searchComponents(query)`. */
    function SearchComponents(query: string): seq<Component>
      reads this
      requires Valid()
    {
      Search(components.Values(), query)
    }

    /** `getComponentsByCategory(category)`. */
    function ComponentsByCategory(category: string): seq<Component>
      reads this
      requires Valid()
    {
      ByCategory(components.Values(), category)
    }

    /** `getLowStockComponents()`. */
    function LowStockComponents(): seq<Component>
      reads this
      requires Valid()
    {
      LowStock(components.Values())
    }

    // ---- Users -------------------------------------------------------------

    function ListUsers(): seq<User>
      reads this
      requires Valid()
    {
      users.Values()
    }

    /** `getUserByUsername`: the first user, in insertion order, with that username. */
    function UserByUsername(username: string): (r: Option<User>)
      reads this
      requires Valid()
      ensures r.Some? ==> r.value.username == username && r.value in users.rows.Values
      ensures r.None? <==> forall k :: k in users.rows ==> users.rows[k].username != username
      ensures r.Some? ==>
        exists i :: (0 <= i < |users.order| && users.Values()[i] == r.value &&
                     forall j :: 0 <= j < i ==> users.Values()[j].username != username)
    {
      var r := Find(users.Values(), (u: User) => u.username == username);
      assert r.None? <==> forall k :: k in users.rows ==> users.rows[k].username != username by {
        if r.None? {
          forall k | k in users.rows ensures users.rows[k].username != username {
            var i :| 0 <= i < |users.order| && users.order[i] == k;
            assert users.Values()[i] == users.rows[k];
          }
        } else {
          var i :| 0 <= i < |users.Values()| && users.Values()[i] == r.value && r.value.username == username;
          assert users.order[i] in users.rows;
        }
      }
      r
    }

    /** `createUser`: the draft's fields plus a fresh id. */
    method CreateUser(d: UserDraft) returns (u: User)
      requires Valid()
      modifies this
      ensures Valid()
      ensures u.id !in old(users.rows)
      ensures u == User(u.id, d.username, d.password, d.role, d.groups)
      ensures users == old(users).Set(u.id, u)
      ensures components == old(components) && groups == old(groups) && warehouses == old(warehouses)
    {
      var id := users.FreshKey();
      u := User(id, d.username, d.password, d.role, d.groups);
      users := users.Set(id, u);
    }

    method UpdateUser(id: string, p: UserPatch) returns (r: Option<User>)
      requires Valid()
      modifies this
      ensures Valid()
      ensures id !in old(users.rows) ==> r == None && users == old(users)
      ensures id in old(users.rows) ==>
        && r == Some(MergeUser(old(users.rows[id]), p))
        && users == old(users).Set(id, r.value)
      ensures components == old(components) && groups == old(groups) && warehouses == old(warehouses)
    {
      if id !in users.rows {
        return None;
      }
      var updated := MergeUser(users.rows[id], p);
      users := users.Set(id, updated);
      r := Some(updated);
    }

    method DeleteUser(id: string) returns (removed: bool)
      requires Valid()
      modifies this
      ensures Valid()
      ensures removed == (id in old(users.rows))
      ensures users == old(users).Delete(id)
      ensures components == old(components) && groups == old(groups) && warehouses == old(warehouses)
    {
      removed := id in users.rows;
      users := users.Delete(id);
    }

    // ---- Groups ------------------------------------------------------------

    function ListGroups(): seq<Group>
      reads this
      requires Valid()
    {
      groups.Values()
    }

    method CreateGroup(d: GroupDraft) returns (g: Group)
      requires Valid()
      modifies this
      ensures Valid()
      ensures g.id !in old(groups.rows)
      ensures g == Group(g.id, d.name, d.memberIds)
      ensures groups == old(groups).Set(g.id, g)
      ensures components == old(components) && users == old(users) && warehouses == old(warehouses)
    {
      var id := groups.FreshKey();
      g := Group(id, d.name, d.memberIds);
      groups := groups.Set(id, g);
    }

    method UpdateGroup(id: string, p: GroupPatch) returns (r: Option<Group>)
      requires Valid()
      modifies this
      ensures Valid()
      ensures id !in old(groups.rows) ==> r == None && groups == old(groups)
      ensures id in old(groups.rows) ==>
        && r == Some(MergeGroup(old(groups.rows[id]), p))
        && groups == old(groups).Set(id, r.value)
      ensures components == old(components) && users == old(users) && warehouses == old(warehouses)
    {
      if id !in groups.rows {
        return None;
      }
      var updated := MergeGroup(groups.rows[id], p);
      groups := groups.Set(id, updated);
      r := Some(updated);
    }

    method DeleteGroup(id: string) returns (removed: bool)
      requires Valid()
      modifies this
      ensures Valid()
      ensures removed == (id in old(groups.rows))
      ensures groups == old(groups).Delete(id)
      ensures components == old(components) && users == old(users) && warehouses == old(warehouses)
    {
      removed := id in groups.rows;
      groups := groups.Delete(id);
    }

    // ---- Warehouses --------------------------------------------------------

    function ListWarehouses(): seq<Warehouse>
      reads this
      requires Valid()
    {
      warehouses.Values()
    }

    /** `createWarehouse`: keeps a supplied id (replacing any record under it), else a fresh one. */
    method CreateWarehouse(d: WarehouseDraft) returns (w: Warehouse)
      requires Valid()
      modifies this
      ensures Valid()
      ensures d.id.Some? ==> w.id == d.id.value
      ensures d.id.None? ==> w.id !in old(warehouses.rows)
      ensures w == Warehouse(w.id, d.name, d.ownerId, d.groupIds, d.kind, d.warehouseGroupId)
      ensures warehouses == old(warehouses).Set(w.id, w)
      ensures w.id in old(warehouses.rows) ==> warehouses.Size() == old(warehouses.Size())
      ensures components == old(components) && users == old(users) && groups == old(groups)
    {
      var id := if d.id.Some? then d.id.value else warehouses.FreshKey();
      w := Warehouse(id, d.name, d.ownerId, d.groupIds, d.kind, d.warehouseGroupId);
      warehouses := warehouses.Set(id, w);
    }

    method UpdateWarehouse(id: string, p: WarehousePatch) returns (r: Option<Warehouse>)
      requires Valid()
      modifies this
      ensures Valid()
      ensures id !in old(warehouses.rows) ==> r == None && warehouses == old(warehouses)
      ensures id in old(warehouses.rows) ==>
        && r == Some(MergeWarehouse(old(warehouses.rows[id]), p))
        && warehouses == old(warehouses).Set(id, r.value)
      ensures components == old(components) && users == old(users) && groups == old(groups)
    {
      if id !in warehouses.rows {
        return None;
      }
      var updated := MergeWarehouse(warehouses.rows[id], p);
      warehouses := warehouses.Set(id, updated);
      r := Some(updated);
    }

    method DeleteWarehouse(id: string) returns (removed: bool)
      requires Valid()
      modifies this
      ensures Valid()
      ensures removed == (id in old(warehouses.rows))
      ensures warehouses == old(warehouses).Delete(id)
      ensures components == old(components) && users == old(users) && groups == old(groups)
    {
      removed := id in warehouses.rows;
      warehouses := warehouses.Delete(id);
    }
  }
}
