/**
 * The business rules of the request handlers, each reduced to a read of, or
 * a state transition on, the store: listing and creating components, the
 * stats aggregation, creating / renaming / deleting warehouses, and the
 * admin-only group mutations followed by membership synchronisation.
 * Sessions, status codes and response bodies are not modelled; the acting
 * user is the session user after its refresh from the store.
 */
module Handlers {
  import opened Wrappers
  import opened Seqs
  import opened Text
  import opened Tables
  import opened Schema
  import opened Storage
  import opened Access
  import opened Membership

  /** Why a handler refused: the distinctions the handlers make before mapping them to status codes. */
  datatype Refusal = ValidationFailed(fields: seq<string>) | BadRequest | Forbidden | NotFound

  datatype Reply<T> = Done(value: T) | Refused(refusal: Refusal)

  /** Every component the user may see: those whose warehouse is among its accessible ones. */
  function Visible(u: User, cs: seq<Component>, ws: seq<Warehouse>): seq<Component> {
    var acc := AccessibleWarehouses(Some(u), ws);
    Filter(cs, (c: Component) => CanAccessComponent(c, Some(u), acc))
  }

  /** A query-string value is applied only when non-empty (JavaScript truthiness). */
  predicate InWarehouse(c: Component, warehouseId: string) {
    warehouseId == "" || c.warehouseId == Some(warehouseId)
  }

  predicate InCategory(c: Component, category: string) {
    category == "" || category == "All Categories" || c.category == category
  }

  predicate MatchesSearch(c: Component, search: string) {
    search == "" || MatchesQuery(c, Lower(search))
  }

  /** The `warehouseId` query filter. */
  function OfWarehouse(cs: seq<Component>, warehouseId: string): seq<Component> {
    if warehouseId != "" then Filter(cs, (c: Component) => c.warehouseId == Some(warehouseId)) else cs
  }

  /** The `category` query filter; "All Categories" selects everything. */
  function OfCategory(cs: seq<Component>, category: string): seq<Component> {
    if category != "" && category != "All Categories" then Filter(cs, (c: Component) => c.category == category) else cs
  }

  /** The `search` query filter. */
  function Matching(cs: seq<Component>, search: string): seq<Component> {
    if search != "" then Search(cs, search) else cs
  }

  lemma VisibleMembers(u: User, cs: seq<Component>, ws: seq<Warehouse>)
    ensures forall c :: c in Visible(u, cs, ws) <==> c in cs && CanAccessComponent(c, Some(u), AccessibleWarehouses(Some(u), ws))
  {
    var acc := AccessibleWarehouses(Some(u), ws);
    FilterMembers(cs, (c: Component) => CanAccessComponent(c, Some(u), acc));
  }

  lemma OfWarehouseMembers(cs: seq<Component>, warehouseId: string)
    ensures forall c :: c in OfWarehouse(cs, warehouseId) <==> c in cs && InWarehouse(c, warehouseId)
  {
    FilterMembers(cs, (c: Component) => c.warehouseId == Some(warehouseId));
  }

  lemma OfCategoryMembers(cs: seq<Component>, category: string)
    ensures forall c :: c in OfCategory(cs, category) <==> c in cs && InCategory(c, category)
  {
    FilterMembers(cs, (c: Component) => c.category == category);
  }

  lemma MatchingMembers(cs: seq<Component>, search: string)
    ensures forall c :: c in Matching(cs, search) <==> c in cs && MatchesSearch(c, search)
  {
    var r := Matching(cs, search);
    forall c ensures c in r <==> c in cs && MatchesSearch(c, search) {
      if search != "" {
        if c in r {
          var i :| 0 <= i < |r| && r[i] == c;
        }
        if c in cs && MatchesSearch(c, search) {
          var i :| 0 <= i < |cs| && cs[i] == c;
        }
      }
    }
  }

  /**
   * `GET /api/components`: the visible components, narrowed by warehouse,
   * then category, then search text.
   */
  function ListComponents(u: User, cs: seq<Component>, ws: seq<Warehouse>,
                          search: string, category: string, warehouseId: string): seq<Component>
  {
    Matching(OfCategory(OfWarehouse(Visible(u, cs, ws), warehouseId), category), search)
  }

  /** A component is listed exactly when it is visible and passes every supplied filter. */
  lemma ListComponentsMembers(u: User, cs: seq<Component>, ws: seq<Warehouse>,
                              search: string, category: string, warehouseId: string)
    ensures forall c :: c in ListComponents(u, cs, ws, search, category, warehouseId) <==>
      && c in cs
      && CanAccessComponent(c, Some(u), AccessibleWarehouses(Some(u), ws))
      && InWarehouse(c, warehouseId) && InCategory(c, category) && MatchesSearch(c, search)
  {
    var visible := Visible(u, cs, ws);
    VisibleMembers(u, cs, ws);
    OfWarehouseMembers(visible, warehouseId);
    OfCategoryMembers(OfWarehouse(visible, warehouseId), category);
    MatchingMembers(OfCategory(OfWarehouse(visible, warehouseId), category), search);
  }

  /** `GET /api/components/alerts/low-stock`: the visible low-stock components, optionally of one warehouse. */
  function LowStockAlerts(u: User, cs: seq<Component>, ws: seq<Warehouse>, warehouseId: string): seq<Component>
  {
    var acc := AccessibleWarehouses(Some(u), ws);
    Filter(LowStock(cs), (c: Component) => CanAccessComponent(c, Some(u), acc) && InWarehouse(c, warehouseId))
  }

  /** An alert is raised exactly for the visible low-stock components of the selected warehouse. */
  lemma LowStockAlertsMembers(u: User, cs: seq<Component>, ws: seq<Warehouse>, warehouseId: string)
    ensures forall c :: c in LowStockAlerts(u, cs, ws, warehouseId) <==>
      && c in cs && IsLowStock(c) && InWarehouse(c, warehouseId)
      && CanAccessComponent(c, Some(u), AccessibleWarehouses(Some(u), ws))
  {
    var acc := AccessibleWarehouses(Some(u), ws);
    var low := LowStock(cs);
    FilterMembers(low, (c: Component) => CanAccessComponent(c, Some(u), acc) && InWarehouse(c, warehouseId));
    forall c ensures c in low <==> c in cs && IsLowStock(c) {
      if c in low {
        var i :| 0 <= i < |low| && low[i] == c;
      }
      if c in cs && IsLowStock(c) {
        var i :| 0 <= i < |cs| && cs[i] == c;
      }
    }
  }

  /** The `GET /api/stats` response. */
  datatype Stats = Stats(totalComponents: nat, totalQuantity: int, categories: nat, lowStockCount: nat)

  /** `reduce((sum, c) => sum + c.quantity, 0)`. */
  function TotalQuantity(cs: seq<Component>): int {
    if cs == [] then 0 else TotalQuantity(cs[..|cs| - 1]) + cs[|cs| - 1].quantity
  }

  /** `new Set(cs.map(c => c.category))`. */
  function CategorySet(cs: seq<Component>): (r: set<string>)
    ensures |r| <= |cs|
    ensures forall c :: c in cs ==> c.category in r
    ensures forall x :: x in r ==> exists c :: c in cs && c.category == x
  {
    if cs == [] then {}
    else
      var rest := CategorySet(cs[1..]);
      assert forall c :: c in cs <==> c == cs[0] || c in cs[1..];
      rest + {cs[0].category}
  }

  /** The stats of the components visible to `u`, optionally restricted to one warehouse. */
  function ComputeStats(u: User, cs: seq<Component>, ws: seq<Warehouse>, warehouseId: string): (r: Stats)
    ensures r.lowStockCount <= r.totalComponents
    ensures r.categories <= r.totalComponents
    ensures r.categories == 0 <==> r.totalComponents == 0
  {
    var selected := OfWarehouse(Visible(u, cs, ws), warehouseId);
    var cats := CategorySet(selected);
    assert selected != [] ==> selected[0].category in cats;
    Stats(|selected|, TotalQuantity(selected), |cats|, |LowStock(selected)|)
  }

  /**
   * The stats agree with the listing routes: the component count is the
   * length of the unfiltered component listing and the low-stock count the
   * number of low-stock alerts, both for the same warehouse selection.
   */
  lemma StatsMatchListings(u: User, cs: seq<Component>, ws: seq<Warehouse>, warehouseId: string)
    ensures ComputeStats(u, cs, ws, warehouseId).totalComponents == |ListComponents(u, cs, ws, "", "", warehouseId)|
    ensures ComputeStats(u, cs, ws, warehouseId).lowStockCount == |LowStockAlerts(u, cs, ws, warehouseId)|
  {
    var acc := AccessibleWarehouses(Some(u), ws);
    var vis := (c: Component) => CanAccessComponent(c, Some(u), acc);
    var shown := (c: Component) => CanAccessComponent(c, Some(u), acc) && InWarehouse(c, warehouseId);
    var lowShown := (c: Component) => IsLowStock(c) && shown(c);
    assert Visible(u, cs, ws) == Filter(cs, vis);
    // the selection is one filter of the store listing
    if warehouseId != "" {
      FilterBoth(cs, vis, (c: Component) => c.warehouseId == Some(warehouseId), shown);
    } else {
      FilterAgree(cs, vis, shown);
    }
    assert OfWarehouse(Visible(u, cs, ws), warehouseId) == Filter(cs, shown);
    // low stock of the selection, and the alerts, are both filters by the conjunction
    FilterBoth(cs, shown, IsLowStock, lowShown);
    FilterBoth(cs, IsLowStock, shown, lowShown);
  }

  /** With non-negative quantities the total is non-negative and bounds every single quantity. */
  lemma {:induction false} TotalQuantityBounds(cs: seq<Component>)
    requires forall i :: 0 <= i < |cs| ==> cs[i].quantity >= 0
    ensures TotalQuantity(cs) >= 0
    ensures forall i :: 0 <= i < |cs| ==> cs[i].quantity <= TotalQuantity(cs)
  {
    if cs != [] {
      TotalQuantityBounds(cs[..|cs| - 1]);
      assert forall i :: 0 <= i < |cs| - 1 ==> cs[..|cs| - 1][i] == cs[i];
    }
  }

  /** The total of a concatenation is the sum of the totals. */
  lemma {:induction false} TotalQuantityConcat(a: seq<Component>, b: seq<Component>)
    ensures TotalQuantity(a + b) == TotalQuantity(a) + TotalQuantity(b)
  {
    if b != [] {
      assert (a + b)[..|a + b| - 1] == a + b[..|b| - 1];
      TotalQuantityConcat(a, b[..|b| - 1]);
    } else {
      assert a + b == a;
    }
  }

  // ---- Creating a component -----------------------------------------------

  /** JavaScript truthiness of a request-body value. */
  predicate Truthy(v: Option<Json>) {
    match v
    case None => false
    case Some(j) =>
      match j
      case JNull => false
      case JBool(b) => b
      case JNum(n) => n != 0.0
      case JStr(s) => s != ""
      case JOther => true
  }

  /** The store's `find((w) => w.id === id)` over the warehouse listing. */
  function FindWarehouse(ws: seq<Warehouse>, id: string): Option<Warehouse> {
    Find(ws, (w: Warehouse) => w.id == id)
  }

  lemma FindKeyedWarehouse(t: Table<Warehouse>, id: string)
    requires t.Valid() && WarehousesKeyed(t)
    ensures FindWarehouse(t.Values(), id) == t.Get(id)
  {
    var r := FindWarehouse(t.Values(), id);
    if id in t.rows {
      var i :| 0 <= i < |t.order| && t.order[i] == id;
      assert t.Values()[i].id == id;
      var j :| 0 <= j < |t.Values()| && t.Values()[j] == r.value && r.value.id == id;
      assert t.order[j] in t.rows;
    }
  }

  /** The storage draft for a validated payload placed in `target` on behalf of `u`. */
  function PlacedDraft(v: InsertComponent, u: User, target: Warehouse): ComponentDraft {
    ComponentDraft(
      v.name, v.category, Some(v.quantity), v.location, v.description, Some(v.minStockLevel),
      Some(u.id), Some([]), Some(target.id),
      Some(if target.kind != "" then target.kind else "personal"), target.warehouseGroupId)
  }

  /** The personal warehouse created on the fly for a user who has none. */
  function FallbackWarehouse(u: User): WarehouseDraft {
    WarehouseDraft(None, "My Warehouse", u.id, [], "personal", None)
  }

  /** The warehouse created on the fly under `id`. */
  function FallbackRecord(u: User, id: string): Warehouse {
    Warehouse(id, "My Warehouse", u.id, [], "personal", None)
  }

  /**
   * The target of `POST /api/components`: the body's `warehouseId` when
   * truthy, else the first accessible warehouse's id when truthy, else the id
   * of a personal warehouse created for the user. A truthy id that is not a
   * string matches no warehouse and yields None.
   */
  method PickTarget(s: Storage, u: User, requested: Option<Json>) returns (target: Option<string>)
    requires s.Valid()
    modifies s
    ensures s.Valid()
    ensures s.components == old(s.components) && s.users == old(s.users) && s.groups == old(s.groups)
    ensures Truthy(requested) ==>
      && s.warehouses == old(s.warehouses)
      && target == (if requested.value.JStr? then Some(requested.value.s) else None)
    ensures var acc := AccessibleWarehouses(Some(u), old(s.ListWarehouses()));
      !Truthy(requested) && |acc| > 0 && acc[0].id != "" ==>
        target == Some(acc[0].id) && s.warehouses == old(s.warehouses)
    ensures var acc := AccessibleWarehouses(Some(u), old(s.ListWarehouses()));
      !Truthy(requested) && !(|acc| > 0 && acc[0].id != "") ==>
        && target.Some? && target.value !in old(s.warehouses.rows)
        && s.warehouses == old(s.warehouses).Set(target.value, FallbackRecord(u, target.value))
        && (WarehousesKeyed(old(s.warehouses)) ==>
              FindWarehouse(s.ListWarehouses(), target.value) == Some(FallbackRecord(u, target.value)))
  {
    var accessible := AccessibleWarehouses(Some(u), s.ListWarehouses());
    if Truthy(requested) {
      target := if requested.value.JStr? then Some(requested.value.s) else None;
    } else if |accessible| > 0 && accessible[0].id != "" {
      target := Some(accessible[0].id);
    } else {
      ghost var keyed := WarehousesKeyed(s.warehouses);
      var created := s.CreateWarehouse(FallbackWarehouse(u));
      target := Some(created.id);
      if keyed {
        assert WarehousesKeyed(s.warehouses);
        FindKeyedWarehouse(s.warehouses, created.id);
      }
    }
  }

  /**
   * `POST /api/components`: the payload is validated, the target warehouse
   * chosen; the request is refused unless the target exists and is
   * accessible; the component is owned by the user and copies the target's
   * type and group.
   */
  method CreateComponent(s: Storage, u: User, body: Body) returns (r: Reply<Component>)
    requires s.Valid()
    modifies s
    ensures s.Valid()
    ensures s.users == old(s.users) && s.groups == old(s.groups)
    ensures ValidateInsert(body).Invalid? ==>
      r == Refused(ValidationFailed(ValidateInsert(body).fields)) && s.warehouses == old(s.warehouses)
    ensures r.Refused? ==> s.components == old(s.components)
    ensures r.Done? ==>
      var c := r.value;
      && ValidateInsert(body).Ok?
      && c.id !in old(s.components.rows)
      && s.components == old(s.components).Set(c.id, c)
      && c.ownerId == u.id && c.groupIds == []
      && c.warehouseId.Some?
      && var target := FindWarehouse(s.ListWarehouses(), c.warehouseId.value);
         && CanAccessWarehouse(target, Some(u))
         && c.warehouseType == (if target.value.kind != "" then target.value.kind else "personal")
         && c.warehouseGroupId == target.value.warehouseGroupId
         && c == NewComponent(PlacedDraft(ValidateInsert(body).value, u, target.value), c.id)
    ensures var requested := BodyField(body, "warehouseId");
      r.Done? && Truthy(requested) ==> requested.value.JStr? && r.value.warehouseId == Some(requested.value.s)
    ensures var acc := AccessibleWarehouses(Some(u), old(s.ListWarehouses()));
      ValidateInsert(body).Ok? && !Truthy(BodyField(body, "warehouseId"))
        && !(acc != [] && acc[0].id != "") && WarehousesKeyed(old(s.warehouses))
      ==> r.Done? && r.value.warehouseId.value !in old(s.warehouses.rows)
    ensures var requested := BodyField(body, "warehouseId");
      ValidateInsert(body).Ok? && Truthy(requested) ==>
        && (r.Done? <==> (requested.value.JStr?
              && CanAccessWarehouse(FindWarehouse(old(s.ListWarehouses()), requested.value.s), Some(u))))
        && (r.Refused? ==> r == Refused(Forbidden))
    ensures var acc := AccessibleWarehouses(Some(u), old(s.ListWarehouses()));
      ValidateInsert(body).Ok? && !Truthy(BodyField(body, "warehouseId"))
        && acc != [] && acc[0].id != "" && WarehousesKeyed(old(s.warehouses))
      ==> r.Done? && r.value.warehouseId == Some(acc[0].id)
    ensures var acc := AccessibleWarehouses(Some(u), old(s.ListWarehouses()));
      (Truthy(BodyField(body, "warehouseId")) || (acc != [] && acc[0].id != "")) ==> s.warehouses == old(s.warehouses)
    ensures var acc := AccessibleWarehouses(Some(u), old(s.ListWarehouses()));
      ValidateInsert(body).Ok? && !Truthy(BodyField(body, "warehouseId")) && !(acc != [] && acc[0].id != "") ==>
        exists id :: id !in old(s.warehouses.rows) && s.warehouses == old(s.warehouses).Set(id, FallbackRecord(u, id))
  {
    var validated := ValidateInsert(body);
    if validated.Invalid? {
      return Refused(ValidationFailed(validated.fields));
    }
    ghost var listing := s.ListWarehouses();
    ghost var keyed := WarehousesKeyed(s.warehouses);
    ghost var acc := AccessibleWarehouses(Some(u), listing);
    if keyed && acc != [] {
      FirstAccessibleFound(s.warehouses, u);
    }
    ghost var fallback := !Truthy(BodyField(body, "warehouseId")) && !(acc != [] && acc[0].id != "");
    var targetId := PickTarget(s, u, BodyField(body, "warehouseId"));
    if fallback && keyed {
      assert FindWarehouse(s.ListWarehouses(), targetId.value) == Some(FallbackRecord(u, targetId.value));
      assert CanAccessWarehouse(Some(FallbackRecord(u, targetId.value)), Some(u));
    }
    if targetId.None? {
      return Refused(Forbidden);
    }
    r := PlaceComponent(s, u, validated.value, targetId.value);
  }

  /**
   * The tail of `POST /api/components` once the target id is known: refused
   * unless the warehouse under that id exists and is accessible, else the
   * component is created there.
   */
  method PlaceComponent(s: Storage, u: User, v: InsertComponent, targetId: string) returns (r: Reply<Component>)
    requires s.Valid()
    modifies s
    ensures s.Valid()
    ensures s.users == old(s.users) && s.groups == old(s.groups) && s.warehouses == old(s.warehouses)
    ensures var target := FindWarehouse(old(s.ListWarehouses()), targetId);
      && (r.Done? <==> CanAccessWarehouse(target, Some(u)))
      && (r.Refused? ==> r == Refused(Forbidden) && s.components == old(s.components))
      && (r.Done? ==>
            var c := r.value;
            && c.id !in old(s.components.rows)
            && s.components == old(s.components).Set(c.id, c)
            && c.ownerId == u.id && c.groupIds == []
            && c.warehouseId == Some(targetId)
            && c.warehouseType == (if target.value.kind != "" then target.value.kind else "personal")
            && c.warehouseGroupId == target.value.warehouseGroupId
            && c == NewComponent(PlacedDraft(v, u, target.value), c.id))
  {
    var target := FindWarehouse(s.ListWarehouses(), targetId);
    if target.None? || !CanAccessWarehouse(target, Some(u)) {
      return Refused(Forbidden);
    }
    var c := s.CreateComponent(PlacedDraft(v, u, target.value));
    r := Done(c);
  }

  /** In a keyed table, the first accessible warehouse is the one its id finds, and it is accessible. */
  lemma FirstAccessibleFound(t: Table<Warehouse>, u: User)
    requires t.Valid() && WarehousesKeyed(t) && AccessibleWarehouses(Some(u), t.Values()) != []
    ensures var w := AccessibleWarehouses(Some(u), t.Values())[0];
      FindWarehouse(t.Values(), w.id) == Some(w) && CanAccessWarehouse(Some(w), Some(u))
  {
    var w := AccessibleWarehouses(Some(u), t.Values())[0];
    var i :| 0 <= i < |t.Values()| && t.Values()[i] == w;
    assert t.order[i] in t.rows && t.rows[t.order[i]] == w;
    FindKeyedWarehouse(t, w.id);
  }

  // ---- Warehouses -----------------------------------------------------------

  /** The fields of a `POST /api/warehouses` body; an empty string stands for an absent value. */
  datatype WarehouseRequest = WarehouseRequest(name: string, groupIds: seq<string>, kind: Option<string>, groupId: string)

  /** `groupId || groupIds[0]`. */
  function CandidateGroup(req: WarehouseRequest): Option<string> {
    if req.groupId != "" then Some(req.groupId)
    else if |req.groupIds| > 0 then Some(req.groupIds[0])
    else None
  }

  function FindGroup(gs: seq<Group>, id: Option<string>): Option<Group> {
    Find(gs, (g: Group) => Some(g.id) == id)
  }

  /**
   * `POST /api/warehouses`: the type must be "personal" (the default) or
   * "group"; a group warehouse needs an existing group of which the user is a
   * member (admins excepted). The new warehouse is owned by the user.
   */
  method CreateWarehouse(s: Storage, u: User, req: WarehouseRequest) returns (r: Reply<Warehouse>)
    requires s.Valid()
    modifies s
    ensures s.Valid()
    ensures s.components == old(s.components) && s.users == old(s.users) && s.groups == old(s.groups)
    ensures r.Refused? ==> s.warehouses == old(s.warehouses)
    ensures req.kind.Some? && req.kind.value != "personal" && req.kind.value != "group" ==> r == Refused(BadRequest)
    ensures r.Done? ==>
      var w := r.value;
      && w.id !in old(s.warehouses.rows)
      && s.warehouses == old(s.warehouses).Set(w.id, w)
      && w.ownerId == u.id && w.groupIds == []
      && w.name == (if req.name != "" then req.name else "My Warehouse")
      && w.kind == req.kind.GetOr("personal")
      && (w.kind == "personal" ==> w.warehouseGroupId.None?)
      && (w.kind == "group" ==>
            && w.warehouseGroupId.Some?
            && exists i :: 0 <= i < |s.ListGroups()| && s.ListGroups()[i].id == w.warehouseGroupId.value
                && (IsAdmin(u) || u.id in s.ListGroups()[i].memberIds))
    ensures r.Done? && r.value.kind == "personal" ==> CanAccessWarehouse(Some(r.value), Some(u))
    ensures req.kind.GetOr("personal") == "personal" ==> r.Done?
    ensures var g := FindGroup(old(s.ListGroups()), CandidateGroup(req));
      req.kind == Some("group") ==>
        && (r.Done? <==> g.Some? && (IsAdmin(u) || u.id in g.value.memberIds))
        && (g.None? ==> r == Refused(BadRequest))
        && (g.Some? && !(IsAdmin(u) || u.id in g.value.memberIds) ==> r == Refused(Forbidden))
    ensures req.kind == Some("group") && r.Done? ==> r.value.warehouseGroupId == CandidateGroup(req)
  {
    var kind := req.kind.GetOr("personal");
    if kind != "personal" && kind != "group" {
      return Refused(BadRequest);
    }
    var chosen: Option<string> := None;
    var gs := s.ListGroups();
    if kind == "group" {
      var target := FindGroup(gs, CandidateGroup(req));
      if target.None? {
        return Refused(BadRequest);
      }
      if !(IsAdmin(u) || u.id in target.value.memberIds) {
        return Refused(Forbidden);
      }
      chosen := Some(target.value.id);
    }
    var name := if req.name != "" then req.name else "My Warehouse";
    var w := s.CreateWarehouse(WarehouseDraft(None, name, u.id, [], kind, chosen));
    assert s.ListGroups() == gs;
    r := Done(w);
  }

  /** Only the owner of a warehouse or an admin may change or delete it. */
  predicate MayManage(w: Warehouse, u: User) {
    w.ownerId == u.id || IsAdmin(u)
  }

  /**
   * `PATCH /api/warehouses/:id`: only the owner or an admin; only a
   * non-empty `name` is taken from the body, every other field is kept.
   */
  method RenameWarehouse(s: Storage, u: User, id: string, name: string) returns (r: Reply<Option<Warehouse>>)
    requires s.Valid()
    modifies s
    ensures s.Valid()
    ensures s.components == old(s.components) && s.users == old(s.users) && s.groups == old(s.groups)
    ensures FindWarehouse(old(s.ListWarehouses()), id).None? ==> r == Refused(NotFound)
    ensures r.Refused? ==> s.warehouses == old(s.warehouses)
    ensures var existing := FindWarehouse(old(s.ListWarehouses()), id);
      existing.Some? && !MayManage(existing.value, u) ==> r == Refused(Forbidden)
    ensures WarehousesKeyed(old(s.warehouses)) && id in old(s.warehouses.rows) && MayManage(old(s.warehouses.rows[id]), u) ==>
      var w := old(s.warehouses.rows[id]);
      var renamed := w.(name := if name != "" then name else w.name);
      && r == Done(Some(renamed))
      && s.warehouses == old(s.warehouses).Set(id, renamed)
    ensures var existing := FindWarehouse(old(s.ListWarehouses()), id);
      existing.Some? && MayManage(existing.value, u) ==>
        var renamed := existing.value.(name := if name != "" then name else existing.value.name);
        && (id in old(s.warehouses.rows) ==> r == Done(Some(renamed)) && s.warehouses == old(s.warehouses).Set(id, renamed))
        && (id !in old(s.warehouses.rows) ==> r == Done(None) && s.warehouses == old(s.warehouses))
  {
    if WarehousesKeyed(s.warehouses) {
      FindKeyedWarehouse(s.warehouses, id);
    }
    var existing := FindWarehouse(s.ListWarehouses(), id);
    if existing.None? {
      return Refused(NotFound);
    }
    if !MayManage(existing.value, u) {
      return Refused(Forbidden);
    }
    var w := existing.value;
    var renamed := w.(name := if name != "" then name else w.name);
    if id in s.warehouses.rows {
      MergeFullPatch(u, u, s.warehouses.rows[id], renamed);
    }
    var updated := s.UpdateWarehouse(id, FullWarehousePatch(renamed));
    r := Done(updated);
  }

  /** The patch `{ warehouseId: null }`. */
  const OrphanPatch: ComponentPatch := EmptyPatch.(warehouseId := Some(None))

  /** The component table after every component placed in warehouse `id` lost its placement. */
  function Orphaned(t: Table<Component>, id: string): (r: Table<Component>)
    requires t.Valid()
    ensures r.Valid() && r.order == t.order
    ensures forall k :: k in r.rows <==> k in t.rows
  {
    Table(t.order, map k | k in t.rows :: if t.rows[k].warehouseId == Some(id) then t.rows[k].(warehouseId := None) else t.rows[k])
  }

  /**
   * After orphaning, no component points at `id`; a component that pointed at
   * it differs only in its placement, and every other component is untouched.
   */
  lemma OrphanedSpec(t: Table<Component>, id: string)
    requires t.Valid()
    ensures forall k :: k in t.rows ==> Orphaned(t, id).rows[k].warehouseId != Some(id)
    ensures forall k :: k in t.rows && t.rows[k].warehouseId != Some(id) ==> Orphaned(t, id).rows[k] == t.rows[k]
    ensures forall k :: k in t.rows && t.rows[k].warehouseId == Some(id) ==>
      Orphaned(t, id).rows[k] == t.rows[k].(warehouseId := None)
    ensures forall c :: c in Orphaned(t, id).Values() ==> c.warehouseId != Some(id)
  {
    var o := Orphaned(t, id);
    forall c | c in o.Values() ensures c.warehouseId != Some(id) {
      var i :| 0 <= i < |o.Values()| && o.Values()[i] == c;
      assert o.order[i] in t.rows;
    }
  }

  /** Merging `{ warehouseId: null }` clears the placement and nothing else, and is idempotent. */
  lemma OrphanPatchClears(c: Component)
    ensures MergeComponent(c, OrphanPatch) == c.(warehouseId := None)
    ensures MergeComponent(c.(warehouseId := None), OrphanPatch) == c.(warehouseId := None)
  {
  }

  /** Component `c` is placed in warehouse `id`. */
  predicate PlacedIn(c: Component, id: string) {
    c.warehouseId == Some(id)
  }

  /** The component table part-way through orphaning: only the keys in `done` have been cleared. */
  function PartlyOrphaned(t: Table<Component>, id: string, done: set<string>): Table<Component> {
    Table(t.order, map k | k in t.rows :: if k in done && PlacedIn(t.rows[k], id) then t.rows[k].(warehouseId := None) else t.rows[k])
  }

  /** Orphaning the component under key `k` extends the cleared set by `k`. */
  lemma PartlyOrphanedStep(t: Table<Component>, id: string, done: set<string>, k: string)
    requires t.Valid() && k in t.rows && PlacedIn(t.rows[k], id)
    ensures var p := PartlyOrphaned(t, id, done);
      && p.Valid() && k in p.rows
      && p.Set(k, MergeComponent(p.rows[k], OrphanPatch)) == PartlyOrphaned(t, id, done + {k})
  {
    OrphanPatchClears(t.rows[k]);
    var p := PartlyOrphaned(t, id, done);
    assert p.rows.Keys == t.rows.Keys;
    assert MergeComponent(p.rows[k], OrphanPatch) == t.rows[k].(warehouseId := None);
    assert p.Set(k, t.rows[k].(warehouseId := None)).rows == PartlyOrphaned(t, id, done + {k}).rows;
  }

  /**
   * Once the ids of every listed placed component are cleared, the table is
   * fully orphaned.
   */
  lemma PartlyOrphanedAll(t: Table<Component>, id: string, listed: seq<Component>, done: set<string>)
    requires t.Valid() && ComponentsKeyed(t)
    requires forall k :: k in t.rows && PlacedIn(t.rows[k], id) ==> t.rows[k] in listed
    requires forall j :: 0 <= j < |listed| ==> listed[j].id in done
    ensures PartlyOrphaned(t, id, done) == Orphaned(t, id)
  {
    forall k | k in t.rows && PlacedIn(t.rows[k], id) ensures k in done {
      var m :| 0 <= m < |listed| && listed[m] == t.rows[k];
    }
  }

  /** `components.filter((c) => c.warehouseId === id)`. */
  function PlacedComponents(cs: seq<Component>, id: string): seq<Component> {
    Filter(cs, (c: Component) => PlacedIn(c, id))
  }

  /**
   * In a keyed table, the listed components placed in `id` are stored under
   * their own ids, and every stored component placed in `id` is among them.
   */
  lemma PlacedComponentsKeyed(t: Table<Component>, id: string)
    requires t.Valid() && ComponentsKeyed(t)
    ensures forall c :: c in PlacedComponents(t.Values(), id) ==> c.id in t.rows && t.rows[c.id] == c && PlacedIn(c, id)
    ensures forall k :: k in t.rows && PlacedIn(t.rows[k], id) ==> t.rows[k] in PlacedComponents(t.Values(), id)
  {
    var vs := t.Values();
    FilterMembers(vs, (c: Component) => PlacedIn(c, id));
    forall c | c in vs ensures c.id in t.rows && t.rows[c.id] == c {
      var j :| 0 <= j < |vs| && vs[j] == c;
      assert t.order[j] in t.rows;
    }
    forall k | k in t.rows ensures t.rows[k] in vs {
      var j :| 0 <= j < |t.order| && t.order[j] == k;
      assert vs[j] == t.rows[k];
    }
  }

  /**
   * The loop of the warehouse delete handler: the listing is filtered for
   * components placed in `id`, and each is updated to `warehouseId: null`.
   */
  method OrphanComponents(s: Storage, id: string)
    requires s.Valid()
    modifies s
    ensures s.Valid()
    ensures s.users == old(s.users) && s.groups == old(s.groups) && s.warehouses == old(s.warehouses)
    ensures ComponentsKeyed(old(s.components)) ==> s.components == Orphaned(old(s.components), id)
  {
    ghost var before := s.components;
    ghost var keyed := ComponentsKeyed(before);
    var toOrphan := PlacedComponents(s.ListComponents(), id);
    if keyed {
      PlacedComponentsKeyed(before, id);
    }
    ghost var done: set<string> := {};
    for i := 0 to |toOrphan|
      invariant s.Valid()
      invariant s.users == old(s.users) && s.groups == old(s.groups) && s.warehouses == old(s.warehouses)
      invariant forall j :: 0 <= j < i ==> toOrphan[j].id in done
      invariant keyed ==> s.components == PartlyOrphaned(before, id, done)
    {
      var c := toOrphan[i];
      if keyed {
        assert c in toOrphan;
        PartlyOrphanedStep(before, id, done, c.id);
      }
      var _ := s.UpdateComponent(c.id, OrphanPatch);
      IdsCoveredStep(toOrphan, i, done);
      done := done + {c.id};
    }
    if keyed {
      PartlyOrphanedAll(before, id, toOrphan, done);
    }
  }

  /** Adding the `i`-th id to a set holding the ids before it covers the first `i + 1`. */
  lemma IdsCoveredStep(cs: seq<Component>, i: nat, done: set<string>)
    requires i < |cs| && forall j :: 0 <= j < i ==> cs[j].id in done
    ensures forall j :: 0 <= j <= i ==> cs[j].id in done + {cs[i].id}
  {
  }

  /**
   * `DELETE /api/warehouses/:id`: only the owner or an admin; every component
   * placed in the warehouse is first updated to `warehouseId: null`, then the
   * warehouse is removed.
   */
  method DeleteWarehouse(s: Storage, u: User, id: string) returns (r: Reply<()>)
    requires s.Valid()
    modifies s
    ensures s.Valid()
    ensures s.users == old(s.users) && s.groups == old(s.groups)
    ensures FindWarehouse(old(s.ListWarehouses()), id).None? ==>
      r == Refused(NotFound) && s.components == old(s.components) && s.warehouses == old(s.warehouses)
    ensures var existing := FindWarehouse(old(s.ListWarehouses()), id);
      existing.Some? && !MayManage(existing.value, u) ==>
        r == Refused(Forbidden) && s.components == old(s.components) && s.warehouses == old(s.warehouses)
    ensures r.Done? <==> var existing := FindWarehouse(old(s.ListWarehouses()), id);
      existing.Some? && MayManage(existing.value, u) && id in old(s.warehouses.rows)
    ensures r.Done? ==> s.warehouses == old(s.warehouses).Delete(id)
    ensures r.Done? && ComponentsKeyed(old(s.components)) ==> s.components == Orphaned(old(s.components), id)
  {
    var existing := FindWarehouse(s.ListWarehouses(), id);
    if existing.None? {
      return Refused(NotFound);
    }
    if !MayManage(existing.value, u) {
      return Refused(Forbidden);
    }
    OrphanComponents(s, id);
    var removed := s.DeleteWarehouse(id);
    if !removed {
      return Refused(NotFound);
    }
    r := Done(());
  }

  // ---- Components by id -------------------------------------------------------

  /**
   * `PATCH /api/components/:id`: the validated patch is applied when the
   * component exists and is visible to the user; otherwise "not found".
   */
  method UpdateComponent(s: Storage, u: User, id: string, body: Body) returns (r: Reply<Component>)
    requires s.Valid()
    modifies s
    ensures s.Valid()
    ensures s.users == old(s.users) && s.groups == old(s.groups) && s.warehouses == old(s.warehouses)
    ensures r.Refused? ==> s.components == old(s.components)
    ensures ValidateUpdate(body).Invalid? ==> r == Refused(ValidationFailed(ValidateUpdate(body).fields))
    ensures id !in old(s.components.rows) ==> r.Refused?
    ensures r.Done? <==>
      && ValidateUpdate(body).Ok? && id in old(s.components.rows)
      && CanAccessComponent(old(s.components.rows[id]), Some(u), AccessibleWarehouses(Some(u), old(s.ListWarehouses())))
    ensures r.Done? ==>
      && r.value == MergeComponent(old(s.components.rows[id]), ValidateUpdate(body).value)
      && r.value.warehouseId == old(s.components.rows[id]).warehouseId
      && r.value.ownerId == old(s.components.rows[id]).ownerId
      && s.components == old(s.components).Set(id, r.value)
  {
    var validated := ValidateUpdate(body);
    if validated.Invalid? {
      return Refused(ValidationFailed(validated.fields));
    }
    var existing := s.components.Get(id);
    var accessible := AccessibleWarehouses(Some(u), s.ListWarehouses());
    if existing.None? || !CanAccessComponent(existing.value, Some(u), accessible) {
      return Refused(NotFound);
    }
    ValidatedPatchKeepsPlacement(existing.value, validated.value);
    var updated := s.UpdateComponent(id, validated.value);
    r := Done(updated.value);
  }

  /** `DELETE /api/components/:id`: removes a component that exists and is visible to the user. */
  method DeleteComponent(s: Storage, u: User, id: string) returns (r: Reply<()>)
    requires s.Valid()
    modifies s
    ensures s.Valid()
    ensures s.users == old(s.users) && s.groups == old(s.groups) && s.warehouses == old(s.warehouses)
    ensures r.Done? <==>
      id in old(s.components.rows)
      && CanAccessComponent(old(s.components.rows[id]), Some(u), AccessibleWarehouses(Some(u), old(s.ListWarehouses())))
    ensures r.Done? ==> s.components == old(s.components).Delete(id)
    ensures r.Refused? ==> r == Refused(NotFound) && s.components == old(s.components)
  {
    var existing := s.components.Get(id);
    var accessible := AccessibleWarehouses(Some(u), s.ListWarehouses());
    if existing.None? || !CanAccessComponent(existing.value, Some(u), accessible) {
      return Refused(NotFound);
    }
    var _ := s.DeleteComponent(id);
    r := Done(());
  }

  // ---- Groups -----------------------------------------------------------------

  /** `GET /api/groups`: every group for an admin, else the groups listing the user as a member. */
  function VisibleGroups(u: User, gs: seq<Group>): (r: seq<Group>)
    ensures IsAdmin(u) ==> r == gs
    ensures !IsAdmin(u) ==>
      && (forall i :: 0 <= i < |r| ==> r[i] in gs && u.id in r[i].memberIds)
      && (forall i :: 0 <= i < |gs| && u.id in gs[i].memberIds ==> gs[i] in r)
  {
    if IsAdmin(u) then gs else Filter(gs, (g: Group) => u.id in g.memberIds)
  }

  /**
   * `POST /api/groups` (admin only): stores the group, then rebuilds every
   * user's `groups` from the members lists.
   */
  method CreateGroup(s: Storage, u: User, name: string, memberIds: seq<string>) returns (r: Reply<Group>)
    requires s.Valid()
    modifies s
    ensures s.Valid()
    ensures s.components == old(s.components) && s.warehouses == old(s.warehouses)
    ensures !IsAdmin(u) ==> r == Refused(Forbidden) && s.groups == old(s.groups) && s.users == old(s.users)
    ensures IsAdmin(u) ==> r.Done?
    ensures r.Done? ==>
      && r.value.id !in old(s.groups.rows)
      && r.value.name == name && r.value.memberIds == memberIds
      && s.groups == old(s.groups).Set(r.value.id, r.value)
      && s.ListGroups() == old(s.ListGroups()) + [r.value]
    ensures r.Done? && UsersKeyed(old(s.users)) ==>
      && s.users == SyncedUsers(old(s.users), s.ListGroups())
      && MembershipConsistent(s.users, s.ListGroups())
  {
    if !IsAdmin(u) {
      return Refused(Forbidden);
    }
    ghost var before := s.groups;
    var g := s.CreateGroup(GroupDraft(name, memberIds));
    SetNewValues(before, g.id, g);
    SyncUserGroups(s);
    r := Done(g);
  }

  /** `PATCH /api/groups/:id` (admin only): shallow merge, then membership synchronisation. */
  method UpdateGroup(s: Storage, u: User, id: string, p: GroupPatch) returns (r: Reply<Group>)
    requires s.Valid()
    modifies s
    ensures s.Valid()
    ensures s.components == old(s.components) && s.warehouses == old(s.warehouses)
    ensures !IsAdmin(u) ==> r == Refused(Forbidden) && s.groups == old(s.groups) && s.users == old(s.users)
    ensures IsAdmin(u) && id !in old(s.groups.rows) ==> r == Refused(NotFound) && s.groups == old(s.groups) && s.users == old(s.users)
    ensures r.Done? <==> IsAdmin(u) && id in old(s.groups.rows)
    ensures r.Done? ==>
      && r.value == MergeGroup(old(s.groups.rows[id]), p)
      && s.groups == old(s.groups).Set(id, r.value)
    ensures r.Done? && UsersKeyed(old(s.users)) ==>
      && s.users == SyncedUsers(old(s.users), s.ListGroups())
      && MembershipConsistent(s.users, s.ListGroups())
  {
    if !IsAdmin(u) {
      return Refused(Forbidden);
    }
    var updated := s.UpdateGroup(id, p);
    if updated.None? {
      return Refused(NotFound);
    }
    SyncUserGroups(s);
    r := Done(updated.value);
  }

  /** `DELETE /api/groups/:id` (admin only): removal, then membership synchronisation. */
  method DeleteGroup(s: Storage, u: User, id: string) returns (r: Reply<()>)
    requires s.Valid()
    modifies s
    ensures s.Valid()
    ensures s.components == old(s.components) && s.warehouses == old(s.warehouses)
    ensures r.Refused? ==> s.users == old(s.users)
    ensures !IsAdmin(u) ==> r == Refused(Forbidden) && s.groups == old(s.groups)
    ensures r.Done? <==> IsAdmin(u) && id in old(s.groups.rows)
    ensures IsAdmin(u) ==> s.groups == old(s.groups).Delete(id)
    ensures r.Done? && UsersKeyed(old(s.users)) ==>
      && s.users == SyncedUsers(old(s.users), s.ListGroups())
      && MembershipConsistent(s.users, s.ListGroups())
    ensures r.Done? && UsersKeyed(old(s.users)) && (forall i :: 0 <= i < |s.ListGroups()| ==> s.ListGroups()[i].id != id) ==>
      forall k :: k in s.users.rows ==> id !in s.users.rows[k].groups
  {
    if !IsAdmin(u) {
      return Refused(Forbidden);
    }
    var removed := s.DeleteGroup(id);
    if !removed {
      return Refused(NotFound);
    }
    SyncUserGroups(s);
    forall k | k in s.users.rows {
      MembershipOfExact(s.users.rows[k].id, s.ListGroups(), id);
    }
    r := Done(());
  }
}
