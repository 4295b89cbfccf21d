/**
 * The shared record shapes and the request-body validation of the
 * inventory tracker: the `components` and `warehouses` tables, the insert
 * schema (which fields a client may set, and the non-negative integer
 * constraints), the partial update schema, the column defaults and the
 * fixed category list.
 */
module Schema {
  import opened Wrappers

  /** A stored component. `warehouseId` is `None` once the component is orphaned. */
  datatype Component = Component(
    id: string,
    name: string,
    category: string,
    quantity: int,
    location: string,
    description: string,
    minStockLevel: int,
    ownerId: string,
    groupIds: seq<string>,
    warehouseId: Option<string>,
    warehouseType: string,
    warehouseGroupId: Option<string>)

  /**
   * A warehouse record. `kind` is the record's `type` field ("personal" or
   * "group"; the store itself accepts any text).
   */
  datatype Warehouse = Warehouse(
    id: string,
    name: string,
    ownerId: string,
    groupIds: seq<string>,
    kind: string,
    warehouseGroupId: Option<string>)

  /** "Low stock": the quantity is at or below the reorder threshold (inclusive). */
  predicate IsLowStock(c: Component) {
    c.quantity <= c.minStockLevel
  }

  /** Column defaults of the `components` table. */
  const DefaultQuantity: int := 0
  const DefaultMinStockLevel: int := 10

  /** The fixed list of categories offered to users. */
  const ComponentCategories: seq<string> := [
    "Resistors", "Capacitors", "Integrated Circuits", "Transistors", "Diodes",
    "Connectors", "Inductors", "Switches", "Sensors", "Other"]

  /** A JSON value as it arrives in a request body. */
  datatype Json = JNull | JBool(b: bool) | JNum(n: real) | JStr(s: string) | JOther

  /** A request body: a JSON object; an absent key is `undefined`. */
  type Body = map<string, Json>

  function BodyField(body: Body, key: string): Option<Json> {
    if key in body then Some(body[key]) else None
  }

  /** The fields of the insert schema, in the schema's key order. */
  const InsertKeys: seq<string> := ["name", "category", "quantity", "location", "description", "minStockLevel"]

  /** The insert fields, one by one. */
  lemma InsertKeysListed()
    ensures forall k :: k in InsertKeys <==>
      k == "name" || k == "category" || k == "quantity" || k == "location" || k == "description" || k == "minStockLevel"
  {
    var keys := InsertKeys;
    assert keys[0] == "name" && keys[1] == "category" && keys[2] == "quantity";
    assert keys[3] == "location" && keys[4] == "description" && keys[5] == "minStockLevel";
  }

  /** The fields a client may never set through the insert or update schema. */
  const ProtectedKeys: set<string> := {"id", "ownerId", "groupIds", "warehouseId", "warehouseType", "warehouseGroupId"}

  /** A `notNull` text column: a JSON string. */
  predicate IsText(v: Option<Json>) {
    v.Some? && v.value.JStr?
  }

  /** `z.number().int().min(0)`: a JSON number that is a whole number and not negative. */
  predicate IsCount(v: Option<Json>) {
    v.Some? && v.value.JNum? && v.value.n == v.value.n.Floor as real && v.value.n >= 0.0
  }

  predicate IsCountKey(key: string) {
    key == "quantity" || key == "minStockLevel"
  }

  /** The rule the insert schema applies to one of its fields. */
  predicate FieldValid(key: string, v: Option<Json>) {
    if IsCountKey(key) then IsCount(v) else IsText(v)
  }

  /** The payload the insert schema lets through. */
  datatype InsertComponent = InsertComponent(
    name: string, category: string, quantity: int,
    location: string, description: string, minStockLevel: int)

  /** A validation outcome: the parsed value, or the failing fields in schema order. */
  datatype Validated<T> = Ok(value: T) | Invalid(fields: seq<string>)

  function Issue(body: Body, key: string): seq<string> {
    if FieldValid(key, BodyField(body, key)) then [] else [key]
  }

  function TextValue(v: Option<Json>): string
    requires IsText(v)
  {
    v.value.s
  }

  function CountValue(v: Option<Json>): int
    requires IsCount(v)
  {
    v.value.n.Floor
  }

  /** The failing fields of `body` among `keys`, in the order of `keys`. */
  function IssuesAmong(body: Body, keys: seq<string>): (r: seq<string>)
    ensures forall k :: k in r <==> k in keys && !FieldValid(k, BodyField(body, k))
    ensures r == [] <==> forall k :: k in keys ==> FieldValid(k, BodyField(body, k))
  {
    if keys == [] then []
    else
      assert forall k :: k in keys <==> k == keys[0] || k in keys[1..];
      Issue(body, keys[0]) + IssuesAmong(body, keys[1..])
  }

  /** The failing insert fields of `body`, in schema order. */
  function Issues(body: Body): (r: seq<string>)
    ensures forall k :: k in r <==> k in InsertKeys && !FieldValid(k, BodyField(body, k))
    ensures r == [] <==> forall k :: k in InsertKeys ==> FieldValid(k, BodyField(body, k))
  {
    IssuesAmong(body, InsertKeys)
  }

  /** A body without issues carries a string for each text field and a count for each count field. */
  lemma InsertFieldsValid(body: Body)
    requires forall k :: k in InsertKeys ==> FieldValid(k, BodyField(body, k))
    ensures IsText(BodyField(body, "name")) && IsText(BodyField(body, "category"))
    ensures IsCount(BodyField(body, "quantity")) && IsText(BodyField(body, "location"))
    ensures IsText(BodyField(body, "description")) && IsCount(BodyField(body, "minStockLevel"))
  {
    var keys := InsertKeys;
    assert FieldValid(keys[0], BodyField(body, keys[0])) && FieldValid(keys[1], BodyField(body, keys[1]));
    assert FieldValid(keys[2], BodyField(body, keys[2])) && FieldValid(keys[3], BodyField(body, keys[3]));
    assert FieldValid(keys[4], BodyField(body, keys[4])) && FieldValid(keys[5], BodyField(body, keys[5]));
  }

  /**
   * `insertComponentSchema.parse(body)`: every insert field must be present
   * and valid; unknown and protected keys are dropped.
   */
  function ValidateInsert(body: Body): (r: Validated<InsertComponent>)
    ensures r.Ok? <==> forall k :: k in InsertKeys ==> FieldValid(k, BodyField(body, k))
    ensures r.Ok? ==> r.value.quantity >= 0 && r.value.minStockLevel >= 0
    ensures r.Ok? ==>
      && r.value.quantity as real == BodyField(body, "quantity").value.n
      && r.value.minStockLevel as real == BodyField(body, "minStockLevel").value.n
      && Some(JStr(r.value.name)) == BodyField(body, "name")
      && Some(JStr(r.value.category)) == BodyField(body, "category")
      && Some(JStr(r.value.location)) == BodyField(body, "location")
      && Some(JStr(r.value.description)) == BodyField(body, "description")
    ensures r.Invalid? ==> r.fields != [] && forall k :: k in r.fields ==> k in InsertKeys && !FieldValid(k, BodyField(body, k))
  {
    var issues := Issues(body);
    if issues == [] then
      InsertFieldsValid(body);
      Ok(InsertComponent(
        TextValue(BodyField(body, "name")), TextValue(BodyField(body, "category")), CountValue(BodyField(body, "quantity")),
        TextValue(BodyField(body, "location")), TextValue(BodyField(body, "description")), CountValue(BodyField(body, "minStockLevel"))))
    else
      Invalid(issues)
  }

  /** A negative or fractional quantity is refused, never coerced. */
  lemma InsertRejectsBadQuantity(body: Body, n: real)
    requires BodyField(body, "quantity") == Some(JNum(n))
    requires n < 0.0 || n != n.Floor as real
    ensures ValidateInsert(body).Invalid? && "quantity" in ValidateInsert(body).fields
  {
    assert InsertKeys[2] == "quantity";
    assert !FieldValid("quantity", BodyField(body, "quantity"));
  }

  /** A negative or fractional minimum stock level is refused, never coerced. */
  lemma InsertRejectsBadMinStockLevel(body: Body, n: real)
    requires BodyField(body, "minStockLevel") == Some(JNum(n))
    requires n < 0.0 || n != n.Floor as real
    ensures ValidateInsert(body).Invalid? && "minStockLevel" in ValidateInsert(body).fields
  {
    assert InsertKeys[5] == "minStockLevel";
    assert !FieldValid("minStockLevel", BodyField(body, "minStockLevel"));
  }

  /**
   * Protected keys cannot influence the result: two bodies that agree on the
   * insert fields validate identically, whatever `id`, `ownerId`, ... they carry.
   */
  lemma InsertIgnoresOtherKeys(body: Body, other: Body)
    requires forall k :: k in InsertKeys ==> BodyField(body, k) == BodyField(other, k)
    ensures ValidateInsert(body) == ValidateInsert(other)
  {
    IssuesAgree(body, other, InsertKeys);
    var keys := InsertKeys;
    assert BodyField(body, keys[0]) == BodyField(other, keys[0]) && BodyField(body, keys[1]) == BodyField(other, keys[1]);
    assert BodyField(body, keys[2]) == BodyField(other, keys[2]) && BodyField(body, keys[3]) == BodyField(other, keys[3]);
    assert BodyField(body, keys[4]) == BodyField(other, keys[4]) && BodyField(body, keys[5]) == BodyField(other, keys[5]);
  }

  /** Bodies that agree on `keys` have the same failing fields among them. */
  lemma {:induction false} IssuesAgree(body: Body, other: Body, keys: seq<string>)
    requires forall k :: k in keys ==> BodyField(body, k) == BodyField(other, k)
    ensures IssuesAmong(body, keys) == IssuesAmong(other, keys)
  {
    if keys != [] {
      assert keys[0] in keys;
      assert forall k :: k in keys[1..] ==> k in keys;
      IssuesAgree(body, other, keys[1..]);
    }
  }

  lemma ProtectedKeysNotInsertKeys()
    ensures forall k :: k in ProtectedKeys ==> k !in InsertKeys
  {
  }

  /**
   * The partial object a store update spreads over a stored component
   * (`{...existing, ...updates}`): `None` is a key absent from `updates`.
   */
  datatype ComponentPatch = ComponentPatch(
    id: Option<string>,
    name: Option<string>,
    category: Option<string>,
    quantity: Option<int>,
    location: Option<string>,
    description: Option<string>,
    minStockLevel: Option<int>,
    ownerId: Option<string>,
    groupIds: Option<seq<string>>,
    warehouseId: Option<Option<string>>,
    warehouseType: Option<string>,
    warehouseGroupId: Option<Option<string>>)

  const EmptyPatch := ComponentPatch(None, None, None, None, None, None, None, None, None, None, None, None)

  /** An optional field of the update schema: absent, or valid by the insert rule. */
  predicate OptionalFieldValid(key: string, v: Option<Json>) {
    v.None? || FieldValid(key, v)
  }

  function OptionalIssue(body: Body, key: string): seq<string> {
    if OptionalFieldValid(key, BodyField(body, key)) then [] else [key]
  }

  function OptText(v: Option<Json>): Option<string>
    requires v.None? || IsText(v)
  {
    if v.None? then None else Some(v.value.s)
  }

  function OptCount(v: Option<Json>): Option<int>
    requires v.None? || IsCount(v)
  {
    if v.None? then None else Some(v.value.n.Floor)
  }

  /** A patch that sets none of the protected fields. */
  predicate TouchesOnlyInsertFields(p: ComponentPatch) {
    p.id.None? && p.ownerId.None? && p.groupIds.None? && p.warehouseId.None?
    && p.warehouseType.None? && p.warehouseGroupId.None?
  }

  /** The failing fields of `body` under the update schema, in schema order. */
  function OptionalIssues(body: Body): (r: seq<string>)
    ensures forall k :: k in r ==> k in InsertKeys && !OptionalFieldValid(k, BodyField(body, k))
    ensures r == [] <==> forall k :: k in InsertKeys ==> OptionalFieldValid(k, BodyField(body, k))
  {
    InsertKeysListed();
    OptionalIssue(body, "name") + OptionalIssue(body, "category") + OptionalIssue(body, "quantity")
    + OptionalIssue(body, "location") + OptionalIssue(body, "description") + OptionalIssue(body, "minStockLevel")
  }

  /** A parsed optional text field: absent exactly when the key is, else the body's string. */
  predicate TextCarried(f: Option<string>, v: Option<Json>) {
    (f.None? <==> v.None?) && (f.Some? ==> v == Some(JStr(f.value)))
  }

  /** A parsed optional count field: absent exactly when the key is, else the body's number. */
  predicate CountCarried(f: Option<int>, v: Option<Json>) {
    (f.None? <==> v.None?) && (f.Some? ==> v.Some? && v.value.JNum? && f.value as real == v.value.n)
  }

  /** A body without update issues carries, for each insert field, nothing or a value of the right kind. */
  lemma OptionalFieldsValid(body: Body)
    requires forall k :: k in InsertKeys ==> OptionalFieldValid(k, BodyField(body, k))
    ensures var v := BodyField(body, "name"); v.None? || IsText(v)
    ensures var v := BodyField(body, "category"); v.None? || IsText(v)
    ensures var v := BodyField(body, "quantity"); v.None? || IsCount(v)
    ensures var v := BodyField(body, "location"); v.None? || IsText(v)
    ensures var v := BodyField(body, "description"); v.None? || IsText(v)
    ensures var v := BodyField(body, "minStockLevel"); v.None? || IsCount(v)
  {
    var keys := InsertKeys;
    assert OptionalFieldValid(keys[0], BodyField(body, keys[0])) && OptionalFieldValid(keys[1], BodyField(body, keys[1]));
    assert OptionalFieldValid(keys[2], BodyField(body, keys[2])) && OptionalFieldValid(keys[3], BodyField(body, keys[3]));
    assert OptionalFieldValid(keys[4], BodyField(body, keys[4])) && OptionalFieldValid(keys[5], BodyField(body, keys[5]));
  }

  /**
   * `updateComponentSchema.parse(body)`: the insert schema with every field
   * optional. Present fields obey the insert rules; absent ones stay absent.
   */
  function ValidateUpdate(body: Body): (r: Validated<ComponentPatch>)
    ensures r.Ok? <==> forall k :: k in InsertKeys ==> OptionalFieldValid(k, BodyField(body, k))
    ensures r.Ok? ==> TouchesOnlyInsertFields(r.value)
    ensures r.Ok? ==>
      && (r.value.quantity.Some? ==> r.value.quantity.value >= 0)
      && (r.value.minStockLevel.Some? ==> r.value.minStockLevel.value >= 0)
    ensures r.Ok? ==>
      && TextCarried(r.value.name, BodyField(body, "name"))
      && TextCarried(r.value.category, BodyField(body, "category"))
      && CountCarried(r.value.quantity, BodyField(body, "quantity"))
      && TextCarried(r.value.location, BodyField(body, "location"))
      && TextCarried(r.value.description, BodyField(body, "description"))
      && CountCarried(r.value.minStockLevel, BodyField(body, "minStockLevel"))
    ensures r.Invalid? ==> r.fields != [] && forall k :: k in r.fields ==> k in InsertKeys && k in body
  {
    var issues := OptionalIssues(body);
    if issues == [] then
      OptionalFieldsValid(body);
      Ok(ComponentPatch(
        None, OptText(BodyField(body, "name")), OptText(BodyField(body, "category")), OptCount(BodyField(body, "quantity")),
        OptText(BodyField(body, "location")), OptText(BodyField(body, "description")), OptCount(BodyField(body, "minStockLevel")),
        None, None, None, None, None))
    else
      Invalid(issues)
  }

  /** An empty update body is valid and yields the empty patch. */
  lemma EmptyUpdateValid()
    ensures ValidateUpdate(map[]) == Ok(EmptyPatch)
  {
  }

  /** Every body the insert schema accepts is also accepted by the update schema. */
  lemma {:induction false} InsertValidImpliesUpdateValid(body: Body)
    requires ValidateInsert(body).Ok?
    ensures ValidateUpdate(body).Ok?
  {
    forall k | k in InsertKeys ensures OptionalFieldValid(k, BodyField(body, k)) {
    }
  }

  /** A supplied negative quantity still fails the partial schema. */
  lemma UpdateRejectsNegativeQuantity(body: Body, n: real)
    requires BodyField(body, "quantity") == Some(JNum(n)) && n < 0.0
    ensures ValidateUpdate(body).Invalid? && "quantity" in ValidateUpdate(body).fields
  {
  }

  /** The category list holds ten distinct values. */
  lemma CategoriesFixed()
    ensures |ComponentCategories| == 10
    ensures forall i, j :: 0 <= i < j < |ComponentCategories| ==> ComponentCategories[i] != ComponentCategories[j]
  {
  }

  /** The schema does not restrict `category` to that list: any text is accepted. */
  lemma {:induction false} AnyCategoryAccepted(body: Body, category: string)
    requires ValidateInsert(body).Ok?
    ensures ValidateInsert(body["category" := JStr(category)]).Ok?
    ensures ValidateInsert(body["category" := JStr(category)]).value.category == category
  {
    var b := body["category" := JStr(category)];
    forall k | k in InsertKeys ensures FieldValid(k, BodyField(b, k)) {
      if k != "category" {
        assert BodyField(b, k) == BodyField(body, k);
      }
    }
  }
}
