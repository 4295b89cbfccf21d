# ComponentVault inventory core in Dafny

ComponentVault is a small inventory server for electronic components. Every
component lives in a warehouse. A warehouse is either personal, open to its
owner and to users sharing one of its groups, or a group warehouse, open to
the members of one group. Administrators see everything. This project models
the core of that server and proves properties of it:

- **Entity store** (`storage.dfy`). The class `Storage` holds four
  insertion-ordered keyed tables: components, users, groups and warehouses.
  It supports create with a fresh id and default filling, update by shallow
  merge, delete, and the read-only queries (search, category filter, low
  stock). It also covers the run-once sample seed. `tables.dfy` models the
  JavaScript `Map` behind each table.
- **Record validation** (`schema.dfy`): the insert and update schemas for
  component payloads, the column defaults and the category list.
- **Access resolution** (`access.dfy`): the warehouse and component access
  predicates and the accessible-warehouse listing.
- **Membership synchronisation** (`membership.dfy`): rebuilding every
  user's `groups` from the groups' member lists.
- **Request-handler rules** (`handlers.dfy`). These are the business
  decisions inside the HTTP handlers, each as a state transition on the
  store:
  - listing, low-stock alerts and stats;
  - creating a component and choosing its target warehouse;
  - patching and deleting a component;
  - creating, renaming and deleting warehouses, where deleting orphans
    the warehouse's components;
  - the admin-only group mutations.
- **Client helpers**:
  - `stock_status.dfy`: the stock badge, the quantity clamp and the
    decrement button;
  - `members.dfy`: the member toggle of the group editor;
  - `report_csv.dfy`: the CSV export of the low-stock report.

The CSV export follows section 2, rules 5 to 7, of RFC 4180: every field is
enclosed in double quotes and embedded quotes are doubled. It separates
records with LF instead of the CRLF of rule 1. The model pairs the export
with a reader and proves that the export reads back as its fields.

Shared helpers: `wrappers.dfy` (Option), `seqs.dfy` (filter, find, count,
distinctness) and `text.dfy` (ASCII lower-casing, substring search,
decimal rendering).

Records are stored under a key. Every create stores a record under its own
id. An update whose patch carries a different `id` field can break this,
because the source merges any object it is given. Contracts that need
"every record's id equals its key" state it as a hypothesis
(`ComponentsKeyed`, `UsersKeyed`, `WarehousesKeyed`) instead of requiring it.

## Model

| member | source | states |
|---|---|---|
| Tables.Table.Set | server/storage.ts:273 | `Map.set`: the key maps to the new record and every other key is unchanged. A new key is appended to the insertion order; an existing key keeps its place. |
| Tables.Table.Delete | server/storage.ts:290 | `Map.delete`: the key is gone, every other key is unchanged, and the size drops by one exactly when the key was present. |
| Tables.Table.Values | server/storage.ts:299 | `Array.from(map.values())`: one record per key, in insertion order. |
| Tables.Table.FreshKey | server/storage.ts:257 | The id given to a new record is not already a key. It stands in for `randomUUID`. |
| Tables.SetNewValues | server/storage.ts:255-275 | Storing under a new key appends exactly that record to the listing. |
| Tables.SetExistingValues | server/storage.ts:277-286 | Storing under an existing key replaces that record in place; the listing keeps its order. |
| Tables.DeleteValues | server/storage.ts:288-295 | Deleting the i-th key removes exactly the i-th record from the listing. |
| Storage.NewComponentDefaults | server/storage.ts:258-272 | Every supplied field is kept. Each omitted one gets its own default: quantity 0, minStockLevel 10, owner "admin", no groups, warehouse "admin-default", type "personal". |
| Storage.MergeEmpty | server/storage.ts:282 | Merging an empty patch leaves a component unchanged. |
| Storage.MergeThen | server/storage.ts:282 | Two successive merges equal one merge of the combined patch, with later fields winning. |
| Storage.MergeIdempotent | server/storage.ts:282 | Merging the same patch twice is the same as merging it once. |
| Storage.ValidatedPatchKeepsPlacement | shared/schema.ts:29-41 | A patch the update schema accepts never changes the id, owner, groups or warehouse placement of a component. |
| Storage.MergeFullPatch | server/storage.ts:353 | Spreading a whole record over a stored one yields that record. |
| Storage.Search | server/storage.ts:297-308 | Keeps exactly the components whose lowercased name, description, category or location contains the lowercased query. |
| Storage.SearchEmptyQuery | server/storage.ts:300-307 | The empty query matches every component. |
| Storage.SearchCaseInsensitive | server/storage.ts:300 | Searching for the lowercased query gives the same result as searching for the query. |
| Storage.ByCategory | server/storage.ts:310-314 | Keeps exactly the components whose category equals the argument. |
| Storage.LowStock | server/storage.ts:316-321 | Keeps exactly the components with `quantity <= minStockLevel`, an inclusive bound. |
| Storage.LowStockOrder | server/storage.ts:319 | The low-stock filter distributes over concatenation, so input order is kept. |
| Storage.Storage.constructor | server/storage.ts:52-78 | A new store is initialised: the five sample components are seeded, the admin warehouse exists, and there are no users or groups. |
| Storage.Storage.EnsureInitialized | server/storage.ts:67-78 | Seeding happens once. An initialised store is left unchanged. |
| Storage.Storage.SeedSampleData | server/storage.ts:174-243 | The loop adds the five sample components under fresh ids, each owned by "admin" in "admin-default", and stores the admin warehouse. Nothing else changes. |
| Storage.Storage.AddSamples | server/storage.ts:221-238 | Each sample is stored under a key new to the table, appended in sample order. Keys present before keep their records, and no other table changes. |
| Storage.Storage.CreateComponent | server/storage.ts:255-275 | Adds exactly one component under an id not in use, built from the draft with defaults. The listing grows by that component; other tables are unchanged. |
| Storage.Storage.UpdateComponent | server/storage.ts:277-286 | An unknown id gives None and no change. Otherwise the stored component becomes the shallow merge, under the same key. |
| Storage.Storage.DeleteComponent | server/storage.ts:288-295 | Returns true exactly when the id was present; the table is the old one without that key. |
| Storage.Storage.UserByUsername | server/storage.ts:328-333 | Returns the first user in insertion order with that username, or None exactly when no stored user has it. |
| Storage.Storage.CreateUser | server/storage.ts:335-342 | Adds exactly one user under an id not in use; other tables are unchanged. |
| Storage.Storage.UpdateUser | server/storage.ts:349-357 | An unknown id gives None and no change; otherwise a shallow merge under the same key. |
| Storage.Storage.DeleteUser | server/storage.ts:359-367 | Returns true exactly when the id was present; that key is removed. |
| Storage.Storage.CreateGroup | server/storage.ts:374-381 | Adds exactly one group under an id not in use. |
| Storage.Storage.UpdateGroup | server/storage.ts:383-391 | An unknown id gives None and no change; otherwise a shallow merge under the same key. |
| Storage.Storage.DeleteGroup | server/storage.ts:393-401 | Returns true exactly when the id was present; that key is removed. |
| Storage.Storage.CreateWarehouse | server/storage.ts:408-415 | Keeps a supplied id, else uses a fresh one. Supplying an existing id replaces that record and leaves the count unchanged. |
| Storage.Storage.UpdateWarehouse | server/storage.ts:417-425 | An unknown id gives None and no change; otherwise a shallow merge under the same key. |
| Storage.Storage.DeleteWarehouse | server/storage.ts:432-439 | Returns true exactly when the id was present; that key is removed. |
| Schema.IssuesAmong | shared/schema.ts:29-39 | A field is reported exactly when it fails its rule, and nothing is reported exactly when every field passes. |
| Schema.IssuesAgree | shared/schema.ts:29-36 | Bodies that agree on the checked fields get the same report. |
| Schema.ValidateInsert | shared/schema.ts:29-39 | A payload is accepted exactly when name, category, location and description are text and quantity and minStockLevel are whole numbers >= 0. The accepted record carries the body's four texts and two numbers. A rejection names only failing fields. |
| Schema.InsertRejectsBadQuantity | shared/schema.ts:37 | A fractional or negative quantity is rejected, and the rejection names it. |
| Schema.InsertRejectsBadMinStockLevel | shared/schema.ts:38 | A fractional or negative minStockLevel is rejected, and the rejection names it. |
| Schema.InsertIgnoresOtherKeys | shared/schema.ts:29-36 | Keys outside the insert fields, including id, ownerId, groupIds and the warehouse fields, do not affect the result. |
| Schema.ProtectedKeysNotInsertKeys | shared/schema.ts:29-36 | None of the protected fields is an insert field. |
| Schema.ValidateUpdate | shared/schema.ts:41 | Every field is optional. A supplied field must pass the insert rule. On acceptance each of the six fields is present in the patch exactly when the body supplies it, with the body's value, and the patch touches only insert fields. |
| Schema.EmptyUpdateValid | shared/schema.ts:41 | The empty update is accepted and yields the empty patch. |
| Schema.InsertValidImpliesUpdateValid | shared/schema.ts:41 | Every acceptable insert payload is an acceptable update. |
| Schema.UpdateRejectsNegativeQuantity | shared/schema.ts:37-41 | A supplied negative quantity is rejected by the update schema too. |
| Schema.CategoriesFixed | shared/schema.ts:47-58 | The category list holds ten distinct fixed values. |
| Schema.AnyCategoryAccepted | shared/schema.ts:8 | Replacing the category of an accepted payload by any text, listed or not, is still accepted, with that category. |
| Access.AccessibleWarehouses | server/routes.ts:162-165 | Keeps exactly the warehouses the user can access. |
| Access.AdminSeesAll | server/routes.ts:148 | An admin can access every warehouse, so the accessible list is the whole list. |
| Access.AbsentDenied | server/routes.ts:147 | An absent user or warehouse is never granted. |
| Access.GroupWarehouseRule | server/routes.ts:150-152 | For a non-admin, a group warehouse is open exactly when its non-empty group id is in the user's groups. Ownership does not count. |
| Access.PersonalWarehouseRule | server/routes.ts:153 | For a non-admin, any other warehouse is open exactly when the user owns it or shares one of its groups. |
| Access.AccessMonotoneInGroups | server/routes.ts:146-154 | Joining more groups never removes access. |
| Access.OrphanHidden | server/routes.ts:156-160 | A component with no warehouse is visible to nobody, admins included. |
| Access.ComponentViaAccessible | server/routes.ts:156-160 | Resolving a component against the accessible list grants it exactly when some warehouse with its id is accessible. |
| Access.ComponentViaAllWarehouses | server/routes.ts:156-165 | With distinct warehouse ids, resolving against the accessible list agrees with resolving against all warehouses. |
| Membership.MembershipOfExact | server/routes.ts:36-41 | A group id appears in a user's rebuilt list exactly when some group with that id lists the user as a member. |
| Membership.MembershipIsGroupsContaining | server/routes.ts:36-41 | With repetition-free member lists, the rebuilt list is the ids of the groups containing the user, in group order. |
| Membership.BuildMemberships | server/routes.ts:35-41 | The nested loop leaves, for every user id, exactly the membership list defined by the groups. |
| Membership.SyncedUsers | server/routes.ts:42-44 | The synchronised table has the same keys and order. Only `groups` is replaced. |
| Membership.SyncedUsersConsistent | server/routes.ts:32-45 | After synchronisation every user's groups equal its memberships. All other fields are preserved, and a user in no group gets []. |
| Membership.SyncUserGroups | server/routes.ts:32-45 | The update loop produces exactly the synchronised users table; components, groups and warehouses are unchanged. |
| Membership.GroupWarehouseForMembers | server/routes.ts:150-152 | Once memberships are consistent, a non-admin reaches a group warehouse exactly when it is a member of a group with that id. |
| Handlers.ListComponentsMembers | server/routes.ts:172-204 | A component is listed exactly when it is visible and passes the warehouse, category ("All Categories" means all) and search filters that are supplied. |
| Handlers.LowStockAlertsMembers | server/routes.ts:304-318 | An alert is raised exactly for the visible low-stock components of the selected warehouse. |
| Handlers.CategorySet | server/routes.ts:336 | Every occurring category is in the set, every member of the set occurs, and there are no more of them than components. |
| Handlers.ComputeStats | server/routes.ts:321-348 | The low-stock count and the category count never exceed the total; there are no categories exactly when there are no components. |
| Handlers.StatsMatchListings | server/routes.ts:321-337 | The component count equals the length of the unfiltered component listing, and the low-stock count the number of low-stock alerts, for the same warehouse selection. |
| Handlers.TotalQuantityBounds | server/routes.ts:335 | With non-negative quantities the total quantity is non-negative and at least every single quantity. |
| Handlers.TotalQuantityConcat | server/routes.ts:335 | The total quantity is additive over concatenation. |
| Handlers.PickTarget | server/routes.ts:230-239 | The target is the truthy body id (None when it is not a string), else the first accessible warehouse id when truthy, else the id of a new personal warehouse owned by the user. Only the last case changes the store. |
| Handlers.FindKeyedWarehouse | server/routes.ts:240 | When every warehouse is stored under its own id, finding by id in the listing returns exactly the record stored under that key. |
| Handlers.CreateComponent | server/routes.ts:225-259 | An invalid payload is refused with its failing fields and nothing changes. With a truthy body id, the request succeeds exactly when the id is a string naming an accessible warehouse, and is otherwise refused as forbidden. With no body id and every record stored under its own id, it succeeds in the first accessible warehouse, or else in a new warehouse. Warehouses change only in that last case, by exactly one new personal warehouse of the user. On success the stored component carries the validated payload, is owned by the user, copies the target's type and group, and the target is accessible. |
| Handlers.PlaceComponent | server/routes.ts:240-258 | Succeeds exactly when the warehouse found under the target id is accessible to the user, else refused as forbidden with no change. The created component is the validated payload placed in that warehouse: owned by the user, with no groups, copying the warehouse's type and group, and defaulted as the store does. |
| Handlers.FirstAccessibleFound | server/routes.ts:236-240 | When every warehouse is stored under its own id, looking up the first accessible warehouse's id finds that warehouse, and it is accessible. |
| Handlers.UpdateComponent | server/routes.ts:262-283 | The validated patch is applied exactly when the component exists and is visible; placement and owner never change. |
| Handlers.DeleteComponent | server/routes.ts:286-301 | The component is removed exactly when it exists and is visible; otherwise "not found" and nothing changes. |
| Handlers.CreateWarehouse | server/routes.ts:454-480 | The type must be "personal" or "group". A personal request (or one with no type) always succeeds. A group request succeeds exactly when the chosen group exists and the user is an admin or a member. A missing group is a bad request, and a non-member is forbidden. A group warehouse is attached to exactly the requested group. The new warehouse is owned by the user, under a fresh id, and a personal one is accessible to its creator. |
| Handlers.RenameWarehouse | server/routes.ts:482-493 | A warehouse that is not found is "not found"; only the owner or an admin may patch. The found record, with its name replaced only by a non-empty name, is stored under the requested id and returned. When no record is stored under that id, nothing changes and nothing is returned. |
| Handlers.Orphaned | server/routes.ts:507-511 | The orphaned table has the same keys and order as before. |
| Handlers.OrphanedSpec | server/routes.ts:507-511 | After orphaning no component points at the warehouse. The components that did lose only their placement; all others are untouched. |
| Handlers.OrphanPatchClears | server/routes.ts:511 | The `{ warehouseId: null }` patch clears the placement and nothing else, and applying it again changes nothing. |
| Handlers.OrphanComponents | server/routes.ts:507-511 | The loop leaves exactly the orphaned table; the other tables are unchanged. |
| Handlers.DeleteWarehouse | server/routes.ts:495-518 | Refused unless the warehouse exists and the user is its owner or an admin. On success the warehouse is removed and its components are orphaned first. |
| Handlers.VisibleGroups | server/routes.ts:402-410 | An admin sees every group; anyone else sees exactly the groups listing them as a member. |
| Handlers.CreateGroup | server/routes.ts:412-420 | Admin only. Adds one group at the end of the listing, then the users' groups are consistent with the new listing. |
| Handlers.UpdateGroup | server/routes.ts:422-430 | Admin only; an unknown id is "not found". Otherwise the merged group is stored and the users are synchronised. |
| Handlers.DeleteGroup | server/routes.ts:432-440 | Admin only. After a successful delete no user lists a group id that no remaining group carries. |
| StockStatus.StatusCases | client/src/components/components-table.tsx:52-60 | Out of stock exactly at quantity 0. Low stock exactly when the quantity is nonzero and at most the threshold. In stock otherwise. |
| StockStatus.OutOfStockWinsAtZeroThreshold | client/src/components/components-table.tsx:53-56 | With a threshold of 0, an empty row is out of stock, not low stock. |
| StockStatus.StatusMatchesServer | client/src/components/components-table.tsx:52-60 | For schema-valid counts, a row is badged out of stock or low stock exactly when the server lists it as low stock. |
| StockStatus.Clamp | client/src/components/components-table.tsx:32 | The quantity sent is never negative and equals the requested one when that is non-negative. |
| StockStatus.QuantityUpdateAccepted | client/src/components/components-table.tsx:32 | The quantity update a row sends always passes the update schema and sets the clamped quantity. |
| StockStatus.DecrementNeverNegative | client/src/components/components-table.tsx:178 | A decrement the button allows sends one less, never below zero. |
| Members.ToggleShape | client/src/pages/admin.tsx:102-104 | A present id is removed completely; an absent id is appended at the end. |
| Members.ToggleMembership | client/src/pages/admin.tsx:103 | Membership of the id flips; every other value keeps its membership. |
| Members.RemoveAbsent | client/src/pages/admin.tsx:103 | Filtering out an id that is not in the list returns the list unchanged. |
| Members.ToggleKeepsOthers | client/src/pages/admin.tsx:103 | Ignoring the id, the list is unchanged, so the other members keep their relative order. |
| Members.ToggleTwiceAbsent | client/src/pages/admin.tsx:102-104 | Toggling an absent id twice restores the list. |
| Members.ToggleTwicePresent | client/src/pages/admin.tsx:102-104 | Toggling a present id twice leaves it once, at the end. |
| Members.ToggleDistinct | client/src/pages/admin.tsx:103 | A member list without repetitions stays without repetitions. |
| ReportCsv.UnquoteEscape | client/src/pages/reports.tsx:24 | Stripping the outer quotes and un-doubling the inner ones recovers the field text. |
| ReportCsv.ParseFieldsQuoted | client/src/pages/reports.tsx:23-25 | A line of quoted, comma-joined fields reads back as exactly those fields. |
| ReportCsv.HeaderLineText | client/src/pages/reports.tsx:21-27 | The first line is `name,category,quantity,minStockLevel,location,description`. |
| ReportCsv.DecodeCsv | client/src/pages/reports.tsx:19-28 | The report reads back as one record per component, in input order, each the six field texts of that component. |
| ReportCsv.CsvEmpty | client/src/pages/reports.tsx:20 | The report is empty exactly when there are no components. |
| ReportCsv.CsvStartsWithHeader | client/src/pages/reports.tsx:27 | A non-empty report starts with the header line followed by LF. |
| ReportCsv.CsvInjective | client/src/pages/reports.tsx:19-28 | Reports that are equal come from components with equal field texts. |
| ReportCsv.AbsentCellQuoted | client/src/pages/reports.tsx:24 | A null or missing property is written as `""`. |

## Left out

- Persistence: the JSON files of `FileStorage` (loading, saving, the data directory) are not modelled. Write failures are swallowed there, so the in-memory tables are the model.
- The initialisation race: the constructor does not await `initialize()`. The model seeds synchronously, once, on construction.
- A store restored from files is not modelled: `EnsureInitialized` always seeds a fresh store. `MemStorage` is the same apart from persistence and is not modelled separately.
- `randomUUID`: a deterministic fresh key (longer than every key present) stands in for it. Only its freshness is relied on.
- `toLowerCase` is modelled on ASCII letters only; Unicode case mapping is not.
- Express plumbing is not modelled: sessions, the authentication middleware, `refreshSessionUser`, status codes and response bodies. The acting user is a parameter, and error kinds are the `Refusal` values.
- Route shadowing of `PATCH /api/users/me` by `PATCH /api/users/:id` is framework behaviour and is not modelled.
- The user-administration handlers (`/api/users`) and the admin bootstrap at startup are not modelled; only the store operations they call are.
- The `groupName` decoration of `GET /api/warehouses` is not modelled.
- JavaScript numbers are modelled as integers. Payload validation reads JSON numbers as reals and accepts only whole, non-negative ones.
- Explicit `undefined` values inside a patch are not distinguished from absent keys. Prototype-named keys (such as `__proto__`) of the membership record are not modelled either.
- Handlers.RenameWarehouse: the body's `name` is taken as a string; a truthy non-string name is not modelled.
- Handlers.CreateWarehouse: the body is reduced to its name, group ids, type and group id as strings; non-string values are not modelled.
- Handlers.CreateComponent: with no body id, success is promised only when every warehouse record is stored under its own id. The lookup searches the listing by the record's id field, and a record whose id field differs from its key could be missed. With a truthy body id, success and refusal are stated exactly.
- Handlers.DeleteWarehouse, Handlers.OrphanComponents, Membership.SyncUserGroups, Handlers.CreateGroup, Handlers.UpdateGroup and Handlers.DeleteGroup state their effect on records only when every record is stored under its own id. An update can break that, and then the source's lookups by id diverge from its keys.
- Storage.Storage.constructor: the schema's column default for `warehouseId` is `'default'`, but the store fills in `"admin-default"`. The model follows the store.
- ReportCsv.DecodeCsv: numeric cells are rendered as decimal integers; fractional numbers are not modelled.
- The CSV download (Blob, object URL, link click) and all React rendering, query caching, internationalisation and form coercion are not modelled.
