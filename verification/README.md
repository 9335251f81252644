# Permission helpers of the Remix admin boilerplate

This project models the two permission helpers in `app/utils/common.ts` and
proves what they compute.

- `convertRolesToPermissions` turns a user's roles into one permission list.
  - It concatenates every role's `permissions` array, left to right.
  - A `null`/`undefined` role, or a role without `permissions`, adds nothing.
  - Duplicates are removed by a `Set`, which keeps insertion order.
  - It is pure. It is modelled as recursive functions (`RolePermissions`)
    over an insertion-ordered deduplication (`InsertionOrder.Dedupe`).
- `groupPermissionsByModule` turns flat permission records `{module, ...rest}`
  into one `{module, actions}` group per module.
  - Its `reduce` callback updates a plain-object accumulator in place.
  - It is modelled as a method with a loop (`PermissionGroups`). The loop keeps
    a map from module to group, plus the order in which the map's keys were
    created.
  - `Object.values` is modelled by the key order of an ordinary JavaScript
    object, per section 10.1.11.1 of ECMAScript ("OrdinaryOwnPropertyKeys";
    module `PropertyKeys`). Array-index keys come first, ascending by number.
    Every other key follows in creation order.
  - Each method is proved against the specification function
    `PermissionGroups.Grouped`. The lemmas beside it prove the promised
    properties:
    - one group per distinct module;
    - no empty group;
    - every record lands in exactly one group;
    - actions keep input order;
    - groups come in object key order.

A record's fields other than `module` are an opaque type parameter `R`.
`{ ...rest }` copies those fields, so an action is simply the record's `rest`.

Files:

- `wrappers.dfy`: `Option` and `Result`.
- `insertion_order.dfy`: `Set` insertion order, first-seen order and its
  uniqueness.
- `property_keys.dfy`: array indices, object key order, `Object.values`.
- `role_permissions.dfy`: `convertRolesToPermissions`.
- `permission_groups.dfy`: `groupPermissionsByModule`.

## Model

| member | source | states |
|---|---|---|
| RolePermissions.Contribution | app/utils/common.ts:18 | `role?.permissions \|\| []`: a role with a `permissions` array contributes exactly that array; any other entry contributes nothing. |
| RolePermissions.Concatenated | app/utils/common.ts:17-20 | The spreading `reduce` holds a permission iff some role contributes it (both directions). |
| RolePermissions.ConvertRolesToPermissions | app/utils/common.ts:15-23 | The returned permission list holds no permission twice. |
| RolePermissions.ConcatenatedAppend | app/utils/common.ts:17-20 | The spread-reduce over two lists of roles is the reduce over the first followed by the reduce over the second. |
| RolePermissions.ConvertedGrants | app/utils/common.ts:15-23 | A permission is in the output iff some role's `permissions` array holds it (both directions). |
| RolePermissions.ConvertedFirstSeen | app/utils/common.ts:16-22 | The output lists permissions in order of first occurrence over the concatenated role permissions. It is the only list that holds exactly the granted permissions in that order. |
| RolePermissions.EmptyEntryContributesNothing | app/utils/common.ts:18 | A `null`/`undefined` role, a role without `permissions`, or one with an empty array can be removed from any position without changing the output. |
| RolePermissions.SameEntriesSamePermissions | app/utils/common.ts:16-22 | As a set, the output depends only on which roles occur: reordering or repeating roles does not change membership. |
| RolePermissions.SharedPermissionListedOnce | app/utils/common.ts:15-23 | Roles granting [WRITE_GROUP, READ_GROUP] and [READ_GROUP] yield [WRITE_GROUP, READ_GROUP]. |
| InsertionOrder.Dedupe | app/utils/common.ts:16-22 | `[...new Set(s)]` holds exactly the elements of `s`, each once. |
| InsertionOrder.DedupeSnoc | app/utils/common.ts:16 | Adding an element to a `Set` leaves it as it was when the element is present, and otherwise appends the element at the end. |
| InsertionOrder.DedupeFirstSeen | app/utils/common.ts:16-22 | The elements of a `Set` built from `s` are listed in order of their first occurrence in `s`. |
| InsertionOrder.DedupeDistinct | app/utils/common.ts:16-22 | A list without repeats passes through a `Set` unchanged. |
| InsertionOrder.FirstSeenOrderUnique | app/utils/common.ts:16-22 | Two lists with the same elements that are both in first-seen order over `s` are equal. |
| InsertionOrder.FirstSeenTransitive | app/utils/common.ts:4-12 | A list in first-seen order over `u`, where `u` is in first-seen order over `s`, is in first-seen order over `s`. |
| PropertyKeys.KeysWhereSplit | app/utils/common.ts:4 | The array-index keys and the other keys of a key list together hold every key exactly as often as the list does. |
| PropertyKeys.KeysWhereFirstSeen | app/utils/common.ts:4 | Either part of a distinct key list keeps the keys' relative order. |
| PropertyKeys.SortByValue | app/utils/common.ts:4 | Array-index keys rearranged into ascending numeric order, as a permutation. |
| PropertyKeys.KeyOrder | app/utils/common.ts:4 | The order in which `Object.values` visits an object's keys is a permutation of the keys' creation order, of the same length. |
| PropertyKeys.ObjectValues | app/utils/common.ts:4 | `Object.values` yields one value per own key: the j-th value is the value of the j-th key in key order. |
| PropertyKeys.KeyOrderDistinct | app/utils/common.ts:4 | The key order of distinct keys lists each key once and nothing else. |
| PropertyKeys.KeyOrderIndicesFirst | app/utils/common.ts:4 | In key order, every array-index key precedes every other key, and array indices ascend numerically. |
| PropertyKeys.KeyOrderKeepsNames | app/utils/common.ts:4 | The keys that are not array indices appear in key order exactly as in creation order. |
| PropertyKeys.KeyOrderOfNames | app/utils/common.ts:4 | Without array-index keys, the key order is the creation order. |
| PropertyKeys.KeyOrderSingle | app/utils/common.ts:4 | An object with one key lists just that key. |
| PropertyKeys.IntegerLikeKeyOrder | app/utils/common.ts:4 | Keys created as "users", "10", "2" are listed as "2", "10", "users". |
| PermissionGroups.PositionsOf | app/utils/common.ts:5-9 | The positions of one module's records: exactly those positions, ascending. |
| PermissionGroups.ActionsOfSnoc | app/utils/common.ts:9 | A new record appends its `rest` to its own module's actions and leaves every other module's actions alone. |
| PermissionGroups.AccumulateKey | app/utils/common.ts:6-8 | After each callback, the accumulator's keys are exactly the modules seen so far, created in first-seen order. |
| PermissionGroups.AccumulateAction | app/utils/common.ts:6-9 | After each callback, every group holds its module's actions so far, and a module without a group has none. |
| PermissionGroups.AllModulesKeyed | app/utils/common.ts:5-11 | After the reduce, every record's module is a key of the accumulator. |
| PermissionGroups.GroupingDone | app/utils/common.ts:4-12 | After the reduce, `Object.values` of the accumulator is the intended grouping `Grouped`. |
| PermissionGroups.GroupPermissionsByModule | app/utils/common.ts:1-13 | As written: a TypeError exactly when some record's module is a name that `{}` inherits from `Object.prototype`; otherwise the result is `Grouped(permissions)`. |
| PermissionGroups.GroupPermissionsByModuleOwnKeys | app/utils/common.ts:1-13 | With an accumulator that inherits nothing (`Object.create(null)`), the result is `Grouped(permissions)` for every input. |
| PermissionGroups.ActionsOfNonEmpty | app/utils/common.ts:6-9 | A module has actions iff some record belongs to it. |
| PermissionGroups.GroupedModules | app/utils/common.ts:6-9 | Groups have pairwise distinct modules, and every group has at least one action. |
| PermissionGroups.GroupedModuleOccurs | app/utils/common.ts:5-9 | A module has a group iff some input record has that module. |
| PermissionGroups.GroupSnoc | app/utils/common.ts:9 | A new record adds itself to the records of its module's group and to no other group's records. |
| PermissionGroups.RegroupSnoc | app/utils/common.ts:5-11 | Across groups with distinct keys, a new record turns up once, when its module has a group. |
| PermissionGroups.RegroupCovers | app/utils/common.ts:5-11 | Grouping by distinct keys that cover every module loses no record and invents none (multiset equality). |
| PermissionGroups.GroupedRegroup | app/utils/common.ts:5-11 | Every input record appears exactly once across the groups, in its module's group. The number of actions equals the number of records. |
| PermissionGroups.ActionsAtPositions | app/utils/common.ts:5-9 | A module's a-th action is the `rest` of the a-th record of that module. |
| PermissionGroups.GroupActionsInInputOrder | app/utils/common.ts:5-9 | A group's actions are the `rest` of its module's records, in input order, one per record. |
| PermissionGroups.GroupedOrder | app/utils/common.ts:4-12 | Groups whose module is an array index come first, by ascending number. The other groups follow in order of their module's first occurrence in the input. |
| PermissionGroups.GroupedInFirstSeenOrder | app/utils/common.ts:4-12 | Without array-index modules, groups come in order of first occurrence of their module. |
| PermissionGroups.GroupedSingle | app/utils/common.ts:1-13 | One record makes one group holding that record's `rest`. |
| PermissionGroups.InheritedModuleName | app/utils/common.ts:6-9 | A lone record of module "constructor" throws as written, and gets its own group with an accumulator that inherits nothing. |
| PermissionGroups.IntegerLikeModulesFirst | app/utils/common.ts:4-12 | Records of modules "users", "10", "2", in that order, are grouped as "2", "10", "users". |

## Left out

- Module values that are not strings. JavaScript would convert them to property
  keys (`1` and `"1"` share a group), which the model does not capture: a module
  is a `string`.
- Records without a `module` field. They would be grouped under the key
  `"undefined"` with `module: undefined`; the model requires every record to
  have a module.
- A role's `permissions` that is truthy but not an array. Spreading it would
  throw, or spread its characters for a string; the model takes arrays only. A
  falsy role `permissions` (missing, `null`, `undefined`) is modelled, since
  `|| []` (line 18) handles it.
- Top-level arguments that are not arrays. A `null`, `undefined` or non-array
  `permissions` argument makes `permissions.reduce` (line 5) throw, and likewise
  a `roles` argument at `roles.reduce` (line 17). Both helpers here take a list,
  so these TypeError paths are not modelled.
- `null` or `undefined` elements of `permissions`. Destructuring
  `{ module, ...rest }` (line 5) throws a TypeError on them; the model's records
  always exist, so that path is not modelled.
- Object identity and aliasing. The source returns fresh objects, and each
  action is a shallow copy `{ ...rest }`. The model returns values, so sharing
  between input and output is not represented.
- Everything outside `app/utils/common.ts`. That includes database queries,
  route loaders and actions, pagination helpers, the authorization gate and the
  user interface; none of them is part of this model.

## Findings

| source | as written | input that shows it | evidently intended | confidence | as-written member | corrected member |
|---|---|---|---|---|---|---|
| app/utils/common.ts:6-9 | `!acc[module]` on an accumulator `{}` reads inherited `Object.prototype` members. For a module named "constructor", "toString", "valueOf", "hasOwnProperty", "\_\_proto\_\_" and the like, the test is false, so no group is created. `acc[module].actions` is then `undefined`, and `push` throws a TypeError. | `[{ module: "constructor", name: "x" }]` | One group per module whatever its name: `[{ module: "constructor", actions: [{ name: "x" }] }]` | not executed | PermissionGroups.GroupPermissionsByModule | PermissionGroups.GroupPermissionsByModuleOwnKeys |
