# permission-utils in Dafny

A model of the permission algebra of `permUtils.js`: deciding a user's
Create/Read/Update/Delete permissions on each resource from the groups the
user belongs to and a permission specification read as a whitelist or a
blacklist, inverting a permission table, and merging two tables
(whitelist + whitelist, whitelist + blacklist, blacklist + blacklist).

- `perm_types.dfy` (module `PermTypes`): the four actions, the resolved
  record `Crud(c, r, u, d)`, a specification entry `Rule = map<Action, bool>`
  (an action it does not mention is not granted, as a missing property is
  falsy in the source), `PermSpec` (resource -> group -> rule) and `Table`
  (resource -> record).
- `perm_utils.dfy` (module `PermUtils`): `RelevantGroups`, `HasPerm`, `GetGroupPerms`,
  `InvertResults`, the shared merge `CombinePermissionSets` and the three
  merges, plus the two lemmas that characterise `HasPerm` in each mode.
- `perm_laws.dfy` (module `PermLaws`): properties relating the operations:
  default answers, independence of group order, that merging the results of
  two group lists equals evaluating their concatenation, involution of
  inversion, commutativity, identities with the empty table, and the duality
  between grant-wins and revoke-wins merges under inversion.

Every operation of the source is pure (each `reduce` folds into a fresh
object), so the model is made of functions, map comprehensions and lemmas.
`combineBlackResults` repeats the merge loop of `combinePermissionSets`
inline; the model calls the shared merge with the same per-action rule.

## Model

| member | source | states |
|---|---|---|
| PermUtils.RelevantGroups | permUtils.js:59 | the resource's named groups that the user is in, as a set: a subset of the entry's groups, containing exactly those the user's list includes |
| PermUtils.RelevantGroupsEmpty | permUtils.js:59-60 | no group is relevant exactly when none of the user's groups is named in the resource's entry |
| PermUtils.HasPerm | permUtils.js:57-66 | a resource absent from the specification, or one naming none of the user's groups, gets the mode's default (`isBlackList`) |
| PermUtils.WhitelistGrantsIffSomeGroupGrants | permUtils.js:58-64 | whitelist: granted iff some group the user is in is named for the resource and grants the action (a missing action field denies) |
| PermUtils.BlacklistGrantsIffEveryGroupGrants | permUtils.js:58-62 | blacklist: granted iff every group the user is in that is named for the resource grants the action; one revoking group denies |
| PermUtils.GetGroupPerms | permUtils.js:38-47 | the table has exactly the specification's resources, and each record's c/r/u/d is HasPerm for that resource, action and mode |
| PermUtils.InvertResults | permUtils.js:72-78 | same resources, every action of every record negated |
| PermUtils.CombinePermissionSets | permUtils.js:88-95 | the merged table has the union of both tables' resources and each cell is the rule's decision |
| PermUtils.CombineWhiteResults | permUtils.js:97-109 | union of resources; a resource only one table has keeps that table's record; where both have it a grant in either wins |
| PermUtils.CombineWhiteAndBlackResults | permUtils.js:111-125 | union of resources; a resource only the blacklist has is all denied; one only the whitelist has keeps the whitelist record; where both have it a revoke in either wins |
| PermUtils.CombineBlackResults | permUtils.js:127-146 | union of resources; a resource only one table has keeps that table's record; where both have it a revoke in either wins |
| PermLaws.EmptySpecGivesEmptyTable | tests/permUtilsTest.js:19-23 | an empty specification gives an empty table in both modes |
| PermLaws.NoRelevantGroupsGivesDefault | tests/permUtilsTest.js:25-31 | with none of the user's groups in the specification, every record is all false (whitelist) or all true (blacklist) |
| PermLaws.MixedGroups | tests/permUtilsTest.js:39-55 | with one granting and one revoking relevant group, a whitelist grants and a blacklist denies |
| PermLaws.SingleGroupPerms | tests/permUtilsTest.js:33-37 | for a single group, resources naming it get its rule; all others get the mode's default record |
| PermLaws.OnlyMembershipMatters | permUtils.js:59 | two group lists with the same members give the same table (order and duplicates do not matter) |
| PermLaws.WhiteGroupUnion | permUtils.js:64 | the whitelist answer for a concatenated group list is the OR of the answers for the parts |
| PermLaws.BlackGroupUnion | permUtils.js:62 | the blacklist answer for a concatenated group list is the AND of the answers for the parts |
| PermLaws.CombineWhiteIsGroupUnion | permUtils.js:104-109 | merging the whitelist tables of two group lists equals the whitelist table of their concatenation |
| PermLaws.CombineBlackIsGroupUnion | permUtils.js:135-146 | merging the blacklist tables of two group lists equals the blacklist table of their concatenation |
| PermLaws.InvertInvolutive | permUtils.js:72-78 | inverting twice gives back the original table |
| PermLaws.CombineWhiteCommutes | tests/permUtilsTest.js:62-66 | the whitelist merge does not depend on argument order |
| PermLaws.CombineBlackCommutes | tests/permUtilsTest.js:76-80 | the blacklist merge does not depend on argument order |
| PermLaws.CombineWhiteOfSameResources | permUtils.js:104-109 | on two tables over the same resources the whitelist merge is the action-wise OR |
| PermLaws.CombineBlackOfSameResources | permUtils.js:135-146 | on two tables over the same resources the blacklist merge is the action-wise AND |
| PermLaws.CombineWithEmpty | permUtils.js:88-146 | merging with an empty second table returns the first table, in all three merges |
| PermLaws.WhiteAndBlackBoundedByWhite | permUtils.js:111-125 | the whitelist/blacklist merge grants only what the whitelist grants and the blacklist does not revoke; an empty whitelist grants nothing |
| PermLaws.InvertWhiteIsBlackOfInverted | permUtils.js:72-146 | inverting a whitelist merge equals the blacklist merge of the inverted tables |
| PermLaws.InvertBlackIsWhiteOfInverted | permUtils.js:72-146 | inverting a blacklist merge equals the whitelist merge of the inverted tables |

## Left out

- `getUserGroups` in `permissionUtils.js`: it wraps an identity provider's asynchronous group iterator in a Promise; the model takes the resolved group list as a plain `seq<Group>`.
- The JSON fixtures the tests load (`test_files/`) are not part of this model; the test facts are stated as general lemmas instead.
- The action keys of a merged record come, in the source, from whichever input record `Object.assign` kept last; the model's records always carry the four actions.
- Values that are not booleans (`undefined`, truthy objects) in tables, and the `Boolean(...)` coercion in the whitelist merge: table cells are booleans here.
- Actions other than `c`, `r`, `u`, `d`: `Action` has exactly four constructors.
- The `!permSpecs[table]` test also treats a present but falsy entry (`null`, `false`) as absent; the model's specification entries are either present maps or absent.
- Resource names inherited from `Object.prototype` (`toString`, `constructor`, ...) and `__proto__`, and `null` group entries: the source's property lookups see inherited members, so such a resource held by only one blacklist result is revoked in the blacklist merge (and reads `undefined` rather than `false` in the whitelist/blacklist merge); `Object.assign` drops a `__proto__` resource from the evaluated table; and a `null` group entry makes `hasPerm` throw. The model's maps treat every name as an ordinary key and every group entry as a rule.
- The enumeration order of `Object.keys`: tables are maps built by comprehension, so no result depends on it.
- The default value `isBlackList = false`: the model takes the flag as an explicit argument.
