# StockHelper permissions core in Dafny

StockHelper is a WinForms stock-management application. Its access control
is a Composite tree of permissions. A **Patent** is an atomic permission, a
leaf. A **Family** is a role that groups child components. Users hold a list
of such components.

This project models the in-memory logic around that tree:

- the tree and its recursive permission search (`Components`), the mutable
  Family object (`Families`) and the User object (`Users`);
- the user-level queries of `UserPermissionExtensions` (`UserPermissions`);
- the cache of `PermissionService`, with its staleness rule, the id index,
  invalidation after writes and the bounded id generator
  (`PermissionServices`);
- the services for users and login (`UserServices`, `LoginServices`);
- the family, patent and user stores over abstract tables
  (`FamilyRepositories`, `PatentRepositories`, `Store`);
- the translation-file scanner (`Languages`) and the user form validator
  (`UserForms`).

The support modules model the .NET behaviour the code relies on:

- `Text`: white space, Trim, ordinal case-insensitive comparison, ordinal
  order;
- `Sorting`: ORDER BY / OrderBy;
- `Sequences`: List.Remove, Enumerable.Distinct, first index;
- `Dictionaries`: a Dictionary filled by indexer assignment;
- `Outcomes`: exceptions and null returns become `Result`/`Option` values.

The environment is reduced to parameters:

- **The SQL database** is the class `Store.Database`. It holds one sequence
  of rows per table and a set of pairs per link table.
- **A failing statement**, which reports -1 or makes a repository throw, is
  the boolean `fails` of each writing operation.
- **`DateTime.Now`** is an integer `now`, counted in ticks of 100 ns.
- **`Guid.NewGuid()`** is a sequence `candidates` of ids, read from the front.
- **A translation file** is an optional sequence of lines. `None` means the
  file does not exist.

Where the documented design and the code disagree, the model follows the code:

- `PermissionService.Insert` does not link a Family's children and does not
  generate an id. It stores the row as given.
- `Update` renames only.
- `Delete` of a Family is not refused while a user holds that role.
- `UserService.Insert` checks for an existing Id, inverted (see Findings),
  not a duplicate name.
- The id generator checks nine draws, not ten.
- The patent store and the user store swallow failures; only the family
  store throws.

## Model

| member | source | states |
|---|---|---|
| Components.Children | StockHelper/Services/Domain/Patent.cs:25-31 | a Patent's child list is always empty; every child of a Family is a smaller tree |
| Components.HasPermission | StockHelper/Services/Domain/Component.cs:31-48 | a component grants its own name; a Patent grants only its name; a Family grants its name or whatever one of its children grants |
| Components.AnyChildHasPermission | StockHelper/Services/Domain/Component.cs:38-44 | the foreach from child i on answers true exactly when one of the children i.. grants the name |
| Components.HasPermissionIffNamedNode | StockHelper/Services/Domain/Component.cs:31-48 | HasPermission(n) holds exactly when some node of the subtree, the root included, is named n (case-sensitive equality) |
| Components.AnyChildIffNamedNode | StockHelper/Services/Domain/Component.cs:38-44 | the foreach from child i on answers true exactly when a node under one of the children i.. is named n |
| Components.ChildlessHasOnlyOwnName | StockHelper/Services/Domain/Component.cs:31-48 | for a component without children, HasPermission(n) is Name == n |
| Components.NoNamedNodeNoPermission | StockHelper/Services/Domain/Component.cs:46 | when no node of the subtree carries the name, the answer is false |
| Components.Atoms | StockHelper/Services/Domain/UserPermissionExtensions.cs:158-171 | the flattening holds only Patents, and a Patent flattens to itself |
| Components.AtomsArePatentNodes | StockHelper/Services/Domain/UserPermissionExtensions.cs:158-171 | the depth-first flattening lists exactly the Patent nodes of the subtree; no Family appears |
| Components.AtomsFromArePatentNodes | StockHelper/Services/Domain/UserPermissionExtensions.cs:166-169 | flattening children i.. yields exactly the Patents under those children |
| Components.AddChild | StockHelper/Services/Domain/Patent.cs:33-36 | on a Patent, fails with LeafComponent; on a Family, appends c at the end and keeps id and name |
| Components.RemoveChild | StockHelper/Services/Domain/Patent.cs:38-41 | on a Patent, fails with LeafComponent whatever the argument; on a Family, removes the first occurrence of c |
| Families.Family.constructor | StockHelper/Services/Domain/Family.cs:12-15 | a new Family has an empty child list |
| Families.Family.Snapshot | StockHelper/Services/Domain/Family.cs:16-22 | the object's state read as a tree node: same id and name, children are the live list |
| Families.Family.AddChild | StockHelper/Services/Domain/Family.cs:23-26 | appends c in place, no duplicate check; agrees with Components.AddChild on the snapshot |
| Families.Family.RemoveChild | StockHelper/Services/Domain/Family.cs:27-30 | removes the first occurrence of c in place, never fails; agrees with Components.RemoveChild |
| Families.AddTwiceKeepsBoth | StockHelper/Services/Domain/Family.cs:23-26 | adding the same component twice leaves two more copies of it |
| Families.RemoveOneOfTwo | StockHelper/Services/Domain/Family.cs:27-30 | a present component loses exactly one copy; an absent one leaves the list unchanged |
| Sequences.IndexOf | StockHelper/Services/DAL/Implementations/Repositories/LanguageRepository.cs:53-56 | None exactly when x is absent; otherwise the index of x with no x before it |
| Sequences.RemoveFirst | StockHelper/Services/Domain/Family.cs:29 | List.Remove leaves a list without x unchanged, shortens a list holding x by one, and introduces no element |
| Sequences.RemoveFirstCutsFirstOccurrence | StockHelper/Services/Domain/Family.cs:29 | List.Remove cuts out exactly the element at the first index of x, or changes nothing |
| Sequences.RemoveFirstMultiset | StockHelper/Services/Domain/Family.cs:29 | List.Remove takes one copy of a present element out and shortens the list by one |
| Sequences.Distinct | StockHelper/Services/Domain/UserPermissionExtensions.cs:95 | Distinct has no duplicates and keeps exactly the elements of its input; DistinctFirstOrder gives its order |
| Sequences.DistinctFirstOrder | StockHelper/Services/Domain/UserPermissionExtensions.cs:95 | Distinct lists the elements in the order of their first occurrence in the input; with the no-duplicates and membership clauses this is exactly what Enumerable.Distinct yields |
| Sequences.DistinctOfDistinct | StockHelper/Services/Domain/UserPermissionExtensions.cs:148-150 | Distinct of a duplicate-free list is the list itself |
| Users.User.constructor | StockHelper/Services/Domain/User.cs:16-19 | a new User carries the given columns and an empty permission list |
| Users.User.AddPermission | StockHelper/Services/Domain/User.cs:24-30 | an addition through Permissions persists on the user, appended at the end |
| UserPermissions.AnyGrants | StockHelper/Services/Domain/UserPermissionExtensions.cs:30 | Any over the top-level permissions: true exactly when one of them grants the name |
| UserPermissions.HasPermission | StockHelper/Services/Domain/UserPermissionExtensions.cs:18-31 | a null user fails with ArgumentNull; a blank name is false; otherwise true exactly when a top-level permission's HasPermission holds |
| UserPermissions.HasPermissionIffNamedNode | StockHelper/Services/Domain/UserPermissionExtensions.cs:25-30 | a user holds n exactly when n is not blank and some node reachable from a top-level permission is named n |
| UserPermissions.RoleNameIsPermission | StockHelper/Services/Domain/UserPermissionExtensions.cs:30 | a role held at the top level grants its own non-blank name |
| UserPermissions.AllGranted | StockHelper/Services/Domain/UserPermissionExtensions.cs:51 | All over the names: every name is held |
| UserPermissions.AnyGranted | StockHelper/Services/Domain/UserPermissionExtensions.cs:72 | Any over the names: some name is held |
| UserPermissions.HasAllPermissions | StockHelper/Services/Domain/UserPermissionExtensions.cs:39-52 | null user fails; an empty list is false, not vacuously true; otherwise every name is held |
| UserPermissions.HasAnyPermission | StockHelper/Services/Domain/UserPermissionExtensions.cs:60-73 | null user fails; an empty list is false; otherwise some name is held |
| UserPermissions.HasAllImpliesHasAny | StockHelper/Services/Domain/UserPermissionExtensions.cs:46-72 | holding all of a list implies holding one of it |
| UserPermissions.HasAllOfConcat | StockHelper/Services/Domain/UserPermissionExtensions.cs:46-51 | for non-empty lists, holding all of a + b is holding all of a and all of b |
| UserPermissions.RolesOf | StockHelper/Services/Domain/UserPermissionExtensions.cs:110 | OfType<Family>: only Families, each from the list, and every top-level Family kept; RolesOfAppend gives order and duplicates |
| UserPermissions.RolesOfSingle | StockHelper/Services/Domain/UserPermissionExtensions.cs:110 | a single component is kept exactly when it is a Family |
| UserPermissions.RolesOfAppend | StockHelper/Services/Domain/UserPermissionExtensions.cs:110 | OfType<Family> distributes over concatenation, so the roles keep list order and duplicates |
| UserPermissions.GetRoles | StockHelper/Services/Domain/UserPermissionExtensions.cs:103-111 | null user fails; otherwise exactly the Families among the top-level permissions, as RolesOf lists them: in list order, duplicates kept |
| UserPermissions.AnyRoleNamed | StockHelper/Services/Domain/UserPermissionExtensions.cs:131-133 | true exactly when some role's name equals the given one ignoring case |
| UserPermissions.HasRole | StockHelper/Services/Domain/UserPermissionExtensions.cs:119-134 | null user fails; a blank role name is false; otherwise true exactly when a top-level Family has that name ignoring case |
| UserPermissions.HasRoleIgnoresCase | StockHelper/Services/Domain/UserPermissionExtensions.cs:133 | two role names equal ignoring case give the same answer |
| UserPermissions.CollectAtomicPermissions | StockHelper/Services/Domain/UserPermissionExtensions.cs:158-171 | appends the Patents under the component to the accumulator, depth first |
| UserPermissions.GetAllAtomicPermissions | StockHelper/Services/Domain/UserPermissionExtensions.cs:81-96 | null user fails; otherwise Distinct of the depth-first flattening of all top-level permissions, so first occurrences in depth-first order (DistinctFirstOrder); duplicates are compared by value, as Left out admits |
| UserPermissions.AtomsOfAllArePatentNodes | StockHelper/Services/Domain/UserPermissionExtensions.cs:88-95 | the flattening holds exactly the Patents reachable from the top-level permissions |
| UserPermissions.DistinctSameElements | StockHelper/Services/Domain/UserPermissionExtensions.cs:95 | Distinct keeps exactly the elements of its input |
| UserPermissions.AtomicPermissionsAreReachablePatents | StockHelper/Services/Domain/UserPermissionExtensions.cs:81-96 | the atomic permissions are each reachable Patent value once and nothing else; no Family ever |
| UserPermissions.NamesOf | StockHelper/Services/Domain/UserPermissionExtensions.cs:149 | Select(p => p.Name): the names, position by position |
| UserPermissions.NamesOfMembers | StockHelper/Services/Domain/UserPermissionExtensions.cs:149 | a name is listed exactly when some component carries it |
| UserPermissions.SortedNamesMembers | StockHelper/Services/Domain/UserPermissionExtensions.cs:148-152 | a reordering of the distinct names holds exactly the names carried |
| UserPermissions.NoDuplicatesCountAtMostOne | StockHelper/Services/Domain/UserPermissionExtensions.cs:150 | in a duplicate-free list every element occurs at most once |
| UserPermissions.PermutationKeepsNoDuplicates | StockHelper/Services/Domain/UserPermissionExtensions.cs:150-151 | ordering the distinct names keeps them distinct |
| UserPermissions.GetPermissionNames | StockHelper/Services/Domain/UserPermissionExtensions.cs:141-153 | null user fails; otherwise the names of the atomic permissions, each once, in ascending order |
| Text.LeadingWhite | StockHelper/Services/DAL/Implementations/Repositories/LanguageRepository.cs:50 | the length of the white-space run TrimStart removes, and the character after it is not white space |
| Text.TrailingWhite | StockHelper/Services/DAL/Implementations/Repositories/LanguageRepository.cs:61-62 | the length of the white-space run TrimEnd removes, and the character before it is not white space |
| Text.IsBlank | StockHelper/Services/DAL/Implementations/Repositories/LanguageRepository.cs:50 | string.IsNullOrWhiteSpace holds exactly when the leading white-space run covers the whole string |
| Text.Trim | StockHelper/Services/DAL/Implementations/Repositories/LanguageRepository.cs:61-62 | Trim is no longer than its input, empty exactly for a blank input, and otherwise neither starts nor ends with white space |
| Text.TrimIsSlice | StockHelper/Services/DAL/Implementations/Repositories/LanguageRepository.cs:61-62 | Trim returns a middle slice, cuts only white space, and the slice neither starts nor ends with white space |
| Text.TrimOfTrimmed | StockHelper/Services/DAL/Implementations/Repositories/LanguageRepository.cs:61-62 | a string without white space at its ends is its own Trim |
| Text.TrimmedStart | StockHelper/Services/DAL/Implementations/Repositories/LanguageRepository.cs:50 | a non-empty string that is its own Trim does not start with white space |
| Text.TrimKeepsOut | StockHelper/Services/DAL/Implementations/Repositories/LanguageRepository.cs:61 | Trim never introduces a character |
| Text.TrimStartOfPrefix | StockHelper/Services/DAL/Implementations/Repositories/LanguageRepository.cs:50 | when a prefix holds a non-white character, TrimStart cuts the same white space from the line as from the prefix |
| Text.ToUpper | StockHelper/Services/DAL/Implementations/Repositories/LanguageRepository.cs:64 | ASCII lower-case letters map to upper case, every other character to itself |
| Text.EqualsIgnoreCase | StockHelper/Services/DAL/Implementations/Repositories/LanguageRepository.cs:64 | equal strings compare equal ignoring case, and strings equal ignoring case are blank alike |
| Text.Utf16Length | StockHelper/UI/secondaryForms/modUserForm.cs:93 | String.Length counts UTF-16 code units: between the number of characters and twice it, and equal to it when no character lies outside the Basic Multilingual Plane |
| Text.BelowTotal | StockHelper/Services/DAL/Implementations/Repositories/FamilyRepository.cs:25 | the ordinal order compares any two names |
| Text.BelowTransitive | StockHelper/Services/DAL/Implementations/Repositories/FamilyRepository.cs:25 | the ordinal order is transitive |
| Text.BelowAntisymmetric | StockHelper/Services/DAL/Implementations/Repositories/FamilyRepository.cs:25 | names below each other are equal |
| Sorting.Insert | StockHelper/Services/DAL/Implementations/Repositories/PatentRepository.cs:25 | inserting adds exactly one element, keeping the others |
| Sorting.ConsSorted | StockHelper/Services/DAL/Implementations/Repositories/PatentRepository.cs:25 | an element below every key of an ordered list may go in front |
| Sorting.InsertSorted | StockHelper/Services/DAL/Implementations/Repositories/PatentRepository.cs:25 | inserting into an ordered list keeps it ordered |
| Sorting.SortBy | StockHelper/Services/DAL/Implementations/Repositories/PatentRepository.cs:25 | ORDER BY Name: the result is ordered by name and a permutation of the rows |
| Dictionaries.Get | StockHelper/Services/Implementations/PermissionService.cs:157 | GetValueOrDefault: None exactly when no entry has the key; otherwise a stored value of that key |
| Dictionaries.Put | StockHelper/Services/Implementations/PermissionService.cs:123 | indexer assignment: replaces the entry of a present key in its slot, otherwise appends; keys stay unique |
| Dictionaries.GetPutSame | StockHelper/Services/Implementations/PermissionService.cs:123 | after d[k] = v, looking up k gives v |
| Dictionaries.GetPutOther | StockHelper/Services/Implementations/PermissionService.cs:123 | after d[k] = v, every other key keeps its value |
| Dictionaries.Values | StockHelper/Services/Implementations/PermissionService.cs:73 | Values in enumeration order, one per entry |
| Dictionaries.LastWithKey | StockHelper/Services/Implementations/PermissionService.cs:121-129 | None exactly when no element has the key |
| Dictionaries.LastWithKeyIsLast | StockHelper/Services/Implementations/PermissionService.cs:121-129 | the element found has the key and no later element has it |
| Dictionaries.GetIndexBy | StockHelper/Services/Implementations/PermissionService.cs:121-129 | after filing a list, a key ends with the last element filed under it; other keys keep their values |
| Dictionaries.IndexByUniqueKeys | StockHelper/Services/Implementations/PermissionService.cs:121-129 | filing keeps keys unique |
| Dictionaries.IndexByValuesFromSources | StockHelper/Services/Implementations/PermissionService.cs:121-129 | every value of the filed dictionary was already there or comes from the list |
| Dictionaries.PutValuesFromSources | StockHelper/Services/Implementations/PermissionService.cs:123 | every value after d[k] = v is v or was already a value of d |
| Store.FindFirst | StockHelper/Services/DAL/Implementations/Repositories/FamilyRepository.cs:64-76 | the first row a reader yields for a WHERE clause: None exactly when no row matches, otherwise the earliest match |
| Store.Where | StockHelper/Services/DAL/Implementations/Repositories/UsersRepository.cs:165 | the rows a WHERE clause keeps: only matching rows, every matching row kept; WhereAppend gives table order and multiplicity |
| Store.WhereSingle | StockHelper/Services/DAL/Implementations/Repositories/UsersRepository.cs:165 | a single row is kept exactly when the clause holds of it |
| Store.WhereAppend | StockHelper/Services/DAL/Implementations/Repositories/UsersRepository.cs:165 | WHERE distributes over concatenation, so kept rows stay in table order with their multiplicity |
| Store.FindById | StockHelper/Services/DAL/Implementations/Repositories/FamilyRepository.cs:59 | WHERE Id = @Id: None exactly when no row has the Id, otherwise a row with it |
| Store.FindByName | StockHelper/Services/DAL/Implementations/Repositories/FamilyRepository.cs:91 | WHERE Name = @Name under a case-insensitive collation |
| Store.Renamed | StockHelper/Services/DAL/Implementations/Repositories/FamilyRepository.cs:177 | UPDATE SET Name: the table keeps its length |
| Store.RenamedFind | StockHelper/Services/DAL/Implementations/Repositories/FamilyRepository.cs:177 | after the rename the row with that Id has the new name, other Ids are untouched, a missing Id changes nothing |
| Store.FindFirstAt | StockHelper/Services/DAL/Implementations/Repositories/UsersRepository.cs:132 | the row at the first matching position is what the reader yields |
| Store.FindFirstAppend | StockHelper/Services/DAL/Implementations/Repositories/UsersRepository.cs:132 | rows added after a match do not change the first match |
| Store.FindFirstSameUpTo | StockHelper/Services/DAL/Implementations/Repositories/FamilyRepository.cs:177 | tables agreeing on which rows match, and on those rows, give the same first match |
| Store.WithoutId | StockHelper/Services/DAL/Implementations/Repositories/FamilyRepository.cs:201 | DELETE WHERE Id = @Id: exactly the rows with other Ids remain |
| PatentRepositories.PatentValues | StockHelper/Services/DAL/Implementations/Repositories/PatentRepository.cs:36-44 | one Patent per row, in row order, with the row's Id and Name |
| PatentRepositories.PatentValuesMembers | StockHelper/Services/DAL/Implementations/Repositories/PatentRepository.cs:36-44 | a row is read exactly when its Patent is among the values |
| PatentRepositories.PatentValuesPrefix | StockHelper/Services/DAL/Implementations/Repositories/PatentRepository.cs:36-44 | one more row read appends its Patent |
| PatentRepositories.PatentRepository.AllPatents | StockHelper/Services/DAL/Implementations/Repositories/PatentRepository.cs:23-49 | one Patent per row, ordered by name, exactly the stored rows |
| PatentRepositories.PatentRepository.GetAll | StockHelper/Services/DAL/Implementations/Repositories/PatentRepository.cs:23-49 | the reader loop returns AllPatents |
| PatentRepositories.PatentRepository.GetById | StockHelper/Services/DAL/Implementations/Repositories/PatentRepository.cs:56-75 | null exactly when no row has the Id; otherwise a Patent with that Id and a stored name |
| PatentRepositories.PatentRepository.Create | StockHelper/Services/DAL/Implementations/Repositories/PatentRepository.cs:107-118 | appends the row; a failure is swallowed and leaves the table as it was |
| PatentRepositories.PatentRepository.Update | StockHelper/Services/DAL/Implementations/Repositories/PatentRepository.cs:124-134 | renames the rows with that Id; a failure is swallowed |
| PatentRepositories.PatentRepository.Delete | StockHelper/Services/DAL/Implementations/Repositories/PatentRepository.cs:140-146 | removes the rows with that Id; a failure is swallowed |
| FamilyRepositories.FamilyValues | StockHelper/Services/DAL/Implementations/Repositories/FamilyRepository.cs:36-44 | one childless Family per row, in row order |
| FamilyRepositories.FamilyValuesPrefix | StockHelper/Services/DAL/Implementations/Repositories/FamilyRepository.cs:36-44 | one more row read appends its Family |
| FamilyRepositories.LinkedPatentRows | StockHelper/Services/DAL/Implementations/Repositories/FamilyRepository.cs:122-125 | the JOIN's patent rows are sorted by name and are exactly the stored rows linked to the family |
| FamilyRepositories.LinkedPatentRowsMembers | StockHelper/Services/DAL/Implementations/Repositories/FamilyRepository.cs:122-125 | the JOIN yields a patent exactly when its row is linked to the family |
| FamilyRepositories.FamilyRepository.AllFamilies | StockHelper/Services/DAL/Implementations/Repositories/FamilyRepository.cs:23-49 | one Family per row, ordered by name, exactly the stored rows, none with children |
| FamilyRepositories.FamilyRepository.GetAll | StockHelper/Services/DAL/Implementations/Repositories/FamilyRepository.cs:23-49 | the reader loop returns AllFamilies: children are not filled |
| FamilyRepositories.FamilyRepository.FamilyPatents | StockHelper/Services/DAL/Implementations/Repositories/FamilyRepository.cs:288-313 | Patents only, ordered by name, exactly the patents linked to the family |
| FamilyRepositories.FamilyRepository.GetFamilyPatents | StockHelper/Services/DAL/Implementations/Repositories/FamilyRepository.cs:288-313 | the reader loop returns FamilyPatents |
| FamilyRepositories.FamilyRepository.FillFamilyPatents | StockHelper/Services/DAL/Implementations/Repositories/FamilyRepository.cs:120-144 | appends the linked patents, in name order, after the family's existing children |
| FamilyRepositories.FamilyRepository.GetById | StockHelper/Services/DAL/Implementations/Repositories/FamilyRepository.cs:57-81 | null exactly when no row has the Id; otherwise a new Family of a stored row carrying its linked patents |
| FamilyRepositories.FamilyRepository.GetByName | StockHelper/Services/DAL/Implementations/Repositories/FamilyRepository.cs:89-113 | null exactly when no name matches ignoring case; otherwise a new Family of such a row carrying its patents |
| FamilyRepositories.FamilyRepository.Create | StockHelper/Services/DAL/Implementations/Repositories/FamilyRepository.cs:150-169 | fails with StoreFailure exactly when the statement fails, leaving the table; otherwise appends the row |
| FamilyRepositories.FamilyRepository.Update | StockHelper/Services/DAL/Implementations/Repositories/FamilyRepository.cs:175-193 | fails exactly when the statement fails; otherwise only the name of the rows with that Id changes |
| FamilyRepositories.FamilyRepository.Delete | StockHelper/Services/DAL/Implementations/Repositories/FamilyRepository.cs:199-212 | fails exactly when the statement fails; otherwise only FAMILIES rows go, the link table is untouched |
| FamilyRepositories.FamilyRepository.AssignPatentToFamily | StockHelper/Services/DAL/Implementations/Repositories/FamilyRepository.cs:220-256 | an existing pair is left alone; otherwise exactly that pair is added, or the call fails and nothing changes |
| FamilyRepositories.FamilyRepository.RemovePatentFromFamily | StockHelper/Services/DAL/Implementations/Repositories/FamilyRepository.cs:264-281 | exactly that pair goes, or the call fails and nothing changes |
| FamilyRepositories.FillTwiceDuplicates | StockHelper/Services/DAL/Implementations/Repositories/FamilyRepository.cs:130-141 | filling a family twice lists every linked patent twice |
| FamilyRepositories.AssignTwiceAsOnce | StockHelper/Services/DAL/Implementations/Repositories/FamilyRepository.cs:222-237 | assigning the same pair twice has the effect of assigning it once |
| FamilyRepositories.AssignThenRemove | StockHelper/Services/DAL/Implementations/Repositories/FamilyRepository.cs:240-272 | assigning a new pair then removing it restores the relation |
| PermissionServices.BuildIndex | StockHelper/Services/Implementations/PermissionService.cs:119-129 | the Dictionary filled by the two loops holds each key once |
| PermissionServices.BuildIndexGet | StockHelper/Services/Implementations/PermissionService.cs:119-129 | a lookup finds the last family with the id, and only when there is none the last patent; on a clash the family wins |
| PermissionServices.BuildIndexKeys | StockHelper/Services/Implementations/PermissionService.cs:119-129 | every patent id and family id is indexed, each key once, and nothing else |
| PermissionServices.FirstFreeFrom | StockHelper/Services/Implementations/PermissionService.cs:243-264 | a success is a draw among the first nine that is not indexed; failure is GuidExhausted, exactly when all nine draws collide |
| PermissionServices.FirstFreeSkip | StockHelper/Services/Implementations/PermissionService.cs:249-261 | draws already seen to collide can be skipped |
| PermissionServices.FillIndex | StockHelper/Services/Implementations/PermissionService.cs:119-129 | the two foreach loops build BuildIndex of the two lists |
| PermissionServices.PermissionService.constructor | StockHelper/Services/Implementations/PermissionService.cs:33-37 | both repositories share the store; the cache starts empty |
| PermissionServices.PermissionService.RefreshCache | StockHelper/Services/Implementations/PermissionService.cs:113-132 | reloads both lists, stores their index and the time now, and the cache is then valid and not stale |
| PermissionServices.PermissionService.RefreshedIsValid | StockHelper/Services/Implementations/PermissionService.cs:113-132 | a freshly loaded cache meets the cache invariant and is not stale at now |
| PermissionServices.PermissionService.Stale | StockHelper/Services/Implementations/PermissionService.cs:65-68 | a filled cache is used for 30 minutes after its refresh, that instant included, and reloaded at any later time |
| PermissionServices.PermissionService.StaleStaysStale | StockHelper/Services/Implementations/PermissionService.cs:65-68 | once stale, the cache stays stale as the clock advances until a refresh |
| PermissionServices.PermissionService.InvalidateCache | StockHelper/Services/Implementations/PermissionService.cs:138-144 | clears all four fields, so the cache is stale at every time |
| PermissionServices.PermissionService.GetAll | StockHelper/Services/Implementations/PermissionService.cs:63-74 | refreshes exactly when stale (strictly more than 30 minutes), otherwise changes nothing; returns the index's values |
| PermissionServices.PermissionService.GetAllPatents | StockHelper/Services/Implementations/PermissionService.cs:80-91 | same staleness rule; returns the cached patent list |
| PermissionServices.PermissionService.GetAllFamilies | StockHelper/Services/Implementations/PermissionService.cs:97-108 | same staleness rule; returns the cached families, none with children |
| PermissionServices.PermissionService.GetById | StockHelper/Services/Implementations/PermissionService.cs:146-158 | same staleness rule; returns the indexed component, or null for an id the cache does not hold |
| PermissionServices.PermissionService.Exists | StockHelper/Services/Implementations/PermissionService.cs:221-225 | true exactly when GetById finds the id in the cache |
| PermissionServices.PermissionService.Insert | StockHelper/Services/Implementations/PermissionService.cs:160-177 | a Patent row is appended (failure ignored); a Family row is appended or the failure propagates before invalidation; success invalidates |
| PermissionServices.PermissionService.Update | StockHelper/Services/Implementations/PermissionService.cs:179-196 | renames in the store of the entity's kind; a family-store failure propagates; success invalidates |
| PermissionServices.PermissionService.Delete | StockHelper/Services/Implementations/PermissionService.cs:198-219 | a patent id is deleted from the patent store, else a family id from the family store, else KeyNotFound with cache and store untouched |
| PermissionServices.PermissionService.GenerateUniqueGuid | StockHelper/Services/Implementations/PermissionService.cs:243-264 | returns FirstFreeFrom over the cache the first Exists leaves: the first of nine draws not indexed, or GuidExhausted |
| PermissionServices.PermissionService.Redraw | StockHelper/Services/Implementations/PermissionService.cs:249-261 | the later passes of the do-while equal FirstFreeFrom from the second draw, leaving the cache unchanged |
| PermissionServices.PermissionService.InsertNewFamily | StockHelper/Services/Implementations/PermissionService.cs:227-236 | null fails and changes nothing; otherwise the family gets an id not in the index and is stored, then the cache is invalidated |
| UserServices.FindUserById | StockHelper/Services/DAL/Implementations/Repositories/UsersRepository.cs:84-108 | SELECT WHERE Id: None exactly when no row has the Id, otherwise a stored row with it |
| UserServices.FindUserByName | StockHelper/Services/DAL/Implementations/Repositories/UsersRepository.cs:123-132 | SELECT WHERE Name under a case-insensitive collation |
| UserServices.LinkedFamilies | StockHelper/Services/DAL/Implementations/Repositories/UsersRepository.cs:198-200 | the JOIN yields exactly the FAMILIES rows linked to the user |
| UserServices.WithoutUser | StockHelper/Services/DAL/Implementations/Repositories/UsersRepository.cs:45-50 | DELETE FROM USERS WHERE Id: exactly the rows with other Ids remain |
| UserServices.ActiveUsers | StockHelper/Services/DAL/Implementations/Repositories/UsersRepository.cs:165 | WHERE IsActive = 1: exactly the active rows |
| UserServices.UserService.constructor | StockHelper/Services/Implementations/UserService.cs:18-21 | the service and its family repository share the store |
| UserServices.UserService.Role | StockHelper/Services/DAL/Implementations/Repositories/UsersRepository.cs:208-213 | the role of a joined row is a Family with that row's Id and Name |
| UserServices.UserService.RolesFrom | StockHelper/Services/DAL/Implementations/Repositories/UsersRepository.cs:204-215 | one role per joined row |
| UserServices.UserService.RolesFromAt | StockHelper/Services/DAL/Implementations/Repositories/UsersRepository.cs:204-215 | the i-th role is the role of the i-th joined row, in row order |
| UserServices.UserService.RolesAreLinkedFamilies | StockHelper/Services/DAL/Implementations/Repositories/UsersRepository.cs:143-148 | a hydrated user's roles are exactly its linked families, each carrying its linked patents |
| UserServices.UserService.Load | StockHelper/Services/DAL/Implementations/Repositories/UsersRepository.cs:95-101 | a new user object with the row's columns and no roles |
| UserServices.UserService.AddRole | StockHelper/Services/DAL/Implementations/Repositories/UsersRepository.cs:208-213 | appends the family of the row, filled with its patents, to the user's permissions |
| UserServices.UserService.FillRoles | StockHelper/Services/DAL/Implementations/Repositories/UsersRepository.cs:196-216 | appends one role per joined row, in row order |
| UserServices.UserService.Hydrate | StockHelper/Services/DAL/Implementations/Repositories/UsersRepository.cs:134-148 | a new user object carrying the row's columns and its roles with their patents |
| UserServices.UserService.Exists | StockHelper/Services/Implementations/UserService.cs:38-45 | true exactly when a stored row has the Id |
| UserServices.UserService.GetById | StockHelper/Services/Implementations/UserService.cs:57-60 | null exactly when no row has the Id; otherwise the first such row as a user without roles |
| UserServices.UserService.GetByName | StockHelper/Services/Implementations/UserService.cs:62-65 | null exactly when no name matches ignoring case; otherwise the first match with its roles |
| UserServices.UserService.GetAll | StockHelper/Services/Implementations/UserService.cs:47-50 | one user per row, in table order, none with roles |
| UserServices.UserService.GetAllActive | StockHelper/Services/Implementations/UserService.cs:52-55 | the active rows in table order, each hydrated with its roles |
| UserServices.UserService.AppendHydrated | StockHelper/Services/DAL/Implementations/Repositories/UsersRepository.cs:169-187 | one pass of the reader loop keeps every earlier user and adds the hydrated row |
| UserServices.UserService.AllHydratedAt | StockHelper/Services/DAL/Implementations/Repositories/UsersRepository.cs:169-187 | the i-th user mirrors the i-th row and carries its roles |
| UserServices.UserService.Create | StockHelper/Services/DAL/Implementations/Repositories/UsersRepository.cs:21-33 | appends the user's row; a failure is swallowed |
| UserServices.UserService.Insert | StockHelper/Services/Implementations/UserService.cs:67-77 | as written: creates only when the Id is already stored; a new Id fails with UserAlreadyExists and creates nothing |
| UserServices.UserService.InsertCorrected | StockHelper/Services/Implementations/UserService.cs:67-77 | a stored Id fails with UserAlreadyExists; a new one is created; unique Ids stay unique |
| UserServices.UserService.Delete | StockHelper/Services/Implementations/UserService.cs:32-36 | a missing user fails and changes nothing; otherwise its links to stored families go, then every row with its Id |
| UserServices.UserService.Update | StockHelper/Services/Implementations/UserService.cs:79-82 | always fails with NotImplemented |
| UserServices.UserServiceRegistry.constructor | StockHelper/Services/Implementations/UserService.cs:16 | no instance exists yet |
| UserServices.UserServiceRegistry.Instance | StockHelper/Services/Implementations/UserService.cs:23-30 | the first call creates the service, later calls return the same object |
| UserServices.InstanceTwice | StockHelper/Services/Implementations/UserService.cs:23-30 | two calls of Instance give the same service |
| UserServices.InsertIntoEmptyStoreIsRefused | StockHelper/Services/Implementations/UserService.cs:69-76 | as written, inserting into an empty store fails with UserAlreadyExists |
| UserServices.InsertStoredIdDuplicates | StockHelper/Services/Implementations/UserService.cs:69-71 | as written, inserting a stored Id succeeds and leaves two rows with that Id |
| LoginServices.Authentication | StockHelper/Services/Implementations/LoginService.cs:19-40 | failure is only InvalidCredentials; false exactly when no stored name matches ignoring case |
| LoginServices.AuthenticatedIff | StockHelper/Services/Implementations/LoginService.cs:23-28 | true exactly when the first row whose name matches ignoring case carries the typed name and password verbatim |
| LoginServices.CaseMismatchRefused | StockHelper/Services/Implementations/LoginService.cs:24-27 | a user found whose stored name differs, if only in case, is refused with InvalidCredentials |
| LoginServices.FirstMatchDecides | StockHelper/Services/Implementations/LoginService.cs:23 | rows after the first name match do not change the answer |
| LoginServices.LoginService.constructor | StockHelper/Services/Implementations/LoginService.cs:15-18 | the service is the one UserService.Instance() hands out |
| LoginServices.LoginService.Authenticate | StockHelper/Services/Implementations/LoginService.cs:19-40 | a missing user gives false; a name or password that differs gives InvalidCredentials; otherwise true, as Authentication states |
| Languages.ParseLine | StockHelper/Services/DAL/Implementations/Repositories/LanguageRepository.cs:50-62 | a line yields nothing exactly when it is blank, a comment, or has no '=' |
| Languages.Lookup | StockHelper/Services/DAL/Implementations/Repositories/LanguageRepository.cs:46-68 | a value found is the value of some line whose key equals the word ignoring case |
| Languages.LookupNone | StockHelper/Services/DAL/Implementations/Repositories/LanguageRepository.cs:46-68 | nothing is found exactly when no line's key equals the word ignoring case |
| Languages.LookupSome | StockHelper/Services/DAL/Implementations/Repositories/LanguageRepository.cs:46-68 | a value found comes from the first line whose key equals the word ignoring case |
| Languages.LookupFindsFirst | StockHelper/Services/DAL/Implementations/Repositories/LanguageRepository.cs:64-67 | a matching line with no match before it supplies the value |
| Languages.LookupAppend | StockHelper/Services/DAL/Implementations/Repositories/LanguageRepository.cs:64-67 | lines after the first match are never consulted |
| Languages.Translation | StockHelper/Services/DAL/Implementations/Repositories/LanguageRepository.cs:31-83 | a missing file gives the word back; the answer is WordNotFound exactly when no line's key equals the word ignoring case; otherwise it is the value of the first such line |
| Languages.ParsedKeyShape | StockHelper/Services/DAL/Implementations/Repositories/LanguageRepository.cs:50-61 | a parsed key never holds '=' and never starts with '#' |
| Languages.ToUpperFixesPunctuation | StockHelper/Services/DAL/Implementations/Repositories/LanguageRepository.cs:64 | case folding maps only '#' to '#' and only '=' to '=' |
| Languages.HashWordNeverFound | StockHelper/Services/DAL/Implementations/Repositories/LanguageRepository.cs:50-71 | a word starting with '#' is never found |
| Languages.EqualsWordNeverFound | StockHelper/Services/DAL/Implementations/Repositories/LanguageRepository.cs:53-71 | a word holding '=' is never found |
| Languages.IndexOfAfter | StockHelper/Services/DAL/Implementations/Repositories/LanguageRepository.cs:56 | the first x of a + [x] + b is at the length of a when a holds none |
| Languages.DatakeyLineSplits | StockHelper/Services/DAL/Implementations/Repositories/LanguageRepository.cs:56 | the written line splits at its middle '=' into the word and the word |
| Languages.DatakeyLineKept | StockHelper/Services/DAL/Implementations/Repositories/LanguageRepository.cs:50-51 | the written line is neither blank nor a comment |
| Languages.DatakeyLineParses | StockHelper/Services/DAL/Implementations/Repositories/LanguageRepository.cs:56-67 | the written line reads back as the word matching itself |
| Languages.Appended | StockHelper/Services/DAL/Implementations/Repositories/LanguageRepository.cs:91-93 | appending text starts a new last line when the file is empty or ends with a line break, and otherwise extends the last line; earlier lines stay as they were |
| Languages.AddedWordTranslatesToItself | StockHelper/Services/DAL/Implementations/Repositories/LanguageRepository.cs:91-94 | when the file is empty or ends with a line break, after the line is appended translating the word gives the word, unless an earlier line matched |
| Languages.GluedLineKeepsKey | StockHelper/Services/DAL/Implementations/Repositories/LanguageRepository.cs:91-93 | text glued onto a line that holds an entry leaves that line's key unchanged |
| Languages.GluedWordNotFound | StockHelper/Services/DAL/Implementations/Repositories/LanguageRepository.cs:91-93 | when the last line holds an entry and has no line break, a word no line matched is still not found after AddDatakey |
| Languages.TranslationFile.constructor | StockHelper/Services/DAL/Implementations/Repositories/LanguageRepository.cs:35-44 | the file holds the given lines, or does not exist, and records whether its last line ends with a line break |
| Languages.TranslationFile.Translate | StockHelper/Services/DAL/Implementations/Repositories/LanguageRepository.cs:31-83 | the reader loop, returning at the first matching key, gives Translation |
| Languages.TranslationFile.AddDatakey | StockHelper/Services/DAL/Implementations/Repositories/LanguageRepository.cs:85-101 | writes word=word and a line break at the end of the file, creating it, as Appended states; a failure is swallowed and changes nothing |
| Languages.AddThenTranslate | StockHelper/Services/DAL/Implementations/Repositories/LanguageRepository.cs:85-94 | AddDatakey then Translate of a plain, not yet matched word gives the word when the file is empty or ends with a line break |
| UserForms.ValidateForm | StockHelper/UI/secondaryForms/modUserForm.cs:80-127 | accepted exactly when all four guards pass; each message exactly when its guard is the first to fail, in source order; the length counts UTF-16 code units; every refusal carries one of the four messages |
| UserForms.RepeatedPasswordIgnored | StockHelper/UI/secondaryForms/modUserForm.cs:80-127 | the repeated password never changes the answer |
| UserForms.LengthCountsPadding | StockHelper/UI/secondaryForms/modUserForm.cs:82-102 | the length guard counts untrimmed characters: " ab" passes, three spaces are refused as missing |
| UserForms.SurrogatePairCountsTwice | StockHelper/UI/secondaryForms/modUserForm.cs:93 | a name of one character outside the Basic Multilingual Plane and one letter passes the three-unit length check |

## Left out

- `Component.ToString` and `User.ToString` return the name. They are omitted because they are trivial and the model has no string conversion.
- Cycles in the component tree are not modelled. The C# Family type allows a family to contain itself, but the datatype is acyclic by construction, so the recursive search always ends.
- UserPermissions.GetAllAtomicPermissions: duplicates are removed by value. The source's `Distinct` compares Patent objects by reference, and `FillFamilyPatents` builds a new Patent object for each family, so a patent linked to two roles of a hydrated user is returned twice there and once here.
- UserPermissions.AtomicPermissionsAreReachablePatents: "each reachable Patent once" holds of Patent values; the source keeps one Patent object per hydrated family that links it, for the reason given for GetAllAtomicPermissions.
- Object aliasing is not modelled: components inside a tree are values. A Family object that has been added to a list and then changed is seen through `Snapshot` at the time it was added.
- Patent objects are values, so "each Patent has its own read-only empty list" is reduced to `Children` being empty.
- Case-insensitive comparison folds only the ASCII letters. Ordering is ordinal, by character code. SQL Server collations and culture-aware ordering are not modelled.
- `string.IsNullOrWhiteSpace` and the Trim functions follow `char.IsWhiteSpace`'s fixed list. Strings are never null in the model.
- Logging, the exception handlers and the console output are not modelled; every log call is a no-op.
- Locking and the `PermissionService` singleton are not modelled. One service object is used, and concurrent refresh and invalidation are out of scope.
- The per-culture location of the translation file (folder, file name, thread culture) is reduced to one file object.
- `Languages.Translation` models only one failure of its catch-all branch, a missing file; a failing read is not modelled.
- A line break inside a word passed to `AddDatakey` is not split into two lines.
- The line breaks of the translation file are all alike: a file is its lines and whether the last one ends with a line break; `\r\n` and `\r` are not told apart.
- The `ArgumentException` for entities that are neither a Patent nor a Family cannot arise: the datatype has only those two variants.
- The other `IRepository` entry points of the repositories are not part of this model: `PatentRepository.GetByName`, `UsersRepository.SaveRelatedFamilyOfUser`, the generic interface wrappers.
- A reader that comes back null is not modelled. `GetAll`, `GetById` and `GetByName` of the patent and family stores check for it and yield an empty list or null. The readers of `UsersRepository`, `FamilyRepository.FillFamilyPatents` and `FamilyRepository.GetFamilyPatents` are not checked: a null reader throws a NullReferenceException, which `LoginService` turns into false.
- A database-null `IsActive` column is not modelled: users carry a boolean.
- Only Id and Name are written by `Create` and `Update` of patents and families. Description, CreatedDate and ModifiedDate are left out.
- `CreatedDate` and `AssignedDate` come from the clock and are not modelled.
- The FAMILIES rows of a user's JOIN come in FAMILIES table order; SQL gives no order there.
- `UsersRepository.Delete` runs several statements, each of which could fail on its own. The model treats them as always running.
- UserServices.UserService.Delete: a missing user throws a NullReferenceException in the source; the model returns the error `UserNotFound` instead.
- A read of the permission cache uses one clock reading, `now`, for both the staleness test and the refresh; the source reads `DateTime.Now` twice.
- UserServices.UserService.GetAllActive: states the hydrated contents, not that every user object is fresh, because the reader loop's fresh objects are stated one pass at a time by `AppendHydrated`.
- PermissionServices.PermissionService.InsertNewFamily: when the id generator or the family store fails, the contract does not state the family's Id, the FAMILIES table or the cache. It states only that the patent table and the family's name and children are unchanged.

## Findings

| source | as written | input that shows it | evidently intended | confidence | as-written member | corrected member |
|---|---|---|---|---|---|---|
| StockHelper/Services/Implementations/UserService.cs:69-76 | `Insert` creates the user only when `Exists(entity.Id)` is true, and throws "User already exists" when the Id is new | inserting any user into an empty USERS table is refused; inserting a user whose Id is stored adds a second row with that Id | refuse a stored Id with "User already exists" and create a new one | high; not executed | UserServices.InsertIntoEmptyStoreIsRefused | UserServices.UserService.InsertCorrected |
