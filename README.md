# Agile BI modeler workspace — a Dafny model

The modeler workspace is the in-memory state behind the Agile BI modeler UI.
It holds three containers that its methods change in place:

- the **available fields**: one entry per column of the source table;
- the **fields in play**: the ordered list of fields the user has chosen;
- the **dimension tree**: Dimension → Hierarchy → Level, where each level points at one column.

It also holds the model name, a dirty flag and the domain it was last given.

This project models that workspace as the Dafny class
`ModelerWorkspace.Workspace`, whose seq fields the methods reassign. It proves
what the operations promise about those containers:

- lookups by name return the first match;
- the in-play list grows and shrinks by exactly one entry;
- tree insertion dispatches on the kind of the selected node;
- level counts, and the rebuild from a domain;
- the reconciliation done by `refresh`, and the idempotence of that reconciliation.

Modules:

- `Wrappers` — `Option`, which stands for Java `null`.
- `Metadata` — columns, the OLAP parts of a domain, the domain itself, and name lookup.
- `Fields` — field entries, their column ids, the entries `setDomain` builds, and `List.remove`.
- `IdOrder` — the order `refresh` sorts by:
  - `String.compareTo` on column ids as `IdLe`;
  - `Collections.sort`, a stable sort, as a stable insertion sort `SortById`.
- `Reconcile` — `refresh`'s effect on the available list, written as functions, with its properties.
- `Tree` — the dimension tree, level counting, what `addToHeirarchy` does, and pruning.
- `ModelerWorkspace` — the `Workspace` class.

Inputs that the Java code takes from outside the workspace are parameters here:

- the new domain's column list for `refresh`, which Java gets from `source.generateDomain()`;
- the selected tree node for `addToHeirarchy`, which is a `Tree.Selection`;
- the `Domain` value for `setDomain`.

A selection is a path into the tree: dimension, hierarchy and level index. A
path that names no node stands for an object that is not part of the tree,
and the model leaves the tree unchanged for it. For a hierarchy or a
dimension outside the tree, Java changes only that detached object. A level
outside the tree is different: Java appends to the level's parent hierarchy,
and a level that `refresh` has just removed may still name a hierarchy that
is in the tree. The level class is not part of this model, so whether removal
clears that parent link is unknown, and that case is not modelled.

## Model

All source paths are under `src/org/pentaho/agilebi/pdi/modeler/`; the table cites them in full.

| member | source | states |
|---|---|---|
| `ModelerWorkspace.Workspace.constructor` | src/org/pentaho/agilebi/pdi/modeler/ModelerWorkspace.java:52-89 | a new workspace has empty in-play, dimension and available lists, no model name, no domain and is not dirty |
| `ModelerWorkspace.Workspace.SetModelName` | src/org/pentaho/agilebi/pdi/modeler/ModelerWorkspace.java:112-117 | the model name becomes the given name and the workspace becomes dirty; nothing else changes |
| `ModelerWorkspace.Workspace.SetDirty` | src/org/pentaho/agilebi/pdi/modeler/ModelerWorkspace.java:123-127 | the dirty flag becomes the given value; nothing else changes |
| `ModelerWorkspace.Workspace.GetNumberLevels` | src/org/pentaho/agilebi/pdi/modeler/ModelerWorkspace.java:129-139 | the counter loop returns the number of levels over all hierarchies of all dimensions |
| `ModelerWorkspace.Workspace.FindLogicalColumn` | src/org/pentaho/agilebi/pdi/modeler/ModelerWorkspace.java:261-271 | the search loop returns the first column of the domain's table whose name is the given id, or none |
| `Metadata.Lookup` | src/org/pentaho/agilebi/pdi/modeler/ModelerWorkspace.java:261-271 | a found column is in the list and has the name, and no earlier column has it; nothing is found exactly when no column has the name |
| `ModelerWorkspace.Workspace.AddFieldIntoPlay` | src/org/pentaho/agilebi/pdi/modeler/ModelerWorkspace.java:249-259 | exactly one entry is appended and the earlier entries are unchanged; the new entry has row number old size + 1, field and display name equal to the item, and the column found by name |
| `ModelerWorkspace.Workspace.RemoveFieldFromPlay` | src/org/pentaho/agilebi/pdi/modeler/ModelerWorkspace.java:273-276 | the list becomes `RemoveFirst` of the old list; it shrinks by one exactly when the field was present, and otherwise stays the same length |
| `Fields.RemoveFirst` | src/org/pentaho/agilebi/pdi/modeler/ModelerWorkspace.java:273-276 | the result holds the old entries minus one copy of the removed field, as multisets |
| `Fields.RemoveFirstCutsFirst` | src/org/pentaho/agilebi/pdi/modeler/ModelerWorkspace.java:273-276 | removal cuts out exactly the first occurrence and keeps every other entry in order |
| `Fields.RemoveFirstAbsent` | src/org/pentaho/agilebi/pdi/modeler/ModelerWorkspace.java:273-276 | removing a field that is not in the list leaves the list unchanged |
| `ModelerWorkspace.Workspace.SetFields` | src/org/pentaho/agilebi/pdi/modeler/ModelerWorkspace.java:290-293 | the in-play list becomes exactly the given list; nothing else changes |
| `ModelerWorkspace.Workspace.AddDimension` | src/org/pentaho/agilebi/pdi/modeler/ModelerWorkspace.java:183-185 | the dimension is appended after the existing ones, and the level count grows by that dimension's levels |
| `Tree.LevelCountAppend` | src/org/pentaho/agilebi/pdi/modeler/ModelerWorkspace.java:129-139 | the level count of a tree with a dimension appended is the old count plus that dimension's levels |
| `ModelerWorkspace.Workspace.AddNewDimension` | src/org/pentaho/agilebi/pdi/modeler/ModelerWorkspace.java:166-181 | appends one dimension with one hierarchy holding one level, all three named after the item, the level on the column found by name; the dimension count and the level count each grow by exactly 1 |
| `Tree.SingleLevelDimensionLevels` | src/org/pentaho/agilebi/pdi/modeler/ModelerWorkspace.java:166-181 | the dimension built from one item holds exactly one level |
| `ModelerWorkspace.Workspace.AddToHierarchy` | src/org/pentaho/agilebi/pdi/modeler/ModelerWorkspace.java:187-226 | any selection other than a level, hierarchy or dimension leaves the tree unchanged; otherwise the tree becomes `Tree.Inserted`; a selected node of the tree makes the level count grow by exactly 1, and a path outside the tree changes nothing |
| `Tree.InsertedCount` | src/org/pentaho/agilebi/pdi/modeler/ModelerWorkspace.java:187-226 | inserting under a node of the tree adds exactly one level; any other selection leaves the tree as it is |
| `Tree.InsertedPlacement` | src/org/pentaho/agilebi/pdi/modeler/ModelerWorkspace.java:187-226 | the new level goes at the end of the level's parent hierarchy, of the selected hierarchy, or of the dimension's first hierarchy, which is a fresh hierarchy named after the item only when the dimension had none; no other dimension, hierarchy or level changes |
| `Tree.AppendLevelCount` | src/org/pentaho/agilebi/pdi/modeler/ModelerWorkspace.java:187-209 | appending a level to one hierarchy raises the total level count by exactly 1 |
| `ModelerWorkspace.Workspace.Refresh` | src/org/pentaho/agilebi/pdi/modeler/ModelerWorkspace.java:295-362 | the available list becomes `RefreshFields` of the old list and every entry keeps a column; its ids are exactly the new columns' ids; the tree loses exactly the levels whose column id is gone; the workspace becomes dirty |
| `ModelerWorkspace.Workspace.MergeColumns` | src/org/pentaho/agilebi/pdi/modeler/ModelerWorkspace.java:300-322 | the nested merge loop leaves the available list equal to `Reconcile.Merge` of the old list and the new columns: an entry with the same id is re-pointed, and a new column is appended and the list re-sorted |
| `ModelerWorkspace.Workspace.IndexOfColumnId` | src/org/pentaho/agilebi/pdi/modeler/ModelerWorkspace.java:304-310 | the inner search loop returns the index of the first available entry with the id, or none |
| `Reconcile.FindById` | src/org/pentaho/agilebi/pdi/modeler/ModelerWorkspace.java:304-310 | a found index holds the id and no earlier index does; nothing is found exactly when no entry has the id |
| `ModelerWorkspace.Workspace.DropStaleFields` | src/org/pentaho/agilebi/pdi/modeler/ModelerWorkspace.java:324-340 | the marking loop and the removal leave exactly the entries whose id is among the new columns, in their order |
| `ModelerWorkspace.Workspace.PruneLevels` | src/org/pentaho/agilebi/pdi/modeler/ModelerWorkspace.java:343-360 | the four nested loops leave the tree equal to `Tree.PruneTree` against the ids of the available list |
| `ModelerWorkspace.Workspace.HasColumnId` | src/org/pentaho/agilebi/pdi/modeler/ModelerWorkspace.java:347-354 | the search loop over the available list finds a match if and only if some available entry has the level's column id |
| `Reconcile.MergeIds` | src/org/pentaho/agilebi/pdi/modeler/ModelerWorkspace.java:300-322 | merging adds exactly the new columns' ids to the ids already present |
| `Reconcile.MergeSortedIfAppended` | src/org/pentaho/agilebi/pdi/modeler/ModelerWorkspace.java:311-321 | once some column was appended, the merged list is sorted by id |
| `Reconcile.MergeRepointsOnly` | src/org/pentaho/agilebi/pdi/modeler/ModelerWorkspace.java:300-322 | when every new id is already present, merging only re-points entries at columns of the same id and neither adds nor moves any |
| `Reconcile.MergeKeepsEntries` | src/org/pentaho/agilebi/pdi/modeler/ModelerWorkspace.java:300-322 | merging keeps every entry; at most its column changes, to one with the same id |
| `Reconcile.MergeNoDupPointsInto` | src/org/pentaho/agilebi/pdi/modeler/ModelerWorkspace.java:300-322 | merging into a list without duplicate ids creates none, and every entry whose id is among the new columns points at one of them |
| `Reconcile.KeepPresentMembers` | src/org/pentaho/agilebi/pdi/modeler/ModelerWorkspace.java:324-340 | an entry is kept if and only if it was there and its id is among the new columns |
| `Reconcile.KeepPresentSorted` | src/org/pentaho/agilebi/pdi/modeler/ModelerWorkspace.java:324-340 | removing the stale entries keeps a list sorted by id sorted |
| `Reconcile.KeepPresentAll` | src/org/pentaho/agilebi/pdi/modeler/ModelerWorkspace.java:324-340 | when every id is among the new columns, nothing is removed |
| `Reconcile.RefreshFieldsIds` | src/org/pentaho/agilebi/pdi/modeler/ModelerWorkspace.java:300-340 | after refresh, the id set of the available list equals the id set of the new columns |
| `Reconcile.RefreshFieldsSorted` | src/org/pentaho/agilebi/pdi/modeler/ModelerWorkspace.java:311-340 | if refresh appended at least one new column, the available list ends sorted ascending by id |
| `Reconcile.RefreshFieldsKeepOrder` | src/org/pentaho/agilebi/pdi/modeler/ModelerWorkspace.java:300-340 | if refresh appended nothing, the result is the surviving entries in their old order, only re-pointed |
| `Reconcile.RefreshFieldsKeepsSurvivors` | src/org/pentaho/agilebi/pdi/modeler/ModelerWorkspace.java:300-340 | an entry whose id is among the new columns is kept rather than duplicated or dropped; at most its column is replaced, by one with the same id |
| `Reconcile.RefreshFieldsNoDupPointsInto` | src/org/pentaho/agilebi/pdi/modeler/ModelerWorkspace.java:300-340 | a list without duplicate ids stays so, and every remaining entry points at one of the new columns |
| `Reconcile.RefreshFieldsBound` | src/org/pentaho/agilebi/pdi/modeler/ModelerWorkspace.java:300-340 | refresh keeps every available entry bound to a column |
| `Reconcile.RefreshFieldsIdempotent` | src/org/pentaho/agilebi/pdi/modeler/ModelerWorkspace.java:300-340 | refreshing a second time with the same columns leaves the available list as the first refresh left it |
| `Tree.PruneTreeConsistent` | src/org/pentaho/agilebi/pdi/modeler/ModelerWorkspace.java:343-360 | after pruning, every remaining level has a column whose id is available |
| `Tree.PruneTreeKeepsPresent` | src/org/pentaho/agilebi/pdi/modeler/ModelerWorkspace.java:343-360 | pruning keeps every dimension and every hierarchy, with their names; each hierarchy's levels become exactly its levels whose id is still available; and a given level whose id is available is still in its hierarchy |
| `Tree.KeepLevelsOrder` | src/org/pentaho/agilebi/pdi/modeler/ModelerWorkspace.java:343-360 | two levels that both survive keep their relative order |
| `Tree.PruneTreeKeepsOrder` | src/org/pentaho/agilebi/pdi/modeler/ModelerWorkspace.java:343-360 | within a hierarchy of the tree, two levels whose ids are both still available keep their relative order after pruning |
| `Tree.KeepLevelsMembers` | src/org/pentaho/agilebi/pdi/modeler/ModelerWorkspace.java:343-360 | a level survives pruning if and only if it was there and its column id is available |
| `Tree.PruneTreeIdempotent` | src/org/pentaho/agilebi/pdi/modeler/ModelerWorkspace.java:343-360 | pruning an already pruned tree against the same ids changes nothing |
| `ModelerWorkspace.RefreshTwiceChangesNothing` | src/org/pentaho/agilebi/pdi/modeler/ModelerWorkspace.java:300-360 | a second refresh with the same columns changes neither the available list nor the tree |
| `IdOrder.IdLeTotal` | src/org/pentaho/agilebi/pdi/modeler/ModelerWorkspace.java:316-320 | any two ids are ordered one way or the other by the comparator |
| `IdOrder.IdLeTransitive` | src/org/pentaho/agilebi/pdi/modeler/ModelerWorkspace.java:316-320 | the comparator's order is transitive |
| `IdOrder.IdLeAntisymmetric` | src/org/pentaho/agilebi/pdi/modeler/ModelerWorkspace.java:316-320 | two ids that are each ordered before the other are equal, as `compareTo` returns 0 only for equal strings |
| `IdOrder.InsertById` | src/org/pentaho/agilebi/pdi/modeler/ModelerWorkspace.java:316-320 | insertion adds exactly the new entry, as multisets |
| `IdOrder.SortById` | src/org/pentaho/agilebi/pdi/modeler/ModelerWorkspace.java:316-320 | sorting is a permutation of its input |
| `IdOrder.SortByIdSorted` | src/org/pentaho/agilebi/pdi/modeler/ModelerWorkspace.java:316-320 | the sorted list is ascending by id |
| `IdOrder.SortByIdOfSorted` | src/org/pentaho/agilebi/pdi/modeler/ModelerWorkspace.java:316-320 | sorting a list already ascending by id leaves it unchanged, as a stable sort does |
| `IdOrder.SortByIdStable` | src/org/pentaho/agilebi/pdi/modeler/ModelerWorkspace.java:316-320 | the sort is stable: for every id, the entries with that id come out in their input order |
| `IdOrder.SortedStableUnique` | src/org/pentaho/agilebi/pdi/modeler/ModelerWorkspace.java:316-320 | two lists sorted by id that agree, id by id, on the order of their entries are equal |
| `IdOrder.StableSortIsSortById` | src/org/pentaho/agilebi/pdi/modeler/ModelerWorkspace.java:316-320 | any result of a stable sort by id, which is what `Collections.sort` guarantees, equals `SortById` of the input |
| `Reconcile.SortByIdNoDup` | src/org/pentaho/agilebi/pdi/modeler/ModelerWorkspace.java:316-320 | sorting creates no duplicate ids |
| `ModelerWorkspace.Workspace.SetDomain` | src/org/pentaho/agilebi/pdi/modeler/ModelerWorkspace.java:380-460 | all three containers are rebuilt from scratch, and the domain is stored: <br>• the available list has one entry per table column, in table order; <br>• the tree mirrors the OLAP dimensions, hierarchies and levels in order, or is empty when that property is absent; <br>• the in-play list is one entry per measure over all cubes in order, or empty when that property is absent; <br>• the model name and dirty flag change only when there is a category |
| `Fields.MeasureFieldsLength` | src/org/pentaho/agilebi/pdi/modeler/ModelerWorkspace.java:436-459 | the in-play list built from the cubes has as many entries as the cubes have measures |
| `Fields.MeasureFieldsFromMeasures` | src/org/pentaho/agilebi/pdi/modeler/ModelerWorkspace.java:436-459 | every in-play entry built from the cubes is the entry of some measure of some cube |

## Left out

- **Events and listeners.** The property-change events are left out: the
  `firePropertyChange` calls, the listener wiring in the constructor, and the
  dimension collection's listeners. They are UI-toolkit plumbing.
  - The model sets `dirty` in only three places: `setModelName`, `setDirty`, and
    `refresh`'s explicit `fireFieldsChanged`.
  - The dirtiness that a collection listener would cause is not modelled, for
    example on `addFieldIntoPlay` or `setFields`. That behaviour sits in
    collection classes outside this file.
- **Locale-dependent names.** A column's name is one plain string, standing for its
  default-locale name. Its physical column's name is likewise one string.
- **Text order.** `String.compareTo` compares UTF-16 code units. `IdOrder.IdLe`
  compares Dafny characters, which are Unicode scalar values. The two orders
  differ only for characters outside the Basic Multilingual Plane.
- **Sorting algorithm.** `Collections.sort` is modelled by its result rather than
  its merge sort. The model uses `SortById`, a stable insertion sort.
  `IdOrder.StableSortIsSortById` proves that every stable sort by id gives the
  same list.
- **`source.generateDomain()` and its exception.** This is a foreign call. The new
  column list is a parameter of `Refresh`.
- **Domain scope.** Only the first logical table of the first logical model is
  modelled; the other models and tables of a domain are not. A domain with no
  model or no table is not modelled either; Java throws an
  `IndexOutOfBoundsException` on it.
- **Field attributes.** The aggregation type and the `""` format are not modelled.
  The four-argument field constructor is taken as
  `(rowNum, fieldName, format, displayName)`. The entry's row number is a
  number, where Java stores the decimal string of that number.
- **Removal while iterating.** `refresh` removes levels from a hierarchy's child
  list while it iterates over that list. The model gives the intended effect: a
  filter of the levels whose column id is gone. `ModelerWorkspace.Workspace.PruneLevels`
  builds the kept levels of each hierarchy and writes them back, rather than
  removing them one by one.
  - The iterator of the child-list class is not visible, so skipped levels and
    concurrent-modification failures are not modelled.
- **Object identity.** `refresh` collects stale entries and calls `removeAll`. The
  model treats this as keeping the other entries, which assumes field entries
  compare by identity. `List.remove` in `removeFieldFromPlay` is modelled with
  value equality.
- ModelerWorkspace.Workspace.SetFields assumes that `fields` is not the
  workspace's own in-play list. Java clears the list and then adds all of
  `fields`. So `setFields(getFields())` leaves the in-play list empty, while
  the model leaves it unchanged.
- ModelerWorkspace.Workspace.Refresh requires every available entry and every
  level to have a column. Java throws a `NullPointerException`
  at `getId()` on an entry or level whose name lookup found nothing.
- ModelerWorkspace.Workspace.FindLogicalColumn requires a domain to be set, and
  so do `AddFieldIntoPlay`, `AddNewDimension` and `AddToHierarchy` on a level,
  hierarchy or dimension. Java throws a
  `NullPointerException` without one.
- Reconcile.RefreshFieldsIdempotent is proved under two hypotheses: the available list has no two entries
  with the same id, and the new column list has no two columns with the same id.
  `setDomain` and `refresh` keep the first when the domain's columns have
  distinct ids.
- ModelerWorkspace.RefreshTwiceChangesNothing rests on the same two hypotheses.
- Reconcile.RefreshFieldsSorted is stated only for a refresh that appended a
  column; that is the only case in which Java sorts.
- `getDomain` and `updateDomain` are left out: they are a stub that returns the
  stored domain. Note that `refresh` does not store the new domain, and the model
  does the same.
- Plain getters and setters are left out; they carry no logic. These are the
  file, source, server, visualization and schema name, the field and dimension
  getters, and `getDatabaseName`.
- `ModelerSourceUtil` is not part of this model. It covers database I/O, domain
  generation through an external generator, and security roles.

## Observations

- `setDomain` names each available entry after its column's physical name and
  gives it the logical name as display name. `refresh` names a newly added entry
  after the logical name and sets no display name. Both are modelled as written
  (`Fields.AvailableFieldOf`, `Reconcile.NewField`).
- For a cube measure, `setDomain` sets the field name twice. The second value,
  the physical column name, is the one that stays.
