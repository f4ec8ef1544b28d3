# Transform hierarchy store

A model of the transform component of a small game engine
(`src/component/transform.rs`). The component has three parts:

- A `TransformManager` stores one `Transform` per entity. It keeps rows indexed by
  depth in the scene hierarchy. Row 0 holds the parentless entities, and each other
  entity sits one row below its parent.
- Each stored transform sits beside an `(entity, parent)` slot in a parallel table.
- An index maps each entity to its `(row, slot)`.
- A set of entities is marked for destruction at the end of the frame.

A `Transform` holds local position, rotation and scale. It also caches a local
matrix and the derived (world) matrix, position, rotation and scale. An
`out_of_date` flag guards both. `transform_update` refreshes every transform,
shallow rows first, so each parent is current before its children.

The model has four modules:

- `Math` (math.dfy): points, vectors, quaternions and matrices as symbolic terms.
  The only algebra is the unit laws of the identities. Nothing structural depends
  on floating-point arithmetic.
- `Transforms` (transform.dfy): the `Transform` class. Its setters and `update`
  write fields in place. `Valid()` is the cache invariant. `LocalState()` and
  `WorldState()` are its local and derived values. `Compose` defines what a
  parent's derived state and a child's local fields give.
- `Hierarchy` (hierarchy.dfy): the abstract scene forest. It maps each entity to
  its row and recorded parent. It has subtrees (the next-row entities that record
  an entity as parent, recursively), ancestors, and the reparenting that
  `set_child` performs. `Hierarchical(f)` says that only row 0 is parentless and
  every parent is registered one row up.
- `TransformManagement` (manager.dfy): the `TransformManager` class. It keeps the
  two tables as `seq<seq<…>>` fields, the index as a `map` and the marks as a
  `set`. `Valid()` (the `Layout` predicate) says:
  - the two tables have the same shape;
  - the index and the slots are in bijection;
  - only row-0 slots are parentless;
  - no transform object is stored twice.

  `Tree()` and `Objects()` give the forest and the entity-to-transform map that a
  valid store represents. The walks and the update passes are methods on the
  table values.

`WorldOf(f, locals, e)` is the world state that `e`'s local fields and those of
its ancestors determine. It is the reference for both update passes.

## Model

| member | source | states |
|---|---|---|
| Math.Mul | src/component/transform.rs:412 | the identity matrix is a unit of matrix products on both sides |
| Transforms.LocalMatrixOf | src/component/transform.rs:346-348 | the local matrix is translation × (rotation × scale); the default local fields give the identity |
| Transforms.Compose | src/component/transform.rs:409-420 | the derived position is the translation column of the derived matrix; under an identity parent each derived part equals the local one |
| Transforms.ComposeWithRoot | src/component/transform.rs:250-251 | a transform updated against the identity parent gets its own local transform as its world transform |
| Transforms.Transform.constructor | src/component/transform.rs:268-280 | a new transform is at the origin, with identity rotation, unit scale, identity matrices, and is up to date |
| Transforms.Transform.SetPosition | src/component/transform.rs:286-289 | only the position changes; the transform becomes out of date; derived values and the cache invariant are kept |
| Transforms.Transform.SetRotation | src/component/transform.rs:295-298 | only the rotation changes; the transform becomes out of date; derived values are kept |
| Transforms.Transform.SetScale | src/component/transform.rs:304-307 | only the scale changes; the transform becomes out of date; derived values are kept |
| Transforms.Transform.TranslateBy | src/component/transform.rs:372-375 | the position becomes old position + translation; nothing else local changes; out of date |
| Transforms.Transform.RotateBy | src/component/transform.rs:377-380 | the rotation becomes old rotation × q; nothing else local changes; out of date |
| Transforms.Transform.LookAt | src/component/transform.rs:382-386 | the rotation becomes the look rotation along interest − old position; out of date |
| Transforms.Transform.LookDirection | src/component/transform.rs:388-391 | the rotation becomes the look rotation along the given direction; out of date |
| Transforms.Transform.PositionDerived | src/component/transform.rs:312-316 | readable only while up to date; the derived position is the translation column of the derived matrix |
| Transforms.Transform.LocalMatrix | src/component/transform.rs:344-353 | the result is always the matrix of the current local fields; the cache is written only when out of date |
| Transforms.Transform.Update | src/component/transform.rs:409-420 | the parent must be up to date; afterwards this transform is up to date, its local fields are unchanged and its world state is Compose(parent's world state, local fields) |
| Hierarchy.Children | src/component/transform.rs:138-143 | every child of an entity is a registered entity that records it as parent |
| Hierarchy.Subtree | src/component/transform.rs:127-167 | an entity's subtree contains it and lies in the forest |
| Hierarchy.SubtreeBelow | src/component/transform.rs:138-143 | every proper descendant sits in a strictly deeper row |
| Hierarchy.SubtreeTransitive | src/component/transform.rs:138-143 | a descendant's subtree lies inside its ancestor's subtree |
| Hierarchy.SubtreesDisjoint | src/component/transform.rs:95-102 | distinct entities of one row have disjoint subtrees, so moved subtrees never overlap |
| Hierarchy.RemovalOrphansChildren | src/component/transform.rs:186-191 | removing an entity that has a child breaks row = depth |
| Hierarchy.RemovalKeepsHierarchy | src/component/transform.rs:182-184 | removing one entity keeps row = depth exactly when it has no children |
| Hierarchy.NewRootKeepsHierarchy | src/component/transform.rs:39-48 | adding a parentless entity to row 0 keeps row = depth |
| Hierarchy.Ancestors | src/component/transform.rs:105-125 | an entity's ancestor chain contains it, lies in the forest and sits no deeper than it |
| Hierarchy.AncestorsStep | src/component/transform.rs:109-123 | a root's only ancestor is itself; otherwise the chain is the parent's chain plus the entity, which the parent's chain does not contain |
| Hierarchy.AncestorsIff | src/component/transform.rs:105-125 | a is an ancestor of e exactly when e is in a's subtree |
| Hierarchy.Reparented | src/component/transform.rs:60-67 | after reparenting, the same entities are present and the child sits one row below its new parent, recording it |
| Hierarchy.ReparentedIsHierarchical | src/component/transform.rs:60-103 | reparenting outside the child's own subtree keeps row = depth |
| Hierarchy.ReparentComplete | src/component/transform.rs:60-103 | once the whole subtree has moved, the nodes are exactly the reparented forest, which keeps row = depth if the forest had it |
| Hierarchy.MidMoveChildren | src/component/transform.rs:95-102 | during the move, the children of an entity still to be moved are found in the row below its old row |
| TransformManagement.SwapRemove | src/component/transform.rs:197 | swap-remove shrinks by one, puts the last element in the hole and keeps every other position |
| TransformManagement.SwapRemovePermutes | src/component/transform.rs:197 | swap-remove takes out exactly the element at the index, as a multiset |
| TransformManagement.PushKeepsLayout | src/component/transform.rs:40-46 | appending a new entity at the end of a row keeps the store invariant and adds exactly its node and transform |
| TransformManagement.RemoveKeepsLayout | src/component/transform.rs:191-212 | swap-removal with re-indexing of the moved entity keeps the invariant and removes exactly that entity's node and transform |
| TransformManagement.DuplicateAssignOrphansSlot | src/component/transform.rs:39-48 | assigning a registered entity again leaves its old slot unindexed, which breaks the index/slot bijection |
| TransformManagement.WalkFrom | src/component/transform.rs:155-167 | a walk starts with its root |
| TransformManagement.WalkEntities | src/component/transform.rs:155-167 | the walk reports nothing for an entity without a transform; otherwise it reports the root, then the walks of the next-row slots that record it, in slot order |
| TransformManagement.WalkTransforms | src/component/transform.rs:133-146 | the same walk, reporting each entity with the transform stored for it |
| TransformManagement.WalkChildTransforms | src/component/transform.rs:138-143 | the walks from the next-row slots whose parent is the given entity, in slot order, each entity with its stored transform |
| TransformManagement.WalkCoversSubtree | src/component/transform.rs:127-167 | the walk from a stored entity visits exactly its subtree, each entity once |
| TransformManagement.RootThenChildWalks | src/component/transform.rs:155-167 | the root followed by the walks of its next-row children visits exactly its subtree, each entity once |
| TransformManagement.ChildWalksCover | src/component/transform.rs:140-143 | the walks from a row's matching slots visit exactly those children's subtrees, without repeats |
| TransformManagement.UpdateEntity | src/component/transform.rs:106-124 | one update against the stored parent, or the identity parent for a root, makes the entity current with respect to WorldOf and keeps its local fields |
| TransformManagement.JoinRefreshed | src/component/transform.rs:120-122 | updating an entity whose parent is already current adds it to the current set and leaves the others current |
| TransformManagement.RefreshChain | src/component/transform.rs:105-125 | the recursion updates the parent chain first; afterwards every ancestor of the entity is current with respect to WorldOf and keeps its local fields |
| TransformManagement.RefreshSlot | src/component/transform.rs:432-442 | a slot whose parent is current becomes current itself |
| TransformManagement.RefreshRow | src/component/transform.rs:429-443 | after a row, every entity in that row and the rows above it is current, and every deeper one still satisfies its cache invariant and keeps its local fields |
| TransformManagement.RefreshAll | src/component/transform.rs:428-444 | after all rows, every stored entity is current with respect to WorldOf and keeps its local fields |
| TransformManagement.TransformManager.constructor | src/component/transform.rs:26-37 | a new store has one empty row in each table, an empty index, nothing marked, and is valid |
| TransformManagement.TransformManager.PushSlot | src/component/transform.rs:83-88 | appending at the end of a row records the entity at (row, old length) and changes no other row or index entry |
| TransformManagement.TransformManager.Assign | src/component/transform.rs:39-48 | a new entity gets a fresh default transform at the end of row 0 with no parent, indexed at (0, old row-0 length); row 0 of the two tables stays equal in length; nothing else changes; row = depth is kept |
| TransformManagement.TransformManager.Get | src/component/transform.rs:50-58 | the transform stored for a registered entity is the one the index points at |
| TransformManagement.TransformManager.GrowRows | src/component/transform.rs:76-80 | rows are appended, empty, until the target row exists; existing rows and the index are untouched |
| TransformManagement.TransformManager.SetChild | src/component/transform.rs:60-67 | the child and its whole subtree move under the new parent, also when the store holds orphans; the result is exactly the reparented forest, and row = depth is kept if it held; the row list only grows, and only as far as the deepest moved entity needs; every transform stays with its entity |
| TransformManagement.TransformManager.SetRowRecursive | src/component/transform.rs:69-103 | moving an entity to its new row and then each of its children recursively moves exactly its subtree |
| TransformManagement.TransformManager.MoveSlot | src/component/transform.rs:73-88 | remove, grow the rows to exactly the new row if it is missing, and re-append: only the entity's node changes, and it keeps its transform |
| TransformManagement.GrownReparented | src/component/transform.rs:76-80 | after a whole reparenting, new rows exist only if a moved entity sits in the new last row |
| TransformManagement.TransformManager.MoveChildren | src/component/transform.rs:95-102 | the loop over the snapshot of the old child row moves exactly the subtrees of the entity's children |
| TransformManagement.TransformManager.Remove | src/component/transform.rs:191-212 | the entity's slot is swap-removed from both tables; the moved entity is re-indexed to the hole; the entity's transform is returned and no longer stored; nothing else changes |
| TransformManagement.TransformManager.WalkChildren | src/component/transform.rs:155-167 | nothing is reported for an entity without a transform; otherwise its whole subtree is reported, each entity once, root first |
| TransformManagement.TransformManager.WalkHierarchy | src/component/transform.rs:133-146 | the same pre-order walk, with each entity's stored transform |
| TransformManagement.TransformManager.Destroy | src/component/transform.rs:177-180 | the entity is marked; the store is unchanged |
| TransformManagement.TransformManager.DestroyAll | src/component/transform.rs:216-218 | the entity is marked; the store is unchanged |
| TransformManagement.TransformManager.DestroyImmediate | src/component/transform.rs:182-184 | the entity's transform is removed and its children are left in place; row = depth survives exactly when it had no children |
| TransformManagement.TransformManager.DestroyMarked | src/component/transform.rs:220-227 | the marks end up empty and exactly the marked entities have been removed |
| TransformManagement.TransformManager.UpdateSingle | src/component/transform.rs:105-125 | the entity and all its ancestors become current with respect to their local fields; no local field changes |
| TransformManagement.TransformUpdate | src/component/transform.rs:423-445 | every stored transform becomes current: its world state is WorldOf its own and its ancestors' local fields; no local field changes |

## Left out

- Floating-point arithmetic of the math library: matrices, quaternions and vectors are symbolic terms. Only the unit laws of the identities hold.
- `derived_normal_matrix`, `forward`, `right` and `up` are pure numeric derivations from those values, so they are not modelled. Neither are the plain local getters `position`, `rotation` and `scale`, which `LocalState()` reads directly.
- `RotationDerived`, `ScaleDerived` and `DerivedMatrix` are modelled only by their precondition that the transform is up to date (the source asserts it). Their values are the fields that `Update` sets.
- `RefCell`/`Cell` run-time borrow checking is not modelled: borrows are plain reads and writes.
- The thread-local `DUMMY_TRANSFORM` becomes a fresh default transform at each use, which has the same world state, `RootWorld`.
- `Stopwatch` profiling and `Scene::get_manager` are not modelled: `TransformUpdate` takes the manager itself.
- Hashing of the `HashMap`/`HashSet` is not modelled: Dafny `map`/`set` are used instead.
- Callbacks: `WalkChildren` and `WalkHierarchy` return the reported sequence in order instead of calling back. The tables and the index cannot change during a walk in the model. In the source they cannot either, but the callback of `walk_hierarchy` gets each transform mutably (line 136) and may rewrite it, and a callback may mark entities with `destroy`. Neither effect is modelled.
- Panics (`unwrap`, `expect`, the out-of-date `assert!`) are modelled as preconditions. This covers:
  - `Get` on an unregistered entity;
  - `Remove` and `DestroyImmediate` on an unregistered entity;
  - a derived getter on an out-of-date transform;
  - `SetChild` with an unregistered parent or child.
- TransformManagement.TransformManager.Assign: requires the entity to be new. As written, `assign` accepts a duplicate and breaks the index (see Findings).
- TransformManagement.TransformManager.SetChild: requires that the new parent lies outside the child's own subtree. The source does not terminate on such a call: the recursion moves the new parent, then finds the child again in the copy of the new parent's old child row (line 95), still recording the new parent, and moves it one row deeper, without end. `set_child(c, c)` is such a call too. It also requires that the recursive move never reads the row after the last one, the unguarded `entities[old_row + 1]` of line 95. Without that condition the source panics. Row = depth is not required: a store holding orphans left by `destroy_immediate` is accepted.
- TransformManagement.TransformManager.DestroyMarked: requires every marked entity to still have a transform, since `remove` panics otherwise. The drain order of the `HashSet` is arbitrary and is modelled by an arbitrary choice.
- TransformManagement.TransformManager.UpdateSingle: requires row = depth (`Hierarchical(Tree())`) and valid cached transforms. That is stronger than what the source needs not to panic, because the contract states world states through the ancestor chain.
- TransformManagement.TransformUpdate: requires row = depth (`Hierarchical(Tree())`) and valid cached transforms, for the same reason as `UpdateSingle`.
- The other `ComponentManager` plumbing and the rest of the engine are not part of this model.

## Findings

| source | as written | input that shows it | evidently intended | confidence | as-written member | corrected member |
|---|---|---|---|---|---|---|
| src/component/transform.rs:39-48 | `assign` appends a new row-0 slot and overwrites the index entry without checking for an existing one | `assign(e)` twice for the same entity `e` | a second assign is rejected; the store keeps one slot per entity | not executed | TransformManagement.DuplicateAssignOrphansSlot | TransformManagement.TransformManager.Assign |
