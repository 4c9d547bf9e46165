# Entity hierarchy and lifecycle, modelled in Dafny

This project models the scene-graph core of the engine:

- `Entity`, in `src/core/entity.h` and `src/core/entity.cpp`: its lifecycle, its components, its activity flags and its place in the parent/children hierarchy;
- the type-indexed `Subsystem` registry in `src/core/subsystem.h`.

**Entities and handles.** Every entity lives in an arena, a map from `Id` to an `Entity` value (`EntityState`). The arena holds:

- the lifecycle flag;
- `activeSelf` and `activeHierarchy`;
- a weak parent handle and the children list;
- the component list and the deferred-component list;
- the local transform.

A weak handle (`Handle`) is valid exactly when it refers to an id that is still a key of the map. Ids are never reused, so a handle to a released entity stays invalid.

**Hooks.** Hook calls are recorded, in order, in an event log:

- an entity's `post_enable` / `post_disable`;
- a component's `post_create`, after its owner was bound;
- a component's `pre_destroy`.

The owner binding of components is a map from component to entity.

**Arena class.** The mutating operations are methods of the class `EntityArena.Arena`, whose fields are the arena, the log, the owner map, the id counters and the set of entities waiting for the entity manager. `Arena.Valid()` is the arena invariant `Bookkeeping.WellFormed`, which every method keeps. It says:

- ids are bounded;
- parent and children links agree both ways;
- no children list repeats an entry;
- each component has one owner;
- before creation the deferred list equals the component list, and after creation it is empty;
- every component of a created entity has had exactly one `post_create` call.

**Specification functions.** Each method is proved against a function on values:

- `Propagation.PropagateFrom` for `propagate_active_change`;
- `Activation.SetActiveEffect` for `set_active`;
- `Parenting.SetParentEffect` for `set_parent`;
- `Parenting.CleanupChildren` for `cleanup_killed_children`;
- `Bookkeeping.Attach` for `add_component`;
- `Bookkeeping.CreatedEvents` / `Bookkeeping.DestroyedEvents` for the hook calls of `post_create` / `pre_destroy`.

The properties are then proved about those functions.

**Termination witnesses.** The recursive walks terminate only because no entity is its own ancestor. The code does not check this; it is the caller's responsibility. Here a ghost `rank` map stands for it: every live child ranks strictly below its parent. For the upward walk of `transform_matrix`, a ghost `depth` map plays the same role.

**Transforms.** The transform matrices are symbolic: a local matrix, its inverse, or a product. Only the order of composition is modelled.

**Accessors.** `active_in_hierarchy`, `active_self`, `parent`, `children` and `components` (`src/core/entity.h:47-52`, `63`) are the reading functions `EntityArena.Arena.ActiveInHierarchy`, `ActiveSelf`, `Parent`, `Children` and `Components`. They read one field and, being functions, change nothing.

**Where the code falls short of its evident intent, the model follows the code:**

- The hierarchy flag is meant to be the entity's own flag AND its parent's hierarchy flag: that is what `set_parent` computes on joining a parent (`src/core/entity.cpp:77`) and what `propagate_active_change` passes down (`src/core/entity.cpp:132`). `set_active` nevertheless seeds the walk with `true` (`src/core/entity.cpp:54`), and `set_parent` does not walk the moved entity's descendants. See Findings.
- The header declares `set_parent(parent, EntityRelationship relationship = full)` (`src/core/entity.h:35`) and a field `_parent_relationship` (`src/core/entity.h:84`). The definition (`src/core/entity.cpp:57`) drops the parameter and nothing reads the field, so the model has no relationship.
- Dead child handles are skipped during propagation (`src/core/entity.cpp:138`) but stay in the children list. Only `cleanup_killed_children` (`src/core/entity.cpp:155-160`) removes them, and nothing in the files modelled calls it.

## Model

| member | source | states |
|---|---|---|
| `Propagation.Hook` | src/core/entity.cpp:145-152 | at most one hook call, present exactly when the flag changed, `post_enable` exactly when the new flag is true |
| `Propagation.PropagateFrom` | src/core/entity.cpp:130-153 | the walk only changes hierarchy flags and logs only hook calls; the entity ends with `parent_active && active_self`; no entity of rank at least the entity's, other than itself, changes |
| `Propagation.PropagateChildren` | src/core/entity.cpp:136-142 | the loop over the children only changes hierarchy flags, logs only hook calls, and leaves every entity at or above the bound untouched |
| `Propagation.PropagateNarrates` | src/core/entity.cpp:144-152 | replaying the logged `post_enable` / `post_disable` calls on the old flags gives exactly the new flags, each call flipping a flag that had the other value |
| `Propagation.PropagateConfined` | src/core/entity.cpp:136-142 | the walk changes only the entity and its descendants, logs hook calls only about them, and never two about the same entity |
| `Propagation.PropagateConsistent` | src/core/entity.cpp:132-142 | after the walk, the entity holds `parent_active && active_self` and every live child of an entity at or below it holds its parent's new flag AND its own `active_self` |
| `Propagation.HooksExact` | src/core/entity.cpp:133-134 | on a well-linked tree an entity gets one hook call exactly when its hierarchy flag changed, none otherwise, `post_enable` exactly when the flag became true, and only entities below the start are named |
| `Propagation.PropagationRestores` | src/core/entity.cpp:130-153 | if the activity invariant holds outside the entity's subtree, the walk seeded with the parent's state restores it everywhere |
| `Activation.WithSelf` | src/core/entity.cpp:53 | storing `active_self` changes only that flag of that entity |
| `Activation.SetActiveEffect` | src/core/entity.cpp:51-55 | `set_active(a)` as written: the entity ends with `active_self == a` and `active_in_hierarchy == a` whatever its parent; only flags change, only hooks are logged; no other entity ranked at or above it changes |
| `Activation.SetActiveDescendants` | src/core/entity.cpp:51-55 | after `set_active`, each descendant's hierarchy flag is its parent's AND its own `active_self`, i.e. the AND along its path from the entity |
| `Activation.SetActiveHooks` | src/core/entity.cpp:51-55 | after `set_active`, one hook call per entity whose hierarchy flag changed and none for the others, `post_enable` exactly when it became true, only about the entity and its descendants |
| `Activation.SetActiveIgnoresParent` | src/core/entity.cpp:54 | an inactive parent with an inactive child: `set_active(true)` on the child leaves it active in the hierarchy under the inactive parent, breaking the activity invariant |
| `Activation.SetActiveSeeded` | src/core/entity.cpp:51-55 | corrected `set_active(a)`: the entity ends with `active_in_hierarchy == a && parent's flag` |
| `Activation.SetActiveSeededConsistent` | src/core/entity.cpp:51-55 | the corrected `set_active` keeps the activity invariant of the whole arena |
| `Activation.SetActiveSeededAtRoot` | src/core/entity.cpp:54 | for an entity without a valid parent, the code as written and the corrected version agree |
| `Parenting.Without` | src/core/entity.cpp:68 | removing `e` from a children list keeps every other entry as often as before and in order, drops every `e`, and introduces no repeats |
| `Parenting.KeepLive` | src/core/entity.cpp:155-160 | exactly the valid handles are kept, each as often as before, in their original order, without introducing repeats |
| `Parenting.KeepLiveAllLive` | src/core/entity.cpp:155-160 | a children list with no dead handle is left unchanged |
| `Parenting.KeepLiveIdempotent` | src/core/entity.cpp:155-160 | pruning twice equals pruning once |
| `Parenting.CleanupChildren` | src/core/entity.cpp:155-160 | `cleanup_killed_children` changes only the entity's children list, which loses exactly its dead handles |
| `Parenting.CleanupKeepsLinks` | src/core/entity.cpp:155-160 | pruning keeps parent and children links agreeing both ways without repeats |
| `Parenting.Detached` | src/core/entity.cpp:66-70 | leaving a valid parent removes the entity from that parent's list and sets its hierarchy flag to `active_self`; with an invalid parent nothing changes |
| `Parenting.Attached` | src/core/entity.cpp:74-78 | joining a valid parent appends the entity to that parent's list and sets its flag to `active_self && parent's flag`; with an invalid parent nothing changes |
| `Parenting.Moved` | src/core/entity.cpp:66-78 | the three steps together: only the entity's parent handle and flag and the two children lists change |
| `Parenting.SetParentEffect` | src/core/entity.cpp:57-88 | `set_parent(p)` as written. It is a no-op for the current parent. Otherwise it moves the entity to the end of `p`'s list and sets its flag to `active_self && p's flag`, or to `active_self` after leaving a valid parent, or leaves the flag unchanged. It fires the hook for a net change only and changes nothing else |
| `Parenting.SetParentRelinks` | src/core/entity.cpp:66-78 | on a well-linked arena the move keeps links agreeing both ways without repeats, `p`'s list gains the entity at its end and every other list only loses it |
| `Parenting.SetParentLeavesStaleChild` | src/core/entity.cpp:57-88 | moving an active entity with an active child under an inactive parent leaves the child active under an inactive parent, breaking the activity invariant |
| `Parenting.SetParentRoundTrip` | src/core/entity.cpp:57-88 | on a consistent arena, moving an entity to another parent and back restores its parent handle and its hierarchy flag |
| `Parenting.SetParentPropagated` | src/core/entity.cpp:57-88 | corrected `set_parent`: the move followed by the walk from the entity with its new parent's state; the entity's flag is `active_self && new parent's flag`; only flags differ from the plain move |
| `Parenting.SetParentPropagatedConsistent` | src/core/entity.cpp:57-88 | the corrected `set_parent` keeps the activity invariant of a consistent well-linked arena |
| `Parenting.SetParentPropagatedAgrees` | src/core/entity.cpp:72-78 | on a consistent arena the corrected `set_parent` leaves the moved entity exactly as the code as written does |
| `Parenting.SetParentPropagatedNarrates` | src/core/entity.cpp:80-87 | the hook calls of the corrected `set_parent` replay exactly the flag changes it makes |
| `Transforms.Chain` | src/core/entity.cpp:110-113 | the parent chain ends at the entity, starts at an entity without a valid parent, and each link is a valid parent |
| `Transforms.TransformMatrix` | src/core/entity.cpp:106-116 | the world matrix is the product of the local matrices along the chain from the root down to the entity |
| `Transforms.TransformMatrixInv` | src/core/entity.cpp:118-128 | the inverse world matrix is the product of the inverse local matrices from the entity up to the root |
| `Transforms.TransformMatrixInvIsInverse` | src/core/entity.cpp:118-128 | `transform_matrix_inv` is the inverse of `transform_matrix` |
| `Subsystems.IndexInjective` | src/core/subsystem.h:45-46 | distinct registered types map to distinct positions |
| `Subsystems.LoadKeepsIndexed` | src/core/subsystem.h:43-46 | registering an unregistered type at the old length and appending keeps map and list in agreement and leaves earlier entries and positions alone |
| `Subsystems.Registry.Load` | src/core/subsystem.h:39-47 | `load<T>` requires T unregistered, maps it to the old length, appends exactly one subsystem, and keeps the registry invariant |
| `Subsystems.Registry.Get` | src/core/subsystem.h:49-56 | `get<T>` requires T registered and returns the loaded subsystem of type T |
| `Bookkeeping.NewEntity` | src/core/entity.cpp:8-14 | a constructed entity is not created, active, parentless, without children or components |
| `Bookkeeping.CreateKeepsWellFormed` | src/core/entity.cpp:8-14 | adding a new entity under a fresh id keeps the arena invariant |
| `Bookkeeping.Attach` | src/core/entity.h:94-105 | the component goes to the end of the component list, and also to the end of the deferred list only when the entity is not created; nothing else changes |
| `Bookkeeping.AttachKeepsWellFormed` | src/core/entity.h:91-108 | attaching a fresh component keeps the invariant, binding and announcing it at once on a created entity and neither otherwise |
| `Bookkeeping.CreatedEventsCount` | src/core/entity.cpp:35-39 | each component of the deferred list gets exactly one `post_create` call, and no other component one |
| `Bookkeeping.BindAll` | src/core/entity.cpp:37 | binding the deferred components makes `e` their owner and leaves every other binding alone |
| `Bookkeeping.PostCreateKeepsWellFormed` | src/core/entity.cpp:31-41 | marking created, binding and announcing the deferred components, and emptying the deferred list keeps the invariant |
| `Bookkeeping.DestroyedKeepWellFormed` | src/core/entity.cpp:43-49 | logging `pre_destroy` for the entity's components keeps the invariant |
| `Bookkeeping.FlagsKeepWellFormed` | src/core/entity.cpp:144 | changing activity flags and logging hook calls keeps the invariant |
| `Bookkeeping.ReleaseKeepsWellFormed` | src/core/entity.cpp:90-94 | removing an entity from the arena keeps the invariant of the others |
| `EntityArena.SetParentKeepsWellFormed` | src/core/entity.cpp:57-88 | `set_parent` to a handle with a handed-out id keeps the arena invariant |
| `EntityArena.CleanupKeepsWellFormed` | src/core/entity.cpp:155-160 | `cleanup_killed_children` keeps the arena invariant |
| `EntityArena.Arena.Create` | src/core/entity.cpp:8-14 | the new entity gets the next id, which was never handed out before, and the constructor's initial state; the id counter advances by one; nothing else changes |
| `EntityArena.Arena.AddComponent` | src/core/entity.h:91-108 | returns the next component id, never bound and in no entity's list before, and advances the counter; the component is appended as by `Attach`; on a created entity it is bound and one `post_create` call is logged, otherwise owners and log are unchanged |
| `EntityArena.Arena.PostCreate` | src/core/entity.cpp:31-41 | the entity is created with an empty deferred list, its deferred components are bound to it and announced once each in list order, and the invariant holds |
| `EntityArena.Arena.BindDeferred` | src/core/entity.cpp:35-39 | the loop logs one `post_create` per deferred component in order and binds each to the entity |
| `EntityArena.Arena.PreDestroy` | src/core/entity.cpp:43-49 | one `pre_destroy` call per component in attachment order, no entity field changed |
| `EntityArena.Arena.StoreActiveSelf` | src/core/entity.cpp:53 | storing the own flag changes only that flag, as `WithSelf`, and keeps the invariant |
| `EntityArena.Arena.Propagate` | src/core/entity.cpp:130-153 | on a well-formed arena the walk's outcome is `PropagateFrom`, and the invariant holds afterwards |
| `EntityArena.Arena.PropagateFromParent` | src/core/entity.cpp:130-153 | the walk seeded with the hierarchy flag of the entity's valid parent (`true` at a root) has the outcome `PropagateFrom` with that seed, and keeps the invariant |
| `EntityArena.Arena.PropagateActiveChange` | src/core/entity.cpp:130-153 | the arena and log become exactly the outcome of `PropagateFrom` |
| `EntityArena.Arena.PropagateToChildren` | src/core/entity.cpp:136-142 | the loop over the children, skipping dead handles, yields exactly the outcome of `PropagateChildren` |
| `EntityArena.Arena.SetActive` | src/core/entity.cpp:51-55 | the arena and log become the outcome of `SetActiveEffect`, and the invariant holds |
| `EntityArena.Arena.SetActiveRespectingParent` | src/core/entity.cpp:51-55 | the corrected `set_active`: the outcome of `SetActiveSeeded`, which keeps the activity invariant |
| `EntityArena.Arena.SetParent` | src/core/entity.cpp:57-88 | the arena and log become the outcome of `SetParentEffect`, and the invariant holds |
| `EntityArena.Arena.Relink` | src/core/entity.cpp:66-78 | leaving, storing the handle and joining give exactly `Moved` |
| `EntityArena.Arena.Detach` | src/core/entity.cpp:66-70 | leaving a valid parent gives exactly `Detached` |
| `EntityArena.Arena.AttachTo` | src/core/entity.cpp:74-78 | joining a valid parent gives exactly `Attached` |
| `EntityArena.Arena.FireHook` | src/core/entity.cpp:80-87 | logs the hook for the net change of the entity's flag |
| `EntityArena.Arena.SetParentAndPropagate` | src/core/entity.cpp:57-88 | the corrected `set_parent`: the outcome of `SetParentPropagated`, which keeps the activity invariant |
| `EntityArena.Arena.CleanupKilledChildren` | src/core/entity.cpp:155-160 | the arena becomes `CleanupChildren` of the old one, and the invariant holds |
| `EntityArena.Arena.Destroy` | src/core/entity.cpp:90-94 | the entity is handed to the entity manager: added to the pending set, nothing else changes |
| `EntityArena.Arena.Release` | src/core/entity.cpp:90-94 | the entity manager's later release: the pending entity leaves the arena and the pending set, and the invariant holds |

## Left out

- **Ticking.** `tick` and tick groups (`src/core/entity.cpp:20-28`) only assert and report the group; there is no hierarchy logic in them.
- **Names.** Entity names are stored but never inspected.
- **`weak_this` and `weak_from`.** These are handle conversions. A handle here is the entity's id.
- **Relationship parameter.** The `set_parent` relationship parameter (`src/core/entity.h:35`) and `_parent_relationship` are not used by the code, so they are not modelled.
- **`has_parent`, `has_spatial_parent`, `has_activity_parent`, `world_position`.** They are declared in the header, but their bodies are not part of this model.
- **Numeric transforms.** `to_matrix`, `to_inverse_matrix` and float matrix products are not modelled. The matrix type is symbolic, so associativity of products is captured as equal factor lists, and no numeric identity is proved.
- **The entity manager.**
  - `destroy` delegates to an entity manager that is not part of this model. `Destroy` records the request in a pending set.
  - `Release` is the later removal. Its ordering relative to the frame loop is not modelled, and neither is whether `pre_destroy` runs before it.
- **Component hooks.** Component callbacks are modelled as log events.
  - A component's `post_create`, `pre_destroy`, `post_enable` or `post_disable` hook that re-enters the entity (adds components, re-parents, toggles activity) is not modelled.
  - The order of the created flag relative to the component loop in `post_create` is therefore not observable.
- **Handle equality.** Weak-handle equality (`parent == _parent`) is modelled as equality of handles. Two null handles are equal, and so are two handles to the same id.
- **`vectools::remove`.**
  - Its body is not part of this model. `Parenting.Without` removes every entry equal to the entity.
  - Under the invariant that children lists repeat nothing, that is the same as removing the first one.
- **`start_all` / `shutdown_all`.** Their bodies are not shown (`src/core/subsystem.h:17-18`).
- **The registry.**
  - The static registry is one `Registry` object.
  - A subsystem is known only by its type id, and its construction (`make_unique<T>`) is not modelled.
- **Debug assertions.**
  - `assert`s become preconditions: `load` of an unregistered type and `get` of a registered one.
  - "No entity is its own ancestor" is supplied as a ghost `rank` (or `depth`) witness. The code relies on it but never checks it.
- **Operations split into helper methods.**
  - `propagate_active_change`'s loop over the children is its own method, `EntityArena.Arena.PropagateToChildren`. The two are mutually recursive.
  - The steps of `set_parent` are the helper methods `Relink`, `Detach`, `AttachTo` and `FireHook`.
  - The loop of `post_create` is `BindDeferred`.
  - The flag store of `set_active` is `StoreActiveSelf`.
  - The order of field updates inside each operation is as in the code. Only the final state and the log order are stated.
- **`EntityArena.Arena.PropagateActiveChange` and `PropagateToChildren`.** They state the walk's effect and do not require the arena invariant. The invariant-keeping versions are `Propagate` and `PropagateFromParent`.
- **Demo, rendering, render queue and camera files.** These are consumers of the core: GPU calls, float animation and concurrency.

## Findings

| source | as written | input that shows it | evidently intended | confidence | as-written member | corrected member |
|---|---|---|---|---|---|---|
| src/core/entity.cpp:54 | `set_active` seeds the walk with `true`, so an entity's hierarchy flag ignores its parent | inactive parent 0 with inactive child 1; `set_active(true)` on 1 leaves 1 active in the hierarchy while 0 is not | seed the walk with the parent's hierarchy state (or `true` at a root), keeping "hierarchy flag = own flag AND parent's" everywhere | not executed | `Activation.SetActiveIgnoresParent` | `Activation.SetActiveSeededConsistent` |
| src/core/entity.cpp:57-88 | `set_parent` recomputes only the moved entity's flag and does not walk its descendants | inactive root 0; active root 1 with active child 2; `set_parent(0)` on 1 makes 1 inactive while 2 stays active under it | after the move, run `propagate_active_change` from the moved entity with the new parent's state | not executed | `Parenting.SetParentLeavesStaleChild` | `Parenting.SetParentPropagatedConsistent` |
