# ECS core in Dafny

A model of the storage, identity and scheduling core of a small C++
Entity-Component-System. The model has five parts:

- **Types** holds the shared vocabulary:
  - the `(id, gen)` entity handle and its equality;
  - the 64-bit capability mask;
  - the `NULL_MASK` and `NULL_COMPONENT_INDEX` sentinels;
  - the errors that the C++ code throws.
- **ComponentPool** is the sparse set of one component type, a class over
  `sparseMap`, `denseMap` and `densePool`:
  - assigning to a present identifier overwrites in place;
  - assigning to an absent identifier grows the sparse map and appends;
  - removal is swap-and-pop.
- **EntityManager** is the entity registry:
  - handles come from a LIFO stack of recycled identifiers or from a fresh
    counter bounded by `maxID`;
  - each identifier has a generation counter and a mask;
  - every mask operation is guarded by a validity check.
- **ComponentManager** is the component registry: one pool per registered
  type, a dense type identifier and a one-bit mask per type, and the
  `entityDestroyed` broadcast.
- **Systems** and **Scene** form the facade that keeps masks and pools in
  step:
  - it filters entities by mask containment;
  - it keeps the systems sorted by priority, with an index from system tag
    to position;
  - it runs one update pass over the enabled systems.

A thrown exception becomes an `Err`/`Fail` value carrying an `Error`. On
such a path the state changes only where the C++ code had already changed
it before the throw.

Two choices shape the model.

- **Validity.** The scene's header and the tests say that a fresh entity
  is valid with `NULL_MASK`. The registry's header and its code, however,
  treat a slot as active only when its mask is not `NULL_MASK`. The registry
  class therefore keeps an explicit
  per-slot active flag. The invariant is "a handle is valid when its
  identifier is in range, its generation is current and its slot is
  active". The rule as written is modelled apart, with the lemmas that show
  where it fails (see Findings).
- **Unassigning an absent identifier.** `ComponentPool::unassignComponent`
  reports `MissingComponent` on an absent identifier, as documented. The
  `entityDestroyed` broadcast calls it on every pool, whether or not the
  entity holds that component, so as documented it throws at the first pool
  without the entity. The tests expect destroying such an entity to
  succeed. The model's broadcast is therefore a correction: it skips a pool
  without the entity. The documented broadcast is modelled apart (see
  Findings).

## Model

| member | source | states |
|---|---|---|
| Types.SameEntity | include/types.h:30-37 | two handles are equal exactly when both their identifiers and their generations are equal |
| Types.BitIsSingle | include/types.h:22 | the mask of every type identifier below the 64-bit width has exactly one bit set |
| Types.BitsDisjoint | include/types.h:22 | distinct type identifiers below 64 get masks with no bit in common, so at most 64 types have distinct single-bit masks |
| Types.FirstMasks | src/test.cpp:57-65 | the first two type identifiers get masks 1 and 2 |
| Types.NullNoBit | include/types.h:24 | NULL_MASK (0) has no bit of any mask: it means "no component" |
| Types.ContainsSingle | include/types.h:22 | a mask contains a single-bit mask exactly when it has that bit |
| Types.ContainsUnion | include/types.h:22 | a mask contains the OR of two masks exactly when it contains both |
| Types.OrOther | src/entityManager.cpp:62-71 | OR-ing a mask in leaves the bits of a disjoint mask as they were |
| Types.AndNotOther | src/entityManager.cpp:73-82 | AND-ing out a mask leaves the bits of a disjoint mask as they were |
| ComponentPool.Grown | include/componentPool.h:138-141 | the sparse map is grown with NULL_COMPONENT_INDEX entries just far enough for the identifier to index it, and its old prefix is kept |
| ComponentPool.OverwriteKeeps | include/componentPool.h:142-143 | overwriting the value of a present identifier keeps the sparse/dense inverse invariant |
| ComponentPool.AppendKeeps | include/componentPool.h:138-146 | growing the sparse map, appending the identifier and value and pointing the sparse entry at the old size keeps the invariant |
| ComponentPool.SwapPopKeeps | include/componentPool.h:153-161 | swap-and-pop removal of a present identifier keeps the invariant, with the contents losing exactly that identifier |
| ComponentPool.ComponentPool.constructor | include/componentPool.h:13-26 | a new pool is an empty valid sparse set |
| ComponentPool.ComponentPool.Size | include/componentPool.h:79-89 | the size is the number of identifiers holding a component |
| ComponentPool.ComponentPool.Empty | include/componentPool.h:79-89 | the pool is empty exactly when no identifier holds a component |
| ComponentPool.ComponentPool.HasComponent | include/componentPool.h:98-103 | an identifier has a component exactly when it is in the contents; identifiers beyond the sparse map have none |
| ComponentPool.ComponentPool.GetComponent | include/componentPool.h:112-126 | the stored value of a present identifier, and MissingComponent exactly when it is absent |
| ComponentPool.ComponentPool.AssignComponent | include/componentPool.h:135-151 | the contents map the identifier to the new value and no other changes; a present identifier is overwritten in place with the maps unchanged; an absent one grows the sparse map, is appended to both dense vectors and gets the old size as its slot; afterwards the query returns the value |
| ComponentPool.ComponentPool.UnassignComponent | include/componentPool.h:153-166 | a present identifier is removed by swap-and-pop (the last value and its owner fill the slot, the owner's sparse entry follows, the back is popped, the identifier's entry becomes NULL) and every other identifier keeps its value; an absent one gives MissingComponent and changes nothing |
| EntityManager.RetiredStaysRetired | src/entityManager.cpp:122-135 | a handle behind its identifier's generation stays behind while generations only grow, so it never becomes valid again |
| EntityManager.NewSlots | src/entityManager.cpp:13-20 | a new registry as written has no recycled identifier and no slots, and starts the counter at the given identifier |
| EntityManager.AddEntityAsWritten | src/entityManager.cpp:84-120 | creation as written keeps the registry well formed, on success and after either throw |
| EntityManager.NullMaskCreationFailsAsWritten | src/entityManager.cpp:110-115 | as written, creating an entity with NULL_MASK always throws, after it has already taken an identifier off the stack or from the counter |
| EntityManager.PopAsWritten | src/entityManager.cpp:90-96 | as written, creation with a non-NULL mask reissues the top recycled identifier at its stored generation |
| EntityManager.MintAsWritten | src/entityManager.cpp:99-106 | as written, creation with a non-NULL mask and an empty stack hands out `newID` with generation 0 |
| EntityManager.OffsetStartFailsAsWritten | src/entityManager.cpp:13-20 | as written, on a registry whose counter starts above 0 and below the limit, the first creation throws, whatever the mask |
| EntityManager.Extend | src/entityManager.cpp:99-106 | the vector padded up to the fresh identifier and holding the new entry there, old entries kept |
| EntityManager.MaskKeeps | src/entityManager.cpp:52-82 | writing the mask of an active slot keeps the registry invariant |
| EntityManager.PopKeeps | src/entityManager.cpp:90-96 | reactivating the top recycled identifier keeps the invariant, issues a handle that was not valid before and is valid now, and keeps every valid handle valid |
| EntityManager.MintKeeps | src/entityManager.cpp:99-106 | minting `newID` keeps the invariant, issues a handle that was not valid before, keeps every valid handle valid and lowers no generation |
| EntityManager.RetireKeeps | src/entityManager.cpp:122-135 | bumping the generation, clearing the mask, deactivating and recycling an active identifier keeps the invariant |
| EntityManager.EntityManager.constructor | src/entityManager.cpp:13-20 | a new registry is valid and empty, with the given limit and first identifier |
| EntityManager.EntityManager.Size | include/entityManager.h:78-82 | the number of identifier slots; it is at most the counter, and every valid handle's identifier is below it |
| EntityManager.EntityManager.Empty | src/entityManager.cpp:22-25 | empty exactly when the size is 0, and then no handle is valid |
| EntityManager.EntityManager.IsValid | src/entityManager.cpp:32-40 | a handle is valid exactly when its identifier is in range, its generation is current and its slot is active; a valid handle is not retired |
| EntityManager.EntityManager.GetMask | src/entityManager.cpp:42-50 | the stored mask of a valid handle, and InvalidEntity exactly when it is not valid |
| EntityManager.EntityManager.SetMask | src/entityManager.cpp:52-60 | on a valid handle only the mask at its identifier changes, to the new mask; otherwise InvalidEntity and nothing changes |
| EntityManager.EntityManager.AddMask | src/entityManager.cpp:62-71 | on a valid handle only the mask at its identifier changes, gaining the given bits; otherwise InvalidEntity and nothing changes |
| EntityManager.EntityManager.RemoveMask | src/entityManager.cpp:73-82 | on a valid handle only the mask at its identifier changes, losing the given bits; otherwise InvalidEntity and nothing changes |
| EntityManager.EntityManager.CreateEntity | src/entityManager.cpp:84-120 | EntityLimit, changing nothing, once `newID` reaches `maxID`, even with recycled identifiers; otherwise the top recycled identifier is reissued at its stored generation, or else `newID` is minted with generation 0 and the counter advances; the new handle is valid with the given mask, was not valid before, every valid handle stays valid and no generation goes down; with a non-NULL mask and an unshifted counter the result agrees with the code as written |
| EntityManager.EntityManager.DestroyEntity | src/entityManager.cpp:122-135 | on a valid handle the generation is bumped, the mask cleared, the slot deactivated and the identifier pushed on the stack, so the handle is retired and invalid; otherwise InvalidEntity and nothing changes |
| ComponentManager.WithoutEntity | src/componentManager.cpp:31-38 | every pool's contents lose the identifier, and every other identifier keeps its membership and value |
| ComponentManager.DestroyedAsWritten | src/componentManager.cpp:31-38 | the broadcast as documented keeps the number of pools, whether it passes or throws |
| ComponentManager.BroadcastThrowsAsWritten | src/componentManager.cpp:31-38 | as documented, the broadcast throws MissingComponent whenever some pool does not hold the identifier |
| ComponentManager.BroadcastPassesAsWritten | src/componentManager.cpp:31-38 | as documented, the broadcast passes when every pool holds the identifier, and then every pool has dropped it |
| ComponentManager.TestEntityDestroyedAsWritten | src/test.cpp:88-98 | as documented, destroying an entity that holds the first and third of three types throws at the second pool, after the first pool has dropped it |
| ComponentManager.RegisterKeeps | include/componentManager.h:98-107 | registering a new tag at `nextID` with the mask of bit `nextID` keeps the type table |
| ComponentManager.ComponentManager.constructor | src/componentManager.cpp:12-19 | a new registry has no type and no pool and starts identifiers at the given `nextid` |
| ComponentManager.ComponentManager.Size | src/componentManager.cpp:26-29 | the number of pools, which is the number of registered types |
| ComponentManager.ComponentManager.Empty | src/componentManager.cpp:21-24 | empty exactly when the size is 0, exactly when no type is registered |
| ComponentManager.ComponentManager.IsComponentTypeRegistered | include/componentManager.h:91-96 | true exactly when the tag was registered |
| ComponentManager.ComponentManager.RegisterComponentType | include/componentManager.h:98-107 | DuplicateType or TypeLimit, changing nothing; otherwise the tag gets identifier `nextID`, the mask with only that bit and a new empty pool, the counter advances, the existing pools are kept, and the tag is then registered |
| ComponentManager.ComponentManager.GetComponentTypeMask | include/componentManager.h:109-115 | the mask of a registered type is the single bit of its identifier; UnregisteredType otherwise |
| ComponentManager.ComponentManager.MasksDisjoint | include/componentManager.h:109-115 | distinct registered types have masks with no bit in common |
| ComponentManager.ComponentManager.HasComponent | include/componentManager.h:124-130 | true exactly when the type is registered and its pool holds the identifier |
| ComponentManager.ComponentManager.GetComponent | include/componentManager.h:132-148 | the stored value exactly when the identifier holds that type; UnregisteredType or MissingComponent otherwise |
| ComponentManager.ComponentManager.AssignComponent | include/componentManager.h:150-157 | UnregisteredType, changing nothing; otherwise only the pool of the type changes, to hold the value for the identifier, and the query returns it |
| ComponentManager.ComponentManager.UnassignComponent | include/componentManager.h:159-165 | UnregisteredType or MissingComponent, changing nothing; otherwise only the pool of the type changes, losing the identifier |
| ComponentManager.ComponentManager.PutInPool | include/componentManager.h:150-157 | only pool `k` changes, and its contents gain the value for the identifier |
| ComponentManager.ComponentManager.TakeFromPool | include/componentManager.h:159-165 | only pool `k` changes, and its contents lose the identifier; MissingComponent exactly when it held none |
| ComponentManager.ComponentManager.OthersKept | src/componentManager.cpp:31-38 | a pool other than the one being changed, untouched since the call began, is still valid and in step with its contents |
| ComponentManager.ComponentManager.EntityDestroyed | src/componentManager.cpp:31-38 | every pool, in pool order, drops the identifier, and a pool without it is skipped; afterwards no type is held by it, every other identifier's data and the registered types are unchanged; when every pool held it, the result is the documented broadcast's |
| Systems.System.constructor | include/system.h:57 | a new system is enabled, with its fixed tag and priority |
| Systems.System.SetEnabled | include/system.h:50-54 | afterwards the system is enabled exactly when the argument says so; a second identical call leaves that state as it is |
| Systems.Insert | src/scene.cpp:72-81 | inserting a system into a sorted vector gives a sorted vector holding the old systems and the new one; a new tag keeps the tags distinct |
| Systems.SortByPriority | src/scene.cpp:72-81 | the sorted vector is a permutation of the old one with non-decreasing priority, and distinct tags stay distinct; no order among equal priorities is promised |
| Systems.PermutationTags | src/scene.cpp:72-81 | a permutation of the systems has the same tags |
| Systems.Schedule | src/scene.cpp:53-60 | one update pass from a given position keeps the number of flags and runs only positions from there on |
| Systems.AfterAfter | src/scene.cpp:53-60 | running two prefixes in turn is running their concatenation |
| Systems.ScheduleInOrder | src/scene.cpp:53-60 | a pass runs systems in strictly increasing vector order, each at most once |
| Systems.ScheduleWithoutEffects | src/scene.cpp:53-60 | with no system affecting the schedule, a pass runs exactly the systems enabled at its start and changes no flag |
| Systems.ToggleReadAtTurn | src/scene.cpp:54-60 | the flag is read at each system's turn: when a running system sets the flag of a later system `j` to `b`, and no system in between affects the schedule, `j` runs in that pass exactly when `b` is true, whatever its flag was at the start |
| Systems.RunsAtTurn | src/scene.cpp:54-60 | from any position up to `j`, with no system in between affecting the schedule, `j` runs exactly when its flag is set |
| Systems.RunsByPriority | include/scene.h:19-25 | over systems sorted by priority, a pass runs them in non-decreasing priority order |
| Scene.TableBits | include/componentManager.h:109-115 | the masks of the type table are non-empty and pairwise disjoint |
| Scene.RegisterSync | include/componentManager.h:98-107 | registering a type with a bit no mask has yet, and an empty pool, keeps masks and pools in step |
| Scene.ReplaceMask | include/scene.h:141-156 | a new mask for one identifier keeps masks and pools in step when the pools change only for that identifier and hold it exactly where the new mask has the bit |
| Scene.AddSync | include/scene.h:141-148 | storing a component in a pool and OR-ing in that pool's bit keeps masks and pools in step |
| Scene.AddUnclaimed | include/scene.h:141-148 | OR-ing in a registered type's bit sets no bit of an unregistered type |
| Scene.RemoveSync | include/scene.h:150-156 | dropping a component from a pool and AND-ing out that pool's bit keeps masks and pools in step |
| Scene.RemoveUnclaimed | include/scene.h:150-156 | AND-ing bits out sets no bit of an unregistered type |
| Scene.MintSync | src/scene.cpp:37-40 | new identifiers with NULL masks keep masks and pools in step |
| Scene.DestroySync | src/scene.cpp:42-51 | clearing an identifier's mask and dropping it from every pool keeps masks and pools in step |
| Scene.AddKeeps | include/scene.h:141-148 | adding a component over a type table keeps both scene invariants |
| Scene.RemoveKeeps | include/scene.h:150-156 | removing a component over a type table keeps both scene invariants |
| Scene.TableSingles | include/componentManager.h:109-115 | every mask of the type table is a single bit |
| Scene.RequiredMask | include/scene.h:114-121 | the OR of the requested types' masks exists exactly when every requested type is registered, and is UnregisteredType otherwise |
| Scene.RequiredMaskMeans | include/scene.h:114-121 | a mask contains the required mask exactly when it contains the mask of every requested type |
| Scene.MatchAt | include/scene.h:232-237 | with masks and pools in step, an identifier's mask contains the required mask exactly when every requested pool holds it |
| Scene.IndexExact | src/scene.cpp:83-93 | with distinct tags, the index of the tag at position `i` is `i` |
| Scene.Toggled | src/scene.cpp:53-60 | when only one system's flag changed, the flags are the old flags with that position updated |
| Scene.AppendDistinct | include/scene.h:188-193 | appending a system with a tag not yet indexed keeps the tags distinct |
| Scene.Placed | include/scene.h:188-193 | after adding a system and sorting, the new system is in the vector and every system is outside the scene's own state |
| Scene.EraseKeeps | include/scene.h:195-200 | taking one system out of a sorted vector keeps it sorted with distinct tags, and the removed tag is gone |
| Scene.RunPass | src/scene.cpp:53-60 | the loop over the systems vector runs exactly the pass that the schedule function describes, from the flags at the start, and leaves exactly its final flags |
| Scene.Scene.constructor | src/scene.cpp:15-21 | a new scene is valid, with no system, an entity registry limited by the largest `size_t` and a component registry limited to the mask width, both starting at identifier 0 |
| Scene.Scene.IsEntityValid | src/scene.cpp:23-26 | true exactly when the handle names the current generation of an active slot; a valid handle is not retired |
| Scene.Scene.GetMask | src/scene.cpp:28-35 | the registry's mask of a valid handle, which has a registered type's bit exactly when the entity holds that type; InvalidEntity exactly when the handle is not valid |
| Scene.Scene.CreateEntity | src/scene.cpp:37-40 | EntityLimit, changing nothing, exactly when identifiers are exhausted; otherwise a handle that was not valid becomes valid with NULL_MASK and no component: the top recycled identifier at its stored generation, or else `newID` at generation 0; valid handles stay valid and retired handles stay retired |
| Scene.Scene.DestroyEntity | src/scene.cpp:42-51 | InvalidEntity, changing nothing, on an invalid handle; otherwise the handle is retired and invalid, its generation is one higher, its identifier is pushed on the recycled stack with the counter unchanged, every pool drops its identifier, other identifiers keep their components and other valid handles stay valid |
| Scene.Scene.RegisterComponent | include/scene.h:99-103 | DuplicateType or TypeLimit, changing nothing; otherwise the type is registered and no valid entity holds it yet |
| Scene.Scene.HasComponent | include/scene.h:105-112 | for a valid handle, true exactly when the type is registered and its pool holds the entity; InvalidEntity exactly when the handle is not valid |
| Scene.Scene.HasComponentByMask | include/scene.h:105-112 | a valid entity holds a type exactly when the type is registered and the entity's mask has its bit |
| Scene.Scene.GetComponent | include/scene.h:123-139 | the stored value exactly when the entity holds that type; otherwise InvalidEntity, UnregisteredType or MissingComponent, in that order |
| Scene.Scene.AddComponent | include/scene.h:141-148 | InvalidEntity or UnregisteredType, changing no pool and no mask; otherwise the type's pool stores the value for the entity and its mask gains the type's bit; the generations, active flags, recycled stack and counter are unchanged, so validity and retirement are unchanged; the scene invariant holds |
| Scene.Scene.HoldsAfterAdd | include/scene.h:141-148 | after an add, the entity holds the type with the stored value, and holds any other type exactly when it did before |
| Scene.Scene.RemoveComponent | include/scene.h:150-156 | InvalidEntity, UnregisteredType or MissingComponent, changing no pool and no mask; otherwise the type's pool drops the entity and its mask loses the type's bit; the generations, active flags, recycled stack and counter are unchanged, so validity and retirement are unchanged; the scene invariant holds |
| Scene.Scene.HoldsAfterRemove | include/scene.h:150-156 | after a removal, the entity no longer holds the type, and holds any other type exactly when it did before |
| Scene.Scene.HasComponents | include/scene.h:114-121 | for a valid handle, true exactly when the entity holds every requested type; InvalidEntity exactly when the handle is not valid |
| Scene.Scene.HasComponentsByMask | include/scene.h:114-121 | for registered types, a valid entity holds all requested types exactly when its mask contains the OR of their masks |
| Scene.Scene.GetEntitiesWith | include/scene.h:232-237 | UnregisteredType exactly when a requested type is unregistered; otherwise exactly the valid entities holding every requested type, in ascending identifier order |
| Scene.Scene.HasSystem | include/scene.h:165-170 | true exactly when a system with that tag is in the vector |
| Scene.Scene.GetSystem | include/scene.h:172-186 | the system with that tag when there is one; MissingSystem exactly when there is none |
| Scene.Scene.IsSystemEnabled | include/scene.h:202-208 | the flag of the system with that tag; MissingSystem exactly when there is none |
| Scene.Scene.SetSystemEnabled | include/scene.h:210-216 | the system with that tag gets the flag and no other flag changes; MissingSystem, changing nothing, when there is none |
| Scene.Scene.AddSystem | include/scene.h:188-193 | DuplicateSystem, changing nothing, on a present tag; otherwise a new enabled system with that tag and priority is added, indexed and sorted in, and the vector is the old systems plus it |
| Scene.Scene.RemoveSystem | include/scene.h:195-200 | MissingSystem, changing nothing, on an absent tag; otherwise the system is taken out with the others kept in order, and the tag is no longer present |
| Scene.Scene.SortSystems | src/scene.cpp:72-81 | the vector becomes its priority sort and the index is rebuilt for it |
| Scene.Scene.RebuildMap | src/scene.cpp:83-93 | the index maps exactly the tags of the vector, each to the first position carrying it |
| Scene.Scene.Update | src/scene.cpp:53-60 | the systems that ran and the final flags are exactly those of the schedule over the vector from the flags at the start, and the scene invariant holds |

## Left out

- The body of `System::update`, the `float deltaTime` and the client arithmetic on components are floating-point client code. A system's update is abstracted as an optional `Effect` that enables or disables one system of the scene. An effect naming a system that is not present ends the pass with MissingSystem, as `getSystem` would throw.
- The template bodies of the pool, the component registry and the scene (`.tpp` files) are not part of this model. Their operations are modelled from the doc comments and the tests.
- Runtime type information, `std::type_index` and virtual dispatch are left out. Component and system types are integer tags. The pools are a sequence of objects of one generic value type `V`.
- `unique_ptr` ownership is left out; the scene holds object references.
- The direct-access getters `getEntityManager` and `getComponentManager` are not modelled. They return references only.
- Printing, `main` and the asserts of the test and demo programs are not modelled. They serve only as evidence for the properties.
- EntityGen: generations are unbounded naturals. The 32-bit wrap-around of `uint32` is not modelled, because a wrap would let a retired handle become valid again.
- EntityManager.EntityManager.CreateEntity: the identifier limit is a natural; the scene uses the largest `size_t`, and integer overflow of the counter is not modelled.
- ComponentManager.ComponentManager.constructor: requires a type limit of at most 64. The source's default limit is larger than the mask width, and its masks would overflow beyond 64 types.
- Scene.Scene.constructor: builds its component registry with the limit 64 (the mask width), not the source's default limit of the largest type identifier.
- ComponentManager.ComponentManager.AssignComponent: requires room in the pool (fewer than `SIZE_MAX` values). This excludes the one position at which a slot index would equal `NULL_COMPONENT_INDEX`.
- Scene.Scene.AddComponent: carries the same room requirement. Its result read through the queries is stated by Scene.Scene.HoldsAfterAdd and not in its own contract.
- Scene.Scene.RemoveComponent: its result read through the queries is stated by Scene.Scene.HoldsAfterRemove and not in its own contract.
- Pools and masks are indexed by registration position: a type with identifier `firstID + k` owns pool `k` and mask `k`.
- Scene.RequiredMask: a query with no type requires NULL_MASK, which every mask contains.
- Scene.Scene.HasComponent: an unregistered type is held by no entity, rather than being reported as an error. This follows `ComponentPool::hasComponent`, which never throws.
- Scene.Scene.HasComponents: an unregistered type in the list makes the answer false (`Ok(false)`), not an error; only an invalid handle is documented to throw. Scene.Scene.GetEntitiesWith reports UnregisteredType for the same list.
- ComponentManager.ComponentManager.EntityDestroyed: a pool without the identifier is left as it is instead of throwing as documented. This is the correction described under Findings; the documented broadcast is ComponentManager.DestroyedAsWritten.
- Systems.SortByPriority: `std::sort` works in place and is not stable. The model sorts a sequence value with an insertion sort, and its contract promises only what `std::sort` promises (sorted, a permutation). The order among equal priorities is not modelled.
- Scene.Scene.SortSystems: the in-place update of the vector is modelled as assigning the sorted sequence.
- Systems.System.IsEnabled: a plain read of the flag, with no contract of its own. Its meaning is stated by Systems.System.SetEnabled and Scene.Scene.IsSystemEnabled.

## Findings

| source | as written | input that shows it | evidently intended | confidence | as-written member | corrected member |
|---|---|---|---|---|---|---|
| src/entityManager.cpp:32-40, src/entityManager.cpp:110-115, src/scene.cpp:37-40 | a slot is active only when its mask is not NULL_MASK; creation checks the new handle with that rule; the scene creates every entity with NULL_MASK | `Scene::createEntity()` on any scene with identifiers left: the post-check fails, creation throws, and the identifier taken is lost | a fresh entity is valid with NULL_MASK (include/scene.h:79-83, src/test.cpp:43-45) | not executed | EntityManager.NullMaskCreationFailsAsWritten | EntityManager.EntityManager.CreateEntity |
| src/entityManager.cpp:13-20, src/entityManager.cpp:99-106 | the constructor accepts a starting identifier `newid`; a fresh entity gets identifier `newID`, but its generation and mask are appended at the end of the vectors | `EntityManager(10, 5)` and then `addEntity(1)`: identifier 5 is out of range of the one-slot vectors, so the post-check throws | identifiers start at `newid` and the new slot sits at that index | not executed | EntityManager.OffsetStartFailsAsWritten | EntityManager.EntityManager.CreateEntity |
| src/componentManager.cpp:31-38, include/componentPool.h:164 | the broadcast calls the pool's removal on every pool, and the removal is documented to throw when the pool does not hold the entity | register three types, give an entity only the first and the third, destroy it: the second pool throws, after the handle was retired and the first pool dropped the entity | destroying an entity succeeds whichever components it holds (src/test.cpp:88-107) | not executed; the pool's body is not part of this model, so this rests on its documentation | ComponentManager.TestEntityDestroyedAsWritten | ComponentManager.ComponentManager.EntityDestroyed |
