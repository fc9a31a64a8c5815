# toy_ecs in Dafny

This is a model of the archetype entity-component system (ECS) of `toy_ecs`, with proofs about it. It has three layers, one module each:

- **`TypeLists`** (`typelists.dfy`). The compile-time type-list algebra of `ListsViaTypes`, modelled over component tags (`seq<T>`, with `nat` tags in the ECS). It covers `get_index_of`, `contains`, `contains_all`, `prepend`, `append`, `apply_to_each`, `call_on_each_type`, `Concatenate`, `Reverser`, `RepeatRemover`, `PowersetComputer`, `PowersetOf` and `ContainsAll`. Each becomes a recursive function, with lemmas about it.
- **`OrderedSets`** (`ordered_set.dfy`). The container `jl::containers::set<T>` is the class `OrderedSet<T>`, with two fields:
  - `keys`: the owning pointers of `dynamic_array`, in vector order. Heap addresses become natural-number keys, and 0 is the null pointer.
  - `objects`: the objects those pointers own.

  Every member is a method or function over these fields: `begin`, `end`, `empty`, the `find` search loop, `create_new`, both `remove` overloads, `insert_ordered_unique`, `insert`, `all_satisfying` and `clear`. The same state transitions are also given on the value type `Store<T>`, which the ECS layer uses.
- **`Ecs`** (`ecs.dfy`). The class `ECS<V>` has these parts:
  - the universe of component tags (`ListOfTypes`);
  - the archetype list `PowersetOf(universe)`, in `call_on_each_type` order;
  - `archetype_storage`: one entity set per archetype;
  - `component_storage`: one component set per tag.

  An entity has its held archetype and one pointer slot per held type (`pointers_to_components`). The invariant `Valid()` says:
  - the archetypes are exactly the power set of the universe;
  - every set is well formed and ordered;
  - every entity's slots point at live objects of the right component sets;
  - no entity is in two sets.

  `create_entity`, `get_component`/`set_component`, `get_storage_for_*`, `apply_to_entities_of_archetype` and `for_each_entity_with_components` are methods and functions of the class.
- **`Scenario`** (`scenario.dfy`). The program in `main.cpp`, as a client of the model:
  - an ECS over `int`, `std::string` and `set<int>` (tags 0, 1 and 2);
  - three entities, with their components assigned;
  - the final query for `std::string`.

  `Demo` proves that the query prints `meow`, `nay`, `woof`, in that order. The order comes from the order in which `PowersetOf` lists the archetypes.

Heap allocation is modelled as a parameter. Each operation that allocates receives the fresh addresses it will use (`addrs`, `heap`), and its precondition says they are fresh. A callback is modelled by the sequence of entities it is called on.

## Model

| member | source | states |
|---|---|---|
| TypeLists.IndexOf | TypeList.hpp:12-19 | `Indexer`/`get_index_of`: the element must be present. The result is a position holding it, and no earlier position holds it (the first occurrence). |
| TypeLists.Contains | TypeList.hpp:52-55 | `contains<T>` holds exactly when T is an element of the list. |
| TypeLists.ContainsAll | TypeList.hpp:57-60 | `contains_all<Ts...>` holds exactly when every element of `Ts` is in the list (a subset test). |
| TypeLists.Prepend | TypeList.hpp:38-39 | `prepend<T>` is one longer, has T at its head and the old list after it. |
| TypeLists.Append | TypeList.hpp:41-42 | `append<T>` is one longer, has T last and the old list before it. |
| TypeLists.ApplyToEachAt | TypeList.hpp:27-28 | `apply_to_each<F>` keeps the length, and its i-th entry is F applied to the i-th type. |
| TypeLists.CallOnEachTypeMembers | TypeList.hpp:30-33 | The fold over `call_on_each_type` yields exactly what the individual calls yield. Every event comes from the call on some type, and every call's events appear. |
| TypeLists.CallOnEachTypeSplit | TypeList.hpp:30-33 | The calls run in list order: walking `a ++ b` is walking `a`, then `b`. |
| TypeLists.CallOnEachTypeDistinct | TypeList.hpp:30-33 | Suppose the list repeats no type, each call repeats no event, and two calls share no event. Then the fold repeats no event. |
| TypeLists.Concatenate | TypeList.hpp:70-74 | The result of two lists has length equal to the sum: the first list's elements, followed by the second's. Its prefix is the first list and its suffix the second. |
| TypeLists.ReverseAt | TypeList.hpp:87-95 | The k-th element of `Reverser<L>` is the k-th element of L from the back. |
| TypeLists.ReverseInvolutive | TypeList.hpp:87-95 | Reversing a non-empty list twice gives the list back. |
| TypeLists.RemoveRepeatsSpec | TypeList.hpp:103-113 | `RepeatRemover` gives a duplicate-free list with exactly the elements of its input. |
| TypeLists.RemoveRepeatsOfDistinct | TypeList.hpp:103-113 | On a duplicate-free list, `RepeatRemover` changes nothing. |
| TypeLists.RemoveRepeatsIsSubsequence | TypeList.hpp:103-113 | `RepeatRemover` only drops elements; the others keep their relative order. |
| TypeLists.LastIndexOf | TypeList.hpp:108-113 | The last occurrence of a present element: a position holding it, with no later position holding it. |
| TypeLists.LastIndexOfTail | TypeList.hpp:108-113 | Dropping the head shifts the last occurrence of an element that occurs again down by one. An element that does not occur again has its last occurrence at the head. |
| TypeLists.LastIndexShift | TypeList.hpp:108-113 | Last occurrences in the tail keep their order in the whole list. |
| TypeLists.LastIndexHead | TypeList.hpp:108-113 | A head that does not occur again comes before the last occurrence of every element of the tail. |
| TypeLists.RemoveRepeatsPairOrder | TypeList.hpp:108-113 | Of two kept elements, the earlier one has the earlier last occurrence in the input. |
| TypeLists.RemoveRepeatsKeepsLast | TypeList.hpp:103-113 | `RepeatRemover` keeps the last occurrence of every element: one kept element comes before another exactly when its last occurrence in the input does. With `RemoveRepeatsSpec` this fixes the result. |
| TypeLists.Powerset | TypeList.hpp:123-138 | `PowersetComputer` of a list of n types has 2^n entries. |
| TypeLists.PowersetSound | TypeList.hpp:123-138 | Every entry of `PowersetComputer` is a subsequence of its input, in input order. |
| TypeLists.PowersetComplete | TypeList.hpp:123-138 | Every subsequence of the input is an entry of `PowersetComputer`. |
| TypeLists.PowersetDistinct | TypeList.hpp:123-138 | Over a duplicate-free input, the entries of `PowersetComputer` are pairwise distinct. |
| TypeLists.PowersetFirst | TypeList.hpp:123-138 | The first entry is the empty list. |
| TypeLists.PowersetLast | TypeList.hpp:123-138 | The last entry is the whole input. |
| TypeLists.PowersetOfMembers | TypeList.hpp:140-141 | A list is an entry of `PowersetOf<L>` exactly when it is a subsequence of L. |
| TypeLists.PowersetOfDistinct | TypeList.hpp:140-141 | `PowersetOf<L>` lists no entry twice. |
| TypeLists.PowersetOfDistinctUniverse | TypeList.hpp:140-141 | Over a duplicate-free universe, `PowersetOf` drops nothing: it has exactly 2^n distinct entries. |
| TypeLists.ContainsAllHelper | TypeList.hpp:144-155 | `ContainsAll<L, R>` holds exactly when both L and R are type lists and L contains every element of R. Otherwise it is false. |
| OrderedSets.EmptyStore | set.hpp:26 | A set with no pointers and no objects is well formed and ordered. |
| OrderedSets.OrderedSet.constructor | set.hpp:26 | A new set is empty, well formed and ordered. |
| OrderedSets.OrderedSet.Begin | set.hpp:33-39 | `begin()` equals `end()` exactly when the set owns no object. |
| OrderedSets.OrderedSet.Empty | set.hpp:162-164 | `empty()` holds exactly when the set owns no object. |
| OrderedSets.LowerBoundOf | set.hpp:49-67 | On an ordered vector, the lower bound is at most the size. Every key before it is below `t`, and every key from it on is at least `t`. |
| OrderedSets.LowerBoundUnique | set.hpp:57-67 | Only one position has the two properties of the lower bound. |
| OrderedSets.OrderedSet.LowerBound | set.hpp:51-67 | The search loop of `find` stops (its measure is `count`) within the vector. On an ordered vector it returns the lower bound. Its invariants are the two `first`/`first + count` bounds. |
| OrderedSets.OrderedSet.Find | set.hpp:49-73 | `find(t)` returns `end()` or a position holding `t`. On an ordered vector it returns `end()` exactly when `t` is absent. |
| OrderedSets.OrderedSet.CreateNew | set.hpp:129-137 | `create_new` as written. It fails with an error, changing nothing, exactly when the address is already stored. Otherwise it appends the new default object at `end()` and returns its address. The vector stays ordered exactly when the new address exceeds every stored one. |
| OrderedSets.AppendNewOrdered | set.hpp:129-133 | Appending a key keeps the vector ordered exactly when the vector was ordered and the key exceeds every stored key. |
| OrderedSets.AppendNewWellFormed | set.hpp:129-133 | Appending an unstored key keeps each object owned by exactly one pointer. |
| OrderedSets.AppendNewDisorders | set.hpp:129-133 | As written, `create_new` breaks the order. For the vector of keys 1 and 3, a new object at address 2 is appended after 3. |
| OrderedSets.OrderedSet.CreateNewOrdered | set.hpp:129-137 | `create_new` as intended. It fails with an error, changing nothing, exactly when the address is stored. Otherwise it inserts at the lower bound, and the set stays well formed and ordered. |
| OrderedSets.InsertNew | set.hpp:129-137 | Insertion at the lower bound. Its result has one more key: the old keys plus the new one. The objects gain the new default object, and the vector stays ordered when the key is new. |
| OrderedSets.InsertNewWellFormed | set.hpp:129-137 | Inserting an unstored key at the lower bound keeps the set well formed. |
| OrderedSets.InsertNewAtEnd | set.hpp:129-133 | When the new address exceeds every stored address, insertion at the lower bound is the same as the appending `create_new`. |
| OrderedSets.OrderedSet.RemoveAt | set.hpp:166-168 | `remove(it)` erases exactly the pointer at `it` and its object. The other pointers keep their order, the set stays well formed, and an ordered set stays ordered. |
| OrderedSets.RemoveAtOrdered | set.hpp:166-168 | Erasing one position of an ordered vector leaves it ordered. |
| OrderedSets.EraseWellFormed | set.hpp:166-168 | Erasing one position and its object leaves every object owned by exactly one pointer. |
| OrderedSets.OrderedSet.RemovePointer | set.hpp:170-177 | `remove(T*)` as written. It searches the ordered vector for the lower bound of the address `probe` of the fresh object `std::make_unique<T>(nullptr)` allocates, and erases the element found there. It needs an ordered vector, a probe that is not stored, and a stored address above the probe (otherwise the erase is at `end()`). The set stays well formed and ordered. |
| OrderedSets.RemovePointerErases | set.hpp:170-177 | The element `remove(T*)` erases is the least stored address above the probe. Every other pointer and its object stays, and the set stays well formed and ordered. |
| OrderedSets.RemovePointerValueUnused | set.hpp:170-177 | The result of `remove(value)` is the same for any two values: the probe alone decides what is erased. |
| OrderedSets.RemovePointerIgnoresValue | set.hpp:170-177 | In a set holding addresses 1, 3 and 5, `remove(1)` with the probe allocated at 2 keeps 1 and erases 3. |
| OrderedSets.OrderedSet.RemoveKey | set.hpp:170-177 | `remove(T*)` as intended. It erases exactly the element at `value` and reports success when `value` is stored. Otherwise it reports not-found and changes nothing. The set stays ordered. |
| OrderedSets.Merge | set.hpp:152 | `inplace_merge` of two ranges gives a permutation of their concatenation. |
| OrderedSets.MergeOrdered | set.hpp:152 | Merging two ordered ranges with no common key gives an ordered range. |
| OrderedSets.MergeMembers | set.hpp:152 | A key is in the merge exactly when it is in one of the ranges. |
| OrderedSets.MergeBatchValid | set.hpp:144-153 | Merging an ordered batch of new addresses into a well-formed ordered set gives a well-formed ordered set. |
| OrderedSets.OrderedSet.InsertOrderedUnique | set.hpp:144-153 | `insert_ordered_unique` leaves the set as the merge of its old contents with the batch. Its size is the sum, and it stays well formed and ordered. |
| OrderedSets.SortByKey | set.hpp:156 | `std::sort` of the batch gives a permutation of it. |
| OrderedSets.SortByKeyIncreasing | set.hpp:156 | Sorting a batch with distinct addresses gives strictly increasing addresses. |
| OrderedSets.OrderedSet.Insert | set.hpp:155-160 | `insert` sorts the batch and merges it in. The size grows by the batch size, and the set stays well formed and ordered. |
| OrderedSets.Satisfying | set.hpp:110-127 | The result of `all_satisfying` is no longer than the set. |
| OrderedSets.SatisfyingMembers | set.hpp:110-127 | A value is in the result of `all_satisfying(p, o)` exactly when it is `o` of some element satisfying `p`. |
| OrderedSets.OrderedSet.AllSatisfying | set.hpp:110-127 | The loop returns the projections of the satisfying elements, in set order, no more than the set's size. It does not modify the set. |
| OrderedSets.OrderedSet.Clear | set.hpp:183-185 | `clear()` leaves the set empty, well formed and ordered. |
| Ecs.NewEntity | ecs.hpp:31 | A new entity holds exactly its archetype's types, and every slot is null. |
| Ecs.SetComponent | ecs.hpp:33-40 | `set_component<R>(r)` is allowed only for a held R. Afterwards the pointer for R is `r`, every other slot is unchanged, and the held types are unchanged. |
| Ecs.IndexOfIncreasing | ecs.hpp:36 | In an archetype (a strictly increasing tag list), the slot index of the n-th type is n. |
| Ecs.CreatedAddresses | ecs.hpp:108 | After the `set_component` fold of `create_entity`, the entity's slot for its i-th type points at the i-th new component. |
| Ecs.PartialStep | ecs.hpp:108 | One step of the fold sets the next slot. |
| Ecs.ArchetypeMembership | ecs.hpp:102-104 | A tag list is an archetype of the ECS exactly when it is strictly increasing and contained in the universe. So `create_entity<S...>` needs S in declaration order, without repeats. |
| Ecs.ComponentsAfterStep | ecs.hpp:108 | Creating one more component inserts one new default object into the set of that type. |
| Ecs.ComponentsAfterGood | ecs.hpp:108 | The component sets stay well formed and ordered, and keep every object they had. Each new component is in the set of its type. |
| Ecs.CreateEntityPreserves | ecs.hpp:97-111 | `create_entity` on fresh addresses keeps the ECS invariant. |
| Ecs.CreateEntityLinks | ecs.hpp:104-108 | After `create_entity<s>`, the new entity is in the set of `s`, its i-th component is at the i-th new address, and it holds the default value. |
| Ecs.CreateEntityKeeps | ecs.hpp:104-108 | `create_entity` keeps every existing entity in its set, pointing at the same components, which hold the same values. |
| Ecs.FreshAfterCreate | ecs.hpp:104-108 | A free address that `create_entity` was not given stays free. |
| Ecs.EntitiesAfterDisjoint | ecs.hpp:104-106 | After a new entity at a fresh address joins a set, no entity is in two sets. |
| Ecs.EntitiesAfterKeeps | ecs.hpp:104-106 | Adding an entity removes none. |
| Ecs.AddressOf | ecs.hpp:43-50 | In a valid state, the pointer `get_component<t>()` dereferences is the address of a live object of the component set of `t`. |
| Ecs.ValueWrittenPreserves | ecs.hpp:43-50 | Assigning through the reference `get_component` returns keeps the ECS invariant. |
| Ecs.ValueWrittenKeeps | ecs.hpp:43-50 | After the assignment, `get_component<t>()` yields the new value. All pointers are unchanged, every other component holds its old value, and no free address is taken. |
| Ecs.Refs | ecs.hpp:77-83 | The entity pointers of a set are listed in set order, one per stored address and no other. |
| Ecs.QueryTraceMembers | ecs.hpp:85-94 | `for_each_entity_with_components<q>` visits an entity exactly when its archetype is walked and holds every type of `q`. |
| Ecs.QueryTraceStep | ecs.hpp:85-94 | The archetypes are walked in list order: one more archetype appends its visits. |
| Ecs.QueryTraceCons | ecs.hpp:85-94 | Walking a list is visiting its first archetype, then walking the rest. |
| Ecs.QueryTraceAntitone | ecs.hpp:88 | A query for more types visits no entity that a query for fewer would not. |
| Ecs.QueryTraceEmpty | ecs.hpp:88 | The empty query visits every entity of every walked archetype. |
| Ecs.QueryTraceDistinct | ecs.hpp:85-94 | In a valid state, the query visits no entity twice. |
| Ecs.QueryTraceHolds | ecs.hpp:85-94 | Every visited entity holds every queried type, so the callback's `get_component` is defined. |
| Ecs.ECS.constructor | ecs.hpp:113-115 | A new ECS has `PowersetOf(universe)` as its archetypes. It has one empty entity set per archetype and one empty component set per type, and it is valid. |
| Ecs.ECS.GetStorageForArchetypes | ecs.hpp:66-69 | The set of archetype `a` is well formed and ordered, and each of its entities holds exactly the types of `a`. |
| Ecs.ECS.GetStorageForArchetypeWithComponents | ecs.hpp:71-75 | For types in the universe, listed in declaration order, the result is the set whose entities hold exactly those types. |
| Ecs.ECS.ApplyToEntitiesOfArchetype | ecs.hpp:77-83 | The loop calls `f` once per entity of the set, in set order. Each entity it is called on holds the archetype's types, and nothing is modified. |
| Ecs.ECS.ForEachEntityWithComponents | ecs.hpp:85-94 | The loop visits the archetypes in list order, and its visits equal the query trace. Every entity whose archetype holds all of `q` is visited, no other entity is, and none is visited twice. |
| Ecs.ECS.ComponentAddress | ecs.hpp:43-50 | The slot `get_component<t>()` reads points at a live object of the set of `t`. |
| Ecs.ECS.SetComponentValue | ecs.hpp:43-50 | Assignment through `get_component<t>()`: afterwards `get_component<t>()` yields the value. Pointers are unchanged, no other component changes, no free address is taken, and the ECS stays valid. |
| Ecs.ECS.CreateComponents | ecs.hpp:108 | The fold creates one default component per type of `s`, the i-th at the i-th new address, and the entity points at each. |
| Ecs.ECS.AddEntity | ecs.hpp:104-108 | The new entity joins the set of `s` and its components join the sets of their types. The ECS stays valid. |
| Ecs.ECS.CreateEntity | ecs.hpp:97-111 | `create_entity<s...>()` has several effects. The returned entity is in the set of `s`, and its i-th component is new and holds the default value. Every existing entity keeps its components and their values. Every other free address stays free, and the ECS stays valid. |
| Scenario.DemoArchetypes | main.cpp:12-13 | The ECS over `int`, `std::string`, `set<int>` walks the archetypes {}, {set}, {string}, {string,set}, {int}, {int,set}, {int,string}, {int,string,set}, in that order. |
| Scenario.AtValue | main.cpp:17-31 | A recorded binding between an entity, a component address and a value is what `get_component` yields. |
| Scenario.CreatedAt | main.cpp:17 | Right after `create_entity`, each new component holds its default. |
| Scenario.AtAfterCreate | main.cpp:21 | Creating an entity keeps every existing binding. |
| Scenario.AtAfterWrite | main.cpp:19 | An assignment changes only the binding of the written object. |
| Scenario.CreateAndSet | main.cpp:17-19 | `create_entity` followed by assignment to one component: that component holds the value, the others their defaults, and all older bindings are kept. |
| Scenario.Assign | main.cpp:24-25 | Assignment through `get_component`: the written component holds the new value and every other binding is kept. |
| Scenario.HasValue | main.cpp:18 | A binding in the ECS is what `ComponentOf` and `ComponentAddress` report. |
| Scenario.FirstBlock | main.cpp:17-19 | `obj1` is a {string} entity whose string is "meow". |
| Scenario.SecondBlock | main.cpp:21-25 | `obj2` is an {int,string} entity with "woof" and 5. |
| Scenario.ThirdBlock | main.cpp:27-29 | `obj3` is a {string,set<int>} entity with "nay" and an empty set. |
| Scenario.FillSet | main.cpp:30-31 | The set component of `obj3` gets one new element holding 5. |
| Scenario.DemoBuckets | main.cpp:17-31 | After the three `create_entity` calls, the sets {string}, {int,string} and {string,set} hold one entity each, and {int,string,set} holds none. |
| Scenario.DemoQuery | main.cpp:46 | The query for `std::string` visits obj1, obj3 and obj2, in that order. |
| Scenario.Populate | main.cpp:15-31 | The `try` block leaves a valid ECS with the five component values assigned. |
| Scenario.Demo | main.cpp:42-46 | The program prints "meow", "nay", "woof". |

## Left out

- Printing: `std::cout` in `main` (main.cpp:34, 43) is modelled as the returned sequence of printed values. Output streams are outside the model.
- Exceptions: the `throw` in `create_new` (set.hpp:136) becomes the `Err(DuplicateKey)` result. The `try`/`catch` of `main` (main.cpp:16, 33-35) is not modelled. The ECS layer only ever inserts fresh addresses, so it never reaches this error.
- Heap allocation and addresses: `std::make_unique` becomes addresses passed in by the caller, with the precondition that they are fresh. `unique_ptr` ownership is the `keys`/`objects` pair. Destructors and deallocation are not modelled.
- Ecs.CreateEntity: both the entity sets and the component sets here use `InsertNew`, the corrected `create_new` that inserts at the lower bound (see Findings): for the entity, in `EntitiesAfter`, and for each component, in `ComponentsAfter` and `ECS.CreateComponents`. `InsertNewAtEnd` shows that it equals the as-written append whenever the new address exceeds every stored one; a monotone allocator hands out such addresses. With any other allocator the code keeps each set in creation order while the model keeps it in address order, and `for_each_entity_with_components` visits the entities of one set in that order.
- Entity sets are held in the ECS as `Store` values in a map, not as shared `OrderedSet` objects, so the aliasing of the C++ references to those sets is not modelled.
- Component values: one value type `V` stands for every component type, and `std::get` on the type-indexed tuples becomes map lookup by tag.
- Callbacks: `f` in `apply_to_entities_of_archetype` and `for_each_entity_with_components` is modelled by the sequence of entities it is called on. Its side effects and re-entrancy are left out.
- Static assertions (ecs.hpp:35, 45, 73, 99-100) become preconditions, not modelled compile failures.
- The const `get_component` (ecs.hpp:52-61) is not modelled: it names `index_of_type`, which does not exist. The non-const overload is modelled.
- The const `find` overload (set.hpp:75-99) duplicates the non-const one and is modelled once.
- `reserve` (set.hpp:101-103) only affects capacity and is left out.
- `emplace` (set.hpp:139-142) calls an `insert` overload that does not exist, and is left out.
- `destroy_and_deallocate` (set.hpp:179-181) is ill-formed: it calls `std::lower_bound()` with no arguments. It is left out.
- OrderedSets.OrderedSet.Insert: the model works at address level, where every element of the batch has its own fresh address, so the batch must have distinct keys. Moving `T` values into a vector of `unique_ptr` (set.hpp:148-150) becomes inserting (address, value) pairs. In the code, `std::sort` and `std::unique` (set.hpp:156-157) compare the `T` values, not addresses, while `SortByKey` orders the batch by address. The code discards the result of `std::unique`, so the moved-from tail it leaves behind is still moved into the set. The model has no value order and no duplicates to remove, so neither effect is modelled.
- OrderedSets.OrderedSet.AllSatisfying: in the code, `p` and `o` receive the `unique_ptr&` elements of the vector (set.hpp:120-122), so with the default `AddressGetter` the call is ill-formed. The model applies `p` and `o` to the owned object, as the comment at set.hpp:105-109 describes.
- OrderedSets.OrderedSet.RemovePointer: it requires an ordered vector. `std::lower_bound` only needs the range partitioned by the probe, and the model says nothing about a vector that is only partitioned. When every stored address is below the probe, the code erases `end()`, which is undefined, and the precondition excludes that case.
- TypeLists.Concatenate: only the two-list case is modelled. The variadic case (TypeList.hpp:76-79) passes a struct where a type list is expected.
- `pass_types_as_parameters_to`, `type_of_index`, `as_tuple` and `as_variant` (TypeList.hpp:24-25, 35-36, 44-45) are type plumbing with no behaviour beyond indexing.
- entity.hpp, tuple_of_optionals.hpp and concepts.hpp are not part of this model. They hold the alternative flat store, reached only from the commented-out `main`, and an interface with no behaviour.
- `find` is a binary search, which presumes an ordered vector, yet `create_new` inserts at the `end()` that `find` returns on a miss (set.hpp:69-72, 131-133). The model follows the code in `CreateNew` and records the difference under Findings.

## Findings

| source | as written | input that shows it | evidently intended | confidence | as-written member | corrected member |
|---|---|---|---|---|---|---|
| set.hpp:69-72, 131-133 | On a miss, `find` returns `end()`, not the lower bound, so `create_new` inserts the new element at the end of the vector. | A set holding addresses 1 and 3; `create_new` allocates address 2, which goes after 3, and the vector is no longer ordered. From then on `find` may miss stored elements. | Insert at the lower bound, so the vector stays ordered by address. | not executed | OrderedSets.AppendNewDisorders | OrderedSets.OrderedSet.CreateNewOrdered |
| set.hpp:170-177 | `remove(T* value)` searches with `std::lower_bound` for the address of a freshly allocated `std::make_unique<T>(nullptr)`, and erases the element it finds there; `value` never takes part. When the probe is above every stored address, it erases `end()`, which is undefined. | A set holding addresses 1, 3 and 5; `remove(1)` with the probe allocated at 2 erases the element at 3 and keeps the one at 1. | Erase the element whose address is `value`, or report that there is none. | not executed | OrderedSets.RemovePointerIgnoresValue | OrderedSets.OrderedSet.RemoveKey |
