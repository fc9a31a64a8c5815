/** The demonstration program: an ECS over the component types `int`, `std::string` and
    `set<int>` (tags 0, 1 and 2), three entities, and a query for the entities holding a
    string, whose strings are printed. The addresses the allocator hands out are a
    parameter: any nine distinct non-null addresses. */
module Scenario {
  import opened TypeLists
  import opened OrderedSets
  import opened Ecs

  /** The values of the three component types. */
  datatype Value = Number(n: int) | Text(text: string) | Numbers(numbers: Store<int>)

  /** Default-constructed components: `int{}`, an empty string and an empty set. */
  function Defaults(t: Tag): Value {
    if t == 0 then Number(0) else if t == 1 then Text("") else Numbers(EmptyStore())
  }

  /** The archetypes of the program's ECS, in the order `call_on_each_type` walks them. */
  lemma DemoArchetypes(u: seq<Tag>)
    requires u == [0, 1, 2]
    ensures PowersetOf(u) == [[], [2], [1], [1, 2], [0], [0, 2], [0, 1], [0, 1, 2]]
  {
    PowersetOfDistinctUniverse(u);
    PowersetOfTriple(u);
  }

  lemma PowersetOfTriple(u: seq<Tag>)
    requires u == [0, 1, 2]
    ensures Powerset(u) == [[], [2], [1], [1, 2], [0], [0, 2], [0, 1], [0, 1, 2]]
  {
    PowersetOfPair();
    var w: seq<seq<Tag>> := [[], [2], [1], [1, 2]];
    assert u[1..] == [1, 2];
    assert Powerset(u[1..]) == w;
    PowersetHalves(u, 0);
    var p := Powerset(u);
    assert |p| == 8;
    forall i | 0 <= i < 8 ensures p[i] == if i < 4 then w[i] else [0] + w[i - 4] {
      PowersetHalves(u, i);
    }
    assert [0] + w[0] == [0] && [0] + w[1] == [0, 2] && [0] + w[2] == [0, 1] && [0] + w[3] == [0, 1, 2];
  }

  lemma PowersetOfPair()
    ensures Powerset([1, 2]) == [[], [2], [1], [1, 2]]
  {
    var u: seq<Tag> := [1, 2];
    assert u[1..] == [2];
    forall i | 0 <= i < 4 ensures Powerset(u)[i] == [[], [2], [1], [1, 2]][i] {
      PowersetHalves(u, i);
    }
  }

  lemma InsertNewEmpty<T>(k: Key, v: T)
    ensures InsertNew(EmptyStore(), k, v) == Store([k], map[k := v])
  {
  }

  /** The entity sets of the program after its three `create_entity` calls: one entity in
      each of the sets of `[string]`, `[int, string]` and `[string, set<int>]`. */
  lemma DemoBuckets(arcs: seq<Archetype>, a0: map<Archetype, Store<Entity>>, a1: map<Archetype, Store<Entity>>,
                    a2: map<Archetype, Store<Entity>>, a3: map<Archetype, Store<Entity>>, heap: seq<Key>)
    requires |heap| == 9
    requires arcs == [[], [2], [1], [1, 2], [0], [0, 2], [0, 1], [0, 1, 2]]
    requires a0 == map a | a in arcs :: EmptyStore()
    requires [1] in a0 && Ordered(a0[[1]]) && a1 == EntitiesAfter(a0, [1], [heap[0], heap[1]])
    requires [0, 1] in a1 && Ordered(a1[[0, 1]]) && a2 == EntitiesAfter(a1, [0, 1], [heap[2], heap[3], heap[4]])
    requires [1, 2] in a2 && Ordered(a2[[1, 2]]) && a3 == EntitiesAfter(a2, [1, 2], [heap[5], heap[6], heap[7]])
    ensures forall a :: a in arcs ==> a in a3
    ensures a3[[1]].keys == [heap[0]] && a3[[0, 1]].keys == [heap[2]] && a3[[1, 2]].keys == [heap[5]]
    ensures a3[[0, 1, 2]].keys == []
  {
    InsertNewEmpty(heap[0], Created([1], [heap[0], heap[1]]));
    InsertNewEmpty(heap[2], Created([0, 1], [heap[2], heap[3], heap[4]]));
    InsertNewEmpty(heap[5], Created([1, 2], [heap[5], heap[6], heap[7]]));
  }

  lemma QueryTraceFour(xs: seq<Archetype>, arch: map<Archetype, Store<Entity>>, q: seq<Tag>)
    requires |xs| == 4
    ensures QueryTrace(xs, arch, q) ==
            Visit(arch, q, xs[0]) + Visit(arch, q, xs[1]) + Visit(arch, q, xs[2]) + Visit(arch, q, xs[3])
  {
    var t3: seq<Archetype> := [xs[3]];
    var t2 := [xs[2]] + t3;
    var t1 := [xs[1]] + t2;
    assert xs == [xs[0]] + t1;
    assert t3 == [xs[3]] + [];
    QueryTraceCons(xs[3], [], arch, q);
    QueryTraceCons(xs[2], t3, arch, q);
    QueryTraceCons(xs[1], t2, arch, q);
    QueryTraceCons(xs[0], t1, arch, q);
  }

  /** The query for the entities holding a string, over the first half of the archetypes
      (those without `int`). */
  lemma QueryWithoutInt(arch: map<Archetype, Store<Entity>>, k1: Key, k12: Key)
    requires [] in arch && [2] in arch && [1] in arch && [1, 2] in arch
    requires arch[[1]].keys == [k1] && arch[[1, 2]].keys == [k12]
    ensures QueryTrace([[], [2], [1], [1, 2]], arch, [1]) == [([1], k1), ([1, 2], k12)]
  {
    QueryTraceFour([[], [2], [1], [1, 2]], arch, [1]);
    assert !ContainsAll([], [1]) && !ContainsAll([2], [1]);
    assert Visit(arch, [1], [1]) == [([1], k1)];
    assert Visit(arch, [1], [1, 2]) == [([1, 2], k12)];
  }

  /** The same query over the second half (those with `int`). */
  lemma QueryWithInt(arch: map<Archetype, Store<Entity>>, k01: Key)
    requires [0] in arch && [0, 2] in arch && [0, 1] in arch && [0, 1, 2] in arch
    requires arch[[0, 1]].keys == [k01] && arch[[0, 1, 2]].keys == []
    ensures QueryTrace([[0], [0, 2], [0, 1], [0, 1, 2]], arch, [1]) == [([0, 1], k01)]
  {
    QueryTraceFour([[0], [0, 2], [0, 1], [0, 1, 2]], arch, [1]);
    assert !ContainsAll([0], [1]) && !ContainsAll([0, 2], [1]);
    assert Visit(arch, [1], [0, 1]) == [([0, 1], k01)];
    assert Visit(arch, [1], [0, 1, 2]) == [];
  }

  /** Every one of the eight archetypes has its entity set. */
  lemma AllPresent(arcs: seq<Archetype>, arch: map<Archetype, Store<Entity>>)
    requires arcs == [[], [2], [1], [1, 2], [0], [0, 2], [0, 1], [0, 1, 2]]
    requires forall a :: a in arcs ==> a in arch
    ensures [] in arch && [2] in arch && [1] in arch && [1, 2] in arch
    ensures [0] in arch && [0, 2] in arch && [0, 1] in arch && [0, 1, 2] in arch
  {
    assert arcs[0] in arcs && arcs[1] in arcs && arcs[2] in arcs && arcs[3] in arcs;
    assert arcs[4] in arcs && arcs[5] in arcs && arcs[6] in arcs && arcs[7] in arcs;
  }

  /** The query for the entities holding a string, over the entity sets of the program. */
  lemma DemoQuery(arcs: seq<Archetype>, arch: map<Archetype, Store<Entity>>, k1: Key, k01: Key, k12: Key)
    requires arcs == [[], [2], [1], [1, 2], [0], [0, 2], [0, 1], [0, 1, 2]]
    requires forall a :: a in arcs ==> a in arch
    requires arch[[1]].keys == [k1] && arch[[0, 1]].keys == [k01] && arch[[1, 2]].keys == [k12]
    requires arch[[0, 1, 2]].keys == []
    ensures QueryTrace(arcs, arch, [1]) == [([1], k1), ([1, 2], k12), ([0, 1], k01)]
  {
    var low: seq<Archetype> := [[], [2], [1], [1, 2]];
    var high: seq<Archetype> := [[0], [0, 2], [0, 1], [0, 1, 2]];
    assert arcs == low + high;
    AllPresent(arcs, arch);
    CallOnEachTypeSplit(low, high, Visitor(arch, [1]));
    QueryWithoutInt(arch, k1, k12);
    QueryWithInt(arch, k01);
  }

  /** The entity at `ek` in the set of archetype `a` points, for type `t`, at the live
      component object at `addr`, which holds `v`. */
  ghost predicate At<V>(arch: map<Archetype, Store<Entity>>, comp: map<Tag, Store<V>>,
                        ek: Key, a: Archetype, t: Tag, addr: Key, v: V)
  {
    && a in arch && ek in arch[a].keys && ek in arch[a].objects
    && Shaped(arch[a].objects[ek]) && t in arch[a].objects[ek].held
    && GetComponent(arch[a].objects[ek], t) == Addr(addr)
    && t in comp && addr in comp[t].keys && addr in comp[t].objects && comp[t].objects[addr] == v
  }

  /** What `At` says is what `get_component` reads. */
  lemma AtValue<V>(universe: seq<Tag>, archetypes: seq<Archetype>,
                   arch: map<Archetype, Store<Entity>>, comp: map<Tag, Store<V>>,
                   ek: Key, a: Archetype, t: Tag, addr: Key, v: V)
    requires Invariant(universe, archetypes, arch, comp) && At(arch, comp, ek, a, t, addr, v)
    ensures a in arch && ek in arch[a].keys && t in a
    ensures AddressOf(universe, archetypes, arch, comp, ek, a, t) == addr
    ensures ValueOf(universe, archetypes, arch, comp, ek, a, t) == v
  {
    assert Linked(arch[a].objects[ek], a, comp);
  }

  /** The new entity of `create_entity<s>` points at its `i`-th component, which holds the
      default value. */
  lemma CreatedAt<V>(arch: map<Archetype, Store<Entity>>, comp: map<Tag, Store<V>>,
                     s: Archetype, addrs: seq<Key>, defaults: Tag -> V, i: nat)
    requires s in arch && Ordered(arch[s]) && StrictlyIncreasing(s) && (forall t :: t in s ==> t in comp)
    requires forall u :: u in comp ==> Ordered(comp[u])
    requires |addrs| == |s| + 1 && i < |s|
    ensures At(EntitiesAfter(arch, s, addrs), ComponentsAfter(comp, s, |s|, addrs, defaults),
               addrs[0], s, s[i], addrs[i + 1], defaults(s[i]))
  {
    assert s[i] in s;
    CreatedAddresses(s, addrs);
    CreatedDefaults(comp, s, addrs, defaults, s[i]);
    IndexOfIncreasing(s, i);
  }

  /** `create_entity<s>` leaves what `At` says of an existing entity true. */
  lemma AtAfterCreate<V>(arch: map<Archetype, Store<Entity>>, comp: map<Tag, Store<V>>,
                         s: Archetype, addrs: seq<Key>, defaults: Tag -> V,
                         ek: Key, a: Archetype, t: Tag, addr: Key, v: V)
    requires s in arch && Ordered(arch[s]) && StrictlyIncreasing(s) && |addrs| == |s| + 1
    requires forall u :: u in comp ==> Ordered(comp[u])
    requires forall i :: 0 <= i < |addrs| ==> Fresh(arch, comp, addrs[i])
    requires At(arch, comp, ek, a, t, addr, v)
    ensures At(EntitiesAfter(arch, s, addrs), ComponentsAfter(comp, s, |s|, addrs, defaults), ek, a, t, addr, v)
  {
    CreateEntityFrame(arch, comp, s, addrs, defaults, a, ek, addr, t);
  }

  /** Assigning the object at `k` of the set of `t` changes what `At` says only of that
      object. */
  lemma AtAfterWrite<V>(arch: map<Archetype, Store<Entity>>, comp: map<Tag, Store<V>>, t: Tag, k: Key, w: V,
                        ek: Key, a: Archetype, u: Tag, addr: Key, v: V)
    requires t in comp && At(arch, comp, ek, a, u, addr, v)
    ensures At(arch, ValueWritten(comp, t, k, w), ek, a, u, addr, if u == t && addr == k then w else v)
  {
  }

  /** `create_entity<s>()` at `addrs`, then the assignment of `v` to the component of type
      `s[i]` of the new entity, as each block of `main` does. The other components of the
      new entity hold their defaults, what was true of the existing entities stays true, and
      the free addresses outside `addrs` stay free. */
  method CreateAndSet<V>(ecs: ECS<V>, s: Archetype, addrs: seq<Key>, i: nat, v: V) returns (ek: Key)
    requires ecs.Valid() && ContainsAll(ecs.universe, s) && StrictlyIncreasing(s)
    requires |addrs| == |s| + 1 && i < |s|
    requires forall j :: 0 <= j < |addrs| ==> Fresh(ecs.archetypeStorage, ecs.componentStorage, addrs[j])
    modifies ecs
    ensures ecs.Valid()
    ensures old(s in ecs.archetypeStorage && Ordered(ecs.archetypeStorage[s]))
    ensures ecs.archetypeStorage == EntitiesAfter(old(ecs.archetypeStorage), s, addrs)
    ensures ek == addrs[0]
    ensures At(ecs.archetypeStorage, ecs.componentStorage, ek, s, s[i], addrs[i + 1], v)
    ensures forall j :: 0 <= j < |s| && j != i ==>
              At(ecs.archetypeStorage, ecs.componentStorage, ek, s, s[j], addrs[j + 1], ecs.defaults(s[j]))
    ensures forall e, a, t, addr, w :: At(old(ecs.archetypeStorage), old(ecs.componentStorage), e, a, t, addr, w) ==>
              At(ecs.archetypeStorage, ecs.componentStorage, e, a, t, addr, w)
    ensures forall k :: old(Fresh(ecs.archetypeStorage, ecs.componentStorage, k)) && k !in addrs ==>
              Fresh(ecs.archetypeStorage, ecs.componentStorage, k)
  {
    ghost var arch0 := ecs.archetypeStorage;
    ghost var comp0 := ecs.componentStorage;
    CreateEntityReady(ecs.universe, ecs.archetypes, arch0, comp0, s, addrs);
    ek := ecs.AddEntity(s, addrs);
    ghost var comp1 := ecs.componentStorage;
    CreatedAt(arch0, comp0, s, addrs, ecs.defaults, i);
    AtValue(ecs.universe, ecs.archetypes, ecs.archetypeStorage, comp1, ek, s, s[i], addrs[i + 1], ecs.defaults(s[i]));
    ecs.SetComponentValue(ek, s, s[i], v);
    assert ecs.componentStorage == ValueWritten(comp1, s[i], addrs[i + 1], v);
    AtAfterWrite(ecs.archetypeStorage, comp1, s[i], addrs[i + 1], v, ek, s, s[i], addrs[i + 1], ecs.defaults(s[i]));
    forall j | 0 <= j < |s| && j != i
      ensures At(ecs.archetypeStorage, ecs.componentStorage, ek, s, s[j], addrs[j + 1], ecs.defaults(s[j]))
    {
      CreatedAt(arch0, comp0, s, addrs, ecs.defaults, j);
      AtAfterWrite(ecs.archetypeStorage, comp1, s[i], addrs[i + 1], v, ek, s, s[j], addrs[j + 1], ecs.defaults(s[j]));
    }
    forall e, a, t, addr, w | At(arch0, comp0, e, a, t, addr, w)
      ensures At(ecs.archetypeStorage, ecs.componentStorage, e, a, t, addr, w)
    {
      AtAfterCreate(arch0, comp0, s, addrs, ecs.defaults, e, a, t, addr, w);
      assert Fresh(arch0, comp0, addrs[i + 1]);
      AtAfterWrite(ecs.archetypeStorage, comp1, s[i], addrs[i + 1], v, e, a, t, addr, w);
    }
    forall k | Fresh(arch0, comp0, k) && k !in addrs ensures Fresh(ecs.archetypeStorage, ecs.componentStorage, k) {
      FreshAfterCreate(arch0, comp0, s, addrs, ecs.defaults, k);
    }
  }

  /** Assignment of `v` to the component of type `t` of the entity at `ek`, which lives at
      `addr`: what was true of every other component object stays true. */
  method Assign<V>(ecs: ECS<V>, ek: Key, a: Archetype, t: Tag, addr: Key, v0: V, v: V)
    requires ecs.Valid() && At(ecs.archetypeStorage, ecs.componentStorage, ek, a, t, addr, v0)
    modifies ecs
    ensures ecs.Valid()
    ensures ecs.archetypeStorage == old(ecs.archetypeStorage)
    ensures At(ecs.archetypeStorage, ecs.componentStorage, ek, a, t, addr, v)
    ensures forall e, b, u, k, w :: At(old(ecs.archetypeStorage), old(ecs.componentStorage), e, b, u, k, w) && (u != t || k != addr) ==>
              At(ecs.archetypeStorage, ecs.componentStorage, e, b, u, k, w)
    ensures forall k :: old(Fresh(ecs.archetypeStorage, ecs.componentStorage, k)) ==>
              Fresh(ecs.archetypeStorage, ecs.componentStorage, k)
  {
    ghost var comp0 := ecs.componentStorage;
    AtValue(ecs.universe, ecs.archetypes, ecs.archetypeStorage, comp0, ek, a, t, addr, v0);
    ecs.SetComponentValue(ek, a, t, v);
    assert ecs.componentStorage == ValueWritten(comp0, t, addr, v);
    AtAfterWrite(ecs.archetypeStorage, comp0, t, addr, v, ek, a, t, addr, v0);
    forall e, b, u, k, w | At(ecs.archetypeStorage, comp0, e, b, u, k, w) && (u != t || k != addr)
      ensures At(ecs.archetypeStorage, ecs.componentStorage, e, b, u, k, w)
    {
      AtAfterWrite(ecs.archetypeStorage, comp0, t, addr, v, e, b, u, k, w);
    }
  }

  /** The addresses `heap[n..]` are still free. */
  ghost predicate FreeFrom(ecs: ECS<Value>, heap: seq<Key>, n: nat)
    reads ecs
  {
    forall i :: n <= i < |heap| ==> Fresh(ecs.archetypeStorage, ecs.componentStorage, heap[i])
  }

  /** `At` of the current state of `ecs`. */
  ghost predicate Has(ecs: ECS<Value>, ek: Key, a: Archetype, t: Tag, addr: Key, v: Value)
    reads ecs
  {
    At(ecs.archetypeStorage, ecs.componentStorage, ek, a, t, addr, v)
  }

  /** What `Has` says is what `get_component` reads. */
  lemma HasValue(ecs: ECS<Value>, ek: Key, a: Archetype, t: Tag, addr: Key, v: Value)
    requires ecs.Valid() && Has(ecs, ek, a, t, addr, v)
    ensures a in ecs.archetypeStorage && ek in ecs.archetypeStorage[a].keys && t in a
    ensures ecs.ComponentAddress(ek, a, t) == addr && ecs.ComponentOf(ek, a, t) == v
  {
    AtValue(ecs.universe, ecs.archetypes, ecs.archetypeStorage, ecs.componentStorage, ek, a, t, addr, v);
  }

  /** Component `t` at `addr` is all that may have changed between two states: everything
      `At` says of the first state, except of that one component object, holds of the
      second. */
  ghost predicate Keeps(arch0: map<Archetype, Store<Entity>>, comp0: map<Tag, Store<Value>>,
                       arch1: map<Archetype, Store<Entity>>, comp1: map<Tag, Store<Value>>, t: Tag, addr: Key)
  {
    forall e, b, u, k, w :: At(arch0, comp0, e, b, u, k, w) && (u != t || k != addr) ==> At(arch1, comp1, e, b, u, k, w)
  }

  /** The first block of `main`: `create_entity<std::string>()`, whose string becomes
      "meow". */
  method FirstBlock(ecs: ECS<Value>, heap: seq<Key>) returns (obj1: Key)
    requires ecs.Valid() && 1 in ecs.universe
    requires |heap| == 9 && Distinct(heap) && FreeFrom(ecs, heap, 0)
    modifies ecs
    ensures ecs.Valid()
    ensures old([1] in ecs.archetypeStorage && Ordered(ecs.archetypeStorage[[1]]))
    ensures ecs.archetypeStorage == EntitiesAfter(old(ecs.archetypeStorage), [1], [heap[0], heap[1]])
    ensures obj1 == heap[0]
    ensures Has(ecs, heap[0], [1], 1, heap[1], Text("meow"))
    ensures FreeFrom(ecs, heap, 2)
  {
    var addrs := [heap[0], heap[1]];
    assert forall j :: 0 <= j < 2 ==> addrs[j] == heap[j];
    obj1 := CreateAndSet(ecs, [1], addrs, 0, Text("meow"));
    forall i | 2 <= i < 9 ensures Fresh(ecs.archetypeStorage, ecs.componentStorage, heap[i]) {
      assert heap[i] !in addrs;
    }
  }

  /** The second block: `create_entity<int, std::string>()`, whose string becomes "woof"
      and whose int becomes 5. */
  method SecondBlock(ecs: ECS<Value>, heap: seq<Key>) returns (obj2: Key)
    requires ecs.Valid() && 0 in ecs.universe && 1 in ecs.universe && ecs.defaults(0) == Number(0)
    requires |heap| == 9 && Distinct(heap) && FreeFrom(ecs, heap, 2)
    modifies ecs
    ensures ecs.Valid()
    ensures old([0, 1] in ecs.archetypeStorage && Ordered(ecs.archetypeStorage[[0, 1]]))
    ensures ecs.archetypeStorage == EntitiesAfter(old(ecs.archetypeStorage), [0, 1], [heap[2], heap[3], heap[4]])
    ensures obj2 == heap[2]
    ensures Has(ecs, heap[2], [0, 1], 1, heap[4], Text("woof"))
    ensures Has(ecs, heap[2], [0, 1], 0, heap[3], Number(5))
    ensures Keeps(old(ecs.archetypeStorage), old(ecs.componentStorage), ecs.archetypeStorage, ecs.componentStorage, 0, heap[3])
    ensures FreeFrom(ecs, heap, 5)
  {
    var addrs := [heap[2], heap[3], heap[4]];
    assert forall j :: 0 <= j < 3 ==> addrs[j] == heap[j + 2];
    obj2 := CreateAndSet(ecs, [0, 1], addrs, 1, Text("woof"));
    forall i | 5 <= i < 9 ensures Fresh(ecs.archetypeStorage, ecs.componentStorage, heap[i]) {
      assert heap[i] !in addrs;
    }
    assert [0, 1][0] == 0;
    Assign(ecs, obj2, [0, 1], 0, heap[3], Number(0), Number(5));
  }

  /** The third block: `create_entity<std::string, set<int>>()`, whose string becomes
      "nay". */
  method ThirdBlock(ecs: ECS<Value>, heap: seq<Key>) returns (obj3: Key)
    requires ecs.Valid() && ContainsAll(ecs.universe, [1, 2]) && ecs.defaults(2) == Numbers(EmptyStore())
    requires |heap| == 9 && Distinct(heap) && FreeFrom(ecs, heap, 5)
    modifies ecs
    ensures ecs.Valid()
    ensures old([1, 2] in ecs.archetypeStorage && Ordered(ecs.archetypeStorage[[1, 2]]))
    ensures ecs.archetypeStorage == EntitiesAfter(old(ecs.archetypeStorage), [1, 2], [heap[5], heap[6], heap[7]])
    ensures obj3 == heap[5]
    ensures Has(ecs, heap[5], [1, 2], 1, heap[6], Text("nay"))
    ensures Has(ecs, heap[5], [1, 2], 2, heap[7], Numbers(EmptyStore()))
    ensures Keeps(old(ecs.archetypeStorage), old(ecs.componentStorage), ecs.archetypeStorage, ecs.componentStorage, 2, heap[7])
  {
    var addrs := [heap[5], heap[6], heap[7]];
    assert forall j :: 0 <= j < 3 ==> addrs[j] == heap[j + 5];
    obj3 := CreateAndSet(ecs, [1, 2], addrs, 0, Text("nay"));
    assert [1, 2][1] == 2;
  }

  /** `*set_component.create_new() = 5` on the (empty) set of the third entity: its one new
      element lives at `heap[8]`. */
  method FillSet(ecs: ECS<Value>, heap: seq<Key>)
    requires ecs.Valid() && |heap| == 9
    requires Has(ecs, heap[5], [1, 2], 2, heap[7], Numbers(EmptyStore()))
    modifies ecs
    ensures ecs.Valid()
    ensures ecs.archetypeStorage == old(ecs.archetypeStorage)
    ensures Has(ecs, heap[5], [1, 2], 2, heap[7], Numbers(Store([heap[8]], map[heap[8] := 5])))
    ensures Keeps(old(ecs.archetypeStorage), old(ecs.componentStorage), ecs.archetypeStorage, ecs.componentStorage, 2, heap[7])
  {
    AtValue(ecs.universe, ecs.archetypes, ecs.archetypeStorage, ecs.componentStorage, heap[5], [1, 2], 2, heap[7], Numbers(EmptyStore()));
    var numbers := ecs.ComponentOf(heap[5], [1, 2], 2);
    var five := InsertNew(numbers.numbers, heap[8], 0);
    var filled := Numbers(Store(five.keys, five.objects[heap[8] := 5]));
    assert filled == Numbers(Store([heap[8]], map[heap[8] := 5])) by {
      InsertNewEmpty(heap[8], 0);
      MapUpdateTwice(map[], heap[8], 0, 5);
    }
    Assign(ecs, heap[5], [1, 2], 2, heap[7], Numbers(EmptyStore()), filled);
  }

  /** The three blocks of `main` on a new ECS over `int`, `std::string` and `set<int>`:
      one entity in each of the sets of `[string]`, `[int, string]` and
      `[string, set<int>]`, holding the strings "meow", "woof" and "nay". */
  method Populate(heap: seq<Key>) returns (ecs: ECS<Value>)
    requires |heap| == 9 && Distinct(heap) && 0 !in heap
    ensures ecs.Valid()
    ensures ecs.archetypes == [[], [2], [1], [1, 2], [0], [0, 2], [0, 1], [0, 1, 2]]
    ensures forall a :: a in ecs.archetypes ==> a in ecs.archetypeStorage
    ensures ecs.archetypeStorage[[1]].keys == [heap[0]] && ecs.archetypeStorage[[0, 1]].keys == [heap[2]]
    ensures ecs.archetypeStorage[[1, 2]].keys == [heap[5]] && ecs.archetypeStorage[[0, 1, 2]].keys == []
    ensures ecs.ComponentOf(heap[0], [1], 1) == Text("meow")
    ensures ecs.ComponentOf(heap[2], [0, 1], 1) == Text("woof")
    ensures ecs.ComponentOf(heap[2], [0, 1], 0) == Number(5)
    ensures ecs.ComponentOf(heap[5], [1, 2], 1) == Text("nay")
    ensures ecs.ComponentOf(heap[5], [1, 2], 2) == Numbers(Store([heap[8]], map[heap[8] := 5]))
  {
    ecs := new ECS<Value>([0, 1, 2], Defaults);
    DemoArchetypes(ecs.universe);
    ghost var a0 := ecs.archetypeStorage;
    forall i | 0 <= i < 9 ensures Fresh(ecs.archetypeStorage, ecs.componentStorage, heap[i]) {
      assert heap[i] in heap;
    }
    var obj1 := FirstBlock(ecs, heap);
    ghost var a1 := ecs.archetypeStorage;
    var obj2 := SecondBlock(ecs, heap);
    ghost var a2 := ecs.archetypeStorage;
    var obj3 := ThirdBlock(ecs, heap);
    FillSet(ecs, heap);
    DemoBuckets(ecs.archetypes, a0, a1, a2, ecs.archetypeStorage, heap);
    HasValue(ecs, heap[0], [1], 1, heap[1], Text("meow"));
    HasValue(ecs, heap[2], [0, 1], 1, heap[4], Text("woof"));
    HasValue(ecs, heap[2], [0, 1], 0, heap[3], Number(5));
    HasValue(ecs, heap[5], [1, 2], 1, heap[6], Text("nay"));
    HasValue(ecs, heap[5], [1, 2], 2, heap[7], Numbers(Store([heap[8]], map[heap[8] := 5])));
  }

  /** The program's `main`: what it prints is the strings of the three entities, in the
      order the archetypes are walked: `[string]`, then `[string, set<int>]`, then
      `[int, string]`. */
  method Demo(heap: seq<Key>) returns (printed: seq<Value>)
    requires |heap| == 9 && Distinct(heap) && 0 !in heap
    ensures printed == [Text("meow"), Text("nay"), Text("woof")]
  {
    var ecs := Populate(heap);
    DemoQuery(ecs.archetypes, ecs.archetypeStorage, heap[0], heap[2], heap[5]);
    // for_each_entity_with_components<std::string>(print): the callback prints the string
    // component of each visited entity in turn; the walk visits exactly the three entities
    // DemoQuery names, so the callback runs three times, on visited[0], visited[1] and
    // visited[2] in that order
    var visited := ecs.ForEachEntityWithComponents([1]);
    assert |visited| == 3;
    printed := [ecs.ComponentOf(visited[0].1, visited[0].0, 1), ecs.ComponentOf(visited[1].1, visited[1].0, 1),
                ecs.ComponentOf(visited[2].1, visited[2].0, 1)];
  }
}
