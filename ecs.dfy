/** The entity-component system `ECS<ArchetypeContainerModel, ComponentContainerModel,
    ListOfTypes>`, with both container models being the ordered set of `OrderedSets`.

    A component type is a `Tag`, its position in the ECS's list of component types, so the
    list itself (`universe`) is strictly increasing and an archetype (a `TypeList` of
    component types) is a sequence of tags. There is one entity set per archetype of
    `PowersetOf(universe)` and one component set per component type. The values of all
    component types are modelled by one type `V`, and `defaults(t)` is the value of a
    default-constructed component of type `t`. */
module Ecs {
  import opened TypeLists
  import opened OrderedSets

  type Tag = nat

  type Archetype = seq<Tag>

  /** A component pointer of an entity. */
  datatype Ptr = Null | Addr(key: Key)

  /** `entity<TypeList<HeldComponents...>>`: one pointer per held component type, in the
      order of `held`. */
  datatype Entity = Entity(held: Archetype, slots: seq<Ptr>)

  predicate Shaped(e: Entity) {
    |e.slots| == |e.held|
  }

  /** The pointer an entity keeps for component type `t` (the pointer `get_component`
      dereferences). */
  function GetComponent(e: Entity, t: Tag): Ptr
    requires Shaped(e) && t in e.held
  {
    e.slots[IndexOf(e.held, t)]
  }

  /** `set_component(r)`: store the pointer for component type `t`, leaving the others. */
  function SetComponent(e: Entity, t: Tag, p: Ptr): (r: Entity)
    requires Shaped(e) && t in e.held
    ensures Shaped(r) && r.held == e.held
    ensures GetComponent(r, t) == p
    ensures forall u :: u in e.held && u != t ==> GetComponent(r, u) == GetComponent(e, u)
  {
    e.(slots := e.slots[IndexOf(e.held, t) := p])
  }

  /** A default-constructed entity, as `create_new` on an entity set builds it: every
      component pointer is null. */
  function NewEntity(held: Archetype): (e: Entity)
    ensures Shaped(e) && e.held == held
    ensures forall t :: t in held ==> GetComponent(e, t) == Null
  {
    Entity(held, seq(|held|, _ => Null))
  }

  /** The entity `create_entity` has built after setting its first `n` components: slot `i`
      points at `addrs[i + 1]`, the address of its `i`-th new component. */
  function Partial(s: Archetype, addrs: seq<Key>, n: nat): Entity
    requires n <= |s| && |addrs| == |s| + 1
  {
    Entity(s, seq(|s|, i requires 0 <= i < |s| => if i < n then Addr(addrs[i + 1]) else Null))
  }

  function Created(s: Archetype, addrs: seq<Key>): Entity
    requires |addrs| == |s| + 1
  {
    Partial(s, addrs, |s|)
  }

  /** In a list without repeats, `get_index_of` the `n`-th type is `n`. */
  lemma IndexOfIncreasing(s: seq<Tag>, n: nat)
    requires StrictlyIncreasing(s) && n < |s|
    ensures IndexOf(s, s[n]) == n
  {
    var i := IndexOf(s, s[n]);
    assert s[i] == s[n];
  }

  /** The entity `create_entity<s>` builds points, for the `i`-th type of `s`, at the
      `i`-th new component address. */
  lemma CreatedAddresses(s: Archetype, addrs: seq<Key>)
    requires StrictlyIncreasing(s) && |addrs| == |s| + 1
    ensures Shaped(Created(s, addrs)) && Created(s, addrs).held == s
    ensures forall i :: 0 <= i < |s| ==> GetComponent(Created(s, addrs), s[i]) == Addr(addrs[i + 1])
  {
    forall i | 0 <= i < |s| ensures GetComponent(Created(s, addrs), s[i]) == Addr(addrs[i + 1]) {
      IndexOfIncreasing(s, i);
    }
  }

  /** Setting the next component of a partly built entity. */
  lemma PartialStep(s: Archetype, addrs: seq<Key>, n: nat)
    requires StrictlyIncreasing(s) && n < |s| && |addrs| == |s| + 1
    ensures Shaped(Partial(s, addrs, n)) && s[n] in Partial(s, addrs, n).held
    ensures SetComponent(Partial(s, addrs, n), s[n], Addr(addrs[n + 1])) == Partial(s, addrs, n + 1)
  {
    IndexOfIncreasing(s, n);
  }

  // ---------------------------------------------------------------------------
  // Archetypes
  // ---------------------------------------------------------------------------

  lemma IncreasingSuffix(s: seq<Tag>)
    requires |s| > 0 && StrictlyIncreasing(s)
    ensures StrictlyIncreasing(s[1..])
  {
    forall i, j | 0 <= i < j < |s| - 1 ensures s[1..][i] < s[1..][j] {
      assert s[1..][i] == s[i + 1] && s[1..][j] == s[j + 1];
    }
  }

  /** An ordered sublist of a list without repeats has no repeats either, and keeps its order. */
  lemma {:induction false} SubsequenceIncreasing(a: seq<Tag>, b: seq<Tag>)
    requires IsSubsequence(a, b) && StrictlyIncreasing(b)
    ensures StrictlyIncreasing(a)
    decreases |b|
  {
    if a != [] {
      IncreasingSuffix(b);
      if a[0] == b[0] && IsSubsequence(a[1..], b[1..]) {
        SubsequenceIncreasing(a[1..], b[1..]);
        SubsequenceElements(a[1..], b[1..]);
        forall y | y in a[1..] ensures a[0] < y {
          var j :| 0 <= j < |b[1..]| && b[1..][j] == y;
          assert b[0] < b[j + 1];
        }
        assert a == [a[0]] + a[1..];
        StrictlyIncreasingCons(a[0], a[1..]);
      } else {
        SubsequenceIncreasing(a, b[1..]);
      }
    }
  }

  /** A list in the universe's order whose types all belong to the universe is one of its
      ordered sublists. */
  lemma {:induction false} IncreasingIsSubsequence(a: seq<Tag>, b: seq<Tag>)
    requires StrictlyIncreasing(a) && StrictlyIncreasing(b)
    requires forall x :: x in a ==> x in b
    ensures IsSubsequence(a, b)
    decreases |b|
  {
    if a != [] {
      assert a[0] in a;
      IncreasingSuffix(b);
      if a[0] == b[0] {
        IncreasingSuffix(a);
        forall x | x in a[1..] ensures x in b[1..] {
          var i :| 0 <= i < |a[1..]| && a[1..][i] == x;
          assert a[0] < a[i + 1];
          assert x in a;
          var j :| 0 <= j < |b| && b[j] == x;
          assert b[1..][j - 1] == x;
        }
        IncreasingIsSubsequence(a[1..], b[1..]);
      } else {
        var j0 :| 0 <= j0 < |b| && b[j0] == a[0];
        assert b[0] < a[0] by {
          assert j0 != 0;
        }
        forall x | x in a ensures x in b[1..] {
          var i :| 0 <= i < |a| && a[i] == x;
          assert i == 0 || a[0] < a[i];
          var j :| 0 <= j < |b| && b[j] == x;
          assert b[1..][j - 1] == x;
        }
        IncreasingIsSubsequence(a, b[1..]);
      }
    }
  }

  /** The archetypes of an ECS are exactly the lists of its component types that repeat no
      type and keep the order in which the types were declared: `create_entity<Cs...>` and
      `get_storage_for_archetype_with_components<Cs...>` find a storage exactly for those. */
  lemma ArchetypeMembership(universe: seq<Tag>, a: Archetype)
    requires |universe| > 0 && StrictlyIncreasing(universe)
    ensures a in PowersetOf(universe) <==> StrictlyIncreasing(a) && ContainsAll(universe, a)
  {
    PowersetOfMembers(universe, a);
    if IsSubsequence(a, universe) {
      SubsequenceIncreasing(a, universe);
      SubsequenceElements(a, universe);
    }
    if StrictlyIncreasing(a) && ContainsAll(universe, a) {
      IncreasingIsSubsequence(a, universe);
    }
  }

  // ---------------------------------------------------------------------------
  // The state invariant
  // ---------------------------------------------------------------------------

  /** A set that owns its objects, in address order, with no null pointer in it. */
  ghost predicate GoodStore<T>(st: Store<T>) {
    WellFormed(st) && Ordered(st) && 0 !in st.keys
  }

  /** An entity of archetype `a` whose every component pointer points at a live object of
      the right component set. */
  ghost predicate Linked<V>(e: Entity, a: Archetype, comp: map<Tag, Store<V>>) {
    && e.held == a
    && |e.slots| == |a|
    && forall i :: 0 <= i < |a| ==> e.slots[i].Addr? && a[i] in comp && e.slots[i].key in comp[a[i]].objects
  }

  /** The state of an ECS: one entity set per archetype and one component set per
      component type, every entity linked to its components, and no entity in two sets. */
  ghost predicate Invariant<V>(universe: seq<Tag>, archetypes: seq<Archetype>,
                               arch: map<Archetype, Store<Entity>>, comp: map<Tag, Store<V>>)
  {
    && |universe| > 0 && StrictlyIncreasing(universe)
    && archetypes == PowersetOf(universe)
    && (forall a :: a in arch <==> a in archetypes)
    && (forall t :: t in comp <==> t in universe)
    && (forall t :: t in comp ==> GoodStore(comp[t]))
    && (forall a :: a in arch ==> GoodStore(arch[a]))
    && (forall a, k :: a in arch && k in arch[a].keys ==> Linked(arch[a].objects[k], a, comp))
    && (forall a, b, k :: a in arch && b in arch && a != b && k in arch[a].keys ==> k !in arch[b].keys)
  }

  /** An address no live object occupies, as `std::make_unique` hands out. */
  ghost predicate Fresh<V>(arch: map<Archetype, Store<Entity>>, comp: map<Tag, Store<V>>, k: Key) {
    && k != 0
    && (forall a :: a in arch ==> k !in arch[a].keys)
    && (forall t :: t in comp ==> k !in comp[t].keys)
  }

  /** The component sets after `create_entity<s>` has created its first `n` components,
      the `i`-th at address `addrs[i + 1]`. */
  function ComponentsAfter<V>(comp: map<Tag, Store<V>>, s: Archetype, n: nat, addrs: seq<Key>,
                              defaults: Tag -> V): map<Tag, Store<V>>
    requires n <= |s| && |addrs| == |s| + 1
    requires forall t :: t in comp ==> Ordered(comp[t])
  {
    map t | t in comp :: if t in s && IndexOf(s, t) < n
                         then InsertNew(comp[t], addrs[IndexOf(s, t) + 1], defaults(t))
                         else comp[t]
  }

  lemma ComponentsAfterStep<V>(comp: map<Tag, Store<V>>, s: Archetype, n: nat, addrs: seq<Key>,
                               defaults: Tag -> V)
    requires n < |s| && |addrs| == |s| + 1 && StrictlyIncreasing(s) && s[n] in comp
    requires forall t :: t in comp ==> Ordered(comp[t])
    ensures var c := ComponentsAfter(comp, s, n, addrs, defaults);
            s[n] in c && c[s[n]] == comp[s[n]] &&
            ComponentsAfter(comp, s, n + 1, addrs, defaults) ==
            c[s[n] := InsertNew(comp[s[n]], addrs[n + 1], defaults(s[n]))]
  {
    IndexOfIncreasing(s, n);
  }

  /** `create_entity` leaves every component set a good set, only adds objects to them, and
      gives the `i`-th new component its own live object. */
  lemma ComponentsAfterGood<V>(comp: map<Tag, Store<V>>, s: Archetype, addrs: seq<Key>, defaults: Tag -> V)
    requires forall t :: t in comp ==> GoodStore(comp[t])
    requires StrictlyIncreasing(s) && |addrs| == |s| + 1
    requires forall i :: 0 <= i < |addrs| ==> addrs[i] != 0 && forall t :: t in comp ==> addrs[i] !in comp[t].keys
    ensures forall t :: t in comp ==> Ordered(comp[t])
    ensures var c := ComponentsAfter(comp, s, |s|, addrs, defaults);
            && (forall t :: t in c <==> t in comp)
            && (forall t :: t in c ==> GoodStore(c[t]))
            && (forall t, k :: t in comp && k in comp[t].objects ==> k in c[t].objects)
            && (forall i :: 0 <= i < |s| && s[i] in comp ==> addrs[i + 1] in c[s[i]].objects)
  {
    var c := ComponentsAfter(comp, s, |s|, addrs, defaults);
    forall t | t in c ensures GoodStore(c[t]) {
      if t in s {
        var j := IndexOf(s, t);
        InsertNewWellFormed(comp[t], addrs[j + 1], defaults(t));
      }
    }
    forall i | 0 <= i < |s| && s[i] in comp ensures addrs[i + 1] in c[s[i]].objects {
      IndexOfIncreasing(s, i);
    }
  }

  /** Adding objects to component sets keeps an entity linked. */
  lemma LinkedGrows<V>(e: Entity, a: Archetype, c1: map<Tag, Store<V>>, c2: map<Tag, Store<V>>)
    requires Linked(e, a, c1)
    requires forall t :: t in c1 ==> t in c2
    requires forall t, k :: t in c1 && k in c1[t].objects ==> k in c2[t].objects
    ensures Linked(e, a, c2)
  {
  }

  /** Every entity of the entity sets stays linked when component objects are only added. */
  lemma AllLinkedGrow<V>(arch: map<Archetype, Store<Entity>>, c1: map<Tag, Store<V>>, c2: map<Tag, Store<V>>)
    requires forall a, k :: a in arch && k in arch[a].objects ==> Linked(arch[a].objects[k], a, c1)
    requires forall t :: t in c1 ==> t in c2
    requires forall t, k :: t in c1 && k in c1[t].objects ==> k in c2[t].objects
    ensures forall a, k :: a in arch && k in arch[a].objects ==> Linked(arch[a].objects[k], a, c2)
  {
    forall a, k | a in arch && k in arch[a].objects ensures Linked(arch[a].objects[k], a, c2) {
      LinkedGrows(arch[a].objects[k], a, c1, c2);
    }
  }

  /** The entity `create_entity` builds is linked to the components it created. */
  lemma CreatedLinked<V>(comp: map<Tag, Store<V>>, s: Archetype, addrs: seq<Key>, c: map<Tag, Store<V>>)
    requires |addrs| == |s| + 1
    requires forall t :: t in s ==> t in comp
    requires forall t :: t in comp ==> t in c
    requires forall i :: 0 <= i < |s| && s[i] in comp ==> addrs[i + 1] in c[s[i]].objects
    ensures Linked(Created(s, addrs), s, c)
  {
    var e := Created(s, addrs);
    forall i | 0 <= i < |s| ensures e.slots[i].Addr? && s[i] in c && e.slots[i].key in c[s[i]].objects {
      assert s[i] in s;
    }
  }

  /** The entity sets after `create_entity<s>`: the new entity is in the set of archetype
      `s`, at its address. */
  function EntitiesAfter(arch: map<Archetype, Store<Entity>>, s: Archetype, addrs: seq<Key>): map<Archetype, Store<Entity>>
    requires s in arch && Ordered(arch[s]) && |addrs| == |s| + 1
  {
    arch[s := InsertNew(arch[s], addrs[0], Created(s, addrs))]
  }

  /** Inserting a blank entity and then overwriting it with the linked one, as
      `create_entity` does through the pointer `create_new` returns, is inserting the linked
      entity. */
  lemma UpdateAfterInsert(arch: map<Archetype, Store<Entity>>, s: Archetype, addrs: seq<Key>)
    requires s in arch && Ordered(arch[s]) && |addrs| == |s| + 1
    ensures var b := InsertNew(arch[s], addrs[0], NewEntity(s));
            arch[s := b][s := Store(b.keys, b.objects[addrs[0] := Created(s, addrs)])] == EntitiesAfter(arch, s, addrs)
  {
    var bucket := arch[s];
    var b := InsertNew(bucket, addrs[0], NewEntity(s));
    InsertNewReplace(bucket, addrs[0], NewEntity(s), Created(s, addrs));
    MapUpdateTwice(arch, s, b, Store(b.keys, b.objects[addrs[0] := Created(s, addrs)]));
  }

  /** The new entity's address is in no other set, so no entity is in two sets afterwards. */
  lemma EntitiesAfterDisjoint<V>(arch: map<Archetype, Store<Entity>>, comp: map<Tag, Store<V>>, s: Archetype, addrs: seq<Key>)
    requires s in arch && Ordered(arch[s]) && |addrs| == |s| + 1
    requires forall a, b, k :: a in arch && b in arch && a != b && k in arch[a].keys ==> k !in arch[b].keys
    requires Fresh(arch, comp, addrs[0])
    ensures var arch' := EntitiesAfter(arch, s, addrs);
            forall a, b, k :: a in arch' && b in arch' && a != b && k in arch'[a].keys ==> k !in arch'[b].keys
  {
  }

  /** After `create_entity<s>` every entity, old or new, is linked to live components. */
  lemma EntitiesAfterLinked<V>(arch: map<Archetype, Store<Entity>>, comp: map<Tag, Store<V>>,
                               c: map<Tag, Store<V>>, s: Archetype, addrs: seq<Key>)
    requires forall a :: a in arch ==> GoodStore(arch[a])
    requires forall a, k :: a in arch && k in arch[a].keys ==> k in arch[a].objects && Linked(arch[a].objects[k], a, comp)
    requires s in arch && Ordered(arch[s]) && |addrs| == |s| + 1
    requires forall t :: t in s ==> t in comp
    requires forall t :: t in comp ==> t in c
    requires forall t, k :: t in comp && k in comp[t].objects ==> k in c[t].objects
    requires forall i :: 0 <= i < |s| && s[i] in comp ==> addrs[i + 1] in c[s[i]].objects
    ensures var arch' := EntitiesAfter(arch, s, addrs);
            forall a, k :: a in arch' && k in arch'[a].keys ==>
              k in arch'[a].objects && Linked(arch'[a].objects[k], a, c)
  {
    var arch' := EntitiesAfter(arch, s, addrs);
    forall a, k | a in arch' && k in arch'[a].keys
      ensures k in arch'[a].objects && Linked(arch'[a].objects[k], a, c)
    {
      if a == s && k == addrs[0] {
        CreatedLinked(comp, s, addrs, c);
      } else {
        assert k in arch[a].keys && arch'[a].objects[k] == arch[a].objects[k];
        LinkedGrows(arch[a].objects[k], a, comp, c);
      }
    }
  }

  /** After `create_entity<s>`, each component of the new entity holds the default value of
      its type. */
  lemma CreatedDefaults<V>(comp: map<Tag, Store<V>>, s: Archetype, addrs: seq<Key>, defaults: Tag -> V, t: Tag)
    requires StrictlyIncreasing(s) && |addrs| == |s| + 1 && t in s && t in comp
    requires forall t :: t in comp ==> Ordered(comp[t])
    ensures Shaped(Created(s, addrs)) && GetComponent(Created(s, addrs), t).Addr?
    ensures var c := ComponentsAfter(comp, s, |s|, addrs, defaults);
            t in c && GetComponent(Created(s, addrs), t).key in c[t].objects &&
            c[t].objects[GetComponent(Created(s, addrs), t).key] == defaults(t)
  {
    var j := IndexOf(s, t);
    IndexOfIncreasing(s, j);
  }

  lemma MapUpdateTwice<K, W>(m: map<K, W>, k: K, w1: W, w2: W)
    ensures m[k := w1][k := w2] == m[k := w2]
  {
  }

  /** `create_entity<s>` with fresh addresses keeps the invariant. */
  lemma CreateEntityPreserves<V>(universe: seq<Tag>, archetypes: seq<Archetype>,
                                 arch: map<Archetype, Store<Entity>>, comp: map<Tag, Store<V>>,
                                 s: Archetype, addrs: seq<Key>, defaults: Tag -> V)
    requires Invariant(universe, archetypes, arch, comp)
    requires s in arch && StrictlyIncreasing(s) && (forall t :: t in s ==> t in comp)
    requires |addrs| == |s| + 1
    requires forall i :: 0 <= i < |addrs| ==> Fresh(arch, comp, addrs[i])
    ensures Invariant(universe, archetypes, EntitiesAfter(arch, s, addrs), ComponentsAfter(comp, s, |s|, addrs, defaults))
  {
    var c := ComponentsAfter(comp, s, |s|, addrs, defaults);
    ComponentsAfterGood(comp, s, addrs, defaults);
    InsertNewWellFormed(arch[s], addrs[0], Created(s, addrs));
    var arch' := EntitiesAfter(arch, s, addrs);
    assert Fresh(arch, comp, addrs[0]);
    assert forall a :: a in arch' ==> GoodStore(arch'[a]);
    EntitiesAfterLinked(arch, comp, c, s, addrs);
    EntitiesAfterDisjoint(arch, comp, s, addrs);
  }

  /** In a valid state, `create_entity<s...>()` finds the set of `s` and the sets of its
      component types, all ordered. */
  lemma CreateEntityReady<V>(universe: seq<Tag>, archetypes: seq<Archetype>,
                             arch: map<Archetype, Store<Entity>>, comp: map<Tag, Store<V>>,
                             s: Archetype, addrs: seq<Key>)
    requires Invariant(universe, archetypes, arch, comp)
    requires ContainsAll(universe, s) && StrictlyIncreasing(s)
    requires |addrs| == |s| + 1
    requires forall i :: 0 <= i < |addrs| ==> Fresh(arch, comp, addrs[i])
    ensures s in arch && Ordered(arch[s])
    ensures forall t :: t in s ==> t in comp
    ensures forall t :: t in comp ==> Ordered(comp[t])
    ensures Fresh(arch, comp, addrs[0])
  {
    ArchetypeMembership(universe, s);
    assert GoodStore(arch[s]);
    assert forall t :: t in comp ==> GoodStore(comp[t]);
  }

  /** The component sets after the object at `k` of the set of `t` is assigned `v`. */
  function ValueWritten<V>(comp: map<Tag, Store<V>>, t: Tag, k: Key, v: V): map<Tag, Store<V>>
    requires t in comp
  {
    comp[t := Store(comp[t].keys, comp[t].objects[k := v])]
  }

  /** Assigning a live component object keeps the invariant. */
  lemma ValueWrittenPreserves<V>(universe: seq<Tag>, archetypes: seq<Archetype>,
                                 arch: map<Archetype, Store<Entity>>, comp: map<Tag, Store<V>>,
                                 t: Tag, k: Key, v: V)
    requires Invariant(universe, archetypes, arch, comp)
    requires t in comp && k in comp[t].objects
    ensures Invariant(universe, archetypes, arch, ValueWritten(comp, t, k, v))
  {
    var c := ValueWritten(comp, t, k, v);
    assert forall x :: x in c[t].objects <==> x in comp[t].objects;
    forall u | u in c ensures GoodStore(c[u]) {
      if u == t {
        assert c[t].keys == comp[t].keys;
      }
    }
    assert forall u, x :: u in comp && x in comp[u].objects ==> x in c[u].objects;
    AllLinkedGrow(arch, comp, c);
  }

  /** The address of component `t` of the entity at `ek` in the set of archetype `a`: the
      pointer the entity keeps for `t`, which points at a live object of the set of `t`. */
  function AddressOf<V>(universe: seq<Tag>, archetypes: seq<Archetype>,
                        arch: map<Archetype, Store<Entity>>, comp: map<Tag, Store<V>>,
                        ek: Key, a: Archetype, t: Tag): (k: Key)
    requires Invariant(universe, archetypes, arch, comp)
    requires a in arch && ek in arch[a].keys && t in a
    ensures t in comp && k in comp[t].objects
  {
    var e := arch[a].objects[ek];
    assert Linked(e, a, comp);
    GetComponent(e, t).key
  }

  /** The value of component `t` of the entity at `ek` in the set of archetype `a`: what
      `get_component<t>()` returns a reference to. */
  function ValueOf<V>(universe: seq<Tag>, archetypes: seq<Archetype>,
                      arch: map<Archetype, Store<Entity>>, comp: map<Tag, Store<V>>,
                      ek: Key, a: Archetype, t: Tag): V
    requires Invariant(universe, archetypes, arch, comp)
    requires a in arch && ek in arch[a].keys && t in a
  {
    comp[t].objects[AddressOf(universe, archetypes, arch, comp, ek, a, t)]
  }

  /** An address that is not handed out stays free when an entity is created. */
  lemma FreshAfterCreate<V>(arch: map<Archetype, Store<Entity>>, comp: map<Tag, Store<V>>,
                            s: Archetype, addrs: seq<Key>, defaults: Tag -> V, k: Key)
    requires s in arch && Ordered(arch[s]) && |addrs| == |s| + 1
    requires forall t :: t in comp ==> Ordered(comp[t])
    requires Fresh(arch, comp, k) && k !in addrs
    ensures Fresh(EntitiesAfter(arch, s, addrs), ComponentsAfter(comp, s, |s|, addrs, defaults), k)
  {
    var c := ComponentsAfter(comp, s, |s|, addrs, defaults);
    forall t | t in c ensures k !in c[t].keys {
      if t in s && IndexOf(s, t) < |s| {
        assert addrs[IndexOf(s, t) + 1] in addrs;
      }
    }
  }

  /** Creating an entity leaves one existing entity, and the object one of its components
      lives at, as they were. */
  lemma CreateEntityFrame<V>(arch: map<Archetype, Store<Entity>>, comp: map<Tag, Store<V>>,
                             s: Archetype, addrs: seq<Key>, defaults: Tag -> V, a: Archetype, ek: Key, addr: Key, t: Tag)
    requires s in arch && Ordered(arch[s]) && |addrs| == |s| + 1 && StrictlyIncreasing(s)
    requires forall u :: u in comp ==> Ordered(comp[u])
    requires forall i :: 0 <= i < |addrs| ==> Fresh(arch, comp, addrs[i])
    requires a in arch && ek in arch[a].keys && ek in arch[a].objects
    requires t in comp && addr in comp[t].keys && addr in comp[t].objects
    ensures var arch' := EntitiesAfter(arch, s, addrs);
            a in arch' && ek in arch'[a].keys && ek in arch'[a].objects && arch'[a].objects[ek] == arch[a].objects[ek]
    ensures var c := ComponentsAfter(comp, s, |s|, addrs, defaults);
            t in c && addr in c[t].objects && c[t].objects[addr] == comp[t].objects[addr]
  {
    assert Fresh(arch, comp, addrs[0]);
    if t in s {
      var i := IndexOf(s, t);
      assert Fresh(arch, comp, addrs[i + 1]);
    }
  }

  /** No entity leaves its set when one is created. */
  lemma EntitiesAfterKeeps(arch: map<Archetype, Store<Entity>>, s: Archetype, addrs: seq<Key>)
    requires s in arch && Ordered(arch[s]) && |addrs| == |s| + 1
    ensures var arch' := EntitiesAfter(arch, s, addrs);
            forall a, k :: a in arch && k in arch[a].keys ==> a in arch' && k in arch'[a].keys
  {
  }

  /** After `create_entity<s>`, every entity that existed is still in its set, and each of
      its components is where it was and holds what it held. */
  lemma CreateEntityKeeps<V>(universe: seq<Tag>, archetypes: seq<Archetype>,
                             arch: map<Archetype, Store<Entity>>, comp: map<Tag, Store<V>>,
                             s: Archetype, addrs: seq<Key>, defaults: Tag -> V)
    requires Invariant(universe, archetypes, arch, comp)
    requires s in arch && StrictlyIncreasing(s) && (forall t :: t in s ==> t in comp)
    requires |addrs| == |s| + 1
    requires forall i :: 0 <= i < |addrs| ==> Fresh(arch, comp, addrs[i])
    ensures Invariant(universe, archetypes, EntitiesAfter(arch, s, addrs), ComponentsAfter(comp, s, |s|, addrs, defaults))
    ensures var arch' := EntitiesAfter(arch, s, addrs);
            forall a, k :: a in arch && k in arch[a].keys ==> a in arch' && k in arch'[a].keys
    ensures var arch' := EntitiesAfter(arch, s, addrs);
            var comp' := ComponentsAfter(comp, s, |s|, addrs, defaults);
            forall a, k, t :: a in arch && k in arch[a].keys && t in a ==>
              && AddressOf(universe, archetypes, arch', comp', k, a, t) == AddressOf(universe, archetypes, arch, comp, k, a, t)
              && ValueOf(universe, archetypes, arch', comp', k, a, t) == ValueOf(universe, archetypes, arch, comp, k, a, t)
  {
    CreateEntityPreserves(universe, archetypes, arch, comp, s, addrs, defaults);
    EntitiesAfterKeeps(arch, s, addrs);
    var arch' := EntitiesAfter(arch, s, addrs);
    var comp' := ComponentsAfter(comp, s, |s|, addrs, defaults);
    forall a, k, t | a in arch && k in arch[a].keys && t in a
      ensures && AddressOf(universe, archetypes, arch', comp', k, a, t) == AddressOf(universe, archetypes, arch, comp, k, a, t)
              && ValueOf(universe, archetypes, arch', comp', k, a, t) == ValueOf(universe, archetypes, arch, comp, k, a, t)
    {
      var addr := AddressOf(universe, archetypes, arch, comp, k, a, t);
      CreateEntityFrame(arch, comp, s, addrs, defaults, a, k, addr, t);
      SameLinks(universe, archetypes, arch, comp, arch', comp', k, a, t);
    }
  }

  /** An entity object and the component object it points at, both unchanged between two
      states, give the same address and value in both. */
  lemma SameLinks<V>(universe: seq<Tag>, archetypes: seq<Archetype>,
                     arch: map<Archetype, Store<Entity>>, comp: map<Tag, Store<V>>,
                     arch': map<Archetype, Store<Entity>>, comp': map<Tag, Store<V>>,
                     ek: Key, a: Archetype, t: Tag)
    requires Invariant(universe, archetypes, arch, comp) && Invariant(universe, archetypes, arch', comp')
    requires a in arch && ek in arch[a].keys && t in a && a in arch' && ek in arch'[a].keys
    requires arch'[a].objects[ek] == arch[a].objects[ek]
    requires var addr := AddressOf(universe, archetypes, arch, comp, ek, a, t);
             t in comp' && addr in comp'[t].objects && comp'[t].objects[addr] == comp[t].objects[addr]
    ensures AddressOf(universe, archetypes, arch', comp', ek, a, t) == AddressOf(universe, archetypes, arch, comp, ek, a, t)
    ensures ValueOf(universe, archetypes, arch', comp', ek, a, t) == ValueOf(universe, archetypes, arch, comp, ek, a, t)
  {
  }

  /** After `create_entity<s>` the new entity is in the set of `s`, and its `i`-th component
      lives at `addrs[i + 1]` and holds the default value of its type. */
  lemma CreateEntityLinks<V>(universe: seq<Tag>, archetypes: seq<Archetype>,
                             arch: map<Archetype, Store<Entity>>, comp: map<Tag, Store<V>>,
                             s: Archetype, addrs: seq<Key>, defaults: Tag -> V)
    requires Invariant(universe, archetypes, arch, comp)
    requires s in arch && StrictlyIncreasing(s) && (forall t :: t in s ==> t in comp)
    requires |addrs| == |s| + 1
    requires forall i :: 0 <= i < |addrs| ==> Fresh(arch, comp, addrs[i])
    ensures Invariant(universe, archetypes, EntitiesAfter(arch, s, addrs), ComponentsAfter(comp, s, |s|, addrs, defaults))
    ensures var arch' := EntitiesAfter(arch, s, addrs);
            s in arch' && addrs[0] in arch'[s].keys
    ensures var arch' := EntitiesAfter(arch, s, addrs);
            var comp' := ComponentsAfter(comp, s, |s|, addrs, defaults);
            forall i :: 0 <= i < |s| ==>
              && AddressOf(universe, archetypes, arch', comp', addrs[0], s, s[i]) == addrs[i + 1]
              && ValueOf(universe, archetypes, arch', comp', addrs[0], s, s[i]) == defaults(s[i])
  {
    CreateEntityPreserves(universe, archetypes, arch, comp, s, addrs, defaults);
    var arch' := EntitiesAfter(arch, s, addrs);
    var comp' := ComponentsAfter(comp, s, |s|, addrs, defaults);
    CreatedAddresses(s, addrs);
    assert arch'[s].objects[addrs[0]] == Created(s, addrs);
    forall i | 0 <= i < |s|
      ensures && AddressOf(universe, archetypes, arch', comp', addrs[0], s, s[i]) == addrs[i + 1]
              && ValueOf(universe, archetypes, arch', comp', addrs[0], s, s[i]) == defaults(s[i])
    {
      assert s[i] in s;
      CreatedDefaults(comp, s, addrs, defaults, s[i]);
    }
  }

  /** After the object at `AddressOf(…, ek, a, t)` is assigned `v`, that component holds
      `v`; every pointer is as it was, every other component holds what it held, and no
      free address is taken. */
  lemma ValueWrittenKeeps<V>(universe: seq<Tag>, archetypes: seq<Archetype>,
                             arch: map<Archetype, Store<Entity>>, comp: map<Tag, Store<V>>,
                             ek: Key, a: Archetype, t: Tag, v: V)
    requires Invariant(universe, archetypes, arch, comp)
    requires a in arch && ek in arch[a].keys && t in a
    ensures var comp' := ValueWritten(comp, t, AddressOf(universe, archetypes, arch, comp, ek, a, t), v);
            Invariant(universe, archetypes, arch, comp')
    ensures var comp' := ValueWritten(comp, t, AddressOf(universe, archetypes, arch, comp, ek, a, t), v);
            ValueOf(universe, archetypes, arch, comp', ek, a, t) == v
    ensures var comp' := ValueWritten(comp, t, AddressOf(universe, archetypes, arch, comp, ek, a, t), v);
            forall b, j, u :: b in arch && j in arch[b].keys && u in b ==>
              && AddressOf(universe, archetypes, arch, comp', j, b, u) == AddressOf(universe, archetypes, arch, comp, j, b, u)
              && (u != t || AddressOf(universe, archetypes, arch, comp, j, b, u) != AddressOf(universe, archetypes, arch, comp, ek, a, t) ==>
                    ValueOf(universe, archetypes, arch, comp', j, b, u) == ValueOf(universe, archetypes, arch, comp, j, b, u))
    ensures var comp' := ValueWritten(comp, t, AddressOf(universe, archetypes, arch, comp, ek, a, t), v);
            forall k :: Fresh(arch, comp, k) ==> Fresh(arch, comp', k)
  {
    var k := AddressOf(universe, archetypes, arch, comp, ek, a, t);
    ValueWrittenPreserves(universe, archetypes, arch, comp, t, k, v);
    ValueWrittenFrame(universe, archetypes, arch, comp, ValueWritten(comp, t, k, v), t, k, v);
  }

  lemma ValueWrittenFrame<V>(universe: seq<Tag>, archetypes: seq<Archetype>,
                             arch: map<Archetype, Store<Entity>>, comp: map<Tag, Store<V>>,
                             comp': map<Tag, Store<V>>, t: Tag, k: Key, v: V)
    requires Invariant(universe, archetypes, arch, comp) && Invariant(universe, archetypes, arch, comp')
    requires t in comp && comp' == ValueWritten(comp, t, k, v)
    ensures forall b, j, u :: b in arch && j in arch[b].keys && u in b ==>
              && AddressOf(universe, archetypes, arch, comp', j, b, u) == AddressOf(universe, archetypes, arch, comp, j, b, u)
              && (u != t || AddressOf(universe, archetypes, arch, comp, j, b, u) != k ==>
                    ValueOf(universe, archetypes, arch, comp', j, b, u) == ValueOf(universe, archetypes, arch, comp, j, b, u))
  {
    forall b, j, u | b in arch && j in arch[b].keys && u in b
      ensures && AddressOf(universe, archetypes, arch, comp', j, b, u) == AddressOf(universe, archetypes, arch, comp, j, b, u)
              && (u != t || AddressOf(universe, archetypes, arch, comp, j, b, u) != k ==>
                    ValueOf(universe, archetypes, arch, comp', j, b, u) == ValueOf(universe, archetypes, arch, comp, j, b, u))
    {
      var e := arch[b].objects[j];
      assert AddressOf(universe, archetypes, arch, comp', j, b, u) == GetComponent(e, u).key;
      assert AddressOf(universe, archetypes, arch, comp, j, b, u) == GetComponent(e, u).key;
    }
  }

  // ---------------------------------------------------------------------------
  // Queries
  // ---------------------------------------------------------------------------

  /** A pointer to an entity, with its static type: the entity at address `.1` of the set of
      archetype `.0` (what `up.get()` yields inside `apply_to_entities_of_archetype`). */
  type EntityRef = (Archetype, Key)

  /** The pointers to the entities at `keys` of the set of archetype `a`, in order. */
  function Refs(a: Archetype, keys: seq<Key>): (r: seq<EntityRef>)
    ensures |r| == |keys|
    ensures forall i :: 0 <= i < |keys| ==> r[i] == (a, keys[i])
    ensures forall b, k :: (b, k) in r <==> b == a && k in keys
  {
    var r := seq(|keys|, i requires 0 <= i < |keys| => (a, keys[i]));
    assert forall b, k :: (b, k) in r ==> b == a && k in keys by {
      forall b, k | (b, k) in r ensures b == a && k in keys {
        var i :| 0 <= i < |r| && r[i] == (b, k);
      }
    }
    assert forall k :: k in keys ==> (a, k) in r by {
      forall k | k in keys ensures (a, k) in r {
        var i :| 0 <= i < |keys| && keys[i] == k;
        assert r[i] == (a, k);
      }
    }
    r
  }

  /** What the wrapped callback of `for_each_entity_with_components<q>` visits for archetype
      `a`: the entities of its set, in set order, when `a` holds every type of `q`. */
  function Visit(arch: map<Archetype, Store<Entity>>, q: seq<Tag>, a: Archetype): seq<EntityRef> {
    if a in arch && ContainsAll(a, q) then Refs(a, arch[a].keys) else []
  }

  function Visitor(arch: map<Archetype, Store<Entity>>, q: seq<Tag>): Archetype -> seq<EntityRef> {
    a => Visit(arch, q, a)
  }

  /** The entities `for_each_entity_with_components<q>` hands to its callback, in order, when
      `call_on_each_type` walks the archetypes `arcs`. */
  function QueryTrace(arcs: seq<Archetype>, arch: map<Archetype, Store<Entity>>, q: seq<Tag>): seq<EntityRef> {
    CallOnEachType(arcs, Visitor(arch, q))
  }

  /** An entity is visited exactly when its archetype is walked and holds every queried type. */
  lemma QueryTraceMembers(arcs: seq<Archetype>, arch: map<Archetype, Store<Entity>>, q: seq<Tag>, a: Archetype, k: Key)
    ensures (a, k) in QueryTrace(arcs, arch, q) <==>
            a in arcs && a in arch && ContainsAll(a, q) && k in arch[a].keys
  {
    var f := Visitor(arch, q);
    CallOnEachTypeMembers(arcs, f);
    if (a, k) in QueryTrace(arcs, arch, q) {
      var i :| 0 <= i < |arcs| && (a, k) in f(arcs[i]);
      assert arcs[i] == a;
    }
    if a in arcs && a in arch && ContainsAll(a, q) && k in arch[a].keys {
      var i :| 0 <= i < |arcs| && arcs[i] == a;
      assert (a, k) in f(arcs[i]);
    }
  }

  /** Walking one more archetype appends what it visits. */
  lemma QueryTraceStep(arcs: seq<Archetype>, i: nat, arch: map<Archetype, Store<Entity>>, q: seq<Tag>)
    requires i < |arcs|
    ensures QueryTrace(arcs[..i + 1], arch, q) == QueryTrace(arcs[..i], arch, q) + Visit(arch, q, arcs[i])
  {
    var f := Visitor(arch, q);
    CallOnEachTypeSplit(arcs[..i], [arcs[i]], f);
    assert CallOnEachType([arcs[i]], f) == f(arcs[i]) + CallOnEachType([arcs[i]][1..], f);
    assert arcs[..i + 1] == arcs[..i] + [arcs[i]];
  }

  /** Walking a list of archetypes is visiting the first, then walking the rest. */
  lemma QueryTraceCons(a: Archetype, rest: seq<Archetype>, arch: map<Archetype, Store<Entity>>, q: seq<Tag>)
    ensures QueryTrace([a] + rest, arch, q) == Visit(arch, q, a) + QueryTrace(rest, arch, q)
  {
    assert ([a] + rest)[1..] == rest;
  }

  /** Asking for more component types visits no entity that asking for fewer would not. */
  lemma QueryTraceAntitone(arcs: seq<Archetype>, arch: map<Archetype, Store<Entity>>, q1: seq<Tag>, q2: seq<Tag>,
                           a: Archetype, k: Key)
    requires ContainsAll(q2, q1)
    requires (a, k) in QueryTrace(arcs, arch, q2)
    ensures (a, k) in QueryTrace(arcs, arch, q1)
  {
    QueryTraceMembers(arcs, arch, q2, a, k);
    QueryTraceMembers(arcs, arch, q1, a, k);
  }

  /** The empty query visits every entity of every walked archetype. */
  lemma QueryTraceEmpty(arcs: seq<Archetype>, arch: map<Archetype, Store<Entity>>, a: Archetype, k: Key)
    requires a in arcs && a in arch && k in arch[a].keys
    ensures (a, k) in QueryTrace(arcs, arch, [])
  {
    QueryTraceMembers(arcs, arch, [], a, k);
  }

  /** In a valid state no entity is visited twice. */
  lemma QueryTraceDistinct<V>(universe: seq<Tag>, archetypes: seq<Archetype>,
                              arch: map<Archetype, Store<Entity>>, comp: map<Tag, Store<V>>, q: seq<Tag>)
    requires Invariant(universe, archetypes, arch, comp)
    ensures Distinct(QueryTrace(archetypes, arch, q))
  {
    var f := Visitor(arch, q);
    forall i | 0 <= i < |archetypes| ensures Distinct(f(archetypes[i])) {
      var a := archetypes[i];
      assert a in arch;
      if ContainsAll(a, q) {
        var r := f(a);
        forall x, y | 0 <= x < |r| && 0 <= y < |r| && x != y ensures r[x] != r[y] {
          assert r[x].1 == arch[a].keys[x] && r[y].1 == arch[a].keys[y];
        }
      }
    }
    assert Distinct(archetypes) by {
      PowersetOfDistinct(universe);
    }
    forall i, j, u | 0 <= i < |archetypes| && 0 <= j < |archetypes| && i != j && u in f(archetypes[i])
      ensures u !in f(archetypes[j])
    {
      assert archetypes[i] != archetypes[j];
    }
    CallOnEachTypeDistinct(archetypes, f);
  }

  /** The entity at `k` in a set holds every component type of `q`. */
  ghost predicate Holds(st: Store<Entity>, k: Key, q: seq<Tag>) {
    k in st.objects && Shaped(st.objects[k]) && ContainsAll(st.objects[k].held, q)
  }

  /** In a valid state every visited entity holds every queried component type, so its
      `get_component` for each of them is defined. */
  lemma QueryTraceHolds<V>(universe: seq<Tag>, archetypes: seq<Archetype>,
                           arch: map<Archetype, Store<Entity>>, comp: map<Tag, Store<V>>, q: seq<Tag>,
                           a: Archetype, k: Key)
    requires Invariant(universe, archetypes, arch, comp)
    requires (a, k) in QueryTrace(archetypes, arch, q)
    ensures a in arch && Holds(arch[a], k, q)
  {
    QueryTraceMembers(archetypes, arch, q, a, k);
    assert Linked(arch[a].objects[k], a, comp);
  }

  // ---------------------------------------------------------------------------
  // The ECS
  // ---------------------------------------------------------------------------

  class ECS<V> {
    /** `ListOfTypes`. */
    const universe: seq<Tag>
    /** `ArchetypeTypeList`, in the order `call_on_each_type` walks it. */
    const archetypes: seq<Archetype>
    /** The value of a default-constructed component of each type. */
    const defaults: Tag -> V
    /** `archetype_storage`: one entity set per archetype. */
    var archetypeStorage: map<Archetype, Store<Entity>>
    /** `component_storage`: one component set per component type. */
    var componentStorage: map<Tag, Store<V>>

    ghost predicate Valid()
      reads this
    {
      Invariant(universe, archetypes, archetypeStorage, componentStorage)
    }

    /** A new ECS has an empty set for each archetype of the power set of its types and for
        each of its types. */
    constructor (universe: seq<Tag>, defaults: Tag -> V)
      requires |universe| > 0 && StrictlyIncreasing(universe)
      ensures Valid()
      ensures this.universe == universe && this.defaults == defaults
      ensures archetypes == PowersetOf(universe)
      ensures archetypeStorage == map a | a in PowersetOf(universe) :: EmptyStore()
      ensures componentStorage == map t | t in universe :: EmptyStore()
    {
      this.universe := universe;
      this.defaults := defaults;
      var arcs := PowersetOf(universe);
      archetypes := arcs;
      archetypeStorage := map a | a in arcs :: EmptyStore();
      componentStorage := map t | t in universe :: EmptyStore();
    }

    /** `get_storage_for_archetypes<a>()`: the entity set of archetype `a`; its entities
        hold exactly the types of `a`. */
    function GetStorageForArchetypes(a: Archetype): (st: Store<Entity>)
      reads this
      requires Valid() && a in archetypes
      ensures GoodStore(st)
      ensures forall k :: k in st.keys ==> Holds(st, k, a) && st.objects[k].held == a
    {
      var st := archetypeStorage[a];
      assert forall k :: k in st.keys ==> Linked(st.objects[k], a, componentStorage);
      st
    }

    /** `get_storage_for_archetype_with_components<ts...>()`: compiles when every type of `ts`
        is one of the ECS's types (the static assertion) and `ts` names an archetype, that is,
        repeats no type and lists the types in declaration order. */
    function GetStorageForArchetypeWithComponents(ts: seq<Tag>): (st: Store<Entity>)
      reads this
      requires Valid() && ContainsAll(universe, ts) && StrictlyIncreasing(ts)
      ensures GoodStore(st)
      ensures forall k :: k in st.keys ==> Holds(st, k, ts) && st.objects[k].held == ts
    {
      ArchetypeMembership(universe, ts);
      GetStorageForArchetypes(ts)
    }

    /** `apply_to_entities_of_archetype<a>(f)`: `f` is called on each entity of the set of
        archetype `a`, in set order; the addresses it is called on are returned. */
    method ApplyToEntitiesOfArchetype(a: Archetype) returns (visited: seq<EntityRef>)
      requires Valid() && a in archetypes
      ensures visited == Refs(a, archetypeStorage[a].keys)
      ensures forall b, k :: (b, k) in visited ==> b == a && Holds(archetypeStorage[a], k, a)
    {
      var storage := GetStorageForArchetypes(a);
      visited := [];
      for i := 0 to |storage.keys|
        invariant visited == Refs(a, storage.keys[..i])
      {
        visited := visited + [(a, storage.keys[i])];
      }
      assert storage.keys[..|storage.keys|] == storage.keys;
    }

    /** `for_each_entity_with_components<q>(f)`: `call_on_each_type` walks the archetypes in
        order, and for those holding every type of `q` the entities are visited. Every entity
        holding all of `q` is visited, no other, and none twice. */
    method ForEachEntityWithComponents(q: seq<Tag>) returns (visited: seq<EntityRef>)
      requires Valid()
      ensures visited == QueryTrace(archetypes, archetypeStorage, q)
      ensures Distinct(visited)
      ensures forall a, k :: (a, k) in visited <==>
                a in archetypeStorage && ContainsAll(a, q) && k in archetypeStorage[a].keys
    {
      visited := [];
      for i := 0 to |archetypes|
        invariant visited == QueryTrace(archetypes[..i], archetypeStorage, q)
      {
        var a := archetypes[i];
        assert a in archetypeStorage;
        if ContainsAll(a, q) {
          var v := ApplyToEntitiesOfArchetype(a);
          visited := visited + v;
        }
        QueryTraceStep(archetypes, i, archetypeStorage, q);
      }
      assert archetypes[..|archetypes|] == archetypes;
      QueryTraceDistinct(universe, archetypes, archetypeStorage, componentStorage, q);
      forall a: Archetype, k: Key ensures (a, k) in visited <==>
                a in archetypeStorage && ContainsAll(a, q) && k in archetypeStorage[a].keys
      {
        QueryTraceMembers(archetypes, archetypeStorage, q, a, k);
      }
    }

    /** The value of component `t` of the entity at `ek` in the set of archetype `a`: what
        `get_component<t>()` returns a reference to. */
    function ComponentOf(ek: Key, a: Archetype, t: Tag): V
      reads this
      requires Valid() && a in archetypeStorage && ek in archetypeStorage[a].keys && t in a
    {
      ValueOf(universe, archetypes, archetypeStorage, componentStorage, ek, a, t)
    }

    /** The address of component `t` of the entity at `ek` in the set of archetype `a`. */
    function ComponentAddress(ek: Key, a: Archetype, t: Tag): (k: Key)
      reads this
      requires Valid() && a in archetypeStorage && ek in archetypeStorage[a].keys && t in a
      ensures t in componentStorage && k in componentStorage[t].objects
    {
      AddressOf(universe, archetypes, archetypeStorage, componentStorage, ek, a, t)
    }

    /** Assignment through the reference `get_component<t>()` returns: the component object
        the entity points at for `t` now holds `v`; every pointer stays as it was, no other
        component changes, and no free address is taken. */
    method SetComponentValue(ek: Key, a: Archetype, t: Tag, v: V)
      requires Valid() && a in archetypeStorage && ek in archetypeStorage[a].keys && t in a
      modifies this
      ensures Valid()
      ensures archetypeStorage == old(archetypeStorage)
      ensures componentStorage == ValueWritten(old(componentStorage), t, old(ComponentAddress(ek, a, t)), v)
      ensures ComponentOf(ek, a, t) == v
      ensures forall b, j, u :: b in archetypeStorage && j in archetypeStorage[b].keys && u in b ==>
                && ComponentAddress(j, b, u) == old(ComponentAddress(j, b, u))
                && (u != t || ComponentAddress(j, b, u) != ComponentAddress(ek, a, t) ==>
                      ComponentOf(j, b, u) == old(ComponentOf(j, b, u)))
      ensures forall k :: old(Fresh(archetypeStorage, componentStorage, k)) ==> Fresh(archetypeStorage, componentStorage, k)
    {
      ghost var comp0 := componentStorage;
      var k := ComponentAddress(ek, a, t);
      var st := componentStorage[t];
      componentStorage := componentStorage[t := Store(st.keys, st.objects[k := v])];
      assert componentStorage == ValueWritten(comp0, t, k, v);
      ValueWrittenKeeps(universe, archetypes, archetypeStorage, comp0, ek, a, t, v);
    }

    /** The fold `set_component<Cs>(create_new() on the set of Cs)...` of `create_entity<s>`:
        one new default-constructed component per type of `s`, the `i`-th at `addrs[i + 1]`,
        and the entity pointing at each. */
    method CreateComponents(s: Archetype, addrs: seq<Key>) returns (e: Entity)
      requires StrictlyIncreasing(s) && |addrs| == |s| + 1
      requires forall t :: t in s ==> t in componentStorage
      requires forall t :: t in componentStorage ==> Ordered(componentStorage[t])
      modifies this
      ensures archetypeStorage == old(archetypeStorage)
      ensures componentStorage == ComponentsAfter(old(componentStorage), s, |s|, addrs, defaults)
      ensures e == Created(s, addrs)
    {
      e := NewEntity(s);
      assert e == Partial(s, addrs, 0);
      for i := 0 to |s|
        invariant archetypeStorage == old(archetypeStorage)
        invariant componentStorage == ComponentsAfter(old(componentStorage), s, i, addrs, defaults)
        invariant e == Partial(s, addrs, i)
      {
        var t := s[i];
        assert t in s;
        ComponentsAfterStep(old(componentStorage), s, i, addrs, defaults);
        componentStorage := componentStorage[t := InsertNew(componentStorage[t], addrs[i + 1], defaults(t))];
        assert componentStorage == ComponentsAfter(old(componentStorage), s, i + 1, addrs, defaults);
        PartialStep(s, addrs, i);
        e := SetComponent(e, t, Addr(addrs[i + 1]));
      }
    }

    /** The change of state `create_entity<s...>()` makes: the new entity, at `addrs[0]`,
        joins the set of archetype `s` and its components, the `i`-th at `addrs[i + 1]`, join
        the sets of their types; the invariant is kept. */
    method AddEntity(s: Archetype, addrs: seq<Key>) returns (ek: Key)
      requires Valid()
      requires ContainsAll(universe, s) && StrictlyIncreasing(s)
      requires |addrs| == |s| + 1
      requires forall i :: 0 <= i < |addrs| ==> Fresh(archetypeStorage, componentStorage, addrs[i])
      modifies this
      ensures old(s in archetypeStorage && Ordered(archetypeStorage[s]))
      ensures Valid()
      ensures ek == addrs[0]
      ensures archetypeStorage == EntitiesAfter(old(archetypeStorage), s, addrs)
      ensures componentStorage == ComponentsAfter(old(componentStorage), s, |s|, addrs, defaults)
    {
      ghost var arch0 := archetypeStorage;
      ghost var comp0 := componentStorage;
      CreateEntityReady(universe, archetypes, arch0, comp0, s, addrs);
      CreateEntityPreserves(universe, archetypes, arch0, comp0, s, addrs, defaults);
      ek := addrs[0];
      // create_new() on the set of archetype s
      var bucket := archetypeStorage[s];
      archetypeStorage := archetypeStorage[s := InsertNew(bucket, ek, NewEntity(s))];
      var e := CreateComponents(s, addrs);
      // the entity is updated in place, through the pointer create_new returned
      var b := archetypeStorage[s];
      UpdateAfterInsert(arch0, s, addrs);
      archetypeStorage := archetypeStorage[s := Store(b.keys, b.objects[ek := e])];
      assert archetypeStorage == EntitiesAfter(arch0, s, addrs);
    }

    /** `create_entity<s...>()`: a new entity joins the set of archetype `s`, each of its
        component types gets a new default-constructed object, and the entity points at
        them. `addrs[0]` is the entity's new address, `addrs[i + 1]` that of its `i`-th
        component. Every entity that existed keeps its components, and every free address
        outside `addrs` stays free. */
    method CreateEntity(s: Archetype, addrs: seq<Key>) returns (ek: Key)
      requires Valid()
      requires ContainsAll(universe, s) && StrictlyIncreasing(s)
      requires |addrs| == |s| + 1
      requires forall i :: 0 <= i < |addrs| ==> Fresh(archetypeStorage, componentStorage, addrs[i])
      modifies this
      ensures old(s in archetypeStorage && Ordered(archetypeStorage[s]))
      ensures Valid()
      ensures ek == addrs[0]
      ensures archetypeStorage == EntitiesAfter(old(archetypeStorage), s, addrs)
      ensures componentStorage == ComponentsAfter(old(componentStorage), s, |s|, addrs, defaults)
      ensures s in archetypeStorage && ek in archetypeStorage[s].keys
      ensures forall i :: 0 <= i < |s| ==>
                ComponentAddress(ek, s, s[i]) == addrs[i + 1] && ComponentOf(ek, s, s[i]) == defaults(s[i])
      ensures forall a, k :: a in old(archetypeStorage) && k in old(archetypeStorage[a].keys) ==>
                a in archetypeStorage && k in archetypeStorage[a].keys
      ensures forall a, k, t :: a in old(archetypeStorage) && k in old(archetypeStorage[a].keys) && t in a ==>
                && ComponentAddress(k, a, t) == old(ComponentAddress(k, a, t))
                && ComponentOf(k, a, t) == old(ComponentOf(k, a, t))
      ensures forall k :: old(Fresh(archetypeStorage, componentStorage, k)) && k !in addrs ==>
                Fresh(archetypeStorage, componentStorage, k)
    {
      ghost var arch0 := archetypeStorage;
      ghost var comp0 := componentStorage;
      ArchetypeMembership(universe, s);
      ek := AddEntity(s, addrs);
      CreateEntityLinks(universe, archetypes, arch0, comp0, s, addrs, defaults);
      CreateEntityKeeps(universe, archetypes, arch0, comp0, s, addrs, defaults);
      forall k | Fresh(arch0, comp0, k) && k !in addrs ensures Fresh(archetypeStorage, componentStorage, k) {
        FreshAfterCreate(arch0, comp0, s, addrs, defaults, k);
      }
    }

  }
}
