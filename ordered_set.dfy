/** `jl::containers::set<T>`: a vector of owning pointers kept in address order.
    A heap address is modelled as a natural number (`Key`, with 0 standing for the null
    pointer); the vector of `unique_ptr<T>` becomes the sequence of keys it holds, and the
    objects those pointers own become a map from key to value. */
module OrderedSets {

  type Key = nat

  datatype SetError = DuplicateKey | NotFound

  datatype Result<R> = Ok(value: R) | Err(error: SetError)

  /** Every element is smaller than every later one. */
  predicate StrictlyIncreasing(s: seq<int>) {
    forall i, j :: 0 <= i < j < |s| ==> s[i] < s[j]
  }

  /** The state of a set: the pointers of `dynamic_array` in vector order, and the objects
      they own. */
  datatype Store<T> = Store(keys: seq<Key>, objects: map<Key, T>)

  /** Each pointer owns its own object, and every owned object is pointed to. */
  ghost predicate WellFormed<T>(st: Store<T>) {
    && (forall i, j :: 0 <= i < |st.keys| && 0 <= j < |st.keys| && i != j ==> st.keys[i] != st.keys[j])
    && (forall k :: k in st.objects <==> k in st.keys)
  }

  /** The vector is in strictly increasing address order, as `find` expects. */
  predicate Ordered<T>(st: Store<T>) {
    StrictlyIncreasing(st.keys)
  }

  /** The empty set. */
  function EmptyStore<T>(): (st: Store<T>)
    ensures st.keys == [] && st.objects == map[]
    ensures WellFormed(st) && Ordered(st)
  {
    Store([], map[])
  }

  // ---------------------------------------------------------------------------
  // Reference definitions of the container's operations
  // ---------------------------------------------------------------------------

  /** The position `std::lower_bound` finds in ordered keys: the number of keys below `t`. */
  function LowerBoundOf(keys: seq<Key>, t: Key): (i: nat)
    requires StrictlyIncreasing(keys)
    ensures i <= |keys|
    ensures forall j :: 0 <= j < i ==> keys[j] < t
    ensures forall j :: i <= j < |keys| ==> t <= keys[j]
  {
    if keys == [] || t <= keys[0] then 0 else 1 + LowerBoundOf(keys[1..], t)
  }

  /** A position that splits ordered keys into those below `t` and the rest is the lower bound. */
  lemma LowerBoundUnique(keys: seq<Key>, t: Key, i: nat)
    requires StrictlyIncreasing(keys) && i <= |keys|
    requires forall j :: 0 <= j < i ==> keys[j] < t
    requires forall j :: i <= j < |keys| ==> t <= keys[j]
    ensures i == LowerBoundOf(keys, t)
  {
    var b := LowerBoundOf(keys, t);
    assert i < |keys| ==> t <= keys[i];
    assert b < |keys| ==> t <= keys[b];
  }

  /** `create_new` as written: on a miss `find` reports `end()`, and the new element is
      inserted there, i.e. appended. */
  function AppendNew<T>(st: Store<T>, key: Key, init: T): Store<T>
  {
    Store(st.keys + [key], st.objects[key := init])
  }

  /** Appending a key keeps the order exactly when the key exceeds every stored key. */
  lemma AppendNewOrdered<T>(st: Store<T>, key: Key, init: T)
    ensures Ordered(AppendNew(st, key, init)) <==>
            Ordered(st) && forall k :: k in st.keys ==> k < key
  {
    var s := AppendNew(st, key, init).keys;
    assert s[..|st.keys|] == st.keys;
    if Ordered(AppendNew(st, key, init)) {
      forall k | k in st.keys ensures k < key {
        var i :| 0 <= i < |st.keys| && st.keys[i] == k;
        assert s[i] == k && s[|st.keys|] == key;
      }
    } else if Ordered(st) && forall k :: k in st.keys ==> k < key {
      forall i, j | 0 <= i < j < |s| ensures s[i] < s[j] {
        if j == |st.keys| {
          assert s[i] == st.keys[i] && st.keys[i] in st.keys;
        } else {
          assert s[i] == st.keys[i] && s[j] == st.keys[j];
        }
      }
    }
  }

  /** Appending a fresh key keeps each pointer owning its own object. */
  lemma AppendNewWellFormed<T>(st: Store<T>, key: Key, init: T)
    requires WellFormed(st) && key !in st.keys
    ensures WellFormed(AppendNew(st, key, init))
  {
    var s := AppendNew(st, key, init).keys;
    forall i, j | 0 <= i < |s| && 0 <= j < |s| && i != j ensures s[i] != s[j] {
      if i < |st.keys| && j < |st.keys| {
        assert s[i] == st.keys[i] && s[j] == st.keys[j];
      } else if i < |st.keys| {
        assert s[i] == st.keys[i] && s[i] in st.keys;
      } else if j < |st.keys| {
        assert s[j] == st.keys[j] && s[j] in st.keys;
      }
    }
  }

  /** The evident intent of `create_new`: insert the new key at its lower bound, so that the
      vector stays ordered. */
  function InsertNew<T>(st: Store<T>, key: Key, init: T): (r: Store<T>)
    requires Ordered(st)
    ensures key !in st.keys ==> Ordered(r)
    ensures r.objects == st.objects[key := init]
    ensures |r.keys| == |st.keys| + 1
    ensures forall k :: k in r.keys <==> k in st.keys || k == key
  {
    var i := LowerBoundOf(st.keys, key);
    InsertAtMembers(st.keys, i, key);
    assert key !in st.keys ==> StrictlyIncreasing(InsertAt(st.keys, i, key)) by {
      if key !in st.keys {
        InsertAtOrdered(st.keys, i, key);
      }
    }
    Store(InsertAt(st.keys, i, key), st.objects[key := init])
  }

  /** `key` placed at position `i` of `s`. */
  function InsertAt(s: seq<Key>, i: nat, key: Key): (r: seq<Key>)
    requires i <= |s|
    ensures |r| == |s| + 1 && r[i] == key
    ensures forall j :: 0 <= j < i ==> r[j] == s[j]
    ensures forall j :: i < j < |r| ==> r[j] == s[j - 1]
  {
    s[..i] + [key] + s[i..]
  }

  lemma InsertAtMembers(s: seq<Key>, i: nat, key: Key)
    requires i <= |s|
    ensures forall k :: k in InsertAt(s, i, key) <==> k in s || k == key
  {
    var r := InsertAt(s, i, key);
    forall k | k in s ensures k in r {
      var j :| 0 <= j < |s| && s[j] == k;
      if j < i { assert r[j] == k; } else { assert r[j + 1] == k; }
    }
  }

  /** Placing a new key at its lower bound keeps strictly increasing keys so. */
  lemma InsertAtOrdered(s: seq<Key>, i: nat, key: Key)
    requires StrictlyIncreasing(s) && key !in s && i <= |s|
    requires forall j :: 0 <= j < i ==> s[j] < key
    requires forall j :: i <= j < |s| ==> key <= s[j]
    ensures StrictlyIncreasing(InsertAt(s, i, key))
  {
    var r := InsertAt(s, i, key);
    forall a, b | 0 <= a < b < |r| ensures r[a] < r[b] {
      if b > i { assert s[b - 1] != key; }
    }
  }

  /** Replacing the object just inserted is inserting the replacement. */
  lemma InsertNewReplace<T>(st: Store<T>, key: Key, v1: T, v2: T)
    requires Ordered(st)
    ensures var r := InsertNew(st, key, v1);
            Store(r.keys, r.objects[key := v2]) == InsertNew(st, key, v2)
  {
  }

  /** A fresh key inserted in an ordered well-formed set keeps it well formed. */
  lemma InsertNewWellFormed<T>(st: Store<T>, key: Key, init: T)
    requires Ordered(st) && WellFormed(st) && key !in st.keys
    ensures WellFormed(InsertNew(st, key, init))
  {
    var r := InsertNew(st, key, init);
    forall i, j | 0 <= i < |r.keys| && 0 <= j < |r.keys| && i != j ensures r.keys[i] != r.keys[j] {
      if i < j { assert r.keys[i] < r.keys[j]; } else { assert r.keys[j] < r.keys[i]; }
    }
  }

  /** With a key larger than every stored key, the intended insertion is the append that the
      code performs. */
  lemma InsertNewAtEnd<T>(st: Store<T>, key: Key, init: T)
    requires Ordered(st) && forall k :: k in st.keys ==> k < key
    ensures InsertNew(st, key, init) == AppendNew(st, key, init)
  {
    forall j | 0 <= j < |st.keys| ensures st.keys[j] < key {
      assert st.keys[j] in st.keys;
    }
    assert st.keys[..|st.keys|] == st.keys;
  }

  /** `create_new` as written loses the order: 2 appended to [1, 3] gives [1, 3, 2]. */
  lemma AppendNewDisorders()
    ensures var st := Store([1, 3], map[1 := 0, 3 := 0]);
            Ordered(st) && !Ordered(AppendNew(st, 2, 0))
  {
    var s := AppendNew(Store([1, 3], map[1 := 0, 3 := 0]), 2, 0).keys;
    assert s[1] == 3 && s[2] == 2;
  }

  /** `remove(T* value)` as written: the search key is `std::make_unique<T>(nullptr)`, a new
      object at the fresh address `probe`, and the element at the lower bound of `probe` is
      erased; `value` takes no part. Erasing `end()` is undefined, so the lower bound must be
      a position of the vector. */
  function RemovePointerAsWritten<T>(st: Store<T>, value: Key, probe: Key): Store<T>
    requires Ordered(st) && LowerBoundOf(st.keys, probe) < |st.keys|
  {
    var i := LowerBoundOf(st.keys, probe);
    Store(st.keys[..i] + st.keys[i + 1..], st.objects - {st.keys[i]})
  }

  /** The element `remove(T*)` erases is the least stored address above the probe's; every
      other element stays, in order. */
  lemma RemovePointerErases<T>(st: Store<T>, value: Key, probe: Key)
    requires WellFormed(st) && Ordered(st) && probe !in st.keys
    requires LowerBoundOf(st.keys, probe) < |st.keys|
    ensures var k := st.keys[LowerBoundOf(st.keys, probe)];
            && probe < k
            && (forall j :: j in st.keys && probe < j ==> k <= j)
    ensures var k := st.keys[LowerBoundOf(st.keys, probe)];
            var r := RemovePointerAsWritten(st, value, probe);
            && (forall x :: x in r.keys <==> x in st.keys && x != k)
            && r.objects == st.objects - {k}
            && WellFormed(r) && Ordered(r)
  {
    var i := LowerBoundOf(st.keys, probe);
    var k := st.keys[i];
    assert probe <= k && probe != k;
    forall j | j in st.keys && probe < j ensures k <= j {
      var a :| 0 <= a < |st.keys| && st.keys[a] == j;
      assert i <= a;
    }
    // the pointers left are those of the objects left, which are all but `k`'s
    EraseWellFormed(st, i);
    RemoveAtOrdered(st.keys, i);
  }

  /** Which element `remove(T*)` erases depends on the probe alone, never on `value`. */
  lemma RemovePointerValueUnused<T>(st: Store<T>, v1: Key, v2: Key, probe: Key)
    requires Ordered(st) && LowerBoundOf(st.keys, probe) < |st.keys|
    ensures RemovePointerAsWritten(st, v1, probe) == RemovePointerAsWritten(st, v2, probe)
  {
  }

  /** `remove(T*)` can erase the wrong element: in the set of addresses 1, 3 and 5,
      `remove(1)` with the probe allocated at 2 keeps 1 and erases 3. */
  lemma RemovePointerIgnoresValue()
    ensures var st := Store([1, 3, 5], map[1 := 0, 3 := 0, 5 := 0]);
            && Ordered(st) && LowerBoundOf(st.keys, 2) < |st.keys|
            && 1 in RemovePointerAsWritten(st, 1, 2).keys
            && 3 !in RemovePointerAsWritten(st, 1, 2).keys
  {
    var st := Store([1, 3, 5], map[1 := 0, 3 := 0, 5 := 0]);
    assert LowerBoundOf(st.keys, 2) == 1 by {
      LowerBoundUnique(st.keys, 2, 1);
    }
    var r := RemovePointerAsWritten(st, 1, 2).keys;
    assert r == [1, 5];
  }

  /** Removing the element at one position keeps the others in their order. */
  lemma RemoveAtOrdered(keys: seq<Key>, i: nat)
    requires i < |keys| && StrictlyIncreasing(keys)
    ensures StrictlyIncreasing(keys[..i] + keys[i + 1..])
  {
    var r := keys[..i] + keys[i + 1..];
    forall a, b | 0 <= a < b < |r| ensures r[a] < r[b] {
      var a' := if a < i then a else a + 1;
      var b' := if b < i then b else b + 1;
      assert r[a] == keys[a'] && r[b] == keys[b'];
    }
  }

  /** `std::inplace_merge` of two adjacent ranges: a stable merge by address, taking from the
      first range on ties. */
  function Merge(a: seq<Key>, b: seq<Key>): (r: seq<Key>)
    ensures |r| == |a| + |b|
    ensures multiset(r) == multiset(a) + multiset(b)
    decreases |a| + |b|
  {
    if a == [] then b
    else if b == [] then a
    else if b[0] < a[0] then
      assert b == [b[0]] + b[1..];
      [b[0]] + Merge(a, b[1..])
    else
      assert a == [a[0]] + a[1..];
      [a[0]] + Merge(a[1..], b)
  }

  /** A sequence that starts below all its other, increasing, elements is increasing. */
  lemma StrictlyIncreasingCons(x: Key, s: seq<Key>)
    requires StrictlyIncreasing(s) && forall y :: y in s ==> x < y
    ensures StrictlyIncreasing([x] + s)
  {
    var r := [x] + s;
    forall i, j | 0 <= i < j < |r| ensures r[i] < r[j] {
      assert r[j] == s[j - 1] && s[j - 1] in s;
      if i > 0 { assert r[i] == s[i - 1]; }
    }
  }

  /** Merging two ordered ranges with no address in common gives an ordered range. */
  lemma {:induction false} MergeOrdered(a: seq<Key>, b: seq<Key>)
    requires StrictlyIncreasing(a) && StrictlyIncreasing(b)
    requires forall k :: k in a ==> k !in b
    ensures StrictlyIncreasing(Merge(a, b))
    decreases |a| + |b|
  {
    if a != [] && b != [] {
      if b[0] < a[0] {
        MergeOrdered(a, b[1..]);
        forall y | y in Merge(a, b[1..]) ensures b[0] < y {
          assert y in multiset(Merge(a, b[1..]));
          if y in a {
            var i :| 0 <= i < |a| && a[i] == y;
            assert i == 0 || a[0] < a[i];
          } else {
            assert y in multiset(b[1..]);
            var i :| 0 <= i < |b[1..]| && b[1..][i] == y;
            assert b[1..][i] == b[i + 1];
          }
        }
        StrictlyIncreasingCons(b[0], Merge(a, b[1..]));
      } else {
        MergeOrdered(a[1..], b);
        assert a[0] != b[0] by { assert a[0] in a; }
        forall y | y in Merge(a[1..], b) ensures a[0] < y {
          assert y in multiset(Merge(a[1..], b));
          if y in b {
            var i :| 0 <= i < |b| && b[i] == y;
            assert i == 0 || b[0] < b[i];
          } else {
            assert y in multiset(a[1..]);
            var i :| 0 <= i < |a[1..]| && a[1..][i] == y;
            assert a[1..][i] == a[i + 1];
          }
        }
        StrictlyIncreasingCons(a[0], Merge(a[1..], b));
      }
    }
  }

  /** The addresses of a batch of new elements. */
  function BatchKeys<T>(batch: seq<(Key, T)>): (ks: seq<Key>)
    ensures |ks| == |batch|
    ensures forall i :: 0 <= i < |batch| ==> ks[i] == batch[i].0
  {
    if batch == [] then [] else [batch[0].0] + BatchKeys(batch[1..])
  }

  /** The objects a batch of new elements brings (the first entry wins for a repeated key). */
  function BatchObjects<T>(batch: seq<(Key, T)>): (m: map<Key, T>)
    ensures forall k :: k in m <==> k in BatchKeys(batch)
  {
    if batch == [] then map[]
    else
      var rest := BatchObjects(batch[1..]);
      assert forall k :: k in BatchKeys(batch) <==> k == batch[0].0 || k in BatchKeys(batch[1..]) by {
        assert BatchKeys(batch) == [batch[0].0] + BatchKeys(batch[1..]);
      }
      rest[batch[0].0 := batch[0].1]
  }

  /** `insert_ordered_unique`: the batch goes at the end, then the two ranges are merged. */
  function MergeBatch<T>(st: Store<T>, batch: seq<(Key, T)>): Store<T>
  {
    Store(Merge(st.keys, BatchKeys(batch)), st.objects + BatchObjects(batch))
  }

  /** Insert one element into a batch ordered by address. */
  function InsertByKey<T>(e: (Key, T), batch: seq<(Key, T)>): (r: seq<(Key, T)>)
    ensures multiset(r) == multiset(batch) + multiset{e}
    ensures |r| == |batch| + 1
  {
    if batch == [] || e.0 <= batch[0].0 then [e] + batch
    else
      assert batch == [batch[0]] + batch[1..];
      [batch[0]] + InsertByKey(e, batch[1..])
  }

  /** `std::sort` of a batch, by address. */
  function SortByKey<T>(batch: seq<(Key, T)>): (r: seq<(Key, T)>)
    ensures multiset(r) == multiset(batch)
    ensures |r| == |batch|
  {
    if batch == [] then []
    else
      assert batch == [batch[0]] + batch[1..];
      InsertByKey(batch[0], SortByKey(batch[1..]))
  }

  /** The entries of a batch have pairwise distinct addresses. */
  ghost predicate DistinctKeys<T>(batch: seq<(Key, T)>) {
    forall i, j :: 0 <= i < |batch| && 0 <= j < |batch| && i != j ==> batch[i].0 != batch[j].0
  }

  lemma BatchKeysCons<T>(e: (Key, T), batch: seq<(Key, T)>)
    ensures BatchKeys([e] + batch) == [e.0] + BatchKeys(batch)
  {
    assert ([e] + batch)[1..] == batch;
  }

  lemma KeysAbove<T>(x: Key, batch: seq<(Key, T)>)
    requires forall y :: y in batch ==> x < y.0
    ensures forall k :: k in BatchKeys(batch) ==> x < k
  {
    forall k | k in BatchKeys(batch) ensures x < k {
      var i :| 0 <= i < |batch| && BatchKeys(batch)[i] == k;
      assert batch[i] in batch;
    }
  }

  /** An entry below every address of an increasing batch can go in front of it. */
  lemma IncreasingFront<T>(e: (Key, T), batch: seq<(Key, T)>)
    requires StrictlyIncreasing(BatchKeys(batch))
    requires forall y :: y in batch ==> e.0 < y.0
    ensures StrictlyIncreasing(BatchKeys([e] + batch))
  {
    KeysAbove(e.0, batch);
    BatchKeysCons(e, batch);
    StrictlyIncreasingCons(e.0, BatchKeys(batch));
  }

  /** The tail of an increasing batch is increasing, and its entries lie above the head. */
  lemma IncreasingTail<T>(batch: seq<(Key, T)>)
    requires batch != [] && StrictlyIncreasing(BatchKeys(batch))
    ensures StrictlyIncreasing(BatchKeys(batch[1..]))
    ensures forall y :: y in batch[1..] ==> batch[0].0 < y.0
  {
    var tail := batch[1..];
    forall i, j | 0 <= i < j < |tail| ensures BatchKeys(tail)[i] < BatchKeys(tail)[j] {
      assert BatchKeys(tail)[i] == BatchKeys(batch)[i + 1];
      assert BatchKeys(tail)[j] == BatchKeys(batch)[j + 1];
    }
    forall y | y in tail ensures batch[0].0 < y.0 {
      var i :| 0 <= i < |tail| && tail[i] == y;
      assert BatchKeys(batch)[0] < BatchKeys(batch)[i + 1];
    }
  }

  /** Inserting an entry with a new address into a batch in strictly increasing address
      order keeps that order. */
  lemma {:induction false} InsertByKeyIncreasing<T>(e: (Key, T), batch: seq<(Key, T)>)
    requires StrictlyIncreasing(BatchKeys(batch))
    requires forall y :: y in batch ==> y.0 != e.0
    ensures StrictlyIncreasing(BatchKeys(InsertByKey(e, batch)))
  {
    if batch == [] {
      BatchKeysCons(e, batch);
    } else if e.0 <= batch[0].0 {
      IncreasingTail(batch);
      assert batch[0] in batch;
      IncreasingFront(e, batch);
    } else {
      var tail := batch[1..];
      IncreasingTail(batch);
      assert forall y :: y in tail ==> y in batch;
      InsertByKeyIncreasing(e, tail);
      var r := InsertByKey(e, tail);
      forall y | y in r ensures batch[0].0 < y.0 {
        assert y in multiset(r);
        assert y != e ==> y in multiset(tail);
      }
      IncreasingFront(batch[0], r);
    }
  }

  /** `std::sort` of a batch with distinct addresses puts the addresses in strictly
      increasing order. */
  lemma {:induction false} SortByKeyIncreasing<T>(batch: seq<(Key, T)>)
    requires DistinctKeys(batch)
    ensures StrictlyIncreasing(BatchKeys(SortByKey(batch)))
  {
    if batch != [] {
      var tail := batch[1..];
      assert DistinctKeys(tail) by {
        forall i, j | 0 <= i < |tail| && 0 <= j < |tail| && i != j ensures tail[i].0 != tail[j].0 {
          assert tail[i] == batch[i + 1] && tail[j] == batch[j + 1];
        }
      }
      SortByKeyIncreasing(tail);
      var s := SortByKey(tail);
      forall y | y in s ensures y.0 != batch[0].0 {
        assert y in multiset(s);
        assert y in multiset(tail);
        var i :| 0 <= i < |tail| && tail[i] == y;
        assert tail[i] == batch[i + 1];
      }
      InsertByKeyIncreasing(batch[0], s);
    }
  }

  /** An increasing sequence holds each key once. */
  lemma IncreasingDistinct(s: seq<Key>)
    requires StrictlyIncreasing(s)
    ensures forall i, j :: 0 <= i < |s| && 0 <= j < |s| && i != j ==> s[i] != s[j]
  {
    forall i, j | 0 <= i < |s| && 0 <= j < |s| && i != j ensures s[i] != s[j] {
      if i < j { assert s[i] < s[j]; } else { assert s[j] < s[i]; }
    }
  }

  /** A merge holds the keys of both ranges and no others. */
  lemma MergeMembers(a: seq<Key>, b: seq<Key>)
    ensures forall k :: k in Merge(a, b) <==> k in a || k in b
  {
    var m := Merge(a, b);
    assert forall k :: k in m <==> k in multiset(m);
    assert forall k :: k in a <==> k in multiset(a);
    assert forall k :: k in b <==> k in multiset(b);
  }

  /** Merging a batch of new addresses in strictly increasing order into an ordered,
      well-formed set keeps it ordered and well formed. */
  lemma MergeBatchValid<T>(st: Store<T>, batch: seq<(Key, T)>)
    requires WellFormed(st) && Ordered(st)
    requires StrictlyIncreasing(BatchKeys(batch))
    requires forall k :: k in BatchKeys(batch) ==> k !in st.keys
    ensures WellFormed(MergeBatch(st, batch)) && Ordered(MergeBatch(st, batch))
  {
    MergeOrdered(st.keys, BatchKeys(batch));
    MergeMembers(st.keys, BatchKeys(batch));
    IncreasingDistinct(Merge(st.keys, BatchKeys(batch)));
  }

  /** The elements selected by `all_satisfying(p, o)`, projected by `o`, in set order. */
  function Satisfying<T, U>(keys: seq<Key>, objects: map<Key, T>, p: T -> bool, o: (Key, T) -> U): (r: seq<U>)
    requires forall k :: k in keys ==> k in objects
    ensures |r| <= |keys|
  {
    if keys == [] then []
    else
      var init := keys[..|keys| - 1];
      assert forall k :: k in init ==> k in keys;
      var k := keys[|keys| - 1];
      Satisfying(init, objects, p, o) + (if p(objects[k]) then [o(k, objects[k])] else [])
  }

  /** A projection is in the result of `all_satisfying` exactly when some element of the set
      satisfies the predicate and projects to it. */
  lemma {:induction false} SatisfyingMembers<T, U>(keys: seq<Key>, objects: map<Key, T>, p: T -> bool, o: (Key, T) -> U, u: U)
    requires forall k :: k in keys ==> k in objects
    ensures u in Satisfying(keys, objects, p, o) <==>
            exists i :: 0 <= i < |keys| && p(objects[keys[i]]) && u == o(keys[i], objects[keys[i]])
  {
    if keys != [] {
      var n := |keys| - 1;
      var init := keys[..n];
      assert forall k :: k in init ==> k in keys;
      SatisfyingMembers(init, objects, p, o, u);
      var k := keys[n];
      var tail := if p(objects[k]) then [o(k, objects[k])] else [];
      assert Satisfying(keys, objects, p, o) == Satisfying(init, objects, p, o) + tail;
      if u in Satisfying(keys, objects, p, o) {
        if u in Satisfying(init, objects, p, o) {
          var i :| 0 <= i < n && p(objects[init[i]]) && u == o(init[i], objects[init[i]]);
          assert init[i] == keys[i];
        } else {
          assert p(objects[keys[n]]) && u == o(keys[n], objects[keys[n]]);
        }
      }
      if exists i :: 0 <= i < |keys| && p(objects[keys[i]]) && u == o(keys[i], objects[keys[i]]) {
        var i :| 0 <= i < |keys| && p(objects[keys[i]]) && u == o(keys[i], objects[keys[i]]);
        if i < n {
          assert init[i] == keys[i];
        } else {
          assert u in tail;
        }
      }
    }
  }

  // ---------------------------------------------------------------------------
  // The container
  // ---------------------------------------------------------------------------

  /** Erasing the pointer at position `it`, and the object it owns, keeps a set well formed. */
  lemma EraseWellFormed<T>(st: Store<T>, it: nat)
    requires WellFormed(st) && it < |st.keys|
    ensures WellFormed(Store(st.keys[..it] + st.keys[it + 1..], st.objects - {st.keys[it]}))
  {
    var keys, k := st.keys, st.keys[it];
    var r := keys[..it] + keys[it + 1..];
    forall a, b | 0 <= a < |r| && 0 <= b < |r| && a != b ensures r[a] != r[b] {
      var a' := if a < it then a else a + 1;
      var b' := if b < it then b else b + 1;
      assert r[a] == keys[a'] && r[b] == keys[b'];
    }
    forall x | x in r ensures x != k {
      var a :| 0 <= a < |r| && r[a] == x;
      var a' := if a < it then a else a + 1;
      assert r[a] == keys[a'];
    }
    forall x | x in keys && x != k ensures x in r {
      var a :| 0 <= a < |keys| && keys[a] == x;
      if a < it { assert r[a] == x; } else { assert r[a - 1] == x; }
    }
  }

  class OrderedSet<T> {
    /** `dynamic_array`: the owning pointers, in vector order. */
    var keys: seq<Key>
    /** The objects owned through those pointers. */
    var objects: map<Key, T>
    /** The value of a default-constructed T (what `std::make_unique<T>()` builds). */
    const init: T

    function Model(): Store<T>
      reads this
    {
      Store(keys, objects)
    }

    ghost predicate Valid()
      reads this
    {
      WellFormed(Model())
    }

    predicate Sorted()
      reads this
    {
      StrictlyIncreasing(keys)
    }

    constructor (init: T)
      ensures Valid() && Sorted()
      ensures keys == [] && objects == map[] && this.init == init
    {
      keys := [];
      objects := map[];
      this.init := init;
    }

    /** `end()`: the position one past the last element. */
    function End(): nat
      reads this
    {
      |keys|
    }

    /** `begin()`: the first position; it is `end()` exactly when the set is empty. */
    function Begin(): (it: nat)
      reads this
      requires Valid()
      ensures it == End() <==> objects == map[]
    {
      assert |keys| > 0 ==> keys[0] in objects;
      0
    }

    /** `empty()`. */
    function Empty(): (b: bool)
      reads this
      requires Valid()
      ensures b <==> objects == map[]
    {
      assert |keys| > 0 ==> keys[0] in objects;
      |keys| == 0
    }

    /** The search loop of `find` (a copy of `std::lower_bound`). It always stops, since
        `count` shrinks; on an ordered vector it returns the first position whose key is not
        below `t`. */
    method LowerBound(t: Key) returns (first: nat)
      requires Valid()
      ensures first <= End()
      ensures Sorted() ==> first == LowerBoundOf(keys, t)
      ensures (forall k :: k in keys ==> t <= k) ==> first == 0
    {
      first := 0;
      var count: nat := |keys|;
      while count > 0
        invariant first + count <= |keys|
        invariant Sorted() ==> forall j :: 0 <= j < first ==> keys[j] < t
        invariant Sorted() ==> forall j :: first + count <= j < |keys| ==> t <= keys[j]
        invariant (forall k :: k in keys ==> t <= k) ==> first == 0
        decreases count
      {
        var step := count / 2;
        var it := first + step;
        if keys[it] < t {
          assert keys[it] in keys;
          first := it + 1;
          count := count - (step + 1);
        } else {
          count := step;
        }
      }
      if Sorted() {
        LowerBoundUnique(keys, t, first);
      }
    }

    /** `find(t)`: the position holding `t`, or `end()`. Any position it reports holds `t`;
        on an ordered vector it reports `end()` only when `t` is absent. */
    method Find(t: Key) returns (it: nat)
      requires Valid()
      ensures it == End() || (it < End() && keys[it] == t)
      ensures Sorted() ==> (it == End() <==> t !in keys)
    {
      var first := LowerBound(t);
      if first != |keys| && keys[first] == t {
        return first;
      }
      if Sorted() {
        forall j | first < j < |keys| ensures keys[j] != t {
          assert keys[first] < keys[j];
        }
      }
      return |keys|;
    }

    /** `create_new()`: allocate a default T at the fresh address `key` and insert it at the
        position `find` reports. `find` sees every stored key only on an ordered vector, so
        the caller brings either an ordered vector or an address not yet stored (which is
        what `std::make_unique` hands out). */
    method CreateNew(key: Key) returns (r: Result<Key>)
      requires Valid()
      requires Sorted() || key !in keys
      modifies this
      ensures Valid()
      ensures r.Err? <==> key in old(keys)
      ensures r.Err? ==> r.error == DuplicateKey && keys == old(keys) && objects == old(objects)
      ensures r.Ok? ==> r.value == key && Model() == AppendNew(old(Model()), key, init)
      ensures r.Ok? ==> (Sorted() <==> old(Sorted()) && forall k :: k in old(keys) ==> k < key)
    {
      var it := Find(key);
      if it == |keys| || keys[it] < key {
        AppendNewOrdered(Model(), key, init);
        AppendNewWellFormed(Model(), key, init);
        assert keys[..it] + [key] + keys[it..] == keys + [key];
        keys := keys[..it] + [key] + keys[it..];
        objects := objects[key := init];
        return Ok(key);
      }
      return Err(DuplicateKey);
    }

    /** `create_new()` as evidently intended: insert at the lower bound of the new address so
        that the vector stays ordered. */
    method CreateNewOrdered(key: Key) returns (r: Result<Key>)
      requires Valid() && Sorted()
      modifies this
      ensures Valid() && Sorted()
      ensures r.Err? <==> key in old(keys)
      ensures r.Err? ==> r.error == DuplicateKey && keys == old(keys) && objects == old(objects)
      ensures r.Ok? ==> r.value == key && Model() == InsertNew(old(Model()), key, init)
    {
      var it := LowerBound(key);
      if it < |keys| && keys[it] == key {
        return Err(DuplicateKey);
      }
      assert key !in keys by {
        forall j | 0 <= j < |keys| ensures keys[j] != key {
          assert j < it ==> keys[j] < key;
          assert it < j ==> keys[it] < keys[j];
        }
      }
      InsertNewWellFormed(Model(), key, init);
      keys := keys[..it] + [key] + keys[it..];
      objects := objects[key := init];
      return Ok(key);
    }

    /** `insert_ordered_unique(batch)`: new elements at fresh addresses, given in address
        order, are appended and the two ranges merged in place. */
    method InsertOrderedUnique(batch: seq<(Key, T)>)
      requires Valid() && Sorted()
      requires StrictlyIncreasing(BatchKeys(batch))
      requires forall k :: k in BatchKeys(batch) ==> k !in keys
      modifies this
      ensures Valid() && Sorted()
      ensures Model() == MergeBatch(old(Model()), batch)
      ensures |keys| == old(|keys|) + |batch|
    {
      var oldSize := |keys|;
      MergeBatchValid(Model(), batch);
      var appended := keys + BatchKeys(batch);
      assert appended[..oldSize] == keys && appended[oldSize..] == BatchKeys(batch);
      keys := Merge(appended[..oldSize], appended[oldSize..]);
      objects := objects + BatchObjects(batch);
    }

    /** `insert(batch)`: sort the batch by address, then merge it in. At the level of
        addresses the batch is already duplicate-free (each element gets its own new
        address), so the `std::unique` step removes nothing. */
    method Insert(batch: seq<(Key, T)>)
      requires Valid() && Sorted()
      requires DistinctKeys(batch)
      requires forall i :: 0 <= i < |batch| ==> batch[i].0 !in keys
      modifies this
      ensures Valid() && Sorted()
      ensures Model() == MergeBatch(old(Model()), SortByKey(batch))
      ensures |keys| == old(|keys|) + |batch|
    {
      var sorted := SortByKey(batch);
      SortByKeyIncreasing(batch);
      forall k | k in BatchKeys(sorted) ensures k !in keys {
        var i :| 0 <= i < |sorted| && BatchKeys(sorted)[i] == k;
        assert sorted[i] in multiset(batch);
        var j :| 0 <= j < |batch| && batch[j] == sorted[i];
      }
      InsertOrderedUnique(sorted);
    }

    /** `remove(it)`: erase the element at position `it`. */
    method RemoveAt(it: nat)
      requires Valid() && it < End()
      modifies this
      ensures Valid()
      ensures keys == old(keys[..it] + keys[it + 1..])
      ensures objects == old(objects) - {old(keys[it])}
      ensures old(Sorted()) ==> Sorted()
    {
      var k := keys[it];
      var r := keys[..it] + keys[it + 1..];
      EraseWellFormed(Model(), it);
      if Sorted() {
        RemoveAtOrdered(keys, it);
      }
      keys := r;
      objects := objects - {k};
    }

    /** `remove(T* value)` as written: `std::lower_bound` searches for the address `probe` of
        the freshly allocated `std::make_unique<T>(nullptr)` and the element found there is
        erased. `std::lower_bound` needs a vector ordered by address, and erasing `end()`
        (a probe above every stored address) is undefined. */
    method RemovePointer(value: Key, probe: Key)
      requires Valid() && Sorted()
      requires probe != 0 && probe !in keys
      requires LowerBoundOf(keys, probe) < End()
      modifies this
      ensures Valid() && Sorted()
      ensures Model() == RemovePointerAsWritten(old(Model()), value, probe)
    {
      var it := LowerBound(probe);
      RemoveAt(it);
    }

    /** `remove(T* value)` as evidently intended: erase the element whose address is
        `value`, or report that there is none. */
    method RemoveKey(value: Key) returns (r: Result<()>)
      requires Valid() && Sorted()
      modifies this
      ensures Valid() && Sorted()
      ensures r.Ok? <==> value in old(keys)
      ensures r.Err? ==> r.error == NotFound && keys == old(keys) && objects == old(objects)
      ensures forall k :: k in keys <==> k in old(keys) && k != value
      ensures objects == old(objects) - {value}
    {
      var it := Find(value);
      if it == |keys| {
        assert value !in objects;
        assert objects - {value} == objects;
        return Err(NotFound);
      }
      RemoveAt(it);
      return Ok(());
    }

    /** `all_satisfying(p, o)`: the projections `o` of the elements satisfying `p`, in set
        order, in a fresh sequence; the set is not modified. */
    method AllSatisfying<U>(p: T -> bool, o: (Key, T) -> U) returns (desiderata: seq<U>)
      requires Valid()
      ensures desiderata == Satisfying(keys, objects, p, o)
      ensures |desiderata| <= End()
    {
      desiderata := [];
      for i := 0 to |keys|
        invariant desiderata == Satisfying(keys[..i], objects, p, o)
      {
        var k := keys[i];
        assert keys[..i + 1][..i] == keys[..i];
        if p(objects[k]) {
          desiderata := desiderata + [o(k, objects[k])];
        }
      }
      assert keys[..|keys|] == keys;
    }

    /** `clear()`: every element is destroyed. */
    method Clear()
      requires Valid()
      modifies this
      ensures Valid() && Sorted()
      ensures keys == [] && objects == map[]
    {
      keys := [];
      objects := map[];
    }
  }
}
