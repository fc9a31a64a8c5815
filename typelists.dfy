/** Compile-time type lists (namespace ListsViaTypes).
    A pack of types `TypeList<Ts...>` becomes a sequence; a component type becomes
    whatever element type the caller uses (the ECS uses natural-number tags).
    Partial specialisations become case splits, pack expansions become recursion. */
module TypeLists {

  /** 2 to the power n. */
  function Pow2(n: nat): (r: nat)
    ensures r >= 1
  {
    if n == 0 then 1 else 2 * Pow2(n - 1)
  }

  /** No element occurs twice. */
  ghost predicate Distinct<T>(s: seq<T>) {
    forall i, j :: 0 <= i < |s| && 0 <= j < |s| && i != j ==> s[i] != s[j]
  }

  /** `a` can be obtained from `b` by deleting elements (order kept). */
  ghost predicate IsSubsequence<T>(a: seq<T>, b: seq<T>)
    decreases |b|
  {
    if a == [] then true
    else if b == [] then false
    else (a[0] == b[0] && IsSubsequence(a[1..], b[1..])) || IsSubsequence(a, b[1..])
  }

  // ---------------------------------------------------------------------------
  // Members of TypeList<Types...>
  // ---------------------------------------------------------------------------

  /** `Indexer<T, Ts...>` / `get_index_of<T>()`: 0 when T heads the pack, otherwise one more
      than its index in the tail. There is no case for an empty pack, so T must occur. */
  function IndexOf<T(==)>(s: seq<T>, x: T): (i: nat)
    requires x in s
    ensures i < |s| && s[i] == x
    ensures forall j :: 0 <= j < i ==> s[j] != x
  {
    if s[0] == x then 0 else 1 + IndexOf(s[1..], x)
  }

  /** `contains<T>()`: the disjunction of `is_same<T, Types>` over the pack. */
  function Contains<T(==)>(s: seq<T>, x: T): (b: bool)
    ensures b <==> x in s
  {
    if s == [] then false else s[0] == x || Contains(s[1..], x)
  }

  /** `contains_all<Ts...>()`: the conjunction of `contains<T>()` over `ts`. */
  function ContainsAll<T(==)>(s: seq<T>, ts: seq<T>): (b: bool)
    ensures b <==> forall t :: t in ts ==> t in s
  {
    if ts == [] then true else Contains(s, ts[0]) && ContainsAll(s, ts[1..])
  }

  /** `prepend<T>`. */
  function Prepend<T>(s: seq<T>, x: T): (r: seq<T>)
    ensures |r| == |s| + 1 && r[0] == x && r[1..] == s
  {
    [x] + s
  }

  /** `append<T>`. */
  function Append<T>(s: seq<T>, x: T): (r: seq<T>)
    ensures |r| == |s| + 1 && r[|s|] == x && r[..|s|] == s
  {
    s + [x]
  }

  /** `apply_to_each<Functional>`: `TypeList<Functional<Types>...>`. */
  function ApplyToEach<T, U>(s: seq<T>, f: T -> U): (r: seq<U>)
    ensures |r| == |s|
  {
    if s == [] then [] else [f(s[0])] + ApplyToEach(s[1..], f)
  }

  /** Entry `i` of `apply_to_each<f>` is `f` of entry `i`. */
  lemma {:induction false} ApplyToEachAt<T, U>(s: seq<T>, f: T -> U, i: nat)
    requires i < |s|
    ensures ApplyToEach(s, f)[i] == f(s[i])
  {
    if i > 0 {
      ApplyToEachAt(s[1..], f, i - 1);
    }
  }

  /** `call_on_each_type(f)`: a comma fold that calls `f` once per type, left to right.
      The effect of one call is modelled as the sequence of events it produces, so the
      effect of the fold is their concatenation in pack order. */
  function CallOnEachType<T, U>(s: seq<T>, f: T -> seq<U>): seq<U> {
    if s == [] then [] else f(s[0]) + CallOnEachType(s[1..], f)
  }

  /** What the fold produces is what the calls produce: every event comes from the call on
      some type of the list, and every call's events are in the result. */
  lemma {:induction false} CallOnEachTypeMembers<T, U>(s: seq<T>, f: T -> seq<U>)
    ensures forall u :: u in CallOnEachType(s, f) ==> exists i :: 0 <= i < |s| && u in f(s[i])
    ensures forall i, u :: 0 <= i < |s| && u in f(s[i]) ==> u in CallOnEachType(s, f)
  {
    if s != [] {
      var rest := CallOnEachType(s[1..], f);
      CallOnEachTypeMembers(s[1..], f);
      assert CallOnEachType(s, f) == f(s[0]) + rest;
      forall u | u in CallOnEachType(s, f) ensures exists i :: 0 <= i < |s| && u in f(s[i]) {
        if u !in f(s[0]) {
          var j :| 0 <= j < |s[1..]| && u in f(s[1..][j]);
          assert s[1..][j] == s[j + 1];
        }
      }
      forall i, u | 0 <= i < |s| && u in f(s[i]) ensures u in CallOnEachType(s, f) {
        if i > 0 {
          assert s[1..][i - 1] == s[i];
        }
      }
    }
  }

  /** The calls of a fold over `a + b` are those over `a` followed by those over `b`. */
  lemma {:induction false} CallOnEachTypeSplit<T, U>(a: seq<T>, b: seq<T>, f: T -> seq<U>)
    ensures CallOnEachType(a + b, f) == CallOnEachType(a, f) + CallOnEachType(b, f)
  {
    if a != [] {
      assert (a + b)[0] == a[0];
      assert (a + b)[1..] == a[1..] + b;
      CallOnEachTypeSplit(a[1..], b, f);
      assert CallOnEachType(a + b, f) == f(a[0]) + CallOnEachType(a[1..] + b, f);
      assert CallOnEachType(a, f) == f(a[0]) + CallOnEachType(a[1..], f);
    } else {
      assert a + b == b;
    }
  }

  /** When the calls are on pairwise distinct types, each call produces distinct events and
      no two calls share an event, every event of the fold occurs exactly once. */
  lemma {:induction false} CallOnEachTypeDistinct<T, U>(s: seq<T>, f: T -> seq<U>)
    requires Distinct(s)
    requires forall i :: 0 <= i < |s| ==> Distinct(f(s[i]))
    requires forall i, j, u :: 0 <= i < |s| && 0 <= j < |s| && i != j && u in f(s[i]) ==> u !in f(s[j])
    ensures Distinct(CallOnEachType(s, f))
  {
    if s != [] {
      var rest := CallOnEachType(s[1..], f);
      forall i | 0 <= i < |s[1..]| ensures Distinct(f(s[1..][i])) {
        assert s[1..][i] == s[i + 1];
      }
      forall i, j, u | 0 <= i < |s[1..]| && 0 <= j < |s[1..]| && i != j && u in f(s[1..][i])
        ensures u !in f(s[1..][j])
      {
        assert s[1..][i] == s[i + 1] && s[1..][j] == s[j + 1];
      }
      CallOnEachTypeDistinct(s[1..], f);
      var head := f(s[0]);
      assert Distinct(head);
      CallOnEachTypeMembers(s[1..], f);
      forall u | u in head ensures u !in rest {
        forall i | 0 <= i < |s[1..]| ensures u !in f(s[1..][i]) {
          assert s[1..][i] == s[i + 1];
        }
      }
      var r := head + rest;
      forall i, j | 0 <= i < |r| && 0 <= j < |r| && i != j ensures r[i] != r[j] {
        if i < |head| && j >= |head| {
          assert r[i] == head[i] && r[j] == rest[j - |head|];
          assert head[i] in head && rest[j - |head|] in rest;
        } else if j < |head| && i >= |head| {
          assert r[j] == head[j] && r[i] == rest[i - |head|];
          assert head[j] in head && rest[i - |head|] in rest;
        } else if i < |head| {
          assert r[i] == head[i] && r[j] == head[j];
        } else {
          assert r[i] == rest[i - |head|] && r[j] == rest[j - |head|];
        }
      }
    }
  }

  // ---------------------------------------------------------------------------
  // Free-standing list algebra
  // ---------------------------------------------------------------------------

  /** `Concatenate<TypeList<A...>, TypeList<B...>>`: the elements of the first list
      followed by those of the second. */
  function Concatenate<T>(a: seq<T>, b: seq<T>): (r: seq<T>)
    ensures |r| == |a| + |b|
    ensures r[..|a|] == a && r[|a|..] == b
  {
    a + b
  }

  /** `Reverser`: `[T]` is its own reverse; `T, Ts...` becomes `reverse(Ts...) ++ [T]`.
      There is no case for the empty list. */
  function Reverse<T>(s: seq<T>): (r: seq<T>)
    requires |s| > 0
    ensures |r| == |s|
  {
    if |s| == 1 then s else Concatenate(Reverse(s[1..]), [s[0]])
  }

  /** The k-th element of the reverse is the k-th element from the back. */
  lemma {:induction false} ReverseAt<T>(s: seq<T>, k: nat)
    requires k < |s|
    ensures Reverse(s)[k] == s[|s| - 1 - k]
  {
    if |s| > 1 && k < |s| - 1 {
      ReverseAt(s[1..], k);
    }
  }

  /** Reversing a (non-empty) list twice gives it back. */
  lemma {:induction false} ReverseInvolutive<T>(s: seq<T>)
    requires |s| > 0
    ensures Reverse(Reverse(s)) == s
  {
    var r := Reverse(s);
    forall k | 0 <= k < |s| ensures Reverse(r)[k] == s[k] {
      ReverseAt(r, k);
      ReverseAt(s, |s| - 1 - k);
    }
  }

  /** `RepeatRemover`: an element is dropped when it occurs again further on, so the last
      occurrence of every element is the one kept. There is no case for the empty list. */
  function RemoveRepeats<T(==)>(s: seq<T>): seq<T>
    requires |s| > 0
  {
    if |s| == 1 then s
    else
      var rest := RemoveRepeats(s[1..]);
      if Contains(s[1..], s[0]) then rest else Concatenate([s[0]], rest)
  }

  /** `RepeatRemover` keeps exactly the elements of its input, each once. */
  lemma {:induction false} RemoveRepeatsSpec<T>(s: seq<T>)
    requires |s| > 0
    ensures Distinct(RemoveRepeats(s))
    ensures forall x :: x in RemoveRepeats(s) <==> x in s
  {
    if |s| > 1 {
      var rest := RemoveRepeats(s[1..]);
      RemoveRepeatsSpec(s[1..]);
      assert forall x :: x in s <==> x == s[0] || x in s[1..] by {
        HeadTail(s);
      }
      if !Contains(s[1..], s[0]) {
        var r := [s[0]] + rest;
        assert RemoveRepeats(s) == r;
        assert forall i :: 1 <= i < |r| ==> r[i] == rest[i - 1];
        forall i, j | 0 <= i < |r| && 0 <= j < |r| && i != j ensures r[i] != r[j] {
          if i > 0 && j > 0 {
            assert r[i] == rest[i - 1] && r[j] == rest[j - 1];
          } else if i > 0 {
            assert r[i] in rest;
          } else {
            assert r[j] in rest;
          }
        }
      }
    }
  }

  /** The position of the last occurrence of `x` in `s`. */
  function LastIndexOf<T(==)>(s: seq<T>, x: T): (i: nat)
    requires x in s
    ensures i < |s| && s[i] == x
    ensures forall j :: i < j < |s| ==> s[j] != x
  {
    if s[|s| - 1] == x then |s| - 1
    else
      assert x in s[..|s| - 1] by {
        var k :| 0 <= k < |s| && s[k] == x;
        assert s[..|s| - 1][k] == x;
      }
      LastIndexOf(s[..|s| - 1], x)
  }

  /** Dropping the head shifts the last occurrence of a later element by one, and an element
      that occurs only at the head last occurs at position 0. */
  lemma LastIndexOfTail<T>(s: seq<T>, x: T)
    requires |s| > 1 && x in s
    ensures x in s[1..] ==> LastIndexOf(s, x) == LastIndexOf(s[1..], x) + 1
    ensures x !in s[1..] ==> LastIndexOf(s, x) == 0
  {
    var m := LastIndexOf(s, x);
    forall j | 1 <= j < |s| ensures s[j] == s[1..][j - 1] {}
    if x in s[1..] {
      var k := LastIndexOf(s[1..], x);
      assert s[k + 1] == x;
    }
  }

  /** Every element `RepeatRemover` keeps comes from its input. */
  lemma RemoveRepeatsElement<T>(s: seq<T>, x: T)
    requires |s| > 0 && x in RemoveRepeats(s)
    ensures x in s
  {
    RemoveRepeatsSpec(s);
  }

  /** Last occurrences in the tail of a sequence keep their order in the whole. */
  lemma LastIndexShift<T>(s: seq<T>, x: T, y: T)
    requires |s| > 1 && x in s[1..] && y in s[1..]
    requires LastIndexOf(s[1..], x) < LastIndexOf(s[1..], y)
    ensures x in s && y in s && LastIndexOf(s, x) < LastIndexOf(s, y)
  {
    LastIndexOfTail(s, x);
    LastIndexOfTail(s, y);
  }

  /** A head that does not occur again comes before every last occurrence in the tail. */
  lemma LastIndexHead<T>(s: seq<T>, y: T)
    requires |s| > 1 && s[0] !in s[1..] && y in s[1..]
    ensures y in s && LastIndexOf(s, s[0]) < LastIndexOf(s, y)
  {
    LastIndexOfTail(s, s[0]);
    LastIndexOfTail(s, y);
  }

  /** Of two kept elements, the earlier one occurs last earlier in the input. */
  lemma {:induction false} RemoveRepeatsPairOrder<T>(s: seq<T>, i: nat, j: nat)
    requires |s| > 0 && i < j < |RemoveRepeats(s)|
    ensures RemoveRepeats(s)[i] in s && RemoveRepeats(s)[j] in s
    ensures LastIndexOf(s, RemoveRepeats(s)[i]) < LastIndexOf(s, RemoveRepeats(s)[j])
  {
    var r := RemoveRepeats(s);
    if |s| > 1 {
      var rest := RemoveRepeats(s[1..]);
      if Contains(s[1..], s[0]) {
        assert r == rest;
        RemoveRepeatsPairOrder(s[1..], i, j);
        LastIndexShift(s, rest[i], rest[j]);
      } else {
        assert r == [s[0]] + rest;
        assert r[j] == rest[j - 1];
        if i == 0 {
          assert r[i] == s[0];
          RemoveRepeatsElement(s[1..], rest[j - 1]);
          LastIndexHead(s, rest[j - 1]);
        } else {
          assert r[i] == rest[i - 1];
          RemoveRepeatsPairOrder(s[1..], i - 1, j - 1);
          LastIndexShift(s, rest[i - 1], rest[j - 1]);
        }
      }
    }
  }

  /** `RepeatRemover` keeps the last occurrence of every element: one kept element comes
      before another exactly when its last occurrence in the input does. With
      `RemoveRepeatsSpec` this fixes the result. */
  lemma RemoveRepeatsKeepsLast<T>(s: seq<T>)
    requires |s| > 0
    ensures forall i :: 0 <= i < |RemoveRepeats(s)| ==> RemoveRepeats(s)[i] in s
    ensures var r := RemoveRepeats(s);
            forall i, j :: 0 <= i < |r| && 0 <= j < |r| ==>
              (i < j <==> LastIndexOf(s, r[i]) < LastIndexOf(s, r[j]))
  {
    var r := RemoveRepeats(s);
    forall i | 0 <= i < |r| ensures r[i] in s {
      RemoveRepeatsElement(s, r[i]);
    }
    forall i, j | 0 <= i < |r| && 0 <= j < |r|
      ensures i < j <==> LastIndexOf(s, r[i]) < LastIndexOf(s, r[j])
    {
      if i < j {
        RemoveRepeatsPairOrder(s, i, j);
      } else if j < i {
        RemoveRepeatsPairOrder(s, j, i);
      }
    }
  }

  /** A non-empty list is its head followed by its tail. */
  lemma HeadTail<T>(s: seq<T>)
    requires |s| > 0
    ensures [s[0]] + s[1..] == s
  {
  }

  /** Removing repeats from a duplicate-free list changes nothing. */
  lemma {:induction false} RemoveRepeatsOfDistinct<T>(s: seq<T>)
    requires |s| > 0 && Distinct(s)
    ensures RemoveRepeats(s) == s
  {
    if |s| > 1 {
      assert s[0] !in s[1..] by {
        forall j | 0 <= j < |s[1..]| ensures s[1..][j] != s[0] {
          assert s[1..][j] == s[j + 1];
        }
      }
      assert Distinct(s[1..]) by {
        forall i, j | 0 <= i < |s[1..]| && 0 <= j < |s[1..]| && i != j
          ensures s[1..][i] != s[1..][j]
        {
          assert s[1..][i] == s[i + 1] && s[1..][j] == s[j + 1];
        }
      }
      RemoveRepeatsOfDistinct(s[1..]);
      HeadTail(s);
    }
  }

  /** What `RepeatRemover` keeps is a subsequence of its input, in input order. */
  lemma {:induction false} RemoveRepeatsIsSubsequence<T>(s: seq<T>)
    requires |s| > 0
    ensures IsSubsequence(RemoveRepeats(s), s)
  {
    if |s| == 1 {
      assert IsSubsequence(s[1..], s[1..]);
    } else {
      RemoveRepeatsIsSubsequence(s[1..]);
      var rest := RemoveRepeats(s[1..]);
      if Contains(s[1..], s[0]) {
        SubsequenceOfTail(rest, s);
      } else {
        var r := [s[0]] + rest;
        assert r[1..] == rest;
      }
    }
  }

  /** A subsequence of the tail is a subsequence of the whole list. */
  lemma SubsequenceOfTail<T>(a: seq<T>, s: seq<T>)
    requires |s| > 0 && IsSubsequence(a, s[1..])
    ensures IsSubsequence(a, s)
  {
  }

  /** Every element of a subsequence is an element of the list. */
  lemma {:induction false} SubsequenceElements<T>(a: seq<T>, b: seq<T>)
    requires IsSubsequence(a, b)
    ensures forall x :: x in a ==> x in b
    decreases |b|
  {
    if a != [] && b != [] {
      if a[0] == b[0] && IsSubsequence(a[1..], b[1..]) {
        SubsequenceElements(a[1..], b[1..]);
        assert forall x :: x in a ==> x == a[0] || x in a[1..];
      } else {
        SubsequenceElements(a, b[1..]);
      }
    }
  }

  // ---------------------------------------------------------------------------
  // Power set
  // ---------------------------------------------------------------------------

  /** `PowersetComputer`: `[T]` gives `[[], [T]]`; `T, Ts...` gives the subsets of `Ts...`
      followed by the same subsets with T prepended. The primary template (a non-list, or
      the empty list) yields `void`, on which nothing further can be built. */
  function Powerset<T>(s: seq<T>): (p: seq<seq<T>>)
    requires |s| > 0
    ensures |p| == Pow2(|s|)
  {
    if |s| == 1 then [[], [s[0]]]
    else
      var withoutFirst := Powerset(s[1..]);
      var withFirst := ApplyToEach(withoutFirst, (r: seq<T>) => Prepend(r, s[0]));
      Concatenate(withoutFirst, withFirst)
  }

  /** The two halves of `Powerset(s)` for a list of length two or more. */
  lemma PowersetHalves<T>(s: seq<T>, i: nat)
    requires |s| > 1 && i < |Powerset(s)|
    ensures var w := Powerset(s[1..]);
            |Powerset(s)| == 2 * |w| &&
            Powerset(s)[i] == if i < |w| then w[i] else [s[0]] + w[i - |w|]
  {
    var w := Powerset(s[1..]);
    var withFirst := ApplyToEach(w, (r: seq<T>) => Prepend(r, s[0]));
    assert Powerset(s) == w + withFirst;
    if i >= |w| {
      ApplyToEachAt(w, (r: seq<T>) => Prepend(r, s[0]), i - |w|);
      assert Powerset(s)[i] == Prepend(w[i - |w|], s[0]);
    }
  }

  /** Every entry of the power set is a subsequence of the input, in input order. */
  lemma {:induction false} PowersetSound<T>(s: seq<T>, i: nat)
    requires |s| > 0 && i < |Powerset(s)|
    ensures IsSubsequence(Powerset(s)[i], s)
  {
    if |s| == 1 {
      assert IsSubsequence(s[1..], s[1..]);
    } else {
      var w := Powerset(s[1..]);
      PowersetHalves(s, i);
      if i < |w| {
        PowersetSound(s[1..], i);
        SubsequenceOfTail(w[i], s);
      } else {
        PowersetSound(s[1..], i - |w|);
        var a := [s[0]] + w[i - |w|];
        assert a[1..] == w[i - |w|];
      }
    }
  }

  /** Every subsequence of the input is an entry of the power set. */
  lemma {:induction false} PowersetComplete<T>(s: seq<T>, a: seq<T>)
    requires |s| > 0 && IsSubsequence(a, s)
    ensures a in Powerset(s)
  {
    if |s| == 1 {
      if a != [] {
        assert s[1..] == [];
        assert !IsSubsequence(a, s[1..]);
        assert IsSubsequence(a[1..], s[1..]);
        assert a[1..] == [];
        assert a == [s[0]];
      }
    } else if a != [] && a[0] == s[0] && IsSubsequence(a[1..], s[1..]) {
      PowersetComplete(s[1..], a[1..]);
      PowersetHasPrepended(s, a[1..]);
      assert a == [s[0]] + a[1..];
    } else {
      PowersetComplete(s[1..], a);
      PowersetHasTailEntry(s, a);
    }
  }

  /** Each subset of the tail is a subset of the list. */
  lemma PowersetHasTailEntry<T>(s: seq<T>, a: seq<T>)
    requires |s| > 1 && a in Powerset(s[1..])
    ensures a in Powerset(s)
  {
    var w := Powerset(s[1..]);
    var j :| 0 <= j < |w| && w[j] == a;
    PowersetHalves(s, j);
    assert Powerset(s)[j] == a;
  }

  /** Each subset of the tail, with the head prepended, is a subset of the list. */
  lemma PowersetHasPrepended<T>(s: seq<T>, a: seq<T>)
    requires |s| > 1 && a in Powerset(s[1..])
    ensures [s[0]] + a in Powerset(s)
  {
    var w := Powerset(s[1..]);
    var j :| 0 <= j < |w| && w[j] == a;
    PowersetHalves(s, |w| + j);
    assert Powerset(s)[|w| + j] == [s[0]] + a;
  }

  /** Over a duplicate-free list the power set has no repeated entry. */
  lemma {:induction false} PowersetDistinct<T>(s: seq<T>)
    requires |s| > 0 && Distinct(s)
    ensures Distinct(Powerset(s))
  {
    if |s| > 1 {
      var t := s[1..];
      assert Distinct(t) by {
        forall i, j | 0 <= i < |t| && 0 <= j < |t| && i != j ensures t[i] != t[j] {
          assert t[i] == s[i + 1] && t[j] == s[j + 1];
        }
      }
      assert s[0] !in t by {
        forall j | 0 <= j < |t| ensures t[j] != s[0] {
          assert t[j] == s[j + 1];
        }
      }
      PowersetDistinct(t);
      var w := Powerset(t);
      var p := Powerset(s);
      forall i, j | 0 <= i < |p| && 0 <= j < |p| && i != j ensures p[i] != p[j] {
        PowersetHalves(s, i);
        PowersetHalves(s, j);
        if i < |w| && j < |w| {
        } else if i >= |w| && j >= |w| {
          assert p[i][1..] == w[i - |w|] && p[j][1..] == w[j - |w|];
        } else {
          var k := if i < |w| then i else j;
          PowersetSound(t, k);
          SubsequenceElements(w[k], t);
          assert s[0] !in w[k];
        }
      }
    }
  }

  /** The first entry of the power set is the empty list. */
  lemma {:induction false} PowersetFirst<T>(s: seq<T>)
    requires |s| > 0
    ensures Powerset(s)[0] == []
  {
    if |s| > 1 {
      PowersetFirst(s[1..]);
      PowersetHalves(s, 0);
    }
  }

  /** The last entry of the power set is the whole input. */
  lemma {:induction false} PowersetLast<T>(s: seq<T>)
    requires |s| > 0
    ensures Powerset(s)[|Powerset(s)| - 1] == s
  {
    if |s| > 1 {
      var t := s[1..];
      PowersetLast(t);
      var n := |Powerset(s)| - 1;
      PowersetHalves(s, n);
      assert Powerset(s)[n] == [s[0]] + t;
      HeadTail(s);
    }
  }

  /** `PowersetOf<List>`: the power set with repeats removed. */
  function PowersetOf<T(==)>(s: seq<T>): seq<seq<T>>
    requires |s| > 0
  {
    RemoveRepeats(Powerset(s))
  }

  /** `PowersetOf` lists no entry twice. */
  lemma PowersetOfDistinct<T>(s: seq<T>)
    requires |s| > 0
    ensures Distinct(PowersetOf(s))
  {
    RemoveRepeatsSpec(Powerset(s));
  }

  /** An entry belongs to `PowersetOf(s)` exactly when it is a subsequence of `s`. */
  lemma PowersetOfMembers<T>(s: seq<T>, a: seq<T>)
    requires |s| > 0
    ensures a in PowersetOf(s) <==> IsSubsequence(a, s)
  {
    if IsSubsequence(a, s) {
      PowersetComplete(s, a);
    }
    RemoveRepeatsSpec(Powerset(s));
    if a in Powerset(s) {
      var i :| 0 <= i < |Powerset(s)| && Powerset(s)[i] == a;
      PowersetSound(s, i);
    }
  }

  /** Over a duplicate-free universe, `PowersetOf` is the power set itself: `RepeatRemover`
      finds nothing to drop among its 2^n entries. */
  lemma PowersetOfDistinctUniverse<T>(s: seq<T>)
    requires |s| > 0 && Distinct(s)
    ensures PowersetOf(s) == Powerset(s)
    ensures |PowersetOf(s)| == Pow2(|s|)
  {
    PowersetDistinct(s);
    RemoveRepeatsOfDistinct(Powerset(s));
  }

  // ---------------------------------------------------------------------------
  // ContainsAll<L, R>
  // ---------------------------------------------------------------------------

  /** A template argument: a `TypeList<...>`, or some other type. */
  datatype TypeArg<T> = ListArg(elements: seq<T>) | OtherArg

  /** `ContainsAllHelper<L, R>` / `ContainsAll<L, R>`: false unless both arguments are type
      lists, and then whether L contains every element of R. */
  function ContainsAllHelper<T(==)>(l: TypeArg<T>, r: TypeArg<T>): (b: bool)
    ensures b <==> l.ListArg? && r.ListArg? && forall x :: x in r.elements ==> x in l.elements
  {
    match (l, r)
    case (ListArg(ls), ListArg(rs)) => ContainsAll(ls, rs)
    case _ => false
  }
}
