/** Python's `sorted`: a stable sort under a total preorder.

    `sorted(xs, key=k)` orders by `k(x) <= k(y)`, and with `reverse=True` by
    `k(y) <= k(x)`; either way it is stable, so elements the order ranks equal
    keep their input order. Here the order is a relation `le` on elements
    ("`a` may come before `b`"), the sort is an insertion sort, and
    `SortIsTheStableSort` shows that any stable sort yields the same list. */
module Sorting {

  /** `le` is total and transitive: the order a sort key induces. */
  ghost predicate TotalPreorder<T(!new)>(le: (T, T) -> bool)
  {
    && (forall a, b :: le(a, b) || le(b, a))
    && (forall a, b, c :: le(a, b) && le(b, c) ==> le(a, c))
  }

  /** A total preorder in which only equal elements rank equal. */
  ghost predicate TotalOrder<T(!new)>(le: (T, T) -> bool)
  {
    && TotalPreorder(le)
    && (forall a, b :: le(a, b) && le(b, a) ==> a == b)
  }

  predicate Sorted<T>(s: seq<T>, le: (T, T) -> bool)
  {
    forall i, j :: 0 <= i < j < |s| ==> le(s[i], s[j])
  }

  /** `a` and `b` have the same rank under `le` (for a sort key: equal keys). */
  predicate Equiv<T>(le: (T, T) -> bool, a: T, b: T)
  {
    le(a, b) && le(b, a)
  }

  /** The elements of `s` ranked equal to `e`, in their order in `s`. */
  function Class<T>(s: seq<T>, le: (T, T) -> bool, e: T): seq<T>
  {
    if |s| == 0 then [] else (if Equiv(le, s[0], e) then [s[0]] else []) + Class(s[1..], le, e)
  }

  /** `r` is what a stable sort of `s` under `le` returns: it is ordered, it
      has the same elements, and every group of equally ranked elements keeps
      the order it had in `s`. */
  ghost predicate StablySorted<T(!new)>(r: seq<T>, s: seq<T>, le: (T, T) -> bool)
  {
    && Sorted(r, le)
    && multiset(r) == multiset(s)
    && (forall e :: Class(r, le, e) == Class(s, le, e))
  }

  /** Places `x` after every leading element of `s` that may precede it. */
  function Insert<T>(s: seq<T>, x: T, le: (T, T) -> bool): seq<T>
  {
    if |s| == 0 then [x]
    else if le(s[0], x) then [s[0]] + Insert(s[1..], x, le)
    else [x] + s
  }

  /** Insertion adds `x` and nothing else. */
  lemma {:induction false} InsertElements<T>(s: seq<T>, x: T, le: (T, T) -> bool)
    ensures multiset(Insert(s, x, le)) == multiset(s) + multiset{x}
    ensures forall i :: 0 <= i < |Insert(s, x, le)| ==> Insert(s, x, le)[i] == x || Insert(s, x, le)[i] in s
  {
    if |s| > 0 && le(s[0], x) {
      InsertElements(s[1..], x, le);
      assert s == [s[0]] + s[1..];
      var t := Insert(s[1..], x, le);
      forall i | 0 <= i < |Insert(s, x, le)| ensures Insert(s, x, le)[i] == x || Insert(s, x, le)[i] in s {
        if i > 0 {
          assert Insert(s, x, le)[i] == t[i - 1];
        }
      }
    }
  }

  /** A head that may precede everything of a sorted tail keeps it sorted. */
  lemma ConsSorted<T>(h: T, t: seq<T>, le: (T, T) -> bool)
    requires Sorted(t, le)
    requires forall j :: 0 <= j < |t| ==> le(h, t[j])
    ensures Sorted([h] + t, le)
  {
    var r := [h] + t;
    forall i, j | 0 <= i < j < |r| ensures le(r[i], r[j]) {
      assert r[j] == t[j - 1];
      if i > 0 {
        assert r[i] == t[i - 1];
      }
    }
  }

  /** The head of a sorted sequence may precede every element of it. */
  lemma HeadPrecedes<T(!new)>(s: seq<T>, le: (T, T) -> bool, y: T)
    requires TotalPreorder(le)
    requires Sorted(s, le) && |s| > 0 && y in s
    ensures le(s[0], y)
  {
    var k :| 0 <= k < |s| && s[k] == y;
    assert k == 0 || le(s[0], s[k]);
  }

  /** Insertion into a sorted sequence keeps it sorted. */
  lemma {:induction false} InsertSorted<T(!new)>(s: seq<T>, x: T, le: (T, T) -> bool)
    requires TotalPreorder(le)
    requires Sorted(s, le)
    ensures Sorted(Insert(s, x, le), le)
  {
    if |s| > 0 && le(s[0], x) {
      var t := Insert(s[1..], x, le);
      InsertSorted(s[1..], x, le);
      InsertElements(s[1..], x, le);
      forall j | 0 <= j < |t| ensures le(s[0], t[j]) {
        if t[j] != x {
          assert t[j] in s;
          HeadPrecedes(s, le, t[j]);
        }
      }
      ConsSorted(s[0], t, le);
    } else if |s| > 0 {
      forall j | 0 <= j < |s| ensures le(x, s[j]) {
        HeadPrecedes(s, le, s[j]);
      }
      ConsSorted(x, s, le);
    }
  }

  /** Python's `sorted(s)` under `le`, stable. */
  function Sort<T(!new)>(s: seq<T>, le: (T, T) -> bool): (r: seq<T>)
    requires TotalPreorder(le)
    ensures StablySorted(r, s, le)
  {
    if |s| == 0 then []
    else
      var init := s[..|s| - 1];
      var r := Sort(init, le);
      assert init + [s[|s| - 1]] == s;
      InsertKeepsStable(r, init, s[|s| - 1], le);
      Insert(r, s[|s| - 1], le)
  }

  lemma {:induction false} ClassAppend<T(!new)>(a: seq<T>, b: seq<T>, le: (T, T) -> bool, e: T)
    ensures Class(a + b, le, e) == Class(a, le, e) + Class(b, le, e)
  {
    if |a| > 0 {
      var head := if Equiv(le, a[0], e) then [a[0]] else [];
      assert (a + b)[0] == a[0];
      assert (a + b)[1..] == a[1..] + b;
      assert Class(a + b, le, e) == head + Class(a[1..] + b, le, e);
      ClassAppend(a[1..], b, le, e);
      assert Class(a, le, e) == head + Class(a[1..], le, e);
    } else {
      assert a + b == b;
    }
  }

  /** Every element of `Class(s, le, e)` is an element of `s` ranked equal to `e`. */
  lemma {:induction false} ClassMembers<T(!new)>(s: seq<T>, le: (T, T) -> bool, e: T)
    ensures forall x :: x in Class(s, le, e) ==> x in s && Equiv(le, x, e)
  {
    if |s| > 0 {
      ClassMembers(s[1..], le, e);
    }
  }

  /** A rank group with no member in `s` is empty. */
  lemma {:induction false} ClassOfNone<T>(s: seq<T>, le: (T, T) -> bool, e: T)
    requires forall i :: 0 <= i < |s| ==> !Equiv(le, s[i], e)
    ensures Class(s, le, e) == []
  {
    if |s| > 0 {
      ClassOfNone(s[1..], le, e);
    }
  }

  /** In a sorted `s`, nothing ranks equal to an `x` that belongs before `s[0]`. */
  lemma ClassEmptyBeforeHead<T(!new)>(s: seq<T>, x: T, le: (T, T) -> bool, e: T)
    requires TotalPreorder(le)
    requires Sorted(s, le)
    requires |s| > 0 && !le(s[0], x)
    requires Equiv(le, x, e)
    ensures Class(s, le, e) == []
  {
    forall i | 0 <= i < |s| ensures !Equiv(le, s[i], e) {
      assert i == 0 || le(s[0], s[i]);
    }
    ClassOfNone(s, le, e);
  }

  lemma {:induction false} InsertClass<T(!new)>(s: seq<T>, x: T, le: (T, T) -> bool, e: T)
    requires TotalPreorder(le)
    requires Sorted(s, le)
    ensures Class(Insert(s, x, le), le, e) == Class(s, le, e) + Class([x], le, e)
  {
    if |s| == 0 {
    } else if le(s[0], x) {
      InsertUnfold(s, x, le);
      InsertClass(s[1..], x, le, e);
      InsertClassPast(s, x, le, e);
    } else {
      InsertClassFront(s, x, le, e);
    }
  }

  /** Associativity of `+`, as a lemma: Dafny knows it, but stating it as a
      call keeps the solver from searching for it in `InsertClassPast`. */
  lemma AppendAssoc<T>(a: seq<T>, b: seq<T>, c: seq<T>)
    ensures a + (b + c) == (a + b) + c
  {
  }

  /** Inserting past the head leaves the head in front. */
  lemma InsertUnfold<T(!new)>(s: seq<T>, x: T, le: (T, T) -> bool)
    requires TotalPreorder(le)
    requires Sorted(s, le)
    requires |s| > 0 && le(s[0], x)
    ensures Sorted(s[1..], le) && Insert(s, x, le) == [s[0]] + Insert(s[1..], x, le)
  {
  }

  /** A rank group splits at the head of the sequence. */
  lemma ClassCons<T>(s: seq<T>, le: (T, T) -> bool, e: T)
    requires |s| > 0
    ensures Class(s, le, e) == Class([s[0]], le, e) + Class(s[1..], le, e)
  {
    assert [s[0]][1..] == [];
  }

  lemma InsertClassPast<T(!new)>(s: seq<T>, x: T, le: (T, T) -> bool, e: T)
    requires TotalPreorder(le)
    requires Sorted(s, le)
    requires |s| > 0 && le(s[0], x)
    requires Sorted(s[1..], le)
    requires Class(Insert(s[1..], x, le), le, e) == Class(s[1..], le, e) + Class([x], le, e)
    ensures Class(Insert(s, x, le), le, e) == Class(s, le, e) + Class([x], le, e)
  {
    InsertUnfold(s, x, le);
    var u, t := Insert(s, x, le), Insert(s[1..], x, le);
    assert u[0] == s[0] && u[1..] == t;
    ClassCons(u, le, e);
    ClassCons(s, le, e);
    AppendAssoc(Class([s[0]], le, e), Class(s[1..], le, e), Class([x], le, e));
  }

  lemma InsertClassFront<T(!new)>(s: seq<T>, x: T, le: (T, T) -> bool, e: T)
    requires TotalPreorder(le)
    requires Sorted(s, le)
    requires |s| > 0 && !le(s[0], x)
    ensures Class(Insert(s, x, le), le, e) == Class(s, le, e) + Class([x], le, e)
  {
    assert Insert(s, x, le) == [x] + s;
    ClassAppend([x], s, le, e);
    if Equiv(le, x, e) {
      ClassEmptyBeforeHead(s, x, le, e);
    }
  }

  lemma InsertKeepsStable<T(!new)>(r: seq<T>, s: seq<T>, x: T, le: (T, T) -> bool)
    requires TotalPreorder(le)
    requires StablySorted(r, s, le)
    ensures StablySorted(Insert(r, x, le), s + [x], le)
  {
    InsertSorted(r, x, le);
    InsertElements(r, x, le);
    forall e ensures Class(Insert(r, x, le), le, e) == Class(s + [x], le, e) {
      InsertClass(r, x, le, e);
      ClassAppend(s, [x], le, e);
    }
  }

  /** The first element of a sequence starts its own rank group. */
  lemma ClassOfHead<T>(s: seq<T>, le: (T, T) -> bool)
    requires |s| > 0 && le(s[0], s[0])
    ensures Class(s, le, s[0]) != [] && Class(s, le, s[0])[0] == s[0]
  {
  }

  /** Some element of a rank group of `a` that is nonempty comes no earlier
      than `a`'s head. */
  lemma HeadComesFirst<T(!new)>(a: seq<T>, le: (T, T) -> bool, e: T)
    requires TotalPreorder(le)
    requires Sorted(a, le) && |a| > 0
    requires Class(a, le, e) != []
    ensures le(a[0], e)
  {
    ClassMembers(a, le, e);
    var y := Class(a, le, e)[0];
    assert y in Class(a, le, e);
    var i :| 0 <= i < |a| && a[i] == y;
    assert le(a[0], a[i]) || i == 0;
    assert Equiv(le, y, e);
  }

  /** Sorted sequences with the same rank groups start with the same element. */
  lemma SameHead<T(!new)>(a: seq<T>, b: seq<T>, le: (T, T) -> bool)
    requires TotalPreorder(le)
    requires Sorted(a, le) && Sorted(b, le) && |a| > 0 && |b| > 0
    requires forall e :: Class(a, le, e) == Class(b, le, e)
    ensures a[0] == b[0]
  {
    assert le(a[0], a[0]) && le(b[0], b[0]);
    ClassOfHead(a, le);
    ClassOfHead(b, le);
    assert Class(a, le, b[0]) == Class(b, le, b[0]);
    assert Class(b, le, a[0]) == Class(a, le, a[0]);
    HeadComesFirst(a, le, b[0]);
    HeadComesFirst(b, le, a[0]);
    assert Equiv(le, a[0], b[0]);
    ClassCons(a, le, a[0]);
    ClassCons(b, le, a[0]);
  }

  /** Dropping a common head keeps the rank groups equal. */
  lemma SameTailClasses<T(!new)>(a: seq<T>, b: seq<T>, le: (T, T) -> bool)
    requires |a| > 0 && |b| > 0 && a[0] == b[0]
    requires forall e :: Class(a, le, e) == Class(b, le, e)
    ensures forall e :: Class(a[1..], le, e) == Class(b[1..], le, e)
  {
    forall e ensures Class(a[1..], le, e) == Class(b[1..], le, e) {
      var head := Class([a[0]], le, e);
      ClassCons(a, le, e);
      ClassCons(b, le, e);
      assert (head + Class(a[1..], le, e))[|head|..] == Class(a[1..], le, e);
      assert (head + Class(b[1..], le, e))[|head|..] == Class(b[1..], le, e);
    }
  }

  /** Dropping a common head keeps the multisets equal. */
  lemma SameTailMultiset<T>(a: seq<T>, b: seq<T>)
    requires |a| > 0 && |b| > 0 && a[0] == b[0]
    requires multiset(a) == multiset(b)
    ensures multiset(a[1..]) == multiset(b[1..])
  {
    assert a == [a[0]] + a[1..] && b == [b[0]] + b[1..];
    assert multiset(a) == multiset{a[0]} + multiset(a[1..]);
    assert multiset(b) == multiset{b[0]} + multiset(b[1..]);
    assert multiset(a[1..]) == multiset(a) - multiset{a[0]};
    assert multiset(b[1..]) == multiset(b) - multiset{b[0]};
  }

  /** Two sorted sequences with the same rank groups are the same sequence. */
  lemma {:induction false} SameClassesSame<T(!new)>(a: seq<T>, b: seq<T>, le: (T, T) -> bool)
    requires TotalPreorder(le)
    requires Sorted(a, le) && Sorted(b, le)
    requires multiset(a) == multiset(b)
    requires forall e :: Class(a, le, e) == Class(b, le, e)
    ensures a == b
    decreases |a|
  {
    assert |a| == |multiset(a)| == |multiset(b)| == |b|;
    if |a| > 0 {
      SameHead(a, b, le);
      SameTailClasses(a, b, le);
      SameTailMultiset(a, b);
      SameClassesSame(a[1..], b[1..], le);
      assert a == [a[0]] + a[1..] && b == [b[0]] + b[1..];
    }
  }

  /** The stable sort is unique: whatever stable algorithm produced `t`
      (Python's is Timsort), it equals `Sort(s, le)`. */
  lemma SortIsTheStableSort<T(!new)>(s: seq<T>, t: seq<T>, le: (T, T) -> bool)
    requires TotalPreorder(le)
    requires StablySorted(t, s, le)
    ensures t == Sort(s, le)
  {
    var r := Sort(s, le);
    SameClassesSame(t, r, le);
  }

  /** `n` copies of `e`. */
  function Repeat<T>(n: nat, e: T): seq<T>
  {
    if n == 0 then [] else [e] + Repeat(n - 1, e)
  }

  /** The occurrences of `e` in `s`, split at the head. */
  lemma CountCons<T>(s: seq<T>, e: T)
    requires |s| > 0
    ensures multiset(s)[e] == (if s[0] == e then 1 else 0) + multiset(s[1..])[e]
  {
    assert s == [s[0]] + s[1..];
    assert multiset(s) == multiset{s[0]} + multiset(s[1..]);
  }

  /** Under a total order a rank group is the element repeated as often as it occurs. */
  lemma {:induction false} ClassUnderTotalOrder<T(!new)>(s: seq<T>, le: (T, T) -> bool, e: T)
    requires TotalOrder(le)
    ensures Class(s, le, e) == Repeat(multiset(s)[e], e)
  {
    if |s| > 0 {
      ClassUnderTotalOrder(s[1..], le, e);
      ClassCons(s, le, e);
      CountCons(s, e);
      if s[0] == e {
        assert le(e, e);
        assert Class([s[0]], le, e) == [e];
      } else {
        assert !Equiv(le, s[0], e);
        assert Class([s[0]], le, e) == [];
      }
    }
  }

  /** Under a total order the sorted result depends only on the elements, not
      on the order they were enumerated in (Python sets have no fixed order). */
  lemma SortIgnoresInputOrder<T(!new)>(s: seq<T>, t: seq<T>, le: (T, T) -> bool)
    requires TotalOrder(le)
    requires multiset(s) == multiset(t)
    ensures Sort(s, le) == Sort(t, le)
  {
    var a, b := Sort(s, le), Sort(t, le);
    forall e ensures Class(a, le, e) == Class(b, le, e) {
      ClassUnderTotalOrder(a, le, e);
      ClassUnderTotalOrder(b, le, e);
    }
    SameClassesSame(a, b, le);
  }

  /** Under a total order an ordered permutation of `s` is `Sort(s, le)`. */
  lemma SortedPermutationIsSort<T(!new)>(s: seq<T>, t: seq<T>, le: (T, T) -> bool)
    requires TotalOrder(le)
    requires Sorted(t, le) && multiset(t) == multiset(s)
    ensures t == Sort(s, le)
  {
    var r := Sort(s, le);
    forall e ensures Class(t, le, e) == Class(r, le, e) {
      ClassUnderTotalOrder(t, le, e);
      ClassUnderTotalOrder(r, le, e);
    }
    SameClassesSame(t, r, le);
  }
}
