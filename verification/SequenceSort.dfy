/** The sequence functions behind the list algorithms: what merging two runs, inserting in order
    and dropping duplicates do to the order of the elements. */
module SequenceSort {
  import opened Ordering

  // ----- merging -----

  /** A merge that prefers the left run on ties. */
  function Merge<E>(less: (E, E) -> bool, a: seq<E>, b: seq<E>): (m: seq<E>)
    ensures |m| == |a| + |b|
    decreases |a| + |b|
  {
    if a == [] then b
    else if b == [] then a
    else if !less(b[0], a[0]) then [a[0]] + Merge(less, a[1..], b)
    else [b[0]] + Merge(less, a, b[1..])
  }

  lemma {:induction false} MergeMultiset<E>(less: (E, E) -> bool, a: seq<E>, b: seq<E>)
    ensures multiset(Merge(less, a, b)) == multiset(a) + multiset(b)
    decreases |a| + |b|
  {
    if a != [] && b != [] {
      if !less(b[0], a[0]) {
        MergeMultiset(less, a[1..], b);
        ConsMultiset(a);
      } else {
        MergeMultiset(less, a, b[1..]);
        ConsMultiset(b);
      }
    }
  }

  lemma ConsMultiset<E>(s: seq<E>)
    requires s != []
    ensures multiset(s) == multiset{s[0]} + multiset(s[1..])
  {
    assert s == [s[0]] + s[1..];
  }

  lemma MergeElements<E>(less: (E, E) -> bool, a: seq<E>, b: seq<E>)
    ensures Elements(Merge(less, a, b)) == Elements(a) + Elements(b)
  {
    MergeMultiset(less, a, b);
    assert multiset(a + b) == multiset(a) + multiset(b);
    SameElements(Merge(less, a, b), a + b);
    assert Elements(a + b) == Elements(a) + Elements(b);
  }

  /** x is not above any element of s. */
  ghost predicate Bounds<E>(less: (E, E) -> bool, x: E, s: seq<E>)
  {
    forall y | y in s :: !less(y, x)
  }

  lemma ConsSorted<E>(less: (E, E) -> bool, x: E, s: seq<E>)
    requires Sorted(less, s) && Bounds(less, x, s)
    ensures Sorted(less, [x] + s)
  {
    var t := [x] + s;
    forall i, j | 0 <= i < j < |t| ensures !less(t[j], t[i]) {
      assert t[j] == s[j - 1] && t[j] in s;
      if i > 0 {
        assert t[i] == s[i - 1];
      }
    }
  }

  lemma {:induction false} MergeSorted<E>(less: (E, E) -> bool, a: seq<E>, b: seq<E>)
    requires StrictWeakOrder(less, Elements(a) + Elements(b))
    requires Sorted(less, a) && Sorted(less, b)
    ensures Sorted(less, Merge(less, a, b))
    decreases |a| + |b|
  {
    if a != [] && b != [] {
      assert a[0] in Elements(a) && b[0] in Elements(b);
      if !less(b[0], a[0]) {
        OrderOnSubset(less, Elements(a) + Elements(b), Elements(a[1..]) + Elements(b));
        MergeSorted(less, a[1..], b);
        MergeElements(less, a[1..], b);
        HeadBounds(less, a, b);
        ConsSorted(less, a[0], Merge(less, a[1..], b));
      } else {
        OrderOnSubset(less, Elements(a) + Elements(b), Elements(a) + Elements(b[1..]));
        MergeSorted(less, a, b[1..]);
        MergeElements(less, a, b[1..]);
        HeadBounds(less, b, a);
        ConsSorted(less, b[0], Merge(less, a, b[1..]));
      }
    }
  }

  /** The smaller of two heads bounds both runs. */
  lemma HeadBounds<E>(less: (E, E) -> bool, a: seq<E>, b: seq<E>)
    requires a != [] && b != [] && StrictWeakOrder(less, Elements(a) + Elements(b))
    requires Sorted(less, a) && Sorted(less, b) && !less(b[0], a[0])
    ensures forall y | y in Elements(a) + Elements(b) :: !less(y, a[0])
  {
    assert a[0] in Elements(a) && b[0] in Elements(b);
    forall y | y in b ensures !less(y, a[0]) {
      var j :| 0 <= j < |b| && b[j] == y;
      assert y in Elements(b);
      assert !less(y, b[0]);
    }
    forall y | y in a ensures !less(y, a[0]) {
      var j :| 0 <= j < |a| && a[j] == y;
      assert y in Elements(a);
    }
  }

  /** Merging keeps ties in order: first the left run's, then the right run's. */
  lemma {:induction false} MergeTies<E>(less: (E, E) -> bool, a: seq<E>, b: seq<E>, x: E)
    requires StrictWeakOrder(less, Elements(a) + Elements(b) + {x})
    requires Sorted(less, a) && Sorted(less, b)
    ensures Class(less, Merge(less, a, b), x) == Class(less, a, x) + Class(less, b, x)
    decreases |a| + |b|
  {
    hide StrictWeakOrder, Sorted;
    if a != [] && b != [] {
      var dom := Elements(a) + Elements(b) + {x};
      if !less(b[0], a[0]) {
        SortedTail(less, a);
        OrderOnSubset(less, dom, Elements(a[1..]) + Elements(b) + {x});
        MergeTies(less, a[1..], b, x);
      } else {
        SortedTail(less, b);
        OrderOnSubset(less, dom, Elements(a) + Elements(b[1..]) + {x});
        MergeTies(less, a, b[1..], x);
        if Equivalent(less, b[0], x) {
          assert b[0] in Elements(b);
          OrderOnSubset(less, dom, Elements(a) + {b[0], x});
          OvertakenRun(less, a, b[0], x);
        }
      }
    }
  }

  lemma SortedTail<E>(less: (E, E) -> bool, s: seq<E>)
    requires Sorted(less, s) && s != []
    ensures Sorted(less, s[1..])
  {
  }

  /** An element that overtakes a whole run ties with nothing in it. */
  lemma OvertakenRun<E>(less: (E, E) -> bool, a: seq<E>, e: E, x: E)
    requires a != [] && StrictWeakOrder(less, Elements(a) + {e, x})
    requires Sorted(less, a) && less(e, a[0]) && Equivalent(less, e, x)
    ensures Class(less, a, x) == []
  {
    forall y | y in a ensures !Equivalent(less, y, x) {
      var i :| 0 <= i < |a| && a[i] == y;
      assert y in Elements(a) && a[0] in Elements(a);
      assert !less(y, a[0]);
      assert less(e, y);
    }
    ClassEmpty(less, a, x);
  }

  lemma ClassSplit<E>(less: (E, E) -> bool, p: seq<E>, m: seq<E>, q: seq<E>, x: E)
    ensures Class(less, p + m + q, x) == Class(less, p, x) + Class(less, m, x) + Class(less, q, x)
  {
    hide Class;
    ClassConcat(less, p + m, q, x);
    ClassConcat(less, p, m, x);
  }

  /** Replacing the middle of a sequence by something with the same ties. */
  lemma ReplaceMiddle<E>(less: (E, E) -> bool, p: seq<E>, m: seq<E>, n: seq<E>, q: seq<E>)
    requires multiset(m) == multiset(n)
    requires forall x | x in p + m + q :: Class(less, m, x) == Class(less, n, x)
    ensures multiset(p + n + q) == multiset(p + m + q)
    ensures SameTies(less, p + m + q, p + n + q)
  {
    hide Class;
    forall x | x in p + m + q ensures Class(less, p + m + q, x) == Class(less, p + n + q, x) {
      ClassSplit(less, p, m, q, x);
      ClassSplit(less, p, n, q, x);
    }
  }

  /** Replacing two adjacent runs by their merge changes neither the elements nor any tie. */
  lemma MergeInPlace<E>(less: (E, E) -> bool, p: seq<E>, a: seq<E>, b: seq<E>, q: seq<E>)
    requires StrictWeakOrder(less, Elements(p + (a + b) + q))
    requires Sorted(less, a) && Sorted(less, b)
    ensures multiset(p + Merge(less, a, b) + q) == multiset(p + (a + b) + q)
    ensures SameTies(less, p + (a + b) + q, p + Merge(less, a, b) + q)
  {
    hide Class, Merge;
    var s := p + (a + b) + q;
    forall x | x in s ensures Class(less, a + b, x) == Class(less, Merge(less, a, b), x) {
      assert x in Elements(s);
      OrderOnSubset(less, Elements(s), Elements(a) + Elements(b) + {x});
      MergeTies(less, a, b, x);
      ClassConcat(less, a, b, x);
    }
    MergeMultiset(less, a, b);
    ReplaceMiddle(less, p, a + b, Merge(less, a, b), q);
  }

  lemma TiesTransitive<E>(less: (E, E) -> bool, s: seq<E>, t: seq<E>, u: seq<E>)
    requires multiset(s) == multiset(t) && SameTies(less, s, t) && SameTies(less, t, u)
    ensures SameTies(less, s, u)
  {
    SameElements(s, t);
    forall x | x in s ensures Class(less, s, x) == Class(less, u, x) {
      assert x in Elements(t);
    }
  }

  // ----- runs -----

  /** The number of places where the order breaks; one less than the number of maximal runs. */
  function Descents<E>(less: (E, E) -> bool, s: seq<E>): (n: nat)
  {
    if |s| < 2 then 0
    else Descents(less, s[..|s| - 1]) + (if less(s[|s| - 1], s[|s| - 2]) then 1 else 0)
  }

  function Break<E>(less: (E, E) -> bool, s: seq<E>, t: seq<E>): (n: nat)
  {
    if s != [] && t != [] && less(t[0], s[|s| - 1]) then 1 else 0
  }

  lemma {:induction false} DescentsConcat<E>(less: (E, E) -> bool, s: seq<E>, t: seq<E>)
    ensures Descents(less, s + t) == Descents(less, s) + Break(less, s, t) + Descents(less, t)
    decreases |t|
  {
    if t == [] {
      assert s + t == s;
    } else {
      var t' := t[..|t| - 1];
      assert (s + t)[..|s + t| - 1] == s + t';
      DescentsConcat(less, s, t');
    }
  }

  lemma {:induction false} SortedNoDescents<E>(less: (E, E) -> bool, s: seq<E>)
    requires Sorted(less, s)
    ensures Descents(less, s) == 0
  {
    if |s| >= 2 {
      SortedNoDescents(less, s[..|s| - 1]);
    }
  }

  lemma {:induction false} NoDescentsSorted<E>(less: (E, E) -> bool, s: seq<E>)
    requires StrictWeakOrder(less, Elements(s)) && Descents(less, s) == 0
    ensures Sorted(less, s)
  {
    if |s| >= 2 {
      var n := |s| - 1;
      OrderOnSubset(less, Elements(s), Elements(s[..n]));
      NoDescentsSorted(less, s[..n]);
      forall i | 0 <= i < n ensures !less(s[n], s[i]) {
        assert s[i] in Elements(s) && s[n] in Elements(s) && s[n - 1] in Elements(s);
        assert i < n - 1 ==> !less(s[..n][n - 1], s[..n][i]);
      }
      forall i, j | 0 <= i < j < |s| ensures !less(s[j], s[i]) {
        assert j < n ==> !less(s[..n][j], s[..n][i]);
      }
    }
  }

  // ----- ordered insertion -----

  /** Where list_insert_ordered puts e: before the first element it is less than. */
  function Slot<E>(less: (E, E) -> bool, s: seq<E>, e: E): (i: nat)
    ensures i <= |s|
    ensures forall k | 0 <= k < i :: !less(e, s[k])
    ensures i < |s| ==> less(e, s[i])
  {
    if s == [] || less(e, s[0]) then 0 else 1 + Slot(less, s[1..], e)
  }

  function InsertOrdered<E>(less: (E, E) -> bool, s: seq<E>, e: E): (t: seq<E>)
  {
    var i := Slot(less, s, e);
    s[..i] + [e] + s[i..]
  }

  lemma InsertOrderedMultiset<E>(less: (E, E) -> bool, s: seq<E>, e: E)
    ensures multiset(InsertOrdered(less, s, e)) == multiset(s + [e])
  {
    var i := Slot(less, s, e);
    assert s == s[..i] + s[i..];
  }

  lemma InsertOrderedSorted<E>(less: (E, E) -> bool, s: seq<E>, e: E)
    requires StrictWeakOrder(less, Elements(s) + {e}) && Sorted(less, s)
    ensures Sorted(less, InsertOrdered(less, s, e))
  {
    var i, t := Slot(less, s, e), InsertOrdered(less, s, e);
    forall j | i <= j < |s| ensures less(e, s[j]) {
      assert s[i] in Elements(s) && s[j] in Elements(s);
      assert j > i ==> !less(s[j], s[i]);
    }
    forall j, k | 0 <= j < k < |t| ensures !less(t[k], t[j]) {
      assert t[j] in Elements(s) + {e} && t[k] in Elements(s) + {e};
      assert t[j] == if j < i then s[j] else if j == i then e else s[j - 1];
      assert t[k] == if k < i then s[k] else if k == i then e else s[k - 1];
    }
  }

  /** The newcomer stands after everything it ties with: inserting it is, tie by tie, the same
      as appending it. */
  lemma InsertOrderedTies<E>(less: (E, E) -> bool, s: seq<E>, e: E, x: E)
    requires StrictWeakOrder(less, Elements(s) + {e, x}) && Sorted(less, s)
    ensures Class(less, InsertOrdered(less, s, e), x) == Class(less, s + [e], x)
  {
    hide Class;
    var i := Slot(less, s, e);
    var p, r := s[..i], s[i..];
    assert s == p + r;
    ClassSplit(less, p, [e], r, x);
    ClassSplit(less, p, r, [e], x);
    OrderOnSubset(less, Elements(s) + {e, x}, Elements(r) + {e, x});
    NewcomerCommutes(less, r, e, x);
    AppendAssociative(Class(less, p, x), Class(less, [e], x), Class(less, r, x));
    AppendAssociative(Class(less, p, x), Class(less, r, x), Class(less, [e], x));
  }

  lemma AppendAssociative<E>(p: seq<E>, q: seq<E>, r: seq<E>)
    ensures p + q + r == p + (q + r)
  {
  }

  lemma NewcomerCommutes<E>(less: (E, E) -> bool, r: seq<E>, e: E, x: E)
    requires StrictWeakOrder(less, Elements(r) + {e, x}) && Sorted(less, r)
    requires r == [] || less(e, r[0])
    ensures Class(less, [e], x) + Class(less, r, x) == Class(less, r, x) + Class(less, [e], x)
  {
    SingletonClass(less, e, x);
    if r != [] && Equivalent(less, e, x) {
      OvertakenRun(less, r, e, x);
    }
  }

  lemma SingletonClass<E>(less: (E, E) -> bool, e: E, x: E)
    ensures Class(less, [e], x) == if Equivalent(less, e, x) then [e] else []
  {
    assert [e][1..] == [];
  }

  /** Inserting the elements one by one, as the self-test of the list library does. */
  function InsertionSort<E>(less: (E, E) -> bool, s: seq<E>): (t: seq<E>)
  {
    if s == [] then []
    else InsertOrdered(less, InsertionSort(less, s[..|s| - 1]), s[|s| - 1])
  }

  /** Ordered insertion of all elements is a stable sort, so by StableSortUnique it produces
      exactly the list that list_sort produces. */
  lemma {:induction false} InsertionSortStable<E>(less: (E, E) -> bool, s: seq<E>)
    requires StrictWeakOrder(less, Elements(s))
    ensures IsStableSort(less, s, InsertionSort(less, s))
  {
    if s != [] {
      var s', e := s[..|s| - 1], s[|s| - 1];
      var t' := InsertionSort(less, s');
      assert s == s' + [e];
      OrderOnSubset(less, Elements(s), Elements(s'));
      InsertionSortStable(less, s');
      SameElements(s', t');
      assert Elements(s) == Elements(t') + {e};
      InsertOrderedSorted(less, t', e);
      InsertOrderedMultiset(less, t', e);
      forall x | x in s ensures Class(less, s, x) == Class(less, InsertionSort(less, s), x) {
        assert x in Elements(s);
        assert Elements(t') + {e, x} == Elements(s);
        InsertOrderedTies(less, t', e, x);
        ClassConcat(less, s', [e], x);
        ClassConcat(less, t', [e], x);
        ClassesOutside(less, s', t', x);
      }
    }
  }

  /** Ties agree for every x the order covers, whether or not x itself is present. */
  lemma ClassesOutside<E>(less: (E, E) -> bool, s: seq<E>, t: seq<E>, x: E)
    requires StrictWeakOrder(less, Elements(s) + {x})
    requires multiset(s) == multiset(t) && SameTies(less, s, t)
    ensures Class(less, s, x) == Class(less, t, x)
  {
    SameElements(s, t);
    if y :| y in s && Equivalent(less, y, x) {
      assert y in Elements(s);
      assert Elements(s) + {x, y} == Elements(s) + {x};
      ClassCongruent(less, s, x, y);
      ClassCongruent(less, t, x, y);
    } else {
      ClassEmpty(less, s, x);
      forall y | y in t ensures !Equivalent(less, y, x) {
        assert y in Elements(s);
      }
      ClassEmpty(less, t, x);
    }
  }
}
