/** What it means to sort a sequence stably under a caller-supplied `less`, independent of any
    algorithm. The comparator is only required to be a strict weak order on the elements that
    are actually there. */
module Ordering {

  /** A strict weak order: irreflexive, transitive, and with "neither is less" transitive. */
  ghost predicate StrictWeakOrder<E>(less: (E, E) -> bool, dom: set<E>)
  {
    && (forall x | x in dom :: !less(x, x))
    && (forall x, y, z | x in dom && y in dom && z in dom && less(x, y) && less(y, z) :: less(x, z))
    && (forall x, y, z | x in dom && y in dom && z in dom && !less(x, y) && !less(y, z) :: !less(x, z))
  }

  function Elements<E>(s: seq<E>): (r: set<E>)
  {
    set x | x in s
  }

  ghost predicate Sorted<E>(less: (E, E) -> bool, s: seq<E>)
  {
    forall i, j | 0 <= i < j < |s| :: !less(s[j], s[i])
  }

  predicate Equivalent<E>(less: (E, E) -> bool, x: E, y: E)
  {
    !less(x, y) && !less(y, x)
  }

  /** The elements of s equivalent to x, in the order in which they stand in s. */
  function Class<E>(less: (E, E) -> bool, s: seq<E>, x: E): (c: seq<E>)
  {
    if s == [] then []
    else if Equivalent(less, s[0], x) then [s[0]] + Class(less, s[1..], x)
    else Class(less, s[1..], x)
  }

  /** t is s sorted stably: ordered, the same elements, and ties left as they were. */
  ghost predicate IsStableSort<E>(less: (E, E) -> bool, s: seq<E>, t: seq<E>)
  {
    && Sorted(less, t)
    && multiset(s) == multiset(t)
    && SameTies(less, s, t)
  }

  ghost predicate SameTies<E>(less: (E, E) -> bool, s: seq<E>, t: seq<E>)
  {
    forall x | x in s :: Class(less, s, x) == Class(less, t, x)
  }

  lemma SameElements<E>(s: seq<E>, t: seq<E>)
    requires multiset(s) == multiset(t)
    ensures Elements(s) == Elements(t) && |s| == |t|
  {
    forall x ensures x in s <==> x in t {
      assert x in s <==> x in multiset(s);
    }
    assert |multiset(s)| == |s| && |multiset(t)| == |t|;
  }

  lemma {:induction false} ClassConcat<E>(less: (E, E) -> bool, s: seq<E>, t: seq<E>, x: E)
    ensures Class(less, s + t, x) == Class(less, s, x) + Class(less, t, x)
  {
    if s == [] {
      assert s + t == t;
    } else {
      assert (s + t)[1..] == s[1..] + t;
      ClassConcat(less, s[1..], t, x);
    }
  }

  /** Nothing in s is equivalent to x when x is below all of s. */
  lemma {:induction false} ClassEmpty<E>(less: (E, E) -> bool, s: seq<E>, x: E)
    requires forall y | y in s :: !Equivalent(less, y, x)
    ensures Class(less, s, x) == []
  {
    if s != [] {
      ClassEmpty(less, s[1..], x);
    }
  }

  /** A class holds only elements of the sequence that are equivalent to x. */
  lemma {:induction false} ClassMembers<E>(less: (E, E) -> bool, s: seq<E>, x: E)
    ensures forall y :: y in Class(less, s, x) <==> y in s && Equivalent(less, y, x)
  {
    if s != [] {
      ClassMembers(less, s[1..], x);
    }
  }

  /** Equivalent elements have the same class. */
  lemma {:induction false} ClassCongruent<E>(less: (E, E) -> bool, s: seq<E>, x: E, y: E)
    requires StrictWeakOrder(less, Elements(s) + {x, y})
    requires Equivalent(less, x, y)
    ensures Class(less, s, x) == Class(less, s, y)
  {
    if s != [] {
      var e := s[0];
      assert e in Elements(s);
      OrderOnSubset(less, Elements(s) + {x, y}, Elements(s[1..]) + {x, y});
      ClassCongruent(less, s[1..], x, y);
    }
  }

  /** The head of a sorted sequence opens its own class. */
  lemma SortedHead<E>(less: (E, E) -> bool, s: seq<E>)
    requires s != [] && StrictWeakOrder(less, Elements(s)) && Sorted(less, s)
    ensures Class(less, s, s[0]) == [s[0]] + Class(less, s[1..], s[0])
    ensures forall y | y in s :: !less(y, s[0])
  {
    assert s[0] in Elements(s);
  }

  /** Stability fixes the result: two stable sorts of one sequence are the same sequence. */
  lemma {:induction false} StableSortUnique<E>(less: (E, E) -> bool, s: seq<E>, t: seq<E>, u: seq<E>)
    requires StrictWeakOrder(less, Elements(s))
    requires IsStableSort(less, s, t) && IsStableSort(less, s, u)
    ensures t == u
  {
    SameElements(s, t);
    SameElements(s, u);
    forall x | x in t ensures Class(less, t, x) == Class(less, u, x) {
      assert x in Elements(s);
    }
    SameClassesSameSequence(less, t, u);
  }

  lemma {:induction false} SameClassesSameSequence<E>(less: (E, E) -> bool, t: seq<E>, u: seq<E>)
    requires StrictWeakOrder(less, Elements(t)) && Elements(t) == Elements(u) && |t| == |u|
    requires Sorted(less, t) && Sorted(less, u) && SameTies(less, t, u)
    ensures t == u
    decreases |t|
  {
    if t != [] {
      HeadsAgree(less, t, u);
      TailsAgree(less, t, u);
      OrderOnTail(less, t);
      assert Sorted(less, u[1..]);
      SameClassesSameSequence(less, t[1..], u[1..]);
      assert t == [t[0]] + t[1..] && u == [u[0]] + u[1..];
    }
  }

  lemma OrderOnTail<E>(less: (E, E) -> bool, s: seq<E>)
    requires s != [] && StrictWeakOrder(less, Elements(s)) && Sorted(less, s)
    ensures StrictWeakOrder(less, Elements(s[1..])) && Sorted(less, s[1..])
  {
    OrderOnSubset(less, Elements(s), Elements(s[1..]));
  }

  lemma OrderOnSubset<E>(less: (E, E) -> bool, dom: set<E>, sub: set<E>)
    requires StrictWeakOrder(less, dom) && sub <= dom
    ensures StrictWeakOrder(less, sub)
  {
  }

  lemma HeadsAgree<E>(less: (E, E) -> bool, t: seq<E>, u: seq<E>)
    requires t != [] && u != []
    requires StrictWeakOrder(less, Elements(t)) && Elements(t) == Elements(u)
    requires Sorted(less, t) && Sorted(less, u) && SameTies(less, t, u)
    ensures t[0] == u[0]
  {
    SortedHead(less, t);
    SortedHead(less, u);
    assert t[0] in Elements(u) && u[0] in Elements(t);
    assert Elements(u) + {t[0], u[0]} == Elements(t);
    ClassCongruent(less, u, t[0], u[0]);
    assert Class(less, t, t[0]) == Class(less, u, u[0]);
    assert Class(less, t, t[0])[0] == t[0] && Class(less, u, u[0])[0] == u[0];
  }

  lemma TailsAgree<E>(less: (E, E) -> bool, t: seq<E>, u: seq<E>)
    requires t != [] && u != [] && t[0] == u[0]
    requires StrictWeakOrder(less, Elements(t)) && Elements(t) == Elements(u)
    requires SameTies(less, t, u)
    ensures Elements(t[1..]) <= Elements(t)
    ensures SameTies(less, t[1..], u[1..])
    ensures Elements(t[1..]) == Elements(u[1..])
  {
    forall x | x in Elements(t) ensures Class(less, t[1..], x) == Class(less, u[1..], x) {
      assert Class(less, t, x) == Class(less, u, x);
      if Equivalent(less, t[0], x) {
        assert Class(less, t, x)[1..] == Class(less, t[1..], x);
        assert Class(less, u, x)[1..] == Class(less, u[1..], x);
      }
    }
    forall x ensures x in t[1..] <==> x in u[1..] {
      ClassMembers(less, t[1..], x);
      ClassMembers(less, u[1..], x);
      if x in t[1..] || x in u[1..] {
        assert x in Elements(t);
        assert Equivalent(less, x, x);
      }
    }
  }
}
