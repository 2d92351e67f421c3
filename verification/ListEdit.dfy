/** Ordered insertion, reversal and removal of adjacent duplicates on the linked list
    (src/lib/kernel/list.c:324-337, 445-486). */
module ListEdit {
  import opened Ordering
  import opened SequenceSort
  import opened Sequences
  import opened LinkedList
  import opened ListSort

  lemma SlotUnique<E>(less: (E, E) -> bool, s: seq<E>, e: E, i: nat)
    requires i <= |s| && (forall k | 0 <= k < i :: !less(e, s[k])) && (i < |s| ==> less(e, s[i]))
    ensures Slot(less, s, e) == i
  {
  }

  /** The search loop of list_insert_ordered: the first element that e is less than, or the tail. */
  method FindSlot(l: List, e: Elem, less: Less) returns (x: Elem, ghost i: nat)
    requires l.Valid()
    ensures 1 <= i < |l.chain| && x == l.chain[i] && i - 1 == Slot(less, l.Elems(), e)
  {
    hide Linked, Slot;
    ghost var c, s := l.chain, l.Elems();
    i := 1;
    x := l.Begin();
    while x != l.tail
      invariant 1 <= i < |c| && x == c[i]
      invariant forall k | 0 <= k < i - 1 :: !less(e, s[k])
      decreases |c| - i
    {
      if less(e, x) {
        break;
      }
      assert i - 1 < |s| ==> s[i - 1] == c[i];
      x := NextAt(l, i, x);
      i := i + 1;
    }
    if x == l.tail {
      PositionUnique(l, i, |c| - 1);
    }
    assert i - 1 < |s| ==> s[i - 1] == c[i];
    SlotUnique(less, s, e, i - 1);
  }

  /** list_insert_ordered. */
  method InsertInOrder(l: List, e: Elem, less: Less)
    requires l.Valid() && e !in l.chain
    modifies l`chain, l.chain, e
    ensures l.Valid()
    ensures l.Elems() == InsertOrdered(less, old(l.Elems()), e)
  {
    hide Linked, Slot;
    var x, i := FindSlot(l, e, less);
    Insert(l, i, x, e);
  }

  // ----- reversal -----

  /** Interior nodes below position k point the other way, the rest as before. */
  ghost predicate HalfTurned(c: seq<Elem>, k: nat)
    reads c
    requires 1 <= k < |c|
  {
    && c[0].next == c[1] && c[0].prev == null && c[|c| - 1].prev == c[|c| - 2] && c[|c| - 1].next == null
    && (forall i {:trigger c[i].next} | 1 <= i < |c| - 1 :: c[i].next == if i < k then c[i - 1] else c[i + 1])
    && (forall i {:trigger c[i].prev} | 1 <= i < |c| - 1 :: c[i].prev == if i < k then c[i + 1] else c[i - 1])
  }

  /** list_reverse: each interior node swaps its links, then the sentinels are crossed over. */
  method Reverse(l: List)
    requires l.Valid()
    modifies l`chain, l.chain
    ensures l.Valid()
    ensures l.Elems() == Reversed(old(l.Elems()))
  {
    var empty := l.Empty();
    if !empty {
      ghost var c := l.chain;
      TurnInterior(l);
      CrossSentinels(l);
    }
  }

  method TurnInterior(l: List)
    requires l.Valid() && l.Elems() != []
    modifies l.chain
    ensures HalfTurned(l.chain, |l.chain| - 1) && Distinct(l.chain)
  {
    ghost var c := l.chain;
    ghost var k := 1;
    var e := l.head.next;
    while e != l.tail
      invariant 1 <= k < |c| && e == c[k] && HalfTurned(c, k)
      decreases |c| - k
    {
      e.prev, e.next := e.next, e.prev;
      k := k + 1;
      e := e.prev;
    }
  }

  method CrossSentinels(l: List)
    requires |l.chain| >= 3 && l.chain[0] == l.head && l.chain[|l.chain| - 1] == l.tail
    requires HalfTurned(l.chain, |l.chain| - 1) && Distinct(l.chain)
    modifies l`chain, l.chain
    ensures l.Valid()
    ensures l.Elems() == Reversed(old(l.Elems()))
  {
    ghost var c := l.chain;
    ghost var n := |c| - 1;
    l.head.next, l.tail.prev := l.tail.prev, l.head.next;
    var first, last := l.head.next, l.tail.prev;
    first.prev, last.next := last.next, first.prev;
    l.chain := [c[0]] + Reversed(c[1..n]) + [c[n]];
    TurnedChain(c, l.chain);
  }

  lemma TurnedAt<E>(c: seq<E>, d: seq<E>)
    requires |c| >= 3 && d == [c[0]] + Reversed(c[1..|c| - 1]) + [c[|c| - 1]]
    ensures |d| == |c| && d[1..|d| - 1] == Reversed(c[1..|c| - 1])
    ensures var n := |c| - 1; forall i | 0 <= i <= n :: d[i] == if i == 0 || i == n then c[i] else c[n - i]
  {
    var n, r := |c| - 1, Reversed(c[1..|c| - 1]);
    forall i | 0 <= i <= n ensures d[i] == if i == 0 || i == n then c[i] else c[n - i] {
      assert 0 < i < n ==> d[i] == r[i - 1];
    }
  }

  lemma TurnedChain(c: seq<Elem>, d: seq<Elem>)
    requires |c| >= 3 && Distinct(c) && d == [c[0]] + Reversed(c[1..|c| - 1]) + [c[|c| - 1]]
    requires var n := |c| - 1;
      && c[0].prev == null && c[0].next == c[n - 1] && c[n].prev == c[1] && c[n].next == null
      && (forall i {:trigger c[i].next} | 1 <= i < n :: c[i].next == if i == 1 then c[n] else c[i - 1])
      && (forall i {:trigger c[i].prev} | 1 <= i < n :: c[i].prev == if i == n - 1 then c[0] else c[i + 1])
    ensures Linked(d) && |d| == |c| && d[1..|d| - 1] == Reversed(c[1..|c| - 1])
  {
    TurnedAt(c, d);
    hide Linked;
    TurnedLinks(c, d);
  }

  lemma TurnedLinks(c: seq<Elem>, d: seq<Elem>)
    requires |c| >= 3 && Distinct(c) && |d| == |c|
    requires var n := |c| - 1; forall i | 0 <= i <= n :: d[i] == if i == 0 || i == n then c[i] else c[n - i]
    requires var n := |c| - 1;
      && c[0].prev == null && c[0].next == c[n - 1] && c[n].prev == c[1] && c[n].next == null
      && (forall i {:trigger c[i].next} | 1 <= i < n :: c[i].next == if i == 1 then c[n] else c[i - 1])
      && (forall i {:trigger c[i].prev} | 1 <= i < n :: c[i].prev == if i == n - 1 then c[0] else c[i + 1])
    ensures Linked(d)
  {
    var n := |c| - 1;
    forall i {:trigger d[i].next} {:trigger d[i].prev} | 0 <= i <= n
      ensures d[i].next == if i < n then d[i + 1] else null
      ensures d[i].prev == if i > 0 then d[i - 1] else null
    {
      assert d[i] == c[if i == 0 || i == n then i else n - i];
      assert i < n ==> d[i + 1] == c[if i + 1 == n then n else n - (i + 1)];
      assert i > 0 ==> d[i - 1] == c[if i - 1 == 0 then 0 else n - (i - 1)];
    }
    forall i, j | 0 <= i < j < |d| ensures d[i] != d[j] {
      assert d[i] == c[if i == 0 || i == n then i else n - i];
      assert d[j] == c[if j == 0 || j == n then j else n - j];
    }
  }

  // ----- duplicates -----

  /** list_unique's walk: x is the element being kept, rest what follows it. The result is what
      stays, starting with x, and what is taken out, each in order. */
  function Thin<E>(less: (E, E) -> bool, x: E, rest: seq<E>): (r: (seq<E>, seq<E>))
    ensures r.0 != [] && r.0[0] == x && |r.0| + |r.1| == 1 + |rest|
  {
    if rest == [] then ([x], [])
    else if Equivalent(less, x, rest[0]) then
      var r := Thin(less, x, rest[1..]);
      (r.0, [rest[0]] + r.1)
    else
      var r := Thin(less, rest[0], rest[1..]);
      ([x] + r.0, r.1)
  }

  ghost predicate StrictlySorted<E>(less: (E, E) -> bool, s: seq<E>)
  {
    forall i, j | 0 <= i < j < |s| :: less(s[i], s[j])
  }

  function FirstOnly<E>(c: seq<E>): (r: seq<E>)
  {
    if c == [] then [] else [c[0]]
  }

  lemma {:induction false} ThinMultiset<E>(less: (E, E) -> bool, x: E, rest: seq<E>)
    ensures multiset(Thin(less, x, rest).0) + multiset(Thin(less, x, rest).1) == multiset{x} + multiset(rest)
    decreases |rest|
  {
    if rest != [] {
      ConsMultiset(rest);
      if Equivalent(less, x, rest[0]) {
        ThinMultiset(less, x, rest[1..]);
        var r := Thin(less, x, rest[1..]);
        assert multiset([rest[0]] + r.1) == multiset{rest[0]} + multiset(r.1);
        assert multiset(r.0) + (multiset{rest[0]} + multiset(r.1)) == multiset{rest[0]} + (multiset(r.0) + multiset(r.1));
        assert multiset{rest[0]} + (multiset{x} + multiset(rest[1..])) == multiset{x} + multiset(rest);
      } else {
        ThinMultiset(less, rest[0], rest[1..]);
        var r := Thin(less, rest[0], rest[1..]);
        assert multiset([x] + r.0) == multiset{x} + multiset(r.0);
      }
    }
  }

  /** Of every class of ties exactly the first element stays. */
  lemma {:induction false} ThinKeepsFirst<E>(less: (E, E) -> bool, x: E, rest: seq<E>, y: E)
    requires StrictWeakOrder(less, Elements(rest) + {x, y}) && Sorted(less, [x] + rest)
    ensures Class(less, Thin(less, x, rest).0, y) == FirstOnly(Class(less, [x] + rest, y))
    decreases |rest|
  {
    hide Class;
    ConsClass(less, x, rest, y);
    EmptyClass(less, y);
    if rest == [] {
      ConsClass(less, x, [], y);
      assert [x] + [] == [x];
    } else {
      var r0, rest' := rest[0], rest[1..];
      assert r0 in Elements(rest) && [r0] + rest' == rest;
      ConsClass(less, r0, rest', y);
      if Equivalent(less, x, r0) {
        OrderOnSubset(less, Elements(rest) + {x, y}, Elements(rest') + {x, y});
        DropSecond(less, x, rest);
        ThinKeepsFirst(less, x, rest', y);
        ConsClass(less, x, rest', y);
      } else {
        OrderOnSubset(less, Elements(rest) + {x, y}, Elements(rest') + {r0, y});
        TailSorted(less, x, rest);
        ThinKeepsFirst(less, r0, rest', y);
        ConsClass(less, x, Thin(less, r0, rest').0, y);
        if Equivalent(less, x, y) {
          OvertakenRun(less, rest, x, y);
        }
      }
    }
  }

  lemma ConsClass<E>(less: (E, E) -> bool, x: E, s: seq<E>, y: E)
    ensures Class(less, [x] + s, y) == (if Equivalent(less, x, y) then [x] else []) + Class(less, s, y)
  {
    assert ([x] + s)[1..] == s;
  }

  lemma EmptyClass<E>(less: (E, E) -> bool, y: E)
    ensures Class(less, [], y) == []
  {
  }

  lemma DropSecond<E>(less: (E, E) -> bool, x: E, rest: seq<E>)
    requires rest != [] && Sorted(less, [x] + rest)
    ensures Sorted(less, [x] + rest[1..])
  {
    var s, t := [x] + rest, [x] + rest[1..];
    forall i, j | 0 <= i < j < |t| ensures !less(t[j], t[i]) {
      assert t[j] == s[j + 1] && t[i] == s[if i == 0 then 0 else i + 1];
    }
  }

  lemma TailSorted<E>(less: (E, E) -> bool, x: E, rest: seq<E>)
    requires Sorted(less, [x] + rest)
    ensures Sorted(less, rest)
    ensures forall i | 0 <= i < |rest| :: !less(rest[i], x)
  {
    var s := [x] + rest;
    forall i, j | 0 <= i < j < |rest| ensures !less(rest[j], rest[i]) {
      assert rest[j] == s[j + 1] && rest[i] == s[i + 1];
    }
    forall i | 0 <= i < |rest| ensures !less(rest[i], x) {
      assert rest[i] == s[i + 1] && x == s[0];
    }
  }

  /** What stays of a sorted list is strictly increasing. */
  lemma {:induction false} ThinStrict<E>(less: (E, E) -> bool, x: E, rest: seq<E>)
    requires StrictWeakOrder(less, Elements(rest) + {x}) && Sorted(less, [x] + rest)
    ensures StrictlySorted(less, Thin(less, x, rest).0)
    decreases |rest|
  {
    if rest != [] {
      var r0, rest' := rest[0], rest[1..];
      assert r0 in Elements(rest) && [r0] + rest' == rest;
      OrderOnSubset(less, Elements(rest) + {x}, Elements(rest') + {x});
      OrderOnSubset(less, Elements(rest) + {x}, Elements(rest') + {r0});
      TailSorted(less, x, rest);
      if Equivalent(less, x, r0) {
        DropSecond(less, x, rest);
        ThinStrict(less, x, rest');
      } else {
        ThinStrict(less, r0, rest');
        AboveAll(less, x, rest, Thin(less, r0, rest').0);
      }
    }
  }

  lemma AboveAll<E>(less: (E, E) -> bool, x: E, rest: seq<E>, k: seq<E>)
    requires rest != [] && StrictWeakOrder(less, Elements(rest) + {x}) && Sorted(less, rest)
    requires less(x, rest[0]) && StrictlySorted(less, k) && k == Thin(less, rest[0], rest[1..]).0
    ensures StrictlySorted(less, [x] + k)
  {
    assert [rest[0]] + rest[1..] == rest;
    ThinMultiset(less, rest[0], rest[1..]);
    ConsMultiset(rest);
    forall y | y in k ensures less(x, y) {
      assert y in multiset(k);
      assert y in multiset(rest);
      var i :| 0 <= i < |rest| && rest[i] == y;
      assert rest[0] in Elements(rest) && y in Elements(rest);
      assert i > 0 ==> !less(y, rest[0]);
    }
    var s := [x] + k;
    forall i, j | 0 <= i < j < |s| ensures less(s[i], s[j]) {
      assert s[j] == k[j - 1];
      assert i > 0 ==> s[i] == k[i - 1];
    }
  }

  /** Two lists that share no node, both inside the given memory. The second may be absent. */
  ghost predicate Apart(l: List, d: List?, nodes: set<Elem>)
    reads l, l.chain, d, if d == null then {} else Elements(d.chain)
  {
    && l.Valid() && Within(l.chain, nodes)
    && (d != null ==> d != l && d.Valid() && Within(d.chain, nodes) && Disjoint(l.chain, d.chain))
  }

  /** Removes the node at position i and, when there is a second list, appends it there. */
  method TakeOut(ghost l: List, d: List?, ghost nodes: set<Elem>, ghost i: nat, e: Elem)
    requires Apart(l, d, nodes) && 1 <= i < |l.chain| - 1 && l.chain[i] == e
    modifies l`chain, nodes, if d == null then {} else {d}
    ensures Apart(l, d, nodes)
    ensures |l.chain| == |old(l.chain)| - 1 && (forall j | 0 <= j < i :: l.chain[j] == old(l.chain)[j])
    ensures l.Elems() == old(l.Elems()[..i - 1] + l.Elems()[i..])
    ensures d != null ==> d.Elems() == old(d.Elems()) + [e]
  {
    hide Linked;
    ghost var c := l.chain;
    TakeOutFrames(l, d, i);
    var n := Remove(l, i, e);
    assert l.chain == Without(c, i, i + 1);
    WithoutInner(c, i);
    if d != null {
      Insert(d, |d.chain| - 1, d.tail, e);
    }
  }

  lemma WithoutInner(c: seq<Elem>, i: nat)
    requires 1 <= i < |c| - 1
    ensures Without(c, i, i + 1)[1..|c| - 2] == c[1..|c| - 1][..i - 1] + c[1..|c| - 1][i..]
  {
    var t := c[1..|c| - 1];
    var w, u := Without(c, i, i + 1)[1..|c| - 2], t[..i - 1] + t[i..];
    forall k | 0 <= k < |w| ensures w[k] == u[k] {
      assert w[k] == c[if k + 1 < i then k + 1 else k + 2];
      assert u[k] == t[if k < i - 1 then k else k + 1];
    }
  }

  lemma TakeOutFrames(l: List, d: List?, i: nat)
    requires l.Valid() && 1 <= i < |l.chain| - 1
    requires d != null ==> d != l && d.Valid() && Disjoint(l.chain, d.chain)
    ensures l.chain[i] !in Without(l.chain, i, i + 1)
    ensures d != null ==> l.chain[i - 1] !in d.chain && l.chain[i] !in d.chain && l.chain[i + 1] !in d.chain
  {
  }

  /** The walk in progress over a list that is now t: t[..i] is settled, t[i] is being kept, and g
      has been taken out so far. */
  ghost predicate Thinning<E>(less: (E, E) -> bool, s: seq<E>, t: seq<E>, i: nat, g: seq<E>)
  {
    && s != [] && i < |t|
    && Thin(less, s[0], s[1..]) == (t[..i] + Thin(less, t[i], t[i + 1..]).0, g + Thin(less, t[i], t[i + 1..]).1)
  }

  lemma ThinningStart<E>(less: (E, E) -> bool, s: seq<E>)
    requires s != []
    ensures Thinning(less, s, s, 0, [])
  {
    var r := Thin(less, s[0], s[1..]);
    assert s[..0] + r.0 == r.0 && [] + r.1 == r.1;
  }

  lemma ThinningKeep<E>(less: (E, E) -> bool, s: seq<E>, t: seq<E>, i: nat, g: seq<E>)
    requires Thinning(less, s, t, i, g) && i + 1 < |t| && !Equivalent(less, t[i], t[i + 1])
    ensures Thinning(less, s, t, i + 1, g)
  {
    assert t[i + 1..][0] == t[i + 1] && t[i + 1..][1..] == t[i + 2..];
    var r := Thin(less, t[i + 1], t[i + 2..]);
    assert t[..i] + ([t[i]] + r.0) == t[..i + 1] + r.0;
  }

  lemma ThinningDrop<E>(less: (E, E) -> bool, s: seq<E>, t: seq<E>, i: nat, g: seq<E>)
    requires Thinning(less, s, t, i, g) && i + 1 < |t| && Equivalent(less, t[i], t[i + 1])
    ensures Thinning(less, s, t[..i + 1] + t[i + 2..], i, g + [t[i + 1]])
  {
    var u := t[..i + 1] + t[i + 2..];
    assert t[i + 1..][0] == t[i + 1] && t[i + 1..][1..] == t[i + 2..];
    assert u[..i] == t[..i] && u[i] == t[i] && u[i + 1..] == t[i + 2..];
    var r := Thin(less, t[i], t[i + 2..]);
    assert g + ([t[i + 1]] + r.1) == g + [t[i + 1]] + r.1;
  }

  lemma ThinningEnd<E>(less: (E, E) -> bool, s: seq<E>, t: seq<E>, g: seq<E>)
    requires t != [] && Thinning(less, s, t, |t| - 1, g)
    ensures Thin(less, s[0], s[1..]) == (t, g)
  {
    assert t[|t| - 1 + 1..] == [];
    assert t[..|t| - 1] + [t[|t| - 1]] == t && g + [] == g;
  }

  /** list_unique: of adjacent ties only the first stays. The nodes taken out are appended to
      `duplicates` when there is such a list. */
  method Unique(l: List, duplicates: List?, less: Less)
    requires l.Valid()
    requires duplicates != null ==> duplicates != l && duplicates.Valid() && Disjoint(l.chain, duplicates.chain)
    modifies l`chain, l.chain
    modifies if duplicates == null then {} else {duplicates}
    modifies if duplicates == null then {} else Elements(duplicates.chain)
    ensures l.Valid() && (duplicates != null ==> duplicates.Valid())
    ensures old(l.Elems()) == [] ==> l.Elems() == [] && (duplicates != null ==> duplicates.Elems() == old(duplicates.Elems()))
    ensures var s := old(l.Elems());
      s != [] ==>
        && l.Elems() == Thin(less, s[0], s[1..]).0
        && (duplicates != null ==> duplicates.Elems() == old(duplicates.Elems()) + Thin(less, s[0], s[1..]).1)
  {
    hide Linked, Thin;
    var empty := l.Empty();
    if !empty {
      ghost var nodes := Elements(l.chain) + if duplicates == null then {} else Elements(duplicates.chain);
      UniqueLoop(l, duplicates, nodes, less);
    }
  }

  method UniqueLoop(l: List, duplicates: List?, ghost nodes: set<Elem>, less: Less)
    requires Apart(l, duplicates, nodes) && l.Elems() != []
    modifies l`chain, nodes, if duplicates == null then {} else {duplicates}
    ensures Apart(l, duplicates, nodes)
    ensures var s := old(l.Elems());
      && l.Elems() == Thin(less, s[0], s[1..]).0
      && (duplicates != null ==> duplicates.Elems() == old(duplicates.Elems()) + Thin(less, s[0], s[1..]).1)
  {
    hide Linked, Thin, Thinning, Within, Disjoint;
    ghost var s := l.Elems();
    ghost var i: nat := 0;
    ghost var g: seq<Elem> := [];
    ThinningStart(less, s);
    var elem := l.Begin();
    var next := NextAt(l, 1, elem);
    while next != l.tail
      invariant Apart(l, duplicates, nodes)
      invariant i + 2 < |l.chain| && elem == l.chain[i + 1] && next == l.chain[i + 2]
      invariant Thinning(less, s, l.Elems(), i, g)
      invariant duplicates != null ==> duplicates.Elems() == old(duplicates.Elems()) + g
      decreases |l.chain| - i
    {
      elem, next, i, g := UniqueStep(l, duplicates, nodes, s, i, g, elem, next, less);
    }
    PositionUnique(l, i + 2, |l.chain| - 1);
    ThinningEnd(less, s, l.Elems(), g);
  }

  /** One round of the walk. */
  method UniqueStep(l: List, duplicates: List?, ghost nodes: set<Elem>, ghost s: seq<Elem>, ghost i: nat,
                    ghost g: seq<Elem>, elem: Elem, next: Elem, less: Less)
    returns (elem': Elem, next': Elem, ghost i': nat, ghost g': seq<Elem>)
    requires Apart(l, duplicates, nodes)
    requires i + 2 < |l.chain| && elem == l.chain[i + 1] && next == l.chain[i + 2] && next != l.tail
    requires Thinning(less, s, l.Elems(), i, g)
    modifies l`chain, nodes, if duplicates == null then {} else {duplicates}
    ensures Apart(l, duplicates, nodes)
    ensures i' + 2 < |l.chain| && elem' == l.chain[i' + 1] && next' == l.chain[i' + 2]
    ensures Thinning(less, s, l.Elems(), i', g')
    ensures g' == g || g' == g + [next]
    ensures duplicates != null ==> duplicates.Elems() == old(duplicates.Elems()) + g'[|g|..]
    ensures |l.chain| - i' < old(|l.chain|) - i
  {
    hide Linked, Thin, Thinning, Within, Disjoint;
    ghost var t := l.Elems();
    NotLast(l, i + 2);
    assert t[i] == elem && t[i + 1] == next;
    if !less(elem, next) && !less(next, elem) {
      ThinningDrop(less, s, t, i, g);
      TakeOut(l, duplicates, nodes, i + 2, next);
      elem', i', g' := elem, i, g + [next];
    } else {
      ThinningKeep(less, s, t, i, g);
      elem', i', g' := next, i + 1, g;
    }
    next' := NextAt(l, i' + 1, elem');
  }

  lemma NotLast(l: List, i: nat)
    requires l.Valid() && i < |l.chain| && l.chain[i] != l.tail
    ensures i < |l.chain| - 1
  {
  }
}
