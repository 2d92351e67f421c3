/** The kernel's doubly linked list (src/lib/kernel/list.c): nodes relinked in place between two
    sentinels. The ghost field `chain` lists head, interior elements and tail in order; Valid()
    ties it to the links. Every operation is specified by what it does to that sequence. */
module LinkedList {
  import opened Sequences

  class Elem {
    var prev: Elem?
    var next: Elem?

    constructor ()
      ensures prev == null && next == null
    {
      prev, next := null, null;
    }
  }

  type Less = (Elem, Elem) -> bool

  /** The nodes of c are linked in exactly this order and each occurs once. */
  ghost predicate Linked(c: seq<Elem>)
    reads c
  {
    && Distinct(c)
    && (forall i {:trigger c[i].next} | 0 <= i < |c| :: c[i].next == if i + 1 < |c| then c[i + 1] else null)
    && (forall i {:trigger c[i].prev} | 0 <= i < |c| :: c[i].prev == if i > 0 then c[i - 1] else null)
  }

  class List {
    const head: Elem
    const tail: Elem
    ghost var chain: seq<Elem>

    ghost predicate Valid()
      reads this, chain
    {
      && |chain| >= 2 && chain[0] == head && chain[|chain| - 1] == tail
      && Linked(chain)
    }

    /** The interior elements: the list as its users see it. */
    ghost function Elems(): (s: seq<Elem>)
      reads this
      requires |chain| >= 2
    {
      chain[1..|chain| - 1]
    }

    /** list_init. */
    constructor ()
      ensures Valid() && Elems() == [] && fresh(head) && fresh(tail)
    {
      head := new Elem();
      tail := new Elem();
      new;
      head.next := tail;
      tail.prev := head;
      chain := [head, tail];
    }

    method Begin() returns (e: Elem)
      requires Valid()
      ensures e == chain[1]
    {
      e := head.next;
    }

    method Empty() returns (r: bool)
      requires Valid()
      ensures r <==> Elems() == []
    {
      var b := Begin();
      r := b == tail;
    }
  }

  /** list_insert: e goes just before the node at position i of the chain. */
  method Insert(ghost l: List, ghost i: nat, before: Elem, e: Elem)
    requires l.Valid() && 1 <= i < |l.chain| && l.chain[i] == before && e !in l.chain
    modifies l`chain, e, before, l.chain[i - 1]
    ensures l.Valid()
    ensures l.chain == old(l.chain[..i]) + [e] + old(l.chain[i..])
  {
    ghost var c := l.chain;
    assert before.prev == c[i - 1];
    e.prev := before.prev;
    e.next := before;
    before.prev.next := e;
    before.prev := e;
    l.chain := c[..i] + [e] + c[i..];
  }

  /** list_remove: unlinks the node at position i and returns its successor. */
  method Remove(ghost l: List, ghost i: nat, e: Elem) returns (n: Elem)
    requires l.Valid() && 1 <= i < |l.chain| - 1 && l.chain[i] == e
    modifies l`chain, l.chain[i - 1], l.chain[i + 1]
    ensures l.Valid()
    ensures l.chain == old(l.chain[..i]) + old(l.chain[i + 1..])
    ensures n == old(l.chain[i + 1])
  {
    ghost var c := l.chain;
    assert e.prev == c[i - 1] && e.next == c[i + 1];
    e.prev.next := e.next;
    e.next.prev := e.prev;
    n := e.next;
    l.chain := c[..i] + c[i + 1..];
  }

  /** The sequence without its block [j, k), and with a block b put in at position i. */
  function Without<E>(c: seq<E>, j: nat, k: nat): (r: seq<E>)
    requires j <= k <= |c|
  {
    c[..j] + c[k..]
  }

  function With<E>(c: seq<E>, i: nat, b: seq<E>): (r: seq<E>)
    requires i <= |c|
  {
    c[..i] + b + c[i..]
  }

  ghost predicate Disjoint<E>(a: seq<E>, b: seq<E>)
  {
    forall i, j | 0 <= i < |a| && 0 <= j < |b| :: a[i] != b[j]
  }

  /** A block that hangs together inside; its two outer links may point anywhere. */
  ghost predicate Segment(b: seq<Elem>)
    reads b
  {
    && Distinct(b)
    && (forall i {:trigger b[i].next} | 0 <= i < |b| - 1 :: b[i].next == b[i + 1])
    && (forall i {:trigger b[i].prev} | 0 < i < |b| :: b[i].prev == b[i - 1])
  }

  /** First half of list_splice: first...end leave their list. */
  method Unlink(ghost m: List, ghost j: nat, ghost k: nat, first: Elem, end: Elem)
    requires m.Valid() && 1 <= j < k < |m.chain| && m.chain[j] == first && m.chain[k - 1] == end
    modifies m`chain, m.chain[j - 1], m.chain[k]
    ensures m.Valid() && m.chain == Without(old(m.chain), j, k)
    ensures Segment(old(m.chain[j..k])) && Disjoint(old(m.chain[j..k]), m.chain)
    ensures first !in m.chain && end !in m.chain
  {
    ghost var c := m.chain;
    assert first.prev == c[j - 1] && end.next == c[k];
    first.prev.next := end.next;
    end.next.prev := first.prev;
    m.chain := Without(c, j, k);
    GapLinked(c, j, k);
  }

  lemma GapLinked(c: seq<Elem>, j: nat, k: nat)
    requires Distinct(c) && 1 <= j < k < |c|
    requires forall t {:trigger c[t].next} | 0 <= t < |c| && t != j - 1 :: c[t].next == if t + 1 < |c| then c[t + 1] else null
    requires forall t {:trigger c[t].prev} | 0 <= t < |c| && t != k :: c[t].prev == if t > 0 then c[t - 1] else null
    requires c[j - 1].next == c[k] && c[k].prev == c[j - 1]
    ensures Linked(Without(c, j, k))
  {
    var w, n := Without(c, j, k), k - j;
    forall t {:trigger w[t].next} {:trigger w[t].prev} | 0 <= t < |w|
      ensures w[t].next == if t + 1 < |w| then w[t + 1] else null
      ensures w[t].prev == if t > 0 then w[t - 1] else null
    {
      assert w[t] == c[if t < j then t else t + n];
      assert t + 1 < |w| ==> w[t + 1] == c[if t + 1 < j then t + 1 else t + 1 + n];
      assert t > 0 ==> w[t - 1] == c[if t - 1 < j then t - 1 else t - 1 + n];
    }
  }

  /** Second half: the block b from first to end is linked in just before position i. */
  method LinkBefore(ghost l: List, ghost i: nat, ghost b: seq<Elem>, before: Elem, first: Elem, end: Elem)
    requires l.Valid() && 1 <= i < |l.chain| && l.chain[i] == before
    requires b != [] && Segment(b) && Disjoint(b, l.chain) && first == b[0] && end == b[|b| - 1]
    modifies l`chain, before, l.chain[i - 1], first, end
    ensures l.Valid() && l.chain == With(old(l.chain), i, b)
  {
    ghost var c := l.chain;
    assert before.prev == c[i - 1];
    first.prev := before.prev;
    end.next := before;
    before.prev.next := first;
    before.prev := end;
    l.chain := With(c, i, b);
    BlockLinked(c, i, b);
  }

  lemma BlockLinked(c: seq<Elem>, i: nat, b: seq<Elem>)
    requires Distinct(c) && Distinct(b) && Disjoint(b, c) && 1 <= i < |c| && b != []
    requires forall t {:trigger c[t].next} | 0 <= t < |c| && t != i - 1 :: c[t].next == if t + 1 < |c| then c[t + 1] else null
    requires forall t {:trigger c[t].prev} | 0 <= t < |c| && t != i :: c[t].prev == if t > 0 then c[t - 1] else null
    requires forall t {:trigger b[t].next} | 0 <= t < |b| - 1 :: b[t].next == b[t + 1]
    requires forall t {:trigger b[t].prev} | 0 < t < |b| :: b[t].prev == b[t - 1]
    requires c[i - 1].next == b[0] && b[0].prev == c[i - 1]
    requires c[i].prev == b[|b| - 1] && b[|b| - 1].next == c[i]
    ensures Linked(With(c, i, b))
  {
    var w, n := With(c, i, b), |b|;
    forall t {:trigger w[t].next} {:trigger w[t].prev} | 0 <= t < |w|
      ensures w[t].next == if t + 1 < |w| then w[t + 1] else null
      ensures w[t].prev == if t > 0 then w[t - 1] else null
    {
      assert w[t] == if t < i then c[t] else if t < i + n then b[t - i] else c[t - n];
      assert t + 1 < |w| ==> w[t + 1] == if t + 1 < i then c[t + 1] else if t + 1 < i + n then b[t + 1 - i] else c[t + 1 - n];
      assert t > 0 ==> w[t - 1] == if t - 1 < i then c[t - 1] else if t - 1 < i + n then b[t - 1 - i] else c[t - 1 - n];
    }
    forall s, t | 0 <= s < t < |w| ensures w[s] != w[t] {
      assert w[s] == if s < i then c[s] else if s < i + n then b[s - i] else c[s - n];
      assert w[t] == if t < i then c[t] else if t < i + n then b[t - i] else c[t - n];
    }
  }

  /** The chain that receives the block: the destination, without the block if it is also the source. */
  ghost function Receiver(l: List, m: List, j: nat, k: nat): (c: seq<Elem>)
    reads l, m
    requires j <= k <= |m.chain|
  {
    if l == m then Without(m.chain, j, k) else l.chain
  }

  /** list_splice: moves [first, last) of list m to just before `before` in list l. The two may be
      one list, in which case i is the position of `before` once the block is out; `before` must
      not be one of the moved nodes. */
  method Splice(ghost l: List, ghost i: nat, ghost m: List, ghost j: nat, ghost k: nat,
                before: Elem, first: Elem, last: Elem)
    requires l.Valid() && m.Valid() && (l != m ==> Disjoint(l.chain, m.chain))
    requires 1 <= j <= k < |m.chain| && m.chain[j] == first && m.chain[k] == last
    requires 1 <= i < |Receiver(l, m, j, k)| && Receiver(l, m, j, k)[i] == before
    modifies l`chain, l.chain, m`chain, m.chain
    ensures l.Valid() && m.Valid()
    ensures l != m ==> m.chain == Without(old(m.chain), j, k)
    ensures l.chain == With(old(Receiver(l, m, j, k)), i, old(m.chain[j..k]))
  {
    hide Linked, With, Without, Disjoint;
    if first == last {
      PositionUnique(m, j, k);
      NothingMoved(m.chain, j);
      NothingAdded(l.chain, i, m.chain[j..k]);
      return;
    }
    var end := PredecessorAt(m, k, last);
    SpliceBlock(l, i, m, j, k, before, first, end);
  }

  lemma NothingMoved<E>(c: seq<E>, j: nat)
    requires j <= |c|
    ensures Without(c, j, j) == c && c[j..j] == []
  {
  }

  lemma NothingAdded<E>(c: seq<E>, i: nat, b: seq<E>)
    requires i <= |c| && b == []
    ensures With(c, i, b) == c
  {
  }

  lemma PositionUnique(m: List, j: nat, k: nat)
    requires m.Valid() && j < |m.chain| && k < |m.chain| && m.chain[j] == m.chain[k]
    ensures j == k
  {
  }

  method PredecessorAt(ghost m: List, ghost k: nat, e: Elem) returns (p: Elem)
    requires m.Valid() && 1 <= k < |m.chain| && m.chain[k] == e
    ensures p == m.chain[k - 1]
  {
    p := e.prev;
  }

  method SpliceBlock(ghost l: List, ghost i: nat, ghost m: List, ghost j: nat, ghost k: nat,
                     before: Elem, first: Elem, end: Elem)
    requires l.Valid() && m.Valid() && (l != m ==> Disjoint(l.chain, m.chain))
    requires 1 <= j < k < |m.chain| && m.chain[j] == first && m.chain[k - 1] == end
    requires 1 <= i < |Receiver(l, m, j, k)| && Receiver(l, m, j, k)[i] == before
    modifies l`chain, l.chain, m`chain, m.chain
    ensures l.Valid() && m.Valid()
    ensures l != m ==> m.chain == Without(old(m.chain), j, k)
    ensures l.chain == With(old(Receiver(l, m, j, k)), i, old(m.chain[j..k]))
  {
    hide Linked, Segment, Disjoint, With, Without;
    ghost var b := m.chain[j..k];
    ghost var d := Receiver(l, m, j, k);
    SpliceFrames(l, i, m, j, k);
    Unlink(m, j, k, first, end);
    assert l.chain == d;
    LinkBefore(l, i, b, before, first, end);
  }

  /** Which nodes the two halves of a splice touch, and which they leave alone. */
  lemma SpliceFrames(l: List, i: nat, m: List, j: nat, k: nat)
    requires l != m ==> Disjoint(l.chain, m.chain)
    requires 1 <= j < k < |m.chain| && 1 <= i < |Receiver(l, m, j, k)|
    ensures var d := Receiver(l, m, j, k);
      && m.chain[j] in m.chain && m.chain[k - 1] in m.chain
      && m.chain[j - 1] in m.chain && m.chain[k] in m.chain
      && d[i] in l.chain && d[i - 1] in l.chain
      && (l != m ==>
            && Disjoint(m.chain[j..k], l.chain) && m.chain[j - 1] !in l.chain && m.chain[k] !in l.chain
            && var w := Without(m.chain, j, k); d[i] !in w && d[i - 1] !in w)
  {
    var d, c := Receiver(l, m, j, k), m.chain;
    if l == m {
      assert d[i - 1] == c[if i - 1 < j then i - 1 else i - 1 + (k - j)];
      assert d[i] == c[if i < j then i else i + (k - j)];
    }
  }
}
