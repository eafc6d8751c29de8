/** The binary heap of tos/interfaces/pqueue.h: an array, 8-bit indices, and a comparison supplied by the
    user. */
module PQueue {

  /** int8_t, the type of the elements and of the indices. */
  type Int8 = x: int | -0x80 <= x < 0x80

  /** uint8_t */
  type UInt8 = x: int | 0 <= x < 0x100

  type Compare = (Int8, Int8) -> int

  /** The comparison orders the elements, up to equivalence. */
  ghost predicate Preorder(cmp: Compare) {
    && (forall a, b :: cmp(a, b) < 0 <==> cmp(b, a) > 0)
    && (forall a, b, c :: cmp(a, b) <= 0 && cmp(b, c) <= 0 ==> cmp(a, c) <= 0)
  }

  function Parent(i: nat): nat
    requires i > 0
  {
    (i - 1) / 2
  }

  /** Element j is not smaller than its parent. */
  ghost predicate Ordered(h: seq<Int8>, cmp: Compare, j: nat)
    requires 0 < j < |h|
  {
    cmp(h[Parent(j)], h[j]) <= 0
  }

  ghost predicate IsHeap(h: seq<Int8>, cmp: Compare) {
    forall j: nat :: 0 < j < |h| ==> Ordered(h, cmp, j)
  }

  /** A heap with a hole at slot i, whose own value does not matter: the rest is in order, also across
      the hole. */
  ghost predicate HeapWithHole(h: seq<Int8>, cmp: Compare, i: nat) {
    && (forall j: nat :: 0 < j < |h| && j != i && Parent(j) != i ==> Ordered(h, cmp, j))
    && (forall j: nat :: 0 < i && 0 < j < |h| && Parent(j) == i ==> cmp(h[Parent(i)], h[j]) <= 0)
  }

  /** e may stand above the children of slot i. */
  ghost predicate AboveChildren(h: seq<Int8>, cmp: Compare, i: nat, e: Int8) {
    forall j: nat :: 0 < j < |h| && Parent(j) == i ==> cmp(e, h[j]) <= 0
  }

  /** The elements, with e in place of the one in slot i; and the elements without the one in slot i. */
  ghost function BagWith(h: seq<Int8>, i: nat, e: Int8): multiset<Int8>
    requires i < |h|
  {
    multiset(h[i := e])
  }

  ghost function Without(h: seq<Int8>, i: nat): multiset<Int8>
    requires i < |h|
  {
    multiset(h) - multiset{h[i]}
  }

  lemma FilledBag(h: seq<Int8>, i: nat, e: Int8)
    requires i < |h|
    ensures multiset(h[i := e]) == BagWith(h, i, e)
  {
  }

  lemma AppendedBag(h: seq<Int8>, e: Int8)
    requires h != []
    ensures BagWith(h, |h| - 1, e) == multiset(h[..|h| - 1]) + multiset{e}
  {
    assert h[|h| - 1 := e] == h[..|h| - 1] + [e];
  }

  /** Moving an element from slot i to slot j and putting e into j is the same, as a bag, as putting e
      into i. */
  lemma MoveKeepsBag(h: seq<Int8>, i: nat, j: nat, e: Int8)
    requires i < |h| && j < |h| && i != j
    ensures BagWith(h[i := h[j]], j, e) == BagWith(h, i, e)
  {
  }

  lemma SlotUpdate(h: seq<Int8>, i: nat, e: Int8)
    requires i < |h|
    ensures multiset(h[i := e]) == multiset(h) - multiset{h[i]} + multiset{e}
  {
  }

  /** The root of a heap is a minimum. */
  lemma {:induction false} RootIsMinimum(h: seq<Int8>, cmp: Compare, j: nat)
    requires Preorder(cmp) && IsHeap(h, cmp) && j < |h|
    ensures cmp(h[0], h[j]) <= 0
    decreases j
  {
    if j > 0 {
      RootIsMinimum(h, cmp, Parent(j));
      assert Ordered(h, cmp, j);
    } else {
      assert !(cmp(h[0], h[0]) > 0);
    }
  }

  /** No element of h is smaller than x, which is one of them. */
  ghost predicate LeastIn(x: Int8, h: seq<Int8>, cmp: Compare) {
    x in h && forall y :: y in h ==> cmp(x, y) <= 0
  }

  lemma RootIsLeast(h: seq<Int8>, cmp: Compare)
    requires Preorder(cmp) && IsHeap(h, cmp)
    ensures h != [] ==> LeastIn(h[0], h, cmp)
  {
    hide IsHeap;
    forall y | y in h ensures cmp(h[0], y) <= 0 {
      var j :| 0 <= j < |h| && h[j] == y;
      RootIsMinimum(h, cmp, j);
    }
  }

  /** Filling the hole closes it if the value fits below the parent and above the children. */
  lemma FillHole(h: seq<Int8>, cmp: Compare, i: nat, e: Int8)
    requires i < |h| && HeapWithHole(h, cmp, i) && AboveChildren(h, cmp, i, e)
    ensures IsHeap(h[i := e], cmp) <==> i == 0 || cmp(h[Parent(i)], e) <= 0
  {
    var g := h[i := e];
    forall j: nat | 0 < j < |g| && j != i ensures Ordered(g, cmp, j) {
      if Parent(j) != i {
        assert Ordered(h, cmp, j);
      }
    }
    if i > 0 {
      assert Ordered(g, cmp, i) <==> cmp(h[Parent(i)], e) <= 0;
    }
  }

  /** A new last slot is a hole without children. */
  lemma HoleAtEnd(h: seq<Int8>, cmp: Compare, e: Int8)
    requires h != [] && IsHeap(h[..|h| - 1], cmp)
    ensures HeapWithHole(h, cmp, |h| - 1) && AboveChildren(h, cmp, |h| - 1, e)
  {
    forall j: nat | 0 < j < |h| - 1 ensures Ordered(h, cmp, j) {
      assert Ordered(h[..|h| - 1], cmp, j);
    }
  }

  /** Moving the hole up: the parent's element comes down. */
  lemma HoleUp(h: seq<Int8>, cmp: Compare, i: nat, e: Int8)
    requires Preorder(cmp) && 0 < i < |h| && HeapWithHole(h, cmp, i) && AboveChildren(h, cmp, i, e)
    requires cmp(e, h[Parent(i)]) < 0
    ensures var g := h[i := h[Parent(i)]];
            HeapWithHole(g, cmp, Parent(i)) && AboveChildren(g, cmp, Parent(i), e)
  {
    hide Preorder, AboveChildren, Ordered;
    var p := Parent(i);
    var g := h[i := h[p]];
    forall j: nat | 0 < j < |g| && j != p && Parent(j) != p ensures Ordered(g, cmp, j) {
      RestOrdered(h, cmp, i, j);
    }
    forall j: nat | 0 < p && 0 < j < |g| && Parent(j) == p ensures cmp(g[Parent(p)], g[j]) <= 0 {
      AcrossHole(h, cmp, i, j);
    }
    AboveSiblings(h, cmp, i, e);
  }

  /** The new element is smaller than the parent that came down, so it may stand above both children. */
  lemma AboveSiblings(h: seq<Int8>, cmp: Compare, i: nat, e: Int8)
    requires Preorder(cmp) && 0 < i < |h| && HeapWithHole(h, cmp, i) && AboveChildren(h, cmp, i, e)
    requires cmp(e, h[Parent(i)]) < 0
    ensures AboveChildren(h[i := h[Parent(i)]], cmp, Parent(i), e)
  {
    var p := Parent(i);
    forall j: nat | 0 < j < |h| && Parent(j) == p ensures cmp(e, h[i := h[p]][j]) <= 0 {
      if j != i {
        assert Ordered(h, cmp, j);
      }
    }
  }

  /** Away from the new hole nothing changed, and below the old one the grandparent's order holds. */
  lemma RestOrdered(h: seq<Int8>, cmp: Compare, i: nat, j: nat)
    requires 0 < i < |h| && HeapWithHole(h, cmp, i)
    requires 0 < j < |h| && j != Parent(i) && Parent(j) != Parent(i)
    ensures Ordered(h[i := h[Parent(i)]], cmp, j)
  {
    if Parent(j) != i {
      assert Ordered(h, cmp, j);
    }
  }

  /** Across the new hole: what stands above it is not greater than what stands below. */
  lemma AcrossHole(h: seq<Int8>, cmp: Compare, i: nat, j: nat)
    requires Preorder(cmp) && 0 < i < |h| && HeapWithHole(h, cmp, i)
    requires 0 < Parent(i) && 0 < j < |h| && Parent(j) == Parent(i)
    ensures cmp(h[Parent(Parent(i))], h[i := h[Parent(i)]][j]) <= 0
  {
    assert Ordered(h, cmp, Parent(i));
    if j != i {
      assert Ordered(h, cmp, j);
    }
  }

  /** Moving the hole down: its smaller child comes up. */
  lemma HoleDown(h: seq<Int8>, cmp: Compare, i: nat, c: nat)
    requires Preorder(cmp) && i < |h| && HeapWithHole(h, cmp, i)
    requires 0 < c < |h| && Parent(c) == i && AboveChildren(h, cmp, i, h[c])
    ensures HeapWithHole(h[i := h[c]], cmp, c)
  {
    hide Preorder, AboveChildren;
    var g := h[i := h[c]];
    forall j: nat | 0 < j < |g| && j != c && Parent(j) != c ensures Ordered(g, cmp, j) {
      if j == i || Parent(j) == i {
        NextToHole(h, cmp, i, c, j);
      } else {
        assert Ordered(h, cmp, j);
      }
    }
    forall j: nat | 0 < j < |g| && Parent(j) == c ensures cmp(g[i], g[j]) <= 0 {
      assert Ordered(h, cmp, j);
    }
  }

  /** The child that came up fits under the slot above and over its sibling. */
  lemma NextToHole(h: seq<Int8>, cmp: Compare, i: nat, c: nat, j: nat)
    requires i < |h| && HeapWithHole(h, cmp, i)
    requires 0 < c < |h| && Parent(c) == i && AboveChildren(h, cmp, i, h[c])
    requires 0 < j < |h| && j != c && (j == i || Parent(j) == i)
    ensures Ordered(h[i := h[c]], cmp, j)
  {
  }

  lemma LastRemoved(h: seq<Int8>, cmp: Compare)
    requires h != [] && IsHeap(h, cmp)
    ensures IsHeap(h[..|h| - 1], cmp)
    ensures multiset(h[..|h| - 1]) == multiset(h) - multiset{h[|h| - 1]}
    ensures |h| > 1 ==> cmp(h[Parent(|h| - 1)], h[|h| - 1]) <= 0
  {
    var g := h[..|h| - 1];
    forall j: nat | 0 < j < |g| ensures Ordered(g, cmp, j) {
      assert Ordered(h, cmp, j);
    }
    if |h| > 1 {
      assert Ordered(h, cmp, |h| - 1);
    }
    assert h == g + [h[|h| - 1]];
  }

  /** Any slot of a heap may be seen as a hole. */
  lemma HoleInHeap(h: seq<Int8>, cmp: Compare, i: nat)
    requires Preorder(cmp) && i < |h| - 1 && IsHeap(h, cmp)
    ensures HeapWithHole(h[..|h| - 1], cmp, i)
  {
    var g := h[..|h| - 1];
    forall j: nat | 0 < j < |g| ensures Ordered(g, cmp, j) {
      assert Ordered(h, cmp, j);
    }
    forall j: nat | 0 < i && 0 < j < |g| && Parent(j) == i ensures cmp(g[Parent(i)], g[j]) <= 0 {
      assert Ordered(g, cmp, i) && Ordered(g, cmp, j);
    }
  }

  lemma BagOfHole(h: seq<Int8>, i: nat)
    requires i < |h| - 1
    ensures BagWith(h[..|h| - 1], i, h[|h| - 1]) == Without(h, i)
  {
    var g, last := h[..|h| - 1], h[|h| - 1];
    assert h == g + [last];
    SlotUpdate(g, i, last);
  }

  /** The chosen child is the smaller one. */
  lemma SmallerChild(h: seq<Int8>, cmp: Compare, i: nat, c: nat)
    requires Preorder(cmp) && 2 * i + 1 < |h|
    requires c == if 2 * i + 2 < |h| && cmp(h[2 * i + 1], h[2 * i + 2]) > 0 then 2 * i + 2 else 2 * i + 1
    ensures Parent(c) == i && AboveChildren(h, cmp, i, h[c])
  {
  }

  lemma AboveBoth(h: seq<Int8>, cmp: Compare, i: nat, c: nat, e: Int8)
    requires Preorder(cmp) && c < |h| && AboveChildren(h, cmp, i, h[c]) && cmp(h[c], e) >= 0
    ensures AboveChildren(h, cmp, i, e)
  {
  }

  lemma Flip(cmp: Compare, a: Int8, b: Int8)
    requires Preorder(cmp)
    ensures cmp(a, b) >= 0 ==> cmp(b, a) <= 0
  {
  }

  /** If a child is smaller than e, so is what stands above its slot. */
  lemma FitsBelow(h: seq<Int8>, cmp: Compare, i: nat, c: nat, e: Int8)
    requires Preorder(cmp) && i < |h| && HeapWithHole(h, cmp, i)
    requires 0 < c < |h| && Parent(c) == i && !(cmp(h[c], e) >= 0)
    ensures i > 0 ==> cmp(h[Parent(i)], e) <= 0
  {
  }

  lemma NoChildren(h: seq<Int8>, cmp: Compare, i: nat, e: Int8)
    requires i >= |h| / 2
    ensures AboveChildren(h, cmp, i, e)
  {
  }

  lemma FirstTaken(h: seq<Int8>)
    ensures h != [] ==> Without(h, 0) == multiset(h) - multiset{h[0]}
  {
  }

  /** While tmp, the last element of before, sinks from slot i0: the hole is at i, the elements are those of
      before without the one in slot i0, and what stands above the hole is not greater than tmp, unless the hole
      has not moved yet. */
  ghost predicate Sifting(h: seq<Int8>, cmp: Compare, i0: nat, i: nat, before: seq<Int8>, tmp: Int8) {
    && i0 <= i < |h| && |before| == |h| + 1
    && HeapWithHole(h, cmp, i) && BagWith(h, i, tmp) == Without(before, i0)
    && (i == i0 > 0 ==> h[Parent(i)] == before[Parent(i0)])
    && (i > i0 ==> cmp(h[Parent(i)], tmp) <= 0)
    && (i > i0 > 0 ==> cmp(before[Parent(i0)], tmp) <= 0)
  }

  lemma SiftStart(h: seq<Int8>, cmp: Compare, i0: nat, before: seq<Int8>, tmp: Int8)
    requires Preorder(cmp) && i0 < |h| && before == h + [tmp] && IsHeap(before, cmp)
    ensures Sifting(h, cmp, i0, i0, before, tmp)
  {
    hide Preorder, IsHeap, HeapWithHole, BagWith, Without;
    HoleInHeap(before, cmp, i0);
    assert before[..|h|] == h;
    BagOfHole(before, i0);
  }

  lemma SiftStep(h: seq<Int8>, cmp: Compare, i0: nat, i: nat, c: nat, before: seq<Int8>, tmp: Int8)
    requires Preorder(cmp) && Sifting(h, cmp, i0, i, before, tmp)
    requires 0 < c < |h| && Parent(c) == i && AboveChildren(h, cmp, i, h[c]) && !(cmp(h[c], tmp) >= 0)
    ensures i < c && Sifting(h[i := h[c]], cmp, i0, c, before, tmp)
  {
    hide Preorder, HeapWithHole, AboveChildren, BagWith, Without;
    FitsBelow(h, cmp, i, c, tmp);
    HoleDown(h, cmp, i, c);
    MoveKeepsBag(h, i, c, tmp);
  }

  lemma SiftEnd(h: seq<Int8>, cmp: Compare, i0: nat, i: nat, before: seq<Int8>, tmp: Int8)
    requires Sifting(h, cmp, i0, i, before, tmp) && AboveChildren(h, cmp, i, tmp)
    ensures multiset(h[i := tmp]) == Without(before, i0)
    ensures IsHeap(h[i := tmp], cmp) <==> i0 == 0 || cmp(before[Parent(i0)], tmp) <= 0
  {
    hide IsHeap, HeapWithHole, AboveChildren, BagWith, Without;
    FillHole(h, cmp, i, tmp);
    FilledBag(h, i, tmp);
  }

  class PQueue {
    const compare: Compare
    const size: UInt8
    const heap: array<Int8>
    var n_elements: UInt8

    ghost predicate Valid()
      reads this
    {
      Preorder(compare) && size <= 127 && heap.Length == size && n_elements <= size
    }

    ghost function Contents(): seq<Int8>
      reads this, heap
      requires Valid()
    {
      heap[..n_elements]
    }

    /** pqueue_init */
    constructor (size: UInt8, compare: Compare)
      requires size <= 127 && Preorder(compare)
      ensures Valid() && fresh(heap) && this.size == size && this.compare == compare && Contents() == []
    {
      this.size, this.compare, n_elements := size, compare, 0;
      heap := new Int8[size];
    }

    /** pqueue_enqueue: false is FAIL. */
    method Enqueue(e: Int8) returns (ok: bool)
      requires Valid() && IsHeap(Contents(), compare)
      modifies this, heap
      ensures Valid() && IsHeap(Contents(), compare)
      ensures ok == (old(n_elements) < size)
      ensures !ok ==> Contents() == old(Contents())
      ensures ok ==> n_elements == old(n_elements) + 1
      ensures ok ==> multiset(Contents()) == multiset(old(Contents())) + multiset{e}
    {
      hide Preorder, IsHeap, HeapWithHole, AboveChildren, BagWith;
      if size <= n_elements {
        return false;
      }
      ghost var before := Contents();
      n_elements := n_elements + 1;
      assert heap[..n_elements][..n_elements - 1] == before;
      HoleAtEnd(heap[..n_elements], compare, e);
      AppendedBag(heap[..n_elements], e);
      SiftUp(n_elements - 1, e);
      return true;
    }

    /** The loop of pqueue_enqueue, the hole moving up from the new last slot, and the store after it. */
    method SiftUp(ind0: Int8, e: Int8)
      requires Valid() && 0 <= ind0 < n_elements
      requires HeapWithHole(heap[..n_elements], compare, ind0) && AboveChildren(heap[..n_elements], compare, ind0, e)
      modifies heap
      ensures Valid() && IsHeap(Contents(), compare)
      ensures multiset(Contents()) == BagWith(old(heap[..n_elements]), ind0, e)
    {
      hide Preorder, IsHeap, HeapWithHole, AboveChildren, BagWith;
      ghost var n: nat := n_elements;
      var ind := ind0;
      var parent: Int8 := (ind - 1) / 2;
      while ind > 0 && compare(e, heap[parent]) < 0
        invariant 0 <= ind < n_elements && parent == (ind - 1) / 2
        invariant HeapWithHole(heap[..n], compare, ind) && AboveChildren(heap[..n], compare, ind, e)
        invariant BagWith(heap[..n], ind, e) == BagWith(old(heap[..n_elements]), ind0, e)
        decreases ind
      {
        ghost var h := heap[..n];
        HoleUp(h, compare, ind, e);
        MoveKeepsBag(h, ind, parent, e);
        heap[ind] := heap[parent];
        assert heap[..n] == h[ind := h[parent]];
        ind := parent;
        parent := (ind - 1) / 2;
      }
      if ind > 0 {
        Flip(compare, e, heap[parent]);
      }
      ghost var h := heap[..n];
      FillHole(h, compare, ind, e);
      FilledBag(h, ind, e);
      heap[ind] := e;
      assert heap[..n] == h[ind := e];
    }

    /** pqueue_dequeue_idx: fills slot i with the last element and moves it down; returns the root's old
        element whatever i is, and -1 if there is none. */
    method DequeueIdx(i0: Int8) returns (ret: Int8)
      requires Valid() && IsHeap(Contents(), compare)
      requires n_elements > 0 ==> 0 <= i0 < n_elements
      modifies this`n_elements, heap
      ensures Valid()
      ensures old(n_elements) == 0 ==> ret == -1 && Contents() == old(Contents())
      ensures old(n_elements) > 0 ==>
                && ret == old(Contents()[0]) && n_elements == old(n_elements) - 1
                && multiset(Contents()) == Without(old(Contents()), i0)
                && (IsHeap(Contents(), compare) <==>
                    i0 == 0 || compare(old(Contents()[Parent(i0)]), old(Contents()[n_elements - 1])) <= 0)
    {
      hide Preorder, IsHeap, Parent;
      if n_elements == 0 {
        return -1;
      }
      ghost var before := Contents();
      ret := heap[0];
      n_elements := n_elements - 1;
      var tmp := heap[n_elements];
      ghost var n: nat := n_elements;
      assert before == heap[..n] + [tmp];
      if i0 == n_elements {
        heap[i0] := tmp;
        assert heap[..n] == before[..n];
        LastRemoved(before, compare);
        return;
      }
      var i := SiftDown(i0, tmp, before);
    }

    /** The loop of pqueue_dequeue_idx and the store after it, for a slot that remains. */
    method SiftDown(i0: Int8, tmp: Int8, ghost before: seq<Int8>) returns (i: Int8)
      requires Valid() && 0 <= i0 < n_elements
      requires before == heap[..n_elements] + [tmp] && IsHeap(before, compare)
      modifies heap
      ensures Valid()
      ensures multiset(Contents()) == Without(before, i0)
      ensures IsHeap(Contents(), compare) <==> i0 == 0 || compare(before[Parent(i0)], tmp) <= 0
    {
      hide Preorder, IsHeap, HeapWithHole, AboveChildren, BagWith, Without, Sifting, Parent;
      i := i0;
      ghost var n: nat := n_elements;
      SiftStart(heap[..n], compare, i0, before, tmp);
      while i < n_elements / 2
        invariant i0 <= i < n_elements
        invariant Sifting(heap[..n], compare, i0, i, before, tmp)
        decreases n_elements - i
      {
        ghost var h := heap[..n];
        var left_child := ChooseChild(i);
        if compare(heap[left_child], tmp) >= 0 {
          AboveBoth(h, compare, i, left_child, tmp);
          break;
        }
        SiftStep(h, compare, i0, i, left_child, before, tmp);
        heap[i] := heap[left_child];
        assert heap[..n] == h[i := h[left_child]];
        i := left_child;
      }
      if i >= n_elements / 2 {
        NoChildren(heap[..n], compare, i, tmp);
      }
      ghost var h := heap[..n];
      SiftEnd(h, compare, i0, i, before, tmp);
      heap[i] := tmp;
      assert heap[..n] == h[i := tmp];
    }

    /** The smaller child of slot i; the left one if they are equivalent. */
    method ChooseChild(i: Int8) returns (left_child: Int8)
      requires Valid() && 0 <= i < n_elements / 2
      ensures 0 < left_child < n_elements && Parent(left_child) == i
      ensures AboveChildren(heap[..n_elements], compare, i, heap[left_child])
    {
      hide Preorder, AboveChildren;
      left_child := i * 2 + 1;
      if left_child < n_elements - 1 && compare(heap[left_child], heap[left_child + 1]) > 0 {
        left_child := left_child + 1;
      }
      SmallerChild(heap[..n_elements], compare, i, left_child);
    }

    /** pqueue_dequeue: a minimum leaves the heap. */
    method Dequeue() returns (ret: Int8)
      requires Valid() && IsHeap(Contents(), compare)
      modifies this`n_elements, heap
      ensures Valid() && IsHeap(Contents(), compare)
      ensures old(n_elements) == 0 ==> ret == -1 && Contents() == []
      ensures old(n_elements) > 0 ==> n_elements == old(n_elements) - 1
      ensures old(n_elements) > 0 ==> multiset(Contents()) == multiset(old(Contents())) - multiset{ret}
      ensures old(n_elements) > 0 ==> LeastIn(ret, old(Contents()), compare)
    {
      hide Preorder, IsHeap, LeastIn, Without;
      ghost var before := Contents();
      RootIsLeast(before, compare);
      ret := DequeueIdx(0);
      FirstTaken(before);
    }

    /** pqueue_remove: one occurrence of e goes, if there is one. What is returned is the root's old
        element, not e; and only if the removed slot was the root, or its parent is not greater than the
        last element, is the result a heap. */
    method Remove(e: Int8) returns (ret: Int8)
      requires Valid() && IsHeap(Contents(), compare)
      modifies this`n_elements, heap
      ensures Valid()
      ensures e !in old(Contents()) ==> ret == -1 && Contents() == old(Contents())
      ensures e in old(Contents()) ==>
                && ret == old(Contents()[0])
                && multiset(Contents()) == multiset(old(Contents())) - multiset{e}
                && (IsHeap(Contents(), compare) <==> RemovalKeepsHeap(old(Contents()), compare, e))
    {
      hide Preorder, IsHeap, First, RemovalKeepsHeap, Without;
      ghost var before := Contents();
      var i: Int8 := 0;
      assert before[..0] == [];
      while i < n_elements
        invariant 0 <= i <= n_elements == |before| && Contents() == before
        invariant e !in before[..i]
        decreases n_elements - i
      {
        if heap[i] == e {
          FoundAt(before, compare, e, i);
          ret := DequeueIdx(i);
          return;
        }
        NotFoundAt(before, e, i);
        i := i + 1;
      }
      assert before[..i] == before;
      return -1;
    }

    /** pqueue_peek */
    method Peek() returns (ret: Int8)
      requires Valid() && IsHeap(Contents(), compare)
      ensures n_elements == 0 ==> ret == -1
      ensures n_elements > 0 ==> LeastIn(ret, Contents(), compare)
    {
      if n_elements == 0 {
        return -1;
      }
      RootIsLeast(Contents(), compare);
      return heap[0];
    }
  }

  /** The slot pqueue_remove finds. */
  function First(h: seq<Int8>, e: Int8): (i: nat)
    requires e in h
    ensures i < |h| && h[i] == e && e !in h[..i]
  {
    if h[0] == e then 0
    else
      var i := 1 + First(h[1..], e);
      assert h[..i] == [h[0]] + h[1..][..i - 1];
      i
  }

  lemma FirstIs(h: seq<Int8>, e: Int8, i: nat)
    requires i < |h| && h[i] == e && e !in h[..i]
    ensures First(h, e) == i
  {
  }

  predicate RemovalKeepsHeap(h: seq<Int8>, cmp: Compare, e: Int8)
    requires e in h
  {
    var i := First(h, e);
    i == 0 || cmp(h[Parent(i)], h[|h| - 1]) <= 0
  }

  lemma FoundAt(h: seq<Int8>, cmp: Compare, e: Int8, i: nat)
    requires i < |h| && h[i] == e && e !in h[..i]
    ensures e in h && Without(h, i) == multiset(h) - multiset{e}
    ensures RemovalKeepsHeap(h, cmp, e) <==> i == 0 || cmp(h[Parent(i)], h[|h| - 1]) <= 0
  {
    FirstIs(h, e, i);
  }

  lemma NotFoundAt(h: seq<Int8>, e: Int8, i: nat)
    requires i < |h| && h[i] != e && e !in h[..i]
    ensures e !in h[..i + 1]
  {
    assert h[..i + 1] == h[..i] + [h[i]];
  }

  function Minus(a: Int8, b: Int8): int {
    a - b
  }

  lemma MinusIsPreorder()
    ensures Preorder(Minus)
  {
  }

  lemma HeapOfSix(h: seq<Int8>)
    requires |h| == 6
    requires h[0] <= h[1] && h[0] <= h[2] && h[1] <= h[3] && h[1] <= h[4] && h[2] <= h[5]
    ensures IsHeap(h, Minus)
  {
  }

  /** A removal that breaks the heap: of the 6 in 0, 5, 1, 6, 7, 2, in the usual order. */
  lemma RemovalBreaksHeap() returns (h: seq<Int8>, e: Int8)
    ensures Preorder(Minus) && IsHeap(h, Minus) && e in h && !RemovalKeepsHeap(h, Minus, e)
  {
    hide IsHeap, Preorder;
    h, e := [0, 5, 1, 6, 7, 2], 6;
    MinusIsPreorder();
    HeapOfSix(h);
    assert h[3] == e && h[Parent(3)] == 5;
    FirstIs(h, e, 3);
  }

  // ---- Sorting by way of the heap ----

  ghost predicate SortedBy(s: seq<Int8>, cmp: Compare) {
    forall i, j :: 0 <= i < j < |s| ==> cmp(s[i], s[j]) <= 0
  }

  /** Any list that fits, enqueued and drained, comes out sorted and complete. */
  method Sort(xs: seq<Int8>, cmp: Compare) returns (ys: seq<Int8>)
    requires |xs| <= 127 && Preorder(cmp)
    ensures multiset(ys) == multiset(xs) && SortedBy(ys, cmp)
  {
    hide Preorder, IsHeap, SortedBy;
    EmptyHeap(cmp);
    var q := new PQueue(|xs|, cmp);
    EnqueueAll(q, xs);
    ys := Drain(q);
  }

  method EnqueueAll(q: PQueue, xs: seq<Int8>)
    requires q.Valid() && q.Contents() == [] && q.size == |xs| && IsHeap(q.Contents(), q.compare)
    modifies q, q.heap
    ensures q.Valid() && IsHeap(q.Contents(), q.compare) && multiset(q.Contents()) == multiset(xs)
  {
    hide Preorder, IsHeap;
    for i := 0 to |xs|
      invariant q.Valid() && IsHeap(q.Contents(), q.compare)
      invariant q.n_elements == i && multiset(q.Contents()) == multiset(xs[..i])
    {
      OneMore(xs, i);
      var ok := q.Enqueue(xs[i]);
    }
    assert xs[..|xs|] == xs;
  }

  lemma OneMore(xs: seq<Int8>, i: nat)
    requires i < |xs|
    ensures multiset(xs[..i + 1]) == multiset(xs[..i]) + multiset{xs[i]}
  {
    assert xs[..i + 1] == xs[..i] + [xs[i]];
  }

  /** ys stands before everything in h. */
  ghost predicate Before(ys: seq<Int8>, h: seq<Int8>, cmp: Compare) {
    forall y, x :: y in ys && x in h ==> cmp(y, x) <= 0
  }

  lemma DrainStep(ys: seq<Int8>, h: seq<Int8>, cmp: Compare, y: Int8, h': seq<Int8>)
    requires SortedBy(ys, cmp) && Before(ys, h, cmp)
    requires LeastIn(y, h, cmp)
    requires multiset(h') == multiset(h) - multiset{y}
    ensures SortedBy(ys + [y], cmp) && Before(ys + [y], h', cmp)
    ensures multiset(ys + [y]) + multiset(h') == multiset(ys) + multiset(h)
  {
    forall x | x in h' ensures x in h {
      assert x in multiset(h');
    }
  }

  method Drain(q: PQueue) returns (ys: seq<Int8>)
    requires q.Valid() && IsHeap(q.Contents(), q.compare)
    modifies q, q.heap
    ensures multiset(ys) == multiset(old(q.Contents())) && SortedBy(ys, q.compare)
  {
    hide Preorder, IsHeap, SortedBy, Before, LeastIn;
    ys := [];
    NothingDrained(q.Contents(), q.compare);
    while q.n_elements > 0
      invariant q.Valid() && IsHeap(q.Contents(), q.compare)
      invariant multiset(ys) + multiset(q.Contents()) == multiset(old(q.Contents()))
      invariant SortedBy(ys, q.compare) && Before(ys, q.Contents(), q.compare)
      decreases q.n_elements
    {
      ghost var before := q.Contents();
      var y := q.Dequeue();
      DrainStep(ys, before, q.compare, y, q.Contents());
      ys := ys + [y];
    }
  }

  lemma NothingDrained(h: seq<Int8>, cmp: Compare)
    ensures SortedBy([], cmp) && Before([], h, cmp)
  {
  }

  lemma EmptyHeap(cmp: Compare)
    ensures IsHeap([], cmp)
  {
  }
}
