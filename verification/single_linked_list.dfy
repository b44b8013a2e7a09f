/**
 `SingleLinkedList<Type>`: a sentinel node whose `next_node` link owns the chain
 of value nodes, plus a cached element count `size_`.

 The list is a value `SingleLinkedList(first, size)`: `first` is the sentinel's
 `next_node` link and `size` is `size_`. The class invariant `Valid` says the
 cached count equals the number of nodes reachable from the sentinel; every
 mutator below keeps it. `Elements` is the abstract state, the sequence of
 values from front to back.

 Mutating member functions of the class become functions from the old list to
 the new one; those that also return an iterator return a pair. Where the
 source dereferences a null pointer or trips an `assert`, the operation has a
 `requires` that excludes the input.
 */
module SingleLinkedLists {
  import opened Nodes

  datatype SingleLinkedList<T> = SingleLinkedList(first: Chain<T>, size: nat)

  /** The class invariant: `size_` counts the nodes reachable from the sentinel. */
  predicate Valid<T>(l: SingleLinkedList<T>)
  {
    l.size == Length(l.first)
  }

  /** The abstract state: the stored values in iteration order. */
  function Elements<T>(l: SingleLinkedList<T>): seq<T>
  {
    Elems(l.first)
  }

  /**
   A forward iterator, as a position within one list state: at the sentinel
   (`BeforeBegin`), at the value node reached after `index` steps from the
   first one (`At`), or null (`End`). It names a place in the sequence rather
   than a particular node, so it does not follow a node when the list changes.
   */
  datatype Iterator = BeforeBegin | At(index: nat) | End

  /** The iterator points at the sentinel, at an existing node, or is null. */
  predicate ValidIterator<T>(l: SingleLinkedList<T>, it: Iterator)
  {
    it.At? ==> it.index < Length(l.first)
  }

  /** The iterator points at a value node, so `operator*` may read through it. */
  predicate Dereferenceable<T>(l: SingleLinkedList<T>, it: Iterator)
  {
    it.At? && it.index < Length(l.first)
  }

  /** Position of an iterator in the sequence: -1 before the first element, the list length at the end. */
  function Position<T>(l: SingleLinkedList<T>, it: Iterator): int
  {
    match it
    case BeforeBegin => -1
    case At(i) => i
    case End => Length(l.first)
  }

  // ---------------------------------------------------------------- construction

  /** The default constructor: an empty chain and a zero count. */
  function Empty<T>(): (l: SingleLinkedList<T>)
    ensures Valid(l) && Elements(l) == []
  {
    SingleLinkedList(Nil, 0)
  }

  /**
   The initializer-list constructor: walks the values from the last to the
   first, pushing each one at the front, so the list ends up in the given order.
   */
  method FromValues<T>(values: seq<T>) returns (l: SingleLinkedList<T>)
    ensures Valid(l) && Elements(l) == values
    ensures GetSize(l) == |values|
  {
    l := Empty();
    var i := |values|;
    while i > 0
      invariant 0 <= i <= |values|
      invariant Valid(l) && Elements(l) == values[i..]
    {
      i := i - 1;
      l := PushFront(l, values[i]);
    }
  }

  /**
   The copy constructor: walks `other` with its iterators from `begin()` to
   `end()`, pushing each value at the back of a temporary list, and then takes
   the temporary's chain over by `swap`.
   */
  method CopyOf<T>(other: SingleLinkedList<T>) returns (l: SingleLinkedList<T>)
    requires Valid(other)
    ensures Valid(l) && Elements(l) == Elements(other)
    ensures GetSize(l) == GetSize(other)
  {
    var tmp := Empty();
    var it := Begin(other);
    ghost var k := 0;
    while it != End
      invariant 0 <= k <= |Elements(other)|
      invariant ValidIterator(other, it) && Position(other, it) == k
      invariant Valid(tmp) && Elements(tmp) == Elements(other)[..k]
      decreases |Elements(other)| - k
    {
      tmp := PushBack(tmp, Deref(other, it));
      it := Next(other, it);
      k := k + 1;
    }
    var swapped := Swap(Empty(), tmp);
    l := swapped.0;
  }

  /**
   Copy assignment. `sameObject` says that `rhs` is this very list (the
   `this == &rhs` test); then nothing changes. Otherwise a copy of `rhs` is
   built and swapped in, and the old chain goes to the temporary that is
   destroyed.
   */
  method Assign<T>(lhs: SingleLinkedList<T>, rhs: SingleLinkedList<T>, sameObject: bool)
    returns (l: SingleLinkedList<T>)
    requires Valid(rhs)
    requires sameObject ==> lhs == rhs
    ensures Valid(l) && Elements(l) == Elements(rhs)
    ensures GetSize(l) == GetSize(rhs)
  {
    if sameObject {
      l := lhs;
    } else {
      var tmp := CopyOf(rhs);
      var swapped := Swap(lhs, tmp);
      l := swapped.0;
    }
  }

  /**
   `swap`: exchanges the two sentinels' `next_node` links and the two counts,
   without touching any node.
   */
  function Swap<T>(a: SingleLinkedList<T>, b: SingleLinkedList<T>): (r: (SingleLinkedList<T>, SingleLinkedList<T>))
    ensures Elements(r.0) == Elements(b) && Elements(r.1) == Elements(a)
    ensures r.0.size == b.size && r.1.size == a.size
    ensures Valid(a) && Valid(b) ==> Valid(r.0) && Valid(r.1)
  {
    (SingleLinkedList(b.first, b.size), SingleLinkedList(a.first, a.size))
  }

  /** Swapping twice gives both lists back. */
  lemma SwapInvolutive<T>(a: SingleLinkedList<T>, b: SingleLinkedList<T>)
    ensures Swap(Swap(a, b).0, Swap(a, b).1) == (a, b)
  {
  }

  // ---------------------------------------------------------------- queries

  /** `GetSize`: the cached count, which the invariant ties to the number of values. */
  function GetSize<T>(l: SingleLinkedList<T>): (n: nat)
    requires Valid(l)
    ensures n == |Elements(l)|
  {
    l.size
  }

  /** `IsEmpty`: tests the cached count, which is zero exactly when no value is stored. */
  function IsEmpty<T>(l: SingleLinkedList<T>): (b: bool)
    requires Valid(l)
    ensures b <==> Elements(l) == []
  {
    l.size == 0
  }

  // ---------------------------------------------------------------- iterators

  /** `before_begin()`: the iterator on the sentinel. */
  function BeforeBeginOf<T>(l: SingleLinkedList<T>): (it: Iterator)
    ensures ValidIterator(l, it) && Position(l, it) == -1
  {
    BeforeBegin
  }

  /** `end()`: the null iterator, one past the last element. */
  function EndOf<T>(l: SingleLinkedList<T>): (it: Iterator)
    ensures ValidIterator(l, it) && Position(l, it) == |Elements(l)|
  {
    End
  }

  /** `begin()`: wraps the sentinel's `next_node`, which is null on an empty list. */
  function Begin<T>(l: SingleLinkedList<T>): (it: Iterator)
    ensures ValidIterator(l, it) && Position(l, it) == 0
    ensures Valid(l) ==> (it == End <==> IsEmpty(l))
  {
    if l.first.Nil? then End else At(0)
  }

  /** `operator++`: follows the `next_node` link; the null iterator cannot advance. */
  function Next<T>(l: SingleLinkedList<T>, it: Iterator): (r: Iterator)
    requires ValidIterator(l, it) && it != End
    ensures ValidIterator(l, r) && Position(l, r) == Position(l, it) + 1
  {
    match it
    case BeforeBegin => Begin(l)
    case At(i) => if i + 1 < Length(l.first) then At(i + 1) else End
  }

  /** `operator*`: the value of the node the iterator points at. */
  function Deref<T>(l: SingleLinkedList<T>, it: Iterator): (v: T)
    requires Dereferenceable(l, it)
    ensures v == Elements(l)[Position(l, it)]
  {
    ValueAt(l.first, it.index)
  }

  // ---------------------------------------------------------------- mutators

  /** `PushFront`: a new first node that owns the old chain. */
  function PushFront<T>(l: SingleLinkedList<T>, v: T): (r: SingleLinkedList<T>)
    requires Valid(l)
    ensures Valid(r) && Elements(r) == [v] + Elements(l)
    ensures GetSize(r) == GetSize(l) + 1
  {
    SingleLinkedList(Node(v, l.first), l.size + 1)
  }

  /** `PushBack`: walks to the last node (if any) and links a new node after it. */
  function PushBack<T>(l: SingleLinkedList<T>, v: T): (r: SingleLinkedList<T>)
    requires Valid(l)
    ensures Valid(r) && Elements(r) == Elements(l) + [v]
    ensures GetSize(r) == GetSize(l) + 1
  {
    SingleLinkedList(AppendNode(l.first, v), l.size + 1)
  }

  /** `PopFront`: does nothing on an empty list, otherwise unlinks the first node. */
  function PopFront<T>(l: SingleLinkedList<T>): (r: SingleLinkedList<T>)
    requires Valid(l)
    ensures Valid(r)
    ensures Elements(l) == [] ==> r == l
    ensures Elements(l) != [] ==> Elements(r) == Elements(l)[1..] && GetSize(r) == GetSize(l) - 1
  {
    if IsEmpty(l) then l else SingleLinkedList(l.first.next, l.size - 1)
  }

  /**
   `PopBack` as written: the walk reads `current->next_node->next_node` starting
   at the first node, so a list of fewer than two elements dereferences null.
   */
  function PopBack<T>(l: SingleLinkedList<T>): (r: SingleLinkedList<T>)
    requires Valid(l) && GetSize(l) >= 2
    ensures Valid(r) && Elements(r) == Elements(l)[..|Elements(l)| - 1]
    ensures GetSize(r) == GetSize(l) - 1
  {
    PopBackWalkFaultsIff(l.first);
    SingleLinkedList(PopBackWalk(l.first).value, l.size - 1)
  }

  /**
   `PopBack` with the single-element case handled: the last node is cut off
   whatever the length, and an empty list is left alone as `PopFront` does.
   */
  function PopBackCorrected<T>(l: SingleLinkedList<T>): (r: SingleLinkedList<T>)
    requires Valid(l)
    ensures Valid(r)
    ensures Elements(l) == [] ==> r == l
    ensures Elements(l) != [] ==> Elements(r) == Elements(l)[..|Elements(l)| - 1] && GetSize(r) == GetSize(l) - 1
  {
    if IsEmpty(l) then l else SingleLinkedList(DropLastNode(l.first), l.size - 1)
  }

  /** Where the written `PopBack` is defined, the corrected one does the same. */
  lemma PopBackCorrectedAgrees<T>(l: SingleLinkedList<T>)
    requires Valid(l) && GetSize(l) >= 2
    ensures PopBackCorrected(l) == PopBack(l)
  {
    ListExtensionality(PopBackCorrected(l), PopBack(l));
  }

  /** The written `PopBack` cannot run on a one-element list: its walk dereferences null. */
  lemma PopBackFaultsOnSingleton<T>(v: T)
    ensures PopBackWalk(PushFront(Empty(), v).first).None?
    ensures Elements(PopBackCorrected(PushFront(Empty(), v))) == []
  {
  }

  /**
   `InsertAfter`: at the sentinel it is `PushFront` and returns `begin()`;
   otherwise a new node is spliced in after the one `pos` points at and
   the returned iterator points at the new node.
   */
  function InsertAfter<T>(l: SingleLinkedList<T>, pos: Iterator, v: T): (r: (SingleLinkedList<T>, Iterator))
    requires Valid(l) && ValidIterator(l, pos) && pos != End
    ensures Valid(r.0) && GetSize(r.0) == GetSize(l) + 1
    ensures var k := Position(l, pos);
            Elements(r.0) == Elements(l)[..k + 1] + [v] + Elements(l)[k + 1..]
    ensures Dereferenceable(r.0, r.1) && Position(r.0, r.1) == Position(l, pos) + 1
    ensures Deref(r.0, r.1) == v
  {
    match pos
    case BeforeBegin =>
      var l' := PushFront(l, v);
      assert Elements(l)[..0] + [v] + Elements(l)[0..] == [v] + Elements(l);
      (l', Begin(l'))
    case At(i) =>
      var l' := SingleLinkedList(InsertAfterNode(l.first, i, v), l.size + 1);
      assert Elements(l')[i + 1] == v;
      (l', At(i + 1))
  }

  /** Inserting after the sentinel yields what `PushFront` yields, and `begin()`. */
  lemma InsertAfterBeforeBeginIsPushFront<T>(l: SingleLinkedList<T>, v: T)
    requires Valid(l)
    ensures InsertAfter(l, BeforeBegin, v).0 == PushFront(l, v)
    ensures InsertAfter(l, BeforeBegin, v).1 == Begin(PushFront(l, v))
  {
  }

  /** Inserting after the last node yields the same list as `PushBack`. */
  lemma InsertAfterLastIsPushBack<T>(l: SingleLinkedList<T>, v: T)
    requires Valid(l) && !IsEmpty(l)
    ensures InsertAfter(l, At(GetSize(l) - 1), v).0 == PushBack(l, v)
  {
    var s := Elements(l);
    assert s[..|s|] == s;
    ListExtensionality(InsertAfter(l, At(GetSize(l) - 1), v).0, PushBack(l, v));
  }

  /**
   `EraseAfter`: at the sentinel it is `PopFront` and returns `begin()`;
   otherwise the node after `pos` is unlinked and the iterator on the node that
   now follows `pos` (null if none) is returned. The source asserts that the
   list is not empty and dereferences the node after `pos`, so that node must
   exist.
   */
  function EraseAfter<T>(l: SingleLinkedList<T>, pos: Iterator): (r: (SingleLinkedList<T>, Iterator))
    requires Valid(l) && ValidIterator(l, pos) && pos != End
    requires Position(l, pos) + 1 < GetSize(l)
    ensures Valid(r.0) && GetSize(r.0) == GetSize(l) - 1
    ensures var k := Position(l, pos);
            Elements(r.0) == Elements(l)[..k + 1] + Elements(l)[k + 2..]
    ensures ValidIterator(r.0, r.1) && Position(r.0, r.1) == Position(l, pos) + 1
    ensures Dereferenceable(r.0, r.1) ==> Deref(r.0, r.1) == Elements(l)[Position(l, pos) + 2]
  {
    match pos
    case BeforeBegin =>
      var l' := PopFront(l);
      (l', Begin(l'))
    case At(i) =>
      var l' := SingleLinkedList(EraseAfterNode(l.first, i), l.size - 1);
      (l', Next(l', pos))
  }

  /** Erasing after the sentinel yields what `PopFront` yields, and `begin()`. */
  lemma EraseAfterBeforeBeginIsPopFront<T>(l: SingleLinkedList<T>)
    requires Valid(l) && !IsEmpty(l)
    ensures EraseAfter(l, BeforeBegin).0 == PopFront(l)
    ensures EraseAfter(l, BeforeBegin).1 == Begin(PopFront(l))
  {
  }

  /** Erasing after the next-to-last node yields the same list as `PopBack`. */
  lemma EraseAfterNextToLastIsPopBack<T>(l: SingleLinkedList<T>)
    requires Valid(l) && GetSize(l) >= 2
    ensures EraseAfter(l, At(GetSize(l) - 2)).0 == PopBack(l)
    ensures EraseAfter(l, At(GetSize(l) - 2)).1 == End
  {
    var s := Elements(l);
    assert s[|s|..] == [];
    ListExtensionality(EraseAfter(l, At(GetSize(l) - 2)).0, PopBack(l));
  }

  /** `EraseAfter(pos)` undoes `InsertAfter(pos, v)`. */
  lemma EraseAfterUndoesInsertAfter<T>(l: SingleLinkedList<T>, pos: Iterator, v: T)
    requires Valid(l) && ValidIterator(l, pos) && pos != End
    ensures ValidIterator(InsertAfter(l, pos, v).0, pos)
    ensures Position(InsertAfter(l, pos, v).0, pos) + 1 < GetSize(InsertAfter(l, pos, v).0)
    ensures EraseAfter(InsertAfter(l, pos, v).0, pos).0 == l
  {
    match pos
    case BeforeBegin =>
    case At(i) =>
      EraseAfterNodeUndoesInsertAfterNode(l.first, i, v);
  }

  /** `PopFront` undoes `PushFront`. */
  lemma PopFrontUndoesPushFront<T>(l: SingleLinkedList<T>, v: T)
    requires Valid(l)
    ensures PopFront(PushFront(l, v)) == l
  {
  }

  /** `PopBack` undoes `PushBack` whenever the written `PopBack` can run. */
  lemma PopBackUndoesPushBack<T>(l: SingleLinkedList<T>, v: T)
    requires Valid(l) && !IsEmpty(l)
    ensures PopBack(PushBack(l, v)) == l
  {
    var s := Elements(l);
    assert (s + [v])[..|s|] == s;
    ListExtensionality(PopBack(PushBack(l, v)), l);
  }

  /** `Clear`: unlinks nodes from the front until none is left, then zeroes the count. */
  method Clear<T>(l: SingleLinkedList<T>) returns (r: SingleLinkedList<T>)
    ensures Valid(r) && Elements(r) == [] && GetSize(r) == 0
    ensures Begin(r) == EndOf(r)
    ensures Valid(l) && IsEmpty(l) ==> r == l
  {
    var first := l.first;
    while first.Node?
      decreases first
    {
      first := first.next;
    }
    r := SingleLinkedList(first, 0);
  }

  /** Two valid lists holding the same values are the same list. */
  lemma ListExtensionality<T>(a: SingleLinkedList<T>, b: SingleLinkedList<T>)
    requires Valid(a) && Valid(b) && Elements(a) == Elements(b)
    ensures a == b
  {
    ElemsInjective(a.first, b.first);
  }

  /**
   The session of a caller who starts empty, pushes 1 and 2 at the back and 0
   at the front, then pops at the back and at the front.
   */
  lemma PushPopScenario()
    ensures var l1 := PushFront(PushBack(PushBack(Empty(), 1), 2), 0);
            Elements(l1) == [0, 1, 2] && GetSize(l1) == 3
            && Elements(PopBack(l1)) == [0, 1] && GetSize(PopBack(l1)) == 2
            && Elements(PopFront(PopBack(l1))) == [1] && GetSize(PopFront(PopBack(l1))) == 1
  {
  }
}
