/**
 The chain of owned nodes that hangs off the list's sentinel. A `Chain` is the
 value of one `next_node` link: `Nil` is the null pointer, `Node(v, next)` a node
 holding `v` that owns the rest of the chain. Being an inductive datatype, a
 chain is acyclic and ends in `Nil`, which is the shape invariant the linked
 structure keeps by construction.

 Every pointer walk of the list is a recursive function here, and each states
 its effect on `Elems`, the sequence of values met front to back.
 */
module Nodes {
  import opened Wrappers

  datatype Chain<T> = Nil | Node(value: T, next: Chain<T>)

  /** Number of nodes reachable by following `next` links. */
  function Length<T>(c: Chain<T>): nat
  {
    match c
    case Nil => 0
    case Node(_, n) => 1 + Length(n)
  }

  /** The values stored in the chain, in traversal order. */
  function Elems<T>(c: Chain<T>): (s: seq<T>)
    ensures |s| == Length(c)
  {
    match c
    case Nil => []
    case Node(v, n) => [v] + Elems(n)
  }

  /** Two chains holding the same values are the same chain. */
  lemma {:induction false} ElemsInjective<T>(a: Chain<T>, b: Chain<T>)
    requires Elems(a) == Elems(b)
    ensures a == b
  {
    match a
    case Nil =>
    case Node(v, n) =>
      assert b.Node?;
      assert Elems(n) == Elems(a)[1..] == Elems(b)[1..] == Elems(b.next);
      ElemsInjective(n, b.next);
  }

  /** The value of the node reached after `i` steps along `next` links. */
  function ValueAt<T>(c: Chain<T>, i: nat): (v: T)
    requires i < Length(c)
    ensures v == Elems(c)[i]
  {
    if i == 0 then c.value else ValueAt(c.next, i - 1)
  }

  /**
   Walks to the node whose `next` is null and links a new node holding `v`
   there; on an empty chain the new node becomes the first one.
   */
  function AppendNode<T>(c: Chain<T>, v: T): (r: Chain<T>)
    ensures Elems(r) == Elems(c) + [v]
  {
    match c
    case Nil => Node(v, Nil)
    case Node(x, n) => Node(x, AppendNode(n, v))
  }

  /** Splices a new node holding `v` in right after node `i`. */
  function InsertAfterNode<T>(c: Chain<T>, i: nat, v: T): (r: Chain<T>)
    requires i < Length(c)
    ensures Elems(r) == Elems(c)[..i + 1] + [v] + Elems(c)[i + 1..]
  {
    if i == 0 then
      Node(c.value, Node(v, c.next))
    else
      var r' := InsertAfterNode(c.next, i - 1, v);
      assert Elems(c)[..i + 1] == [c.value] + Elems(c.next)[..i];
      assert Elems(c)[i + 1..] == Elems(c.next)[i..];
      Node(c.value, r')
  }

  /** Unlinks the node that follows node `i`; that node must exist. */
  function EraseAfterNode<T>(c: Chain<T>, i: nat): (r: Chain<T>)
    requires i + 1 < Length(c)
    ensures Elems(r) == Elems(c)[..i + 1] + Elems(c)[i + 2..]
  {
    if i == 0 then
      assert Length(c.next) > 0;
      Node(c.value, c.next.next)
    else
      var r' := EraseAfterNode(c.next, i - 1);
      assert Elems(c)[..i + 1] == [c.value] + Elems(c.next)[..i];
      assert Elems(c)[i + 2..] == Elems(c.next)[i + 1..];
      Node(c.value, r')
  }

  /** Unlinking the node after `i` undoes splicing one in there. */
  lemma {:induction false} EraseAfterNodeUndoesInsertAfterNode<T>(c: Chain<T>, i: nat, v: T)
    requires i < Length(c)
    ensures Length(InsertAfterNode(c, i, v)) == Length(c) + 1
    ensures EraseAfterNode(InsertAfterNode(c, i, v), i) == c
  {
    if i > 0 {
      EraseAfterNodeUndoesInsertAfterNode(c.next, i - 1, v);
    }
  }

  /**
   The walk of `PopBack` exactly as written: `current` starts at the first
   node and advances while `current->next_node->next_node` is not null, then
   the node after `current` is cut off. `None` stands for a dereference of a
   null pointer: of `current` itself when the chain is empty, of
   `current->next_node` when it has a single node.
   */
  function PopBackWalk<T>(c: Chain<T>): (r: Option<Chain<T>>)
    ensures r.Some? ==> Length(c) >= 2 && Elems(r.value) == Elems(c)[..Length(c) - 1]
  {
    match c
    case Nil => None
    case Node(_, Nil) => None
    case Node(x, Node(_, Nil)) => Some(Node(x, Nil))
    case Node(x, rest) =>
      match PopBackWalk(rest)
      case None => None
      case Some(r') => Some(Node(x, r'))
  }

  /** The walk of `PopBack` faults exactly on chains of fewer than two nodes. */
  lemma {:induction false} PopBackWalkFaultsIff<T>(c: Chain<T>)
    ensures PopBackWalk(c).None? <==> Length(c) < 2
  {
    match c
    case Nil =>
    case Node(_, Nil) =>
    case Node(x, Node(_, Nil)) =>
    case Node(x, rest) =>
      PopBackWalkFaultsIff(rest);
  }

  /** Removes the last node of a non-empty chain; a single node leaves `Nil`. */
  function DropLastNode<T>(c: Chain<T>): (r: Chain<T>)
    requires c.Node?
    ensures Elems(r) == Elems(c)[..Length(c) - 1]
  {
    if c.next.Nil? then Nil else Node(c.value, DropLastNode(c.next))
  }
}
