/**
 Sequences of front/back pushes and pops applied to a list. The node-chain list
 is run side by side with the same operations on a plain sequence: after any
 run, the list holds exactly that sequence, so the cached count still equals
 the number of reachable nodes and `GetSize` is the net number of values added.
 */
module OperationSequences {
  import opened SingleLinkedLists

  datatype Op<T> = PushFrontOp(v: T) | PushBackOp(v: T) | PopFrontOp | PopBackOp

  /**
   One operation on the list. Pops on an empty list do nothing, which is the
   policy of `PopFront`; the back pop is the corrected one, which also handles
   a single element.
   */
  function Apply<T>(l: SingleLinkedList<T>, op: Op<T>): (r: SingleLinkedList<T>)
    requires Valid(l)
    ensures Valid(r)
  {
    match op
    case PushFrontOp(v) => PushFront(l, v)
    case PushBackOp(v) => PushBack(l, v)
    case PopFrontOp => PopFront(l)
    case PopBackOp => PopBackCorrected(l)
  }

  function Run<T>(l: SingleLinkedList<T>, ops: seq<Op<T>>): (r: SingleLinkedList<T>)
    requires Valid(l)
    ensures Valid(r)
    decreases |ops|
  {
    if |ops| == 0 then l else Run(Apply(l, ops[0]), ops[1..])
  }

  /** The same operation on the abstract sequence of values. */
  function ApplySeq<T>(s: seq<T>, op: Op<T>): seq<T>
  {
    match op
    case PushFrontOp(v) => [v] + s
    case PushBackOp(v) => s + [v]
    case PopFrontOp => if |s| == 0 then s else s[1..]
    case PopBackOp => if |s| == 0 then s else s[..|s| - 1]
  }

  function RunSeq<T>(s: seq<T>, ops: seq<Op<T>>): seq<T>
    decreases |ops|
  {
    if |ops| == 0 then s else RunSeq(ApplySeq(s, ops[0]), ops[1..])
  }

  /** Number of pushes in `ops`. */
  function Pushes<T>(ops: seq<Op<T>>): nat
  {
    if |ops| == 0 then 0
    else (if ops[0].PushFrontOp? || ops[0].PushBackOp? then 1 else 0) + Pushes(ops[1..])
  }

  /** Number of pops in `ops` that find a value to remove, starting from `n` values. */
  function EffectivePops<T>(n: nat, ops: seq<Op<T>>): nat
    decreases |ops|
  {
    if |ops| == 0 then 0
    else if ops[0].PushFrontOp? || ops[0].PushBackOp? then EffectivePops(n + 1, ops[1..])
    else if n == 0 then EffectivePops(0, ops[1..])
    else 1 + EffectivePops(n - 1, ops[1..])
  }

  /** After any run the list holds what the sequence semantics says. */
  lemma {:induction false} RunRefinesSeq<T>(l: SingleLinkedList<T>, ops: seq<Op<T>>)
    requires Valid(l)
    ensures Elements(Run(l, ops)) == RunSeq(Elements(l), ops)
    decreases |ops|
  {
    if |ops| > 0 {
      assert Elements(Apply(l, ops[0])) == ApplySeq(Elements(l), ops[0]);
      RunRefinesSeq(Apply(l, ops[0]), ops[1..]);
    }
  }

  /** The value count after a run of the sequence semantics: pushes minus pops that removed something. */
  lemma {:induction false} RunSeqLength<T>(s: seq<T>, ops: seq<Op<T>>)
    ensures |RunSeq(s, ops)| + EffectivePops(|s|, ops) == |s| + Pushes(ops)
    decreases |ops|
  {
    if |ops| > 0 {
      RunSeqLength(ApplySeq(s, ops[0]), ops[1..]);
    }
  }

  /** `GetSize` after any run is the starting size plus pushes minus effective pops. */
  lemma SizeAfterRun<T>(l: SingleLinkedList<T>, ops: seq<Op<T>>)
    requires Valid(l)
    ensures GetSize(Run(l, ops)) + EffectivePops(GetSize(l), ops) == GetSize(l) + Pushes(ops)
  {
    RunRefinesSeq(l, ops);
    RunSeqLength(Elements(l), ops);
  }
}
