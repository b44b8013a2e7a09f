/**
 The free relational operators on `SingleLinkedList`, built on the two standard
 algorithms they call: `std::equal` in its three-iterator form (it never looks
 at where the second range ends) and `std::lexicographical_compare`.

 The ordering operators need `operator<` on the element type; Dafny has no
 generic ordering, so they are stated for lists of `int`.

 Each operator is modelled as written. Where that disagrees with what the
 operator evidently means, a corrected companion follows with the intended
 property proved about it.
 */
module Comparisons {
  import opened Nodes
  import opened SingleLinkedLists

  // ---------------------------------------------------------------- std algorithms

  /**
   The walk of three-iterator `std::equal` stays inside `b`: either `a` is no
   longer than `b`, or a mismatch among `b`'s values stops the walk before it
   reaches `b`'s end. Otherwise it reads past the end of `b`.
   */
  predicate EqualStaysInRange<T(==)>(a: seq<T>, b: seq<T>)
  {
    |a| <= |b| || a[..|b|] != b
  }

  /**
   `std::equal(first1, last1, first2)`: compares each element of `a` with the
   element at the same position of `b` and stops at the first mismatch. It
   never compares lengths.
   */
  function StdEqual<T(==)>(a: seq<T>, b: seq<T>): (r: bool)
    requires EqualStaysInRange(a, b)
    ensures r <==> |a| <= |b| && a == b[..|a|]
  {
    if |a| == 0 then true
    else
      assert a[..0] == [];
      assert |b| > 0;
      if a[0] != b[0] then false
      else
        assert |b| < |a| ==> a[..|b|] == [a[0]] + a[1..][..|b| - 1] && b == [b[0]] + b[1..];
        var r' := StdEqual(a[1..], b[1..]);
        assert |a| <= |b| ==> b[1..][..|a| - 1] == b[1..|a|];
        assert |a| <= |b| ==> (a == b[..|a|] <==> a[1..] == b[1..|a|]);
        r'
  }

  /**
   Lexicographic order, stated without reference to any walk: `a` is smaller
   than `b` when, after a common prefix of length `k`, either `a` has ended
   while `b` goes on, or `a`'s next element is the smaller one.
   */
  ghost predicate LexLess(a: seq<int>, b: seq<int>)
  {
    exists k :: 0 <= k <= |a| && k < |b| && a[..k] == b[..k] && (k == |a| || a[k] < b[k])
  }

  /** When one sequence is empty, `a` is smaller exactly when it is the empty one and `b` is not. */
  lemma LexLessRunsOut(a: seq<int>, b: seq<int>)
    requires |a| == 0 || |b| == 0
    ensures LexLess(a, b) <==> |a| == 0 && |b| != 0
  {
    if |a| == 0 && |b| != 0 {
      assert a[..0] == b[..0];
    }
  }

  /** When the first elements differ, they decide. */
  lemma LexLessFirstDiffers(a: seq<int>, b: seq<int>)
    requires |a| > 0 && |b| > 0 && a[0] != b[0]
    ensures LexLess(a, b) <==> a[0] < b[0]
  {
  }

  /** Two sequences with the same head compare as their tails do. */
  lemma LexLessCons(a: seq<int>, b: seq<int>)
    requires |a| > 0 && |b| > 0 && a[0] == b[0]
    ensures LexLess(a, b) <==> LexLess(a[1..], b[1..])
  {
    if LexLess(a, b) {
      var k :| 0 <= k <= |a| && k < |b| && a[..k] == b[..k] && (k == |a| || a[k] < b[k]);
      assert k > 0;
      assert a[1..][..k - 1] == a[..k][1..] == b[..k][1..] == b[1..][..k - 1];
      assert LexLess(a[1..], b[1..]) by {
        var j := k - 1;
        assert 0 <= j <= |a[1..]| && j < |b[1..]| && a[1..][..j] == b[1..][..j];
        assert j == |a[1..]| || a[1..][j] < b[1..][j];
      }
    }
    if LexLess(a[1..], b[1..]) {
      var j :| 0 <= j <= |a[1..]| && j < |b[1..]| && a[1..][..j] == b[1..][..j]
               && (j == |a[1..]| || a[1..][j] < b[1..][j]);
      assert a[..j + 1] == [a[0]] + a[1..][..j];
      assert b[..j + 1] == [b[0]] + b[1..][..j];
      assert 0 <= j + 1 <= |a| && j + 1 < |b| && a[..j + 1] == b[..j + 1];
      assert j + 1 == |a| || a[j + 1] < b[j + 1];
    }
  }

  /**
   `std::lexicographical_compare`: walks both ranges in step; the first pair
   that differs decides, and when one range runs out first the shorter one is
   the smaller. The walk decides lexicographic order.
   */
  function LexicographicalCompare(a: seq<int>, b: seq<int>): (r: bool)
    ensures r <==> LexLess(a, b)
  {
    if |a| == 0 then
      LexLessRunsOut(a, b);
      |b| != 0
    else if |b| == 0 then
      LexLessRunsOut(a, b);
      false
    else if a[0] < b[0] then
      LexLessFirstDiffers(a, b);
      true
    else if b[0] < a[0] then
      LexLessFirstDiffers(a, b);
      false
    else
      LexLessCons(a, b);
      LexicographicalCompare(a[1..], b[1..])
  }

  /** Exactly one of `a == b`, `a < b`, `b < a` holds. */
  lemma {:induction false} LexTrichotomy(a: seq<int>, b: seq<int>)
    ensures a == b || LexLess(a, b) || LexLess(b, a)
    ensures !(LexLess(a, b) && LexLess(b, a))
    ensures !(a == b && LexLess(a, b))
  {
    if |a| == 0 || |b| == 0 {
      LexLessRunsOut(a, b);
      LexLessRunsOut(b, a);
    } else if a[0] != b[0] {
      LexLessFirstDiffers(a, b);
      LexLessFirstDiffers(b, a);
    } else {
      LexTrichotomy(a[1..], b[1..]);
      LexLessCons(a, b);
      LexLessCons(b, a);
      if a[1..] == b[1..] {
        assert a == [a[0]] + a[1..] && b == [b[0]] + b[1..];
      }
    }
  }

  /** A prefix is equal or lexicographically smaller. */
  lemma PrefixIsLexLessOrEqual(a: seq<int>, b: seq<int>)
    requires |a| <= |b| && a == b[..|a|]
    ensures a == b || LexLess(a, b)
  {
  }

  // ---------------------------------------------------------------- operators as written

  /** The operands are ones the written `==` can compare without reading past `rhs`'s end. */
  predicate Comparable<T(==)>(lhs: SingleLinkedList<T>, rhs: SingleLinkedList<T>)
  {
    Valid(lhs) && Valid(rhs) && EqualStaysInRange(Elements(lhs), Elements(rhs))
  }

  /**
   `operator==` as written: `std::equal` over `lhs`'s range only. It holds
   exactly when `lhs` is a prefix of `rhs`; lengths are never compared.
   */
  function Equal<T(==)>(lhs: SingleLinkedList<T>, rhs: SingleLinkedList<T>): (r: bool)
    requires Comparable(lhs, rhs)
    ensures r <==> GetSize(lhs) <= GetSize(rhs) && Elements(lhs) == Elements(rhs)[..GetSize(lhs)]
  {
    StdEqual(Elements(lhs), Elements(rhs))
  }

  /** `operator!=` as written: the negation of the same prefix test. */
  function NotEqual<T(==)>(lhs: SingleLinkedList<T>, rhs: SingleLinkedList<T>): (r: bool)
    requires Comparable(lhs, rhs)
    ensures r <==> !(GetSize(lhs) <= GetSize(rhs) && Elements(lhs) == Elements(rhs)[..GetSize(lhs)])
  {
    !StdEqual(Elements(lhs), Elements(rhs))
  }

  /** `operator<`: lexicographic order on the stored values. */
  function Less(lhs: SingleLinkedList<int>, rhs: SingleLinkedList<int>): (r: bool)
    ensures r <==> LexLess(Elements(lhs), Elements(rhs))
  {
    LexicographicalCompare(Elements(lhs), Elements(rhs))
  }

  /**
   `operator<=` as written: true when `==` holds, otherwise `<`. Because a
   proper prefix is also lexicographically smaller, the prefix test of `==`
   does no harm here, and on its domain the operator is exactly "less or equal".
   */
  function LessEq(lhs: SingleLinkedList<int>, rhs: SingleLinkedList<int>): (r: bool)
    requires Comparable(lhs, rhs)
    ensures r <==> Elements(lhs) == Elements(rhs) || LexLess(Elements(lhs), Elements(rhs))
  {
    if Equal(lhs, rhs) then
      PrefixIsLexLessOrEqual(Elements(lhs), Elements(rhs));
      Equal(lhs, rhs)
    else
      LexicographicalCompare(Elements(lhs), Elements(rhs))
  }

  /** `operator>` as written: "not less", which also holds for equal lists. */
  function Greater(lhs: SingleLinkedList<int>, rhs: SingleLinkedList<int>): (r: bool)
    ensures r <==> !LexLess(Elements(lhs), Elements(rhs))
  {
    !LexicographicalCompare(Elements(lhs), Elements(rhs))
  }

  /** `operator>=` as written: true when `==` holds, otherwise "not less". */
  function GreaterEq(lhs: SingleLinkedList<int>, rhs: SingleLinkedList<int>): (r: bool)
    requires Comparable(lhs, rhs)
    ensures r <==> (GetSize(lhs) <= GetSize(rhs) && Elements(lhs) == Elements(rhs)[..GetSize(lhs)])
                   || !LexLess(Elements(lhs), Elements(rhs))
  {
    if Equal(lhs, rhs) then
      Equal(lhs, rhs)
    else
      !LexicographicalCompare(Elements(lhs), Elements(rhs))
  }

  // ---------------------------------------------------------------- what the written operators get wrong

  /** `==` as written calls a list equal to every longer list it is a prefix of. */
  lemma EqualAcceptsProperPrefix<T>(lhs: SingleLinkedList<T>, rhs: SingleLinkedList<T>)
    requires Valid(lhs) && Valid(rhs) && GetSize(lhs) < GetSize(rhs)
    requires Elements(lhs) == Elements(rhs)[..GetSize(lhs)]
    ensures Equal(lhs, rhs) && !NotEqual(lhs, rhs)
    ensures Elements(lhs) != Elements(rhs)
  {
  }

  /** `>` as written holds between a list and itself. */
  lemma GreaterHoldsOnEqualLists(l: SingleLinkedList<int>)
    ensures Greater(l, l)
  {
  }

  /** `>=` as written holds when `lhs` is a proper prefix of `rhs`, although `lhs < rhs`. */
  lemma GreaterEqAcceptsProperPrefix(lhs: SingleLinkedList<int>, rhs: SingleLinkedList<int>)
    requires Valid(lhs) && Valid(rhs) && GetSize(lhs) < GetSize(rhs)
    requires Elements(lhs) == Elements(rhs)[..GetSize(lhs)]
    ensures GreaterEq(lhs, rhs) && Less(lhs, rhs)
  {
  }

  // ---------------------------------------------------------------- corrected operators

  /** `==` with the length check the prefix test lacks: equal exactly when the values agree. */
  function EqualCorrected<T(==)>(lhs: SingleLinkedList<T>, rhs: SingleLinkedList<T>): (r: bool)
    requires Valid(lhs) && Valid(rhs)
    ensures r <==> Elements(lhs) == Elements(rhs)
  {
    GetSize(lhs) == GetSize(rhs) && StdEqual(Elements(lhs), Elements(rhs))
  }

  /** On lists of the same length the written `==` already gives the right answer. */
  lemma EqualCorrectedAgreesOnSameLength<T>(lhs: SingleLinkedList<T>, rhs: SingleLinkedList<T>)
    requires Valid(lhs) && Valid(rhs) && GetSize(lhs) == GetSize(rhs)
    ensures EqualCorrected(lhs, rhs) == Equal(lhs, rhs)
  {
  }

  /** `>` as the converse of `<`. */
  function GreaterCorrected(lhs: SingleLinkedList<int>, rhs: SingleLinkedList<int>): (r: bool)
    ensures r <==> LexLess(Elements(rhs), Elements(lhs))
  {
    Less(rhs, lhs)
  }

  /** `>=` as "equal, or not less", with the corrected `==`: the converse of `<=`. */
  function GreaterEqCorrected(lhs: SingleLinkedList<int>, rhs: SingleLinkedList<int>): (r: bool)
    requires Valid(lhs) && Valid(rhs)
    ensures r <==> Elements(rhs) == Elements(lhs) || LexLess(Elements(rhs), Elements(lhs))
  {
    LexTrichotomy(Elements(lhs), Elements(rhs));
    EqualCorrected(lhs, rhs) || !Less(lhs, rhs)
  }

  /** Any two lists are related by exactly one of the corrected `==`, `<` and `>`. */
  lemma CorrectedTrichotomy(lhs: SingleLinkedList<int>, rhs: SingleLinkedList<int>)
    requires Valid(lhs) && Valid(rhs)
    ensures EqualCorrected(lhs, rhs) || Less(lhs, rhs) || GreaterCorrected(lhs, rhs)
    ensures !(EqualCorrected(lhs, rhs) && Less(lhs, rhs))
    ensures !(EqualCorrected(lhs, rhs) && GreaterCorrected(lhs, rhs))
    ensures !(Less(lhs, rhs) && GreaterCorrected(lhs, rhs))
  {
    LexTrichotomy(Elements(lhs), Elements(rhs));
  }

  /** The corrected `>=` is the written `<=` with the operands exchanged, wherever that is defined. */
  lemma GreaterEqCorrectedIsConverseOfLessEq(lhs: SingleLinkedList<int>, rhs: SingleLinkedList<int>)
    requires Comparable(rhs, lhs)
    ensures GreaterEqCorrected(lhs, rhs) == LessEq(rhs, lhs)
  {
  }

  // ---------------------------------------------------------------- examples

  /** Comparisons on small lists of numbers. */
  lemma ComparisonExamples(l12: SingleLinkedList<int>, l13: SingleLinkedList<int>,
                           l123: SingleLinkedList<int>, empty: SingleLinkedList<int>)
    requires Valid(l12) && Elements(l12) == [1, 2]
    requires Valid(l13) && Elements(l13) == [1, 3]
    requires Valid(l123) && Elements(l123) == [1, 2, 3]
    requires Valid(empty) && Elements(empty) == []
    ensures Equal(l123, l123) && Equal(empty, empty) && EqualCorrected(empty, empty)
    ensures !EqualCorrected(l12, l123) && Equal(l12, l123)
    ensures Less(l12, l13) && Less(l12, l123) && LessEq(l123, l123)
    ensures !GreaterCorrected(l123, l123) && Greater(l123, l123)
    ensures !Equal(l123, l13) && NotEqual(l123, l13) && LessEq(l123, l13) && !GreaterEq(l123, l13)
  {
  }
}
