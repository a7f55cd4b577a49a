/**
  Ruby's `sort_by`, which data_center.rb calls three times, as an insertion sort
  parameterised by a "comes no later than" relation `le`. The contracts state
  what Ruby promises: the result is a permutation of the input and consecutive
  elements are in `le` order. The sort itself is deterministic and keeps equal
  elements in input order, a choice Ruby's unstable sort does not make.
 */
module Sorting {

  /** Every two elements are comparable one way or the other. */
  ghost predicate Total<T(!new)>(le: (T, T) -> bool) {
    forall a, b :: le(a, b) || le(b, a)
  }

  /** `le` is transitive on the elements of `s`. */
  ghost predicate TransitiveOn<T>(s: seq<T>, le: (T, T) -> bool) {
    forall a, b, c :: a in s && b in s && c in s && le(a, b) && le(b, c) ==> le(a, c)
  }

  /** Consecutive elements are in `le` order. */
  ghost predicate Sorted<T>(s: seq<T>, le: (T, T) -> bool) {
    forall i, j :: 0 <= i < j < |s| && j == i + 1 ==> le(s[i], s[j])
  }

  function Insert<T(==,!new)>(x: T, s: seq<T>, le: (T, T) -> bool): (r: seq<T>)
    requires Total(le)
    ensures multiset(r) == multiset(s) + multiset{x}
    ensures |r| == |s| + 1
    ensures r[0] == x || (|s| > 0 && r[0] == s[0])
    ensures Sorted(s, le) ==> Sorted(r, le)
  {
    if s == [] || le(x, s[0]) then [x] + s
    else
      var rest := Insert(x, s[1..], le);
      assert s == [s[0]] + s[1..];
      [s[0]] + rest
  }

  /** The sorted permutation of `s`. */
  function SortBy<T(==,!new)>(s: seq<T>, le: (T, T) -> bool): (r: seq<T>)
    requires Total(le)
    ensures multiset(r) == multiset(s) && |r| == |s|
    ensures Sorted(r, le)
  {
    if s == [] then []
    else
      assert s == [s[0]] + s[1..];
      Insert(s[0], SortBy(s[1..], le), le)
  }

  /** With a relation transitive on the elements, "consecutive pairs in order" means "all pairs
      in order". */
  lemma {:induction false} SortedPairwise<T>(s: seq<T>, le: (T, T) -> bool, i: nat, j: nat)
    requires Sorted(s, le) && TransitiveOn(s, le)
    requires i < j < |s|
    ensures le(s[i], s[j])
  {
    if i + 1 < j {
      SortedPairwise(s, le, i, j - 1);
    }
  }
}
