/** Sequence operations shared by the server and the client code. */
module Seqs {

  /** a is obtained from b by deleting elements, keeping the order of the rest. */
  predicate IsSubsequence<T(==)>(a: seq<T>, b: seq<T>)
    decreases |b|
  {
    if b == [] then a == []
    else (a != [] && a[0] == b[0] && IsSubsequence(a[1..], b[1..])) || IsSubsequence(a, b[1..])
  }

  /** Every sequence is a subsequence of itself. */
  lemma {:induction false} IsSubsequenceRefl<T>(xs: seq<T>)
    ensures IsSubsequence(xs, xs)
  {
    if xs != [] {
      IsSubsequenceRefl(xs[1..]);
    }
  }

  /**
   * `Array.prototype.filter` (and Mongo's `$pull`): the elements that pass
   * `keep`, in their original order.
   */
  function Filter<T>(xs: seq<T>, keep: T -> bool): (r: seq<T>)
    ensures |r| <= |xs|
  {
    if xs == [] then []
    else if keep(xs[0]) then [xs[0]] + Filter(xs[1..], keep)
    else Filter(xs[1..], keep)
  }

  /** Filtering keeps exactly the elements that pass, each as often as it occurs. */
  lemma {:induction false} FilterCounts<T>(xs: seq<T>, keep: T -> bool)
    ensures forall x {:trigger multiset(Filter(xs, keep))[x]} ::
      multiset(Filter(xs, keep))[x] == if keep(x) then multiset(xs)[x] else 0
  {
    if xs != [] {
      FilterCounts(xs[1..], keep);
      assert xs == [xs[0]] + xs[1..];
    }
  }

  /** An element survives filtering exactly when it occurs and passes. */
  lemma FilterMembers<T>(xs: seq<T>, keep: T -> bool)
    ensures forall x {:trigger x in Filter(xs, keep)} :: x in Filter(xs, keep) <==> x in xs && keep(x)
  {
    FilterCounts(xs, keep);
    forall x
      ensures x in Filter(xs, keep) <==> x in xs && keep(x)
    {
      assert x in Filter(xs, keep) <==> multiset(Filter(xs, keep))[x] > 0;
      assert x in xs <==> multiset(xs)[x] > 0;
    }
  }

  /** Filtering deletes elements and never reorders the rest. */
  lemma {:induction false} FilterIsSubsequence<T>(xs: seq<T>, keep: T -> bool)
    ensures IsSubsequence(Filter(xs, keep), xs)
  {
    if xs != [] {
      FilterIsSubsequence(xs[1..], keep);
      if keep(xs[0]) {
        assert ([xs[0]] + Filter(xs[1..], keep))[1..] == Filter(xs[1..], keep);
      }
    }
  }

  /** Filtering with a test that every element passes changes nothing. */
  lemma {:induction false} FilterAllKept<T>(xs: seq<T>, keep: T -> bool)
    requires forall i :: 0 <= i < |xs| ==> keep(xs[i])
    ensures Filter(xs, keep) == xs
  {
    if xs != [] {
      FilterAllKept(xs[1..], keep);
    }
  }

  /** Filtering with a test that no element passes leaves nothing. */
  lemma {:induction false} FilterNoneKept<T>(xs: seq<T>, keep: T -> bool)
    requires forall i :: 0 <= i < |xs| ==> !keep(xs[i])
    ensures Filter(xs, keep) == []
  {
    if xs != [] {
      FilterNoneKept(xs[1..], keep);
    }
  }

  /** A subsequence is never longer than the sequence it was taken from. */
  lemma {:induction false} SubsequenceLength<T>(a: seq<T>, b: seq<T>)
    requires IsSubsequence(a, b)
    ensures |a| <= |b|
    decreases |b|
  {
    if b != [] {
      if a != [] && a[0] == b[0] && IsSubsequence(a[1..], b[1..]) {
        SubsequenceLength(a[1..], b[1..]);
      } else {
        SubsequenceLength(a, b[1..]);
      }
    }
  }

  /** Filtering keeps the length exactly when every element passes, and shortens the sequence otherwise. */
  lemma {:induction false} FilterLength<T>(xs: seq<T>, keep: T -> bool)
    ensures |Filter(xs, keep)| == |xs| <==> forall i :: 0 <= i < |xs| ==> keep(xs[i])
  {
    if xs != [] {
      FilterLength(xs[1..], keep);
      assert forall i :: 0 < i < |xs| ==> xs[i] == xs[1..][i - 1];
    }
  }

  /** Two tests that agree on every element filter alike. */
  lemma {:induction false} FilterAgree<T>(xs: seq<T>, keep: T -> bool, keep': T -> bool)
    requires forall i :: 0 <= i < |xs| ==> keep(xs[i]) == keep'(xs[i])
    ensures Filter(xs, keep) == Filter(xs, keep')
  {
    if xs != [] {
      FilterAgree(xs[1..], keep, keep');
    }
  }
}
