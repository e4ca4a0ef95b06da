/** Order-preserving filtering of a sequence, the shape shared by the
    chapter-selection loops, the `.txt` member test and the spine
    comprehension. `Filter` is defined from the end of the sequence so that
    it unfolds exactly as a loop that appends kept elements one by one. */
module Filtering {

  /** The elements of `s` that satisfy `p`, in their original order. */
  function Filter<T>(p: T -> bool, s: seq<T>): (r: seq<T>)
    ensures |r| <= |s|
    ensures forall k :: 0 <= k < |r| ==> p(r[k])
  {
    if s == [] then []
    else Filter(p, s[..|s| - 1]) + (if p(s[|s| - 1]) then [s[|s| - 1]] else [])
  }

  /** The positions in `s` of the elements that `Filter` keeps: strictly
      increasing, exactly the positions that pass `p`, and pointing at the
      kept elements in order. */
  function KeptIndices<T>(p: T -> bool, s: seq<T>): (r: seq<nat>)
    ensures |r| == |Filter(p, s)|
    ensures forall m :: 0 <= m < |r| ==> r[m] < |s| && s[r[m]] == Filter(p, s)[m]
    ensures forall m, n :: 0 <= m < n < |r| ==> r[m] < r[n]
    ensures forall k :: 0 <= k < |s| ==> (p(s[k]) <==> k in r)
  {
    if s == [] then []
    else KeptIndices(p, s[..|s| - 1]) + (if p(s[|s| - 1]) then [|s| - 1] else [])
  }

  /** Filtering distributes over concatenation. */
  lemma {:induction false} FilterConcat<T>(p: T -> bool, a: seq<T>, b: seq<T>)
    ensures Filter(p, a + b) == Filter(p, a) + Filter(p, b)
    decreases |b|
  {
    if b == [] {
      assert a + b == a;
    } else {
      var b' := b[..|b| - 1];
      assert (a + b)[..|a + b| - 1] == a + b';
      FilterConcat(p, a, b');
    }
  }

  /** When every element passes, nothing is dropped and the order is kept. */
  lemma {:induction false} FilterAllPass<T>(p: T -> bool, s: seq<T>)
    requires forall k :: 0 <= k < |s| ==> p(s[k])
    ensures Filter(p, s) == s
  {
    if s != [] {
      FilterAllPass(p, s[..|s| - 1]);
      assert s[..|s| - 1] + [s[|s| - 1]] == s;
    }
  }

  /** When no element passes, the result is empty. */
  lemma {:induction false} FilterNonePass<T>(p: T -> bool, s: seq<T>)
    requires forall k :: 0 <= k < |s| ==> !p(s[k])
    ensures Filter(p, s) == []
  {
    if s != [] {
      FilterNonePass(p, s[..|s| - 1]);
    }
  }

  /** Two tests that agree on every element keep the same elements. */
  lemma {:induction false} FilterAgree<T>(p: T -> bool, q: T -> bool, s: seq<T>)
    requires forall k :: 0 <= k < |s| ==> (p(s[k]) <==> q(s[k]))
    ensures Filter(p, s) == Filter(q, s)
  {
    if s != [] {
      FilterAgree(p, q, s[..|s| - 1]);
    }
  }

  /** Every passing value keeps its full multiplicity; every failing value
      disappears. */
  lemma {:induction false} FilterMultiset<T>(p: T -> bool, s: seq<T>, x: T)
    ensures p(x) ==> multiset(Filter(p, s))[x] == multiset(s)[x]
    ensures !p(x) ==> multiset(Filter(p, s))[x] == 0
  {
    if s != [] {
      var s' := s[..|s| - 1];
      FilterMultiset(p, s', x);
      assert s == s' + [s[|s| - 1]];
    }
  }

  /** Multisets with the same multiplicities are equal. */
  lemma SameMultiplicities<T>(a: seq<T>, b: seq<T>)
    requires forall x :: multiset(a)[x] == multiset(b)[x]
    ensures multiset(a) == multiset(b)
  {
  }
}
