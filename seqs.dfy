/** Order-preserving selection over sequences, and duplicate-freedom. */
module Seqs {

  /** The elements of `s` that satisfy `p`, in their original order
      (a boolean-mask selection such as `frame.loc[mask]`). */
  function Filter<T(!new)>(s: seq<T>, p: T -> bool): (r: seq<T>)
    ensures |r| <= |s|
    decreases |s|
  {
    if s == [] then []
    else (if p(s[0]) then [s[0]] else []) + Filter(s[1..], p)
  }

  /** An element is selected exactly when it occurs in `s` and satisfies
      `p`. */
  lemma {:induction false} FilterMembers<T(!new)>(s: seq<T>, p: T -> bool)
    ensures forall x :: x in Filter(s, p) <==> x in s && p(x)
    decreases |s|
  {
    if s != [] {
      FilterMembers(s[1..], p);
      assert s == [s[0]] + s[1..];
    }
  }

  /** Selection distributes over concatenation: the relative order of the
      selected elements is the order they have in the source. */
  lemma {:induction false} FilterAppend<T(!new)>(a: seq<T>, b: seq<T>, p: T -> bool)
    ensures Filter(a + b, p) == Filter(a, p) + Filter(b, p)
    decreases |a|
  {
    if a == [] {
      assert a + b == b;
    } else {
      var rest := a[1..];
      var head := if p(a[0]) then [a[0]] else [];
      assert (a + b)[0] == a[0];
      assert (a + b)[1..] == rest + b;
      FilterAppend(rest, b, p);
      assert Filter(a + b, p) == head + Filter(rest + b, p);
      assert Filter(a, p) == head + Filter(rest, p);
      assert head + (Filter(rest, p) + Filter(b, p)) == (head + Filter(rest, p)) + Filter(b, p);
    }
  }

  /** Two selections by mutually exclusive predicates that cover every
      element split the sequence: every element lands in exactly one. */
  lemma {:induction false} FilterPartition<T(!new)>(s: seq<T>, p: T -> bool, q: T -> bool)
    requires forall x :: x in s ==> p(x) != q(x)
    ensures multiset(Filter(s, p)) + multiset(Filter(s, q)) == multiset(s)
    decreases |s|
  {
    if s != [] {
      var rest := s[1..];
      assert s == [s[0]] + rest;
      assert forall x :: x in rest ==> x in s;
      FilterPartition(rest, p, q);
      if p(s[0]) {
        assert Filter(s, p) == [s[0]] + Filter(rest, p);
        assert Filter(s, q) == Filter(rest, q);
      } else {
        assert Filter(s, p) == Filter(rest, p);
        assert Filter(s, q) == [s[0]] + Filter(rest, q);
      }
    }
  }

  /** No element occurs twice. */
  predicate NoDuplicates<T(==)>(s: seq<T>)
  {
    forall i, j :: 0 <= i < j < |s| ==> s[i] != s[j]
  }
}
