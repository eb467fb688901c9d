/**
  Order-preserving sequence operations used by the catalogue pipeline:
  `Array.prototype.filter` and `Array.prototype.reverse` over immutable sequences,
  and the subsequence relation that says a filter keeps feed order.
 */
module Seqs {

  /** `a` is obtained from `b` by deleting zero or more elements, keeping the order of the rest. */
  predicate IsSubseq<T(==, !new)>(a: seq<T>, b: seq<T>)
    decreases |b|
  {
    || |a| == 0
    || (&& |b| > 0
        && ((a[0] == b[0] && IsSubseq(a[1..], b[1..])) || IsSubseq(a, b[1..])))
  }

  /** `s.filter(p)`: the elements of `s` that satisfy `p`, in their original order, duplicates kept. */
  function Filter<T(==, !new)>(p: T -> bool, s: seq<T>): (r: seq<T>)
    ensures |r| <= |s|
    ensures forall i :: 0 <= i < |r| ==> p(r[i])
    ensures forall x :: x in r <==> x in s && p(x)
    ensures forall x :: multiset(r)[x] == if p(x) then multiset(s)[x] else 0
    ensures IsSubseq(r, s)
  {
    if |s| == 0 then []
    else
      var rest := Filter(p, s[1..]);
      assert s == [s[0]] + s[1..];
      if p(s[0]) then [s[0]] + rest else rest
  }

  /** `s.reverse()`, as a value: element `i` of the result is element `|s| - 1 - i` of `s`. */
  function Reverse<T>(s: seq<T>): (r: seq<T>)
    ensures |r| == |s|
    ensures forall i :: 0 <= i < |s| ==> r[i] == s[|s| - 1 - i]
  {
    if |s| == 0 then [] else Reverse(s[1..]) + [s[0]]
  }

  /** Filtering a sequence whose every element passes changes nothing. */
  lemma {:induction false} FilterKeepsAllPassing<T(!new)>(p: T -> bool, s: seq<T>)
    requires forall i :: 0 <= i < |s| ==> p(s[i])
    ensures Filter(p, s) == s
    decreases |s|
  {
    if |s| > 0 {
      FilterKeepsAllPassing(p, s[1..]);
    }
  }

  /** Filtering twice with the same predicate is filtering once. */
  lemma FilterIdempotent<T(!new)>(p: T -> bool, s: seq<T>)
    ensures Filter(p, Filter(p, s)) == Filter(p, s)
  {
    FilterKeepsAllPassing(p, Filter(p, s));
  }

  /** Filter distributes over concatenation. */
  lemma {:induction false} FilterAppend<T(!new)>(p: T -> bool, a: seq<T>, b: seq<T>)
    ensures Filter(p, a + b) == Filter(p, a) + Filter(p, b)
    decreases |a|
  {
    if |a| > 0 {
      assert (a + b)[1..] == a[1..] + b;
      FilterAppend(p, a[1..], b);
    } else {
      assert a + b == b;
    }
  }

  /** Filtering the reversed sequence gives the reversal of the filtered sequence. */
  lemma {:induction false} FilterReverse<T(!new)>(p: T -> bool, s: seq<T>)
    ensures Filter(p, Reverse(s)) == Reverse(Filter(p, s))
    decreases |s|
  {
    if |s| > 0 {
      var tail := Reverse(s[1..]);
      assert Reverse(s) == tail + [s[0]];
      FilterAppend(p, tail, [s[0]]);
      FilterReverse(p, s[1..]);
      var kept := Filter(p, s[1..]);
      assert Filter(p, Reverse(s)) == Reverse(kept) + Filter(p, [s[0]]);
      if p(s[0]) {
        assert Filter(p, [s[0]]) == [s[0]];
        assert Filter(p, s) == [s[0]] + kept;
        ReverseCons(s[0], kept);
      } else {
        assert Filter(p, [s[0]]) == [];
        assert Filter(p, s) == kept;
      }
    }
  }

  /** Reversing `[x] + s` puts `x` last. */
  lemma ReverseCons<T>(x: T, s: seq<T>)
    ensures Reverse([x] + s) == Reverse(s) + [x]
  {
    assert ([x] + s)[1..] == s;
  }

  /** Reversing twice gives the original sequence back. */
  lemma ReverseInvolutive<T>(s: seq<T>)
    ensures Reverse(Reverse(s)) == s
  {
  }

  /** Reversal is a permutation: it neither adds, drops nor duplicates an element. */
  lemma {:induction false} ReversePermutes<T>(s: seq<T>)
    ensures multiset(Reverse(s)) == multiset(s)
    decreases |s|
  {
    if |s| > 0 {
      ReversePermutes(s[1..]);
      assert s == [s[0]] + s[1..];
    }
  }
}
