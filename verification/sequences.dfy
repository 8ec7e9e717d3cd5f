/** Order-preserving subsequences, used to state what a filtering pass may output. */
module Sequences {

  /** True iff `a` can be obtained from `b` by deleting elements, keeping the order
      (and the multiplicity) of what remains. Greedy matching decides it. */
  predicate IsSubseq<T(==)>(a: seq<T>, b: seq<T>)
    decreases |b|
  {
    if |a| == 0 then true
    else if |b| == 0 then false
    else if a[0] == b[0] then IsSubseq(a[1..], b[1..])
    else IsSubseq(a, b[1..])
  }

  /** Every element of a subsequence occurs in the sequence it was taken from. */
  lemma {:induction false} SubseqElements<T>(a: seq<T>, b: seq<T>)
    requires IsSubseq(a, b)
    ensures forall x :: x in a ==> x in b
    decreases |b|
  {
    if |a| == 0 || |b| == 0 {
    } else if a[0] == b[0] {
      SubseqElements(a[1..], b[1..]);
      assert a == [a[0]] + a[1..];
    } else {
      SubseqElements(a, b[1..]);
    }
  }

  /** Keeping an element on both sides preserves the subsequence relation. */
  lemma {:induction false} SubseqCons<T>(x: T, a: seq<T>, b: seq<T>)
    requires IsSubseq(a, b)
    ensures IsSubseq([x] + a, [x] + b)
  {
    assert ([x] + a)[1..] == a;
    assert ([x] + b)[1..] == b;
  }

  /** Dropping an element from the longer side preserves the subsequence relation. */
  lemma {:induction false} SubseqSkip<T>(x: T, a: seq<T>, b: seq<T>)
    requires IsSubseq(a, b)
    ensures IsSubseq(a, [x] + b)
    decreases |b|, 1
  {
    if |a| == 0 {
    } else if a[0] == x {
      assert ([x] + b)[1..] == b;
      SubseqTail(a, b);
    } else {
      assert ([x] + b)[1..] == b;
    }
  }

  /** A subsequence with its first element removed is still a subsequence. */
  lemma {:induction false} SubseqTail<T>(a: seq<T>, b: seq<T>)
    requires |a| > 0 && IsSubseq(a, b)
    ensures IsSubseq(a[1..], b)
    decreases |b|, 0
  {
    if a[0] == b[0] {
      SubseqSkip(b[0], a[1..], b[1..]);
      assert [b[0]] + b[1..] == b;
    } else {
      SubseqTail(a, b[1..]);
      SubseqSkip(b[0], a[1..], b[1..]);
      assert [b[0]] + b[1..] == b;
    }
  }
}
