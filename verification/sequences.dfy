/** Generic facts about sequences: order-preserving sub-sequences. */
module Sequences {

  /** `a` is obtained from `b` by deleting zero or more elements and keeping
      the others in their original order. */
  predicate IsSubsequence<T(==)>(a: seq<T>, b: seq<T>)
    decreases |b|
  {
    if |a| == 0 then true
    else if |b| == 0 then false
    else (a[0] == b[0] && IsSubsequence(a[1..], b[1..])) || IsSubsequence(a, b[1..])
  }

  /** Every sequence is a sub-sequence of itself. */
  lemma {:induction false} SubsequenceOfSelf<T>(a: seq<T>)
    ensures IsSubsequence(a, a)
    decreases |a|
  {
    if |a| > 0 {
      SubsequenceOfSelf(a[1..]);
    }
  }

  /** Putting more elements in front of the longer sequence keeps the relation. */
  lemma {:induction false} SubsequenceDropPrefix<T>(a: seq<T>, x: seq<T>, b: seq<T>)
    requires IsSubsequence(a, b)
    ensures IsSubsequence(a, x + b)
    decreases |x|
  {
    if |x| == 0 {
      assert x + b == b;
    } else if |a| > 0 {
      SubsequenceDropPrefix(a, x[1..], b);
      assert (x + b)[1..] == x[1..] + b;
      assert IsSubsequence(a, (x + b)[1..]);
    }
  }

  /** A common prefix may be kept on both sides. */
  lemma {:induction false} SubsequenceKeepPrefix<T>(x: seq<T>, a: seq<T>, b: seq<T>)
    requires IsSubsequence(a, b)
    ensures IsSubsequence(x + a, x + b)
    decreases |x|
  {
    if |x| == 0 {
      assert x + a == a && x + b == b;
    } else {
      SubsequenceKeepPrefix(x[1..], a, b);
      assert (x + a)[1..] == x[1..] + a;
      assert (x + b)[1..] == x[1..] + b;
      assert (x + a)[0] == (x + b)[0];
      assert IsSubsequence((x + a)[1..], (x + b)[1..]);
    }
  }
}
