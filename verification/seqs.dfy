/** Sequences without repetition. */
module Seqs {

  /** The different elements of `xs`, in the order of their first appearance. */
  function FirstSeen<T(==)>(xs: seq<T>): (r: seq<T>)
    ensures (forall x | x in r :: x in xs) && (forall x | x in xs :: x in r)
    ensures forall i, j | 0 <= i < j < |r| :: r[i] != r[j]
  {
    if xs == [] then []
    else
      var seen, x := FirstSeen(xs[..|xs| - 1]), xs[|xs| - 1];
      if x in seen then seen else seen + [x]
  }

  lemma FirstSeenSnoc<T>(xs: seq<T>, x: T)
    ensures FirstSeen(xs + [x]) == if x in xs then FirstSeen(xs) else FirstSeen(xs) + [x]
  {
    assert (xs + [x])[..|xs|] == xs;
  }

  lemma {:induction false} FirstSeenOfDistinct<T>(xs: seq<T>)
    requires forall i, j | 0 <= i < j < |xs| :: xs[i] != xs[j]
    ensures FirstSeen(xs) == xs
  {
    if xs != [] {
      FirstSeenOfDistinct(xs[..|xs| - 1]);
    }
  }

  lemma {:induction false} FirstSeenPrefix<T>(a: seq<T>, b: seq<T>)
    ensures FirstSeen(a) <= FirstSeen(a + b)
  {
    if b == [] {
      assert a + b == a;
    } else {
      assert (a + b)[..|a + b| - 1] == a + b[..|b| - 1];
      FirstSeenPrefix(a, b[..|b| - 1]);
    }
  }
}
