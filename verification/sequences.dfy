/** Facts about sequences shared by the models of the data-handling helpers. */
module Sequences {
  /** `a` is `b` with some elements left out. */
  ghost predicate Subseq<X>(a: seq<X>, b: seq<X>)
    decreases |b|
  {
    if |a| == 0 then true
    else if |b| == 0 then false
    else (a[0] == b[0] && Subseq(a[1..], b[1..])) || Subseq(a, b[1..])
  }

  lemma SubseqSkip<X>(a: seq<X>, b: seq<X>)
    requires |b| > 0 && Subseq(a, b[1..])
    ensures Subseq(a, b)
  {
  }

  /** Every element of a subsequence has the property all elements of the sequence have. */
  lemma {:induction false} SubseqAll<X>(a: seq<X>, b: seq<X>, j: nat, p: X -> bool)
    requires Subseq(a, b) && j < |a| && forall i :: 0 <= i < |b| ==> p(b[i])
    ensures p(a[j])
    decreases |b|
  {
    if a[0] == b[0] && Subseq(a[1..], b[1..]) {
      if j > 0 {
        SubseqAll(a[1..], b[1..], j - 1, p);
      }
    } else {
      SubseqAll(a, b[1..], j, p);
    }
  }

  lemma SubseqIn<X>(a: seq<X>, b: seq<X>, x: X)
    requires Subseq(a, b) && x in a
    ensures x in b
  {
    var j :| 0 <= j < |a| && a[j] == x;
    SubseqAll(a, b, j, y => y in b);
  }

  /** The pieces `h(x)` of the elements of `xs`, joined in order. */
  function Flatten<X, Y>(h: X -> seq<Y>, xs: seq<X>): seq<Y>
  {
    if |xs| == 0 then [] else h(xs[0]) + Flatten(h, xs[1..])
  }

  lemma {:induction false} FlattenAppend<X, Y>(h: X -> seq<Y>, a: seq<X>, b: seq<X>)
    ensures Flatten(h, a + b) == Flatten(h, a) + Flatten(h, b)
    decreases |a|
  {
    if |a| == 0 {
      assert a + b == b;
    } else {
      FlattenAppend(h, a[1..], b);
      assert (a + b)[0] == a[0] && (a + b)[1..] == a[1..] + b;
    }
  }

  lemma ConcatAssoc<X>(a: seq<X>, b: seq<X>, c: seq<X>)
    ensures a + b + c == a + (b + c)
  {
  }
}
