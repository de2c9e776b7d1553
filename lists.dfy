/** `Array.prototype.filter` and what it guarantees: the kept elements are
    exactly those satisfying the predicate, each as often as in the input, in
    their original order. */
module Lists {

  /** `a` can be obtained from `b` by deleting elements: same order. */
  ghost predicate IsSubseq<T>(a: seq<T>, b: seq<T>)
    decreases |b|
  {
    a == [] || (b != [] && ((a[0] == b[0] && IsSubseq(a[1..], b[1..])) || IsSubseq(a, b[1..])))
  }

  /** `Array.prototype.map`. */
  function Map<A, B>(xs: seq<A>, f: A -> B): (r: seq<B>)
    ensures |r| == |xs|
    ensures forall i | 0 <= i < |xs| :: r[i] == f(xs[i])
  {
    seq(|xs|, i requires 0 <= i < |xs| => f(xs[i]))
  }

  /** Mapping a non-empty list maps its head, then its tail. */
  lemma MapStep<A, B>(xs: seq<A>, f: A -> B)
    requires xs != []
    ensures Map(xs, f) == [f(xs[0])] + Map(xs[1..], f)
  {
    assert Map(xs, f)[1..] == Map(xs[1..], f);
  }

  /** Mapping both sides keeps one a subsequence of the other. */
  lemma {:induction false} SubseqMap<A, B>(a: seq<A>, b: seq<A>, f: A -> B)
    requires IsSubseq(a, b)
    ensures IsSubseq(Map(a, f), Map(b, f))
    decreases |b|
  {
    if a != [] {
      assert Map(a, f)[1..] == Map(a[1..], f);
      assert Map(b, f)[1..] == Map(b[1..], f);
      if a[0] == b[0] && IsSubseq(a[1..], b[1..]) {
        SubseqMap(a[1..], b[1..], f);
      } else {
        SubseqMap(a, b[1..], f);
      }
    }
  }

  function Filter<T(!new)>(xs: seq<T>, p: T -> bool): (r: seq<T>)
    ensures |r| <= |xs|
    ensures forall x :: x in r <==> x in xs && p(x)
    ensures forall i | 0 <= i < |r| :: p(r[i])
    ensures IsSubseq(r, xs)
  {
    if xs == [] then []
    else if p(xs[0]) then [xs[0]] + Filter(xs[1..], p)
    else Filter(xs[1..], p)
  }

  /** An element the predicate accepts is kept as often as it occurs; any
      other element not at all. */
  lemma {:induction false} FilterCount<T(!new)>(xs: seq<T>, p: T -> bool)
    ensures forall x :: multiset(Filter(xs, p))[x] == if p(x) then multiset(xs)[x] else 0
  {
    if xs != [] {
      FilterCount(xs[1..], p);
      assert xs == [xs[0]] + xs[1..];
    }
  }

  /** Filtering twice by the same predicate keeps what filtering once keeps. */
  lemma {:induction false} FilterIdempotent<T(!new)>(xs: seq<T>, p: T -> bool)
    ensures Filter(Filter(xs, p), p) == Filter(xs, p)
  {
    if xs != [] {
      FilterIdempotent(xs[1..], p);
    }
  }

  /** Filtering by a predicate and by its negation splits the list in two:
      the sizes add up and every element lands in exactly one part. */
  lemma {:induction false} FilterPartition<T(!new)>(xs: seq<T>, p: T -> bool, q: T -> bool)
    requires forall x :: q(x) == !p(x)
    ensures |Filter(xs, p)| + |Filter(xs, q)| == |xs|
    ensures multiset(Filter(xs, p)) + multiset(Filter(xs, q)) == multiset(xs)
  {
    FilterCount(xs, p);
    FilterCount(xs, q);
    var kept, dropped := multiset(Filter(xs, p)), multiset(Filter(xs, q));
    forall x ensures (kept + dropped)[x] == multiset(xs)[x] {
      assert q(x) == !p(x);
    }
    assert kept + dropped == multiset(xs);
  }
}
