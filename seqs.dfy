/** Order-preserving selection over sequences: Kotlin's `filter` and `find`. */
module Seqs {
  import opened Wrappers

  /** The elements of `xs` satisfying `p`, in their order. */
  function Filter<T(!new)>(xs: seq<T>, p: T -> bool): (r: seq<T>)
    ensures |r| <= |xs|
    ensures forall x :: x in r <==> x in xs && p(x)
    ensures multiset(r) <= multiset(xs)
  {
    if xs == [] then []
    else
      var rest := Filter(xs[1..], p);
      assert xs == [xs[0]] + xs[1..];
      if p(xs[0]) then [xs[0]] + rest else rest
  }

  lemma {:induction false} FilterAppend<T(!new)>(xs: seq<T>, ys: seq<T>, p: T -> bool)
    ensures Filter(xs + ys, p) == Filter(xs, p) + Filter(ys, p)
  {
    if xs == [] {
      assert xs + ys == ys;
    } else {
      assert (xs + ys)[1..] == xs[1..] + ys;
      FilterAppend(xs[1..], ys, p);
    }
  }

  /** A prefix one longer is the prefix and the next element. */
  lemma PrefixSnoc<T>(s: seq<T>, i: nat)
    requires i < |s|
    ensures s[..i + 1] == s[..i] + [s[i]]
  {
  }

  /** The prefix one longer ends with the next element after the shorter prefix. */
  lemma LongerPrefix<T>(s: seq<T>, i: nat)
    requires i < |s|
    ensures s[..i + 1][..i] == s[..i] && s[..i + 1][i] == s[i] && |s[..i + 1]| == i + 1
  {
  }

  /** A suffix that is not empty is its first element and the suffix after it. */
  lemma SuffixCons<T>(s: seq<T>, k: nat)
    requires k < |s|
    ensures s[k..] == [s[k]] + s[k + 1..] && s[k..][0] == s[k] && s[k..][1..] == s[k + 1..]
  {
  }

  /** The prefix as long as the sequence is the sequence. */
  lemma WholePrefix<T>(s: seq<T>)
    ensures s[..|s|] == s
  {
  }

  /** Filtering a sequence with a known head: the head is kept exactly when it satisfies `p`. */
  lemma FilterCons<T(!new)>(x: T, rest: seq<T>, p: T -> bool)
    ensures Filter([x] + rest, p) == if p(x) then [x] + Filter(rest, p) else Filter(rest, p)
  {
    assert ([x] + rest)[0] == x && ([x] + rest)[1..] == rest;
  }

  /** Filtering by `p` and by its complement `q` splits a sequence into two parts that together hold it all. */
  lemma {:induction false} FilterPartition<T(!new)>(xs: seq<T>, p: T -> bool, q: T -> bool)
    requires forall x :: q(x) <==> !p(x)
    ensures multiset(Filter(xs, p)) + multiset(Filter(xs, q)) == multiset(xs)
    ensures |Filter(xs, p)| + |Filter(xs, q)| == |xs|
  {
    if xs != [] {
      var x, rest := xs[0], xs[1..];
      assert xs == [x] + rest;
      FilterPartition(rest, p, q);
      FilterCons(x, rest, p);
      FilterCons(x, rest, q);
      if p(x) {
        ConsSplit(x, Filter(rest, p), Filter(rest, q), rest);
      } else {
        ConsSplit(x, Filter(rest, q), Filter(rest, p), rest);
      }
    }
  }

  /** Adding the same element in front of one part and of the whole keeps a split a split. */
  lemma ConsSplit<T>(x: T, a: seq<T>, b: seq<T>, whole: seq<T>)
    requires multiset(a) + multiset(b) == multiset(whole) && |a| + |b| == |whole|
    ensures multiset([x] + a) + multiset(b) == multiset([x] + whole) && |[x] + a| + |b| == |[x] + whole|
  {
  }

  /** Every element kept satisfies `p`; when all do, nothing is dropped. */
  lemma {:induction false} FilterAll<T(!new)>(xs: seq<T>, p: T -> bool)
    requires forall i | 0 <= i < |xs| :: p(xs[i])
    ensures Filter(xs, p) == xs
  {
    if xs != [] {
      FilterAll(xs[1..], p);
    }
  }

  lemma {:induction false} FilterNone<T(!new)>(xs: seq<T>, p: T -> bool)
    requires forall i | 0 <= i < |xs| :: !p(xs[i])
    ensures Filter(xs, p) == []
  {
    if xs != [] {
      FilterNone(xs[1..], p);
    }
  }

  /** Filtering twice by the same predicate changes nothing the second time. */
  lemma FilterIdempotent<T(!new)>(xs: seq<T>, p: T -> bool)
    ensures Filter(Filter(xs, p), p) == Filter(xs, p)
  {
    var r := Filter(xs, p);
    forall i | 0 <= i < |r| ensures p(r[i]) {
      assert r[i] in r;
    }
    FilterAll(r, p);
  }

  /** `find`: the first element satisfying `p`, if any. */
  function Find<T(!new)>(xs: seq<T>, p: T -> bool): (r: Option<T>)
    ensures r.None? <==> forall i | 0 <= i < |xs| :: !p(xs[i])
    ensures r.Some? ==> p(r.value) && r.value in xs
  {
    if xs == [] then None
    else if p(xs[0]) then Some(xs[0])
    else Find(xs[1..], p)
  }

  /** The first match of `p` is the head of the filtered sequence. */
  lemma {:induction false} FindIsFirstOfFilter<T(!new)>(xs: seq<T>, p: T -> bool)
    ensures Find(xs, p) == (if Filter(xs, p) == [] then None else Some(Filter(xs, p)[0]))
  {
    if xs != [] && !p(xs[0]) {
      FindIsFirstOfFilter(xs[1..], p);
    }
  }
  /** Filtering keeps the relative order of the elements it keeps. */
  lemma {:induction false} FilterKeepsOrder<T(!new)>(xs: seq<T>, p: T -> bool, before: (T, T) -> bool)
    requires forall i, j | 0 <= i < j < |xs| :: before(xs[i], xs[j])
    ensures forall i, j | 0 <= i < j < |Filter(xs, p)| :: before(Filter(xs, p)[i], Filter(xs, p)[j])
  {
    if xs != [] {
      var x, rest := xs[0], xs[1..];
      assert xs == [x] + rest;
      OrderedTail(x, rest, before);
      FilterKeepsOrder(rest, p, before);
      FilterCons(x, rest, p);
      var fr := Filter(rest, p);
      if p(x) {
        forall y | y in fr ensures before(x, y) {
          var k :| 0 <= k < |rest| && rest[k] == y;
          assert xs[k + 1] == y;
        }
        OrderedCons(x, fr, before);
      }
    }
  }

  /** The tail of an ordered sequence is ordered, and its head comes before all of it. */
  lemma OrderedTail<T>(x: T, rest: seq<T>, before: (T, T) -> bool)
    requires forall i, j | 0 <= i < j < |[x] + rest| :: before(([x] + rest)[i], ([x] + rest)[j])
    ensures forall i, j | 0 <= i < j < |rest| :: before(rest[i], rest[j])
    ensures forall k | 0 <= k < |rest| :: before(x, rest[k])
  {
    var xs := [x] + rest;
    forall i, j | 0 <= i < j < |rest| ensures before(rest[i], rest[j]) {
      assert rest[i] == xs[i + 1] && rest[j] == xs[j + 1];
    }
    forall k | 0 <= k < |rest| ensures before(x, rest[k]) {
      assert x == xs[0] && rest[k] == xs[k + 1];
    }
  }

  /** An element that comes before every element of an ordered sequence can be put in front of it. */
  lemma OrderedCons<T>(x: T, rest: seq<T>, before: (T, T) -> bool)
    requires forall i, j | 0 <= i < j < |rest| :: before(rest[i], rest[j])
    requires forall y | y in rest :: before(x, y)
    ensures forall i, j | 0 <= i < j < |[x] + rest| :: before(([x] + rest)[i], ([x] + rest)[j])
  {
    var xs := [x] + rest;
    forall i, j | 0 <= i < j < |xs| ensures before(xs[i], xs[j]) {
      assert xs[j] == rest[j - 1] && rest[j - 1] in rest;
      if i > 0 {
        assert xs[i] == rest[i - 1];
      }
    }
  }
}
