/** List operations shared by the pages and the ingestion scripts:
    `Array.prototype.filter`, `Array.from(new Set(xs))`, removal by index,
    sums, and grouping by a key. */
module Seqs {

  /** `a` is `b` with some elements deleted: an order-preserving sub-list.
      Either `b`'s head is used for `a`'s head, or it is skipped. */
  predicate IsSubsequence<T(==)>(a: seq<T>, b: seq<T>)
    decreases |b|
  {
    || |a| == 0
    || (&& |b| > 0
        && ((a[0] == b[0] && IsSubsequence(a[1..], b[1..])) || IsSubsequence(a, b[1..])))
  }

  lemma {:induction false} SubsequenceReflexive<T>(xs: seq<T>)
    ensures IsSubsequence(xs, xs)
  {
    if xs != [] {
      SubsequenceReflexive(xs[1..]);
    }
  }

  /** A sub-list of a sub-list is a sub-list. */
  lemma {:induction false} SubsequenceTransitive<T>(a: seq<T>, b: seq<T>, c: seq<T>)
    requires IsSubsequence(a, b) && IsSubsequence(b, c)
    ensures IsSubsequence(a, c)
    decreases |c|
  {
    if |a| > 0 {
      if IsSubsequence(b, c[1..]) {
        SubsequenceTransitive(a, b, c[1..]);
      } else if a[0] == b[0] && IsSubsequence(a[1..], b[1..]) {
        SubsequenceTransitive(a[1..], b[1..], c[1..]);
      } else {
        SubsequenceTransitive(a, b[1..], c[1..]);
      }
    }
  }

  /** No element occurs twice. */
  predicate Distinct<T(==)>(xs: seq<T>) {
    forall i, j :: 0 <= i < j < |xs| ==> xs[i] != xs[j]
  }

  /** `xs.filter(p)`: the elements satisfying `p`, in order, each with its
      multiplicity. */
  function Filter<T(==, !new)>(xs: seq<T>, p: T -> bool): (r: seq<T>)
    ensures |r| <= |xs|
    ensures forall i :: 0 <= i < |r| ==> p(r[i])
    ensures forall x :: x in r <==> x in xs && p(x)
    ensures IsSubsequence(r, xs)
  {
    if xs == [] then []
    else
      var rest := Filter(xs[1..], p);
      assert xs == [xs[0]] + xs[1..];
      if p(xs[0]) then
        var r := [xs[0]] + rest;
        assert r[1..] == rest;
        r
      else
        rest
  }

  /** A kept element keeps its multiplicity; a dropped one has none. */
  lemma {:induction false} FilterMultiplicity<T(!new)>(xs: seq<T>, p: T -> bool, x: T)
    ensures multiset(Filter(xs, p))[x] == if p(x) then multiset(xs)[x] else 0
  {
    if xs != [] {
      var rest := Filter(xs[1..], p);
      FilterMultiplicity(xs[1..], p, x);
      assert xs == [xs[0]] + xs[1..];
      assert multiset(xs) == multiset([xs[0]]) + multiset(xs[1..]);
      if p(xs[0]) {
        assert Filter(xs, p) == [xs[0]] + rest;
        assert multiset(Filter(xs, p)) == multiset([xs[0]]) + multiset(rest);
      } else {
        assert Filter(xs, p) == rest;
      }
    }
  }

  /** Filtering twice by the same predicate is filtering once. */
  lemma {:induction false} FilterIdempotent<T(!new)>(xs: seq<T>, p: T -> bool)
    ensures Filter(Filter(xs, p), p) == Filter(xs, p)
  {
    if xs != [] {
      FilterIdempotent(xs[1..], p);
      if p(xs[0]) {
        var r := Filter(xs, p);
        assert r[0] == xs[0] && r[1..] == Filter(xs[1..], p);
      }
    }
  }

  /** The order of two filters does not matter. */
  lemma {:induction false} FilterCommute<T(!new)>(xs: seq<T>, p: T -> bool, q: T -> bool)
    ensures Filter(Filter(xs, p), q) == Filter(Filter(xs, q), p)
  {
    if xs != [] {
      FilterCommute(xs[1..], p, q);
      var a, b := Filter(xs, p), Filter(xs, q);
      if p(xs[0]) {
        assert a[0] == xs[0] && a[1..] == Filter(xs[1..], p);
      }
      if q(xs[0]) {
        assert b[0] == xs[0] && b[1..] == Filter(xs[1..], q);
      }
    }
  }

  /** A filter that every element passes keeps the list as it is. */
  lemma {:induction false} FilterKeepsAll<T(!new)>(xs: seq<T>, p: T -> bool)
    requires forall i :: 0 <= i < |xs| ==> p(xs[i])
    ensures Filter(xs, p) == xs
  {
    if xs != [] {
      FilterKeepsAll(xs[1..], p);
      assert [xs[0]] + xs[1..] == xs;
    }
  }

  /** How many elements of `xs` satisfy `p`. */
  function Count<T>(xs: seq<T>, p: T -> bool): nat {
    if xs == [] then 0 else (if p(xs[0]) then 1 else 0) + Count(xs[1..], p)
  }

  /** The filtered list has one element per element satisfying `p`. */
  lemma {:induction false} FilterLength<T(!new)>(xs: seq<T>, p: T -> bool)
    ensures |Filter(xs, p)| == Count(xs, p)
  {
    if xs != [] {
      FilterLength(xs[1..], p);
    }
  }

  // ---------------------------------------------------------------------
  // Array.from(new Set(xs))

  /** Position of the first occurrence of `x`. */
  function FirstIndex<T(==)>(xs: seq<T>, x: T): (i: nat)
    requires x in xs
    ensures i < |xs| && xs[i] == x
    ensures forall j :: 0 <= j < i ==> xs[j] != x
  {
    if xs[0] == x then 0 else 1 + FirstIndex(xs[1..], x)
  }

  lemma {:induction false} FirstIndexInPrefix<T>(xs: seq<T>, ys: seq<T>, x: T)
    requires x in xs
    ensures FirstIndex(xs + ys, x) == FirstIndex(xs, x)
  {
    var i := FirstIndex(xs, x);
    var k := FirstIndex(xs + ys, x);
    assert (xs + ys)[i] == x;
  }

  /** The distinct elements of `xs`, each at the place of its first
      occurrence: the iteration order of a JavaScript `Set` built from `xs`. */
  function Dedup<T(==, !new)>(xs: seq<T>): (r: seq<T>)
    ensures |r| <= |xs|
    ensures forall x :: x in r <==> x in xs
    ensures Distinct(r)
    ensures forall i, j :: 0 <= i < j < |r| ==> FirstIndex(xs, r[i]) < FirstIndex(xs, r[j])
  {
    if xs == [] then []
    else
      var init := xs[..|xs| - 1];
      var x := xs[|xs| - 1];
      var p := Dedup(init);
      assert xs == init + [x];
      assert forall y :: y in init ==> FirstIndex(xs, y) == FirstIndex(init, y) by {
        forall y | y in init ensures FirstIndex(xs, y) == FirstIndex(init, y) {
          FirstIndexInPrefix(init, [x], y);
        }
      }
      if x in p then p
      else
        var r := p + [x];
        assert FirstIndex(xs, x) == |init|;
        r
  }

  // ---------------------------------------------------------------------
  // xs.filter((_, i) => i !== idx)

  lemma FirstIndexCons<T>(a: T, ys: seq<T>, x: T)
    requires x in ys && a != x
    ensures FirstIndex([a] + ys, x) == 1 + FirstIndex(ys, x)
  {
    assert ([a] + ys)[1..] == ys;
  }

  /** Filtering keeps the relative order of first occurrences. */
  lemma {:induction false} FilterFirstIndex<T(!new)>(xs: seq<T>, p: T -> bool, x: T, y: T)
    requires x in xs && y in xs && p(x) && p(y)
    ensures FirstIndex(Filter(xs, p), x) < FirstIndex(Filter(xs, p), y) <==> FirstIndex(xs, x) < FirstIndex(xs, y)
  {
    var f := Filter(xs, p);
    if xs[0] != x && xs[0] != y {
      assert x in xs[1..] && y in xs[1..] by {
        assert xs == [xs[0]] + xs[1..];
      }
      FilterFirstIndex(xs[1..], p, x, y);
      if p(xs[0]) {
        FirstIndexCons(xs[0], Filter(xs[1..], p), x);
        FirstIndexCons(xs[0], Filter(xs[1..], p), y);
      }
    } else {
      assert xs[0] in f by {
        assert p(xs[0]);
      }
      assert f[0] == xs[0];
    }
  }

  /** Keeps every element of `xs` except the one at position `idx - offset`;
      `offset` is the index of `xs[0]` in the original list. */
  function DropPosition<T>(xs: seq<T>, idx: int, offset: int): (r: seq<T>)
    ensures 0 <= idx - offset < |xs| ==>
      && |r| == |xs| - 1
      && (forall k :: 0 <= k < idx - offset ==> r[k] == xs[k])
      && (forall k :: idx - offset <= k < |r| ==> r[k] == xs[k + 1])
    ensures !(0 <= idx - offset < |xs|) ==> r == xs
  {
    if xs == [] then []
    else
      var rest := DropPosition(xs[1..], idx, offset + 1);
      if offset == idx then rest
      else
        assert !(0 <= idx - offset < |xs|) ==> rest == xs[1..];
        [xs[0]] + rest
  }

  /** `xs.filter((_, i) => i !== idx)`: the element at `idx` removed, the
      others kept in order; an index outside the list removes nothing. */
  function RemoveAt<T>(xs: seq<T>, idx: int): (r: seq<T>)
    ensures 0 <= idx < |xs| ==> r == xs[..idx] + xs[idx + 1..]
    ensures !(0 <= idx < |xs|) ==> r == xs
  {
    var r := DropPosition(xs, idx, 0);
    assert 0 <= idx < |xs| ==> r == xs[..idx] + xs[idx + 1..];
    r
  }

  // ---------------------------------------------------------------------
  // sums and grouping

  /** `xs.reduce((s, x) => s + w(x), 0)`. */
  function SumBy<T>(xs: seq<T>, w: T -> int): int {
    if xs == [] then 0 else w(xs[0]) + SumBy(xs[1..], w)
  }

  function One<T>(x: T): int {
    1
  }

  lemma {:induction false} SumByOne<T>(xs: seq<T>)
    ensures SumBy(xs, One) == |xs|
  {
    if xs != [] {
      SumByOne(xs[1..]);
    }
  }

  lemma {:induction false} SumByAppend<T>(xs: seq<T>, ys: seq<T>, w: T -> int)
    ensures SumBy(xs + ys, w) == SumBy(xs, w) + SumBy(ys, w)
  {
    if xs != [] {
      var zs := xs + ys;
      assert zs[0] == xs[0] && zs[1..] == xs[1..] + ys;
      SumByAppend(xs[1..], ys, w);
      assert SumBy(zs, w) == w(zs[0]) + SumBy(zs[1..], w);
    } else {
      assert xs + ys == ys;
    }
  }

  /** `xs.map(f)`. */
  function Map<T, U>(xs: seq<T>, f: T -> U): (r: seq<U>)
    ensures |r| == |xs|
    ensures forall i :: 0 <= i < |xs| ==> r[i] == f(xs[i])
  {
    if xs == [] then [] else [f(xs[0])] + Map(xs[1..], f)
  }

  /** The test "the key of `x` is `k`". */
  function KeyIs<T, K(==)>(key: T -> K, k: K): T -> bool {
    x => key(x) == k
  }

  /** The elements whose key is `k`, in order. */
  function Select<T(==, !new), K(==)>(xs: seq<T>, key: T -> K, k: K): (r: seq<T>)
    ensures forall i :: 0 <= i < |r| ==> key(r[i]) == k
    ensures forall x :: x in r <==> x in xs && key(x) == k
    ensures IsSubsequence(r, xs)
  {
    Filter(xs, KeyIs(key, k))
  }

  /** The total weight of the groups named by `ks`. */
  function GroupSums<T(==, !new), K(==)>(xs: seq<T>, key: T -> K, ks: seq<K>, w: T -> int): int {
    if ks == [] then 0 else SumBy(Select(xs, key, ks[0]), w) + GroupSums(xs, key, ks[1..], w)
  }

  /** Adding one element adds its weight to exactly the group of its key. */
  lemma {:induction false} GroupSumsCons<T(!new), K>(x: T, xs: seq<T>, key: T -> K, ks: seq<K>, w: T -> int)
    requires Distinct(ks)
    ensures GroupSums([x] + xs, key, ks, w) == GroupSums(xs, key, ks, w) + (if key(x) in ks then w(x) else 0)
  {
    if ks != [] {
      var ys := [x] + xs;
      assert ys[0] == x && ys[1..] == xs;
      assert Distinct(ks[1..]);
      GroupSumsCons(x, xs, key, ks[1..], w);
      if key(x) == ks[0] {
        assert key(x) !in ks[1..];
        assert Select(ys, key, ks[0]) == [x] + Select(xs, key, ks[0]);
        assert ([x] + Select(xs, key, ks[0]))[1..] == Select(xs, key, ks[0]);
      } else {
        assert Select(ys, key, ks[0]) == Select(xs, key, ks[0]);
        assert key(x) in ks <==> key(x) in ks[1..];
      }
    }
  }

  lemma {:induction false} GroupSumsEmpty<T(!new), K>(key: T -> K, ks: seq<K>, w: T -> int)
    ensures GroupSums([], key, ks, w) == 0
  {
    if ks != [] {
      GroupSumsEmpty(key, ks[1..], w);
    }
  }

  /** Grouping by a key partitions a list: over distinct keys covering every
      element, the group totals add up to the total of the list. */
  lemma {:induction false} PartitionSum<T(!new), K>(xs: seq<T>, key: T -> K, ks: seq<K>, w: T -> int)
    requires Distinct(ks)
    requires forall i :: 0 <= i < |xs| ==> key(xs[i]) in ks
    ensures GroupSums(xs, key, ks, w) == SumBy(xs, w)
  {
    if xs == [] {
      GroupSumsEmpty(key, ks, w);
    } else {
      assert xs == [xs[0]] + xs[1..];
      PartitionSum(xs[1..], key, ks, w);
      GroupSumsCons(xs[0], xs[1..], key, ks, w);
    }
  }
}
