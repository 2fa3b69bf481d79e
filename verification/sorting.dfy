/** Sorting a set of distinct keys with a comparator, as
    `Object.keys(o).sort(cmp)` does when `cmp` is a strict total order: the
    result is the unique strictly increasing list of the keys, whatever order
    they were inserted in. */
module Sorting {

  /** `less` is irreflexive, transitive and total on distinct values. */
  ghost predicate StrictTotalOrder<T(!new)>(less: (T, T) -> bool) {
    && (forall a :: !less(a, a))
    && (forall a, b, c :: less(a, b) && less(b, c) ==> less(a, c))
    && (forall a, b :: a != b ==> less(a, b) || less(b, a))
  }

  /** Every earlier element is below every later one. */
  predicate StrictlySorted<T>(xs: seq<T>, less: (T, T) -> bool) {
    forall i, j :: 0 <= i < j < |xs| ==> less(xs[i], xs[j])
  }

  /** Places `x` in the sorted list `xs`, unless it is already there. */
  function Insert<T(==, !new)>(x: T, xs: seq<T>, less: (T, T) -> bool): (r: seq<T>)
    ensures forall y :: y in r <==> y == x || y in xs
  {
    if xs == [] then [x]
    else if xs[0] == x then xs
    else if less(x, xs[0]) then [x] + xs
    else
      var rest := Insert(x, xs[1..], less);
      assert xs == [xs[0]] + xs[1..];
      [xs[0]] + rest
  }

  lemma {:induction false} InsertSorted<T(!new)>(x: T, xs: seq<T>, less: (T, T) -> bool)
    requires StrictTotalOrder(less)
    requires StrictlySorted(xs, less)
    ensures StrictlySorted(Insert(x, xs, less), less)
  {
    if xs != [] && xs[0] != x && !less(x, xs[0]) {
      assert StrictlySorted(xs[1..], less);
      InsertSorted(x, xs[1..], less);
      var rest := Insert(x, xs[1..], less);
      assert less(xs[0], x);
      forall y | y in rest ensures less(xs[0], y) {
        if y != x {
          var k :| 0 <= k < |xs[1..]| && xs[1..][k] == y;
          assert xs[k + 1] == y;
        }
      }
    } else if xs != [] && xs[0] != x {
      assert forall j :: 0 <= j < |xs| ==> less(x, xs[j]) by {
        forall j | 0 <= j < |xs| ensures less(x, xs[j]) {
          if j > 0 {
            assert less(xs[0], xs[j]);
          }
        }
      }
    }
  }

  /** The distinct elements of `keys`, in increasing order. */
  function SortedKeys<T(==, !new)>(keys: seq<T>, less: (T, T) -> bool): (r: seq<T>)
    ensures forall y :: y in r <==> y in keys
  {
    if keys == [] then []
    else
      var init := keys[..|keys| - 1];
      assert keys == init + [keys[|keys| - 1]];
      Insert(keys[|keys| - 1], SortedKeys(init, less), less)
  }

  /** Sorting produces a strictly increasing list, hence one without
      repetitions. */
  lemma {:induction false} SortedKeysSorted<T(!new)>(keys: seq<T>, less: (T, T) -> bool)
    requires StrictTotalOrder(less)
    ensures StrictlySorted(SortedKeys(keys, less), less)
  {
    if keys != [] {
      SortedKeysSorted(keys[..|keys| - 1], less);
      InsertSorted(keys[|keys| - 1], SortedKeys(keys[..|keys| - 1], less), less);
    }
  }

  /** A strictly sorted list has no repetitions. */
  lemma SortedDistinct<T(!new)>(xs: seq<T>, less: (T, T) -> bool)
    requires StrictTotalOrder(less)
    requires StrictlySorted(xs, less)
    ensures forall i, j :: 0 <= i < j < |xs| ==> xs[i] != xs[j]
  {
    forall i, j | 0 <= i < j < |xs| ensures xs[i] != xs[j] {
      assert less(xs[i], xs[j]);
    }
  }

  /** The head of a strictly sorted list is below all its other elements. */
  lemma HeadIsLeast<T(!new)>(xs: seq<T>, less: (T, T) -> bool, y: T)
    requires StrictlySorted(xs, less)
    requires y in xs
    ensures y == xs[0] || less(xs[0], y)
  {
    var k :| 0 <= k < |xs| && xs[k] == y;
    if k > 0 {
      assert less(xs[0], xs[k]);
    }
  }

  /** Two strictly sorted lists with the same elements are equal: any
      correct sort of the keys yields this list. */
  lemma {:induction false} SortedUnique<T(!new)>(xs: seq<T>, ys: seq<T>, less: (T, T) -> bool)
    requires StrictTotalOrder(less)
    requires StrictlySorted(xs, less) && StrictlySorted(ys, less)
    requires forall y :: y in xs <==> y in ys
    ensures xs == ys
  {
    if ys != [] {
      assert ys[0] in ys;
    }
    if xs != [] {
      assert xs[0] in ys;
      assert ys[0] in xs;
      HeadIsLeast(ys, less, xs[0]);
      HeadIsLeast(xs, less, ys[0]);
      assert xs[0] == ys[0];
      forall y ensures y in xs[1..] <==> y in ys[1..] {
        if y in xs[1..] {
          var k :| 0 <= k < |xs[1..]| && xs[1..][k] == y;
          assert less(xs[0], xs[k + 1]);
          assert y in ys;
        }
        if y in ys[1..] {
          var k :| 0 <= k < |ys[1..]| && ys[1..][k] == y;
          assert less(ys[0], ys[k + 1]);
          assert y in xs;
        }
      }
      SortedUnique(xs[1..], ys[1..], less);
      assert xs == [xs[0]] + xs[1..] && ys == [ys[0]] + ys[1..];
    }
  }
}
