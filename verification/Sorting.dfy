/** sort.SliceStable on a sequence. */
module Sorting {

  /** `x` goes after every element it is not less than, counting from the end. */
  function StableInsert<T>(ys: seq<T>, x: T, less: (T, T) -> bool): (r: seq<T>)
    ensures |r| == |ys| + 1
  {
    if ys == [] || !less(x, ys[|ys| - 1]) then ys + [x]
    else StableInsert(ys[..|ys| - 1], x, less) + [ys[|ys| - 1]]
  }

  function StableSort<T>(xs: seq<T>, less: (T, T) -> bool): (r: seq<T>)
    ensures |r| == |xs|
  {
    if xs == [] then [] else StableInsert(StableSort(xs[..|xs| - 1], less), xs[|xs| - 1], less)
  }

  method InsertStable<T>(ys: seq<T>, x: T, less: (T, T) -> bool) returns (r: seq<T>)
    ensures r == StableInsert(ys, x, less)
  {
    var j := |ys|;
    assert ys[..j] == ys && ys[j..] == [];
    while j > 0 && less(x, ys[j - 1])
      invariant 0 <= j <= |ys|
      invariant StableInsert(ys[..j], x, less) + ys[j..] == StableInsert(ys, x, less)
    {
      assert ys[..j][..j - 1] == ys[..j - 1];
      j := j - 1;
    }
    r := ys[..j] + [x] + ys[j..];
  }

  method SliceStable<T>(xs: seq<T>, less: (T, T) -> bool) returns (r: seq<T>)
    ensures r == StableSort(xs, less)
  {
    r := [];
    var i := 0;
    while i < |xs|
      invariant 0 <= i <= |xs|
      invariant r == StableSort(xs[..i], less)
    {
      r := InsertStable(r, xs[i], less);
      assert xs[..i + 1][..i] == xs[..i];
      i := i + 1;
    }
    assert xs[..i] == xs;
  }

  lemma {:induction false} StableInsertAt<T>(ys: seq<T>, x: T, less: (T, T) -> bool, s: nat)
    requires s <= |ys|
    requires forall i :: s <= i < |ys| ==> less(x, ys[i])
    requires s > 0 ==> !less(x, ys[s - 1])
    ensures StableInsert(ys, x, less) == ys[..s] + [x] + ys[s..]
  {
    if s == |ys| {
      assert ys[..s] == ys && ys[s..] == [];
    } else {
      var zs, last := ys[..|ys| - 1], ys[|ys| - 1];
      StableInsertAt(zs, x, less, s);
      assert StableInsert(ys, x, less) == StableInsert(zs, x, less) + [last];
      assert zs[..s] == ys[..s];
      assert ys[s..] == zs[s..] + [last];
    }
  }

  lemma {:induction false} SortedIsFixed<T>(xs: seq<T>, less: (T, T) -> bool)
    requires forall i :: 0 < i < |xs| ==> !less(xs[i], xs[i - 1])
    ensures StableSort(xs, less) == xs
  {
    if xs == [] {
    } else {
      var zs, x := xs[..|xs| - 1], xs[|xs| - 1];
      SortedIsFixed(zs, less);
      assert StableInsert(zs, x, less) == zs + [x];
      assert zs + [x] == xs;
    }
  }

  /** Appending to a sorted list and sorting again moves the new element to its place and nothing else. */
  lemma AppendAndSort<T>(xs: seq<T>, x: T, less: (T, T) -> bool, s: nat)
    requires forall i :: 0 < i < |xs| ==> !less(xs[i], xs[i - 1])
    requires s <= |xs| && (s > 0 ==> !less(x, xs[s - 1]))
    requires forall i :: s <= i < |xs| ==> less(x, xs[i])
    ensures StableSort(xs + [x], less) == xs[..s] + [x] + xs[s..]
  {
    SortedIsFixed(xs, less);
    StableInsertAt(xs, x, less, s);
    assert (xs + [x])[..|xs|] == xs;
  }

  lemma {:induction false} StableInsertPermutes<T>(ys: seq<T>, x: T, less: (T, T) -> bool)
    ensures multiset(StableInsert(ys, x, less)) == multiset(ys) + multiset{x}
  {
    if ys == [] || !less(x, ys[|ys| - 1]) {
    } else {
      StableInsertPermutes(ys[..|ys| - 1], x, less);
      assert ys == ys[..|ys| - 1] + [ys[|ys| - 1]];
    }
  }

  lemma {:induction false} StableSortPermutes<T>(xs: seq<T>, less: (T, T) -> bool)
    ensures multiset(StableSort(xs, less)) == multiset(xs)
  {
    if xs == [] {
    } else {
      StableSortPermutes(xs[..|xs| - 1], less);
      StableInsertPermutes(StableSort(xs[..|xs| - 1], less), xs[|xs| - 1], less);
      assert xs == xs[..|xs| - 1] + [xs[|xs| - 1]];
    }
  }

  // ---------------------------------------------------------------- ordered and stable

  ghost predicate StrictWeakOrder<T(!new)>(less: (T, T) -> bool) {
    && (forall x, y :: less(x, y) ==> !less(y, x))
    && (forall x, y, z :: less(x, z) ==> less(x, y) || less(y, z))
  }

  ghost predicate Ordered<T>(xs: seq<T>, less: (T, T) -> bool) {
    forall i, j :: 0 <= i < j < |xs| ==> !less(xs[j], xs[i])
  }

  lemma {:induction false} StableInsertOrders<T(!new)>(ys: seq<T>, x: T, less: (T, T) -> bool)
    requires StrictWeakOrder(less) && Ordered(ys, less)
    ensures Ordered(StableInsert(ys, x, less), less)
    ensures forall y :: y in StableInsert(ys, x, less) ==> y in ys || y == x
  {
    if ys == [] || !less(x, ys[|ys| - 1]) {
    } else {
      var zs, last := ys[..|ys| - 1], ys[|ys| - 1];
      StableInsertOrders(zs, x, less);
      var r := StableInsert(zs, x, less);
      forall i | 0 <= i < |r| ensures !less(last, r[i]) {
        assert r[i] in r;
      }
    }
  }

  /** The result is ordered, for any strict weak order. */
  lemma {:induction false} StableSortOrders<T(!new)>(xs: seq<T>, less: (T, T) -> bool)
    requires StrictWeakOrder(less)
    ensures Ordered(StableSort(xs, less), less)
  {
    if xs == [] {
    } else {
      StableSortOrders(xs[..|xs| - 1], less);
      StableInsertOrders(StableSort(xs[..|xs| - 1], less), xs[|xs| - 1], less);
    }
  }

  /** The elements with a property, in order. */
  function Among<T>(xs: seq<T>, p: T -> bool): seq<T> {
    if xs == [] then []
    else Among(xs[..|xs| - 1], p) + if p(xs[|xs| - 1]) then [xs[|xs| - 1]] else []
  }

  lemma AmongAppend<T>(xs: seq<T>, x: T, p: T -> bool)
    ensures Among(xs + [x], p) == Among(xs, p) + if p(x) then [x] else []
  {
  }

  /** No element with the property is less than another. */
  ghost predicate Tied<T(!new)>(less: (T, T) -> bool, p: T -> bool) {
    forall x, y :: p(x) && p(y) ==> !less(x, y)
  }

  lemma {:induction false} StableInsertKeeps<T(!new)>(ys: seq<T>, x: T, less: (T, T) -> bool, p: T -> bool)
    requires Tied(less, p)
    ensures Among(StableInsert(ys, x, less), p) == Among(ys, p) + if p(x) then [x] else []
  {
    if ys == [] || !less(x, ys[|ys| - 1]) {
      AmongAppend(ys, x, p);
    } else {
      var zs, last := ys[..|ys| - 1], ys[|ys| - 1];
      StableInsertKeeps(zs, x, less, p);
      AmongAppend(StableInsert(zs, x, less), last, p);
    }
  }

  /** Stable: elements that are tied keep their order. */
  lemma {:induction false} StableSortKeeps<T(!new)>(xs: seq<T>, less: (T, T) -> bool, p: T -> bool)
    requires Tied(less, p)
    ensures Among(StableSort(xs, less), p) == Among(xs, p)
  {
    if xs == [] {
    } else {
      StableSortKeeps(xs[..|xs| - 1], less, p);
      StableInsertKeeps(StableSort(xs[..|xs| - 1], less), xs[|xs| - 1], less, p);
    }
  }
}
