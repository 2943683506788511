/**
 * The Python list idioms the server's text processing uses: a filtering
 * list comprehension `[f(x) for x in xs if keep(x)]` and the
 * order-preserving de-duplication `list(dict.fromkeys(xs))`.
 */
module PyList {
  import opened Wrappers

  // ------------------------------------------------ filtering comprehension

  /** `[f(x) for x in xs if keep(x)]`, with the test and the mapping folded
      into one partial map: `f(x) == None` is a dropped element. */
  function Collect<T, U>(xs: seq<T>, f: T -> Option<U>): seq<U>
    decreases |xs|
  {
    if xs == [] then []
    else
      var y := f(xs[|xs| - 1]);
      Collect(xs[..|xs| - 1], f) + (if y.Some? then [y.value] else [])
  }

  /** One more element: the comprehension over a longer prefix. */
  lemma CollectStep<T, U>(xs: seq<T>, f: T -> Option<U>, i: nat)
    requires i < |xs|
    ensures Collect(xs[..i + 1], f) ==
      Collect(xs[..i], f) + (if f(xs[i]).Some? then [f(xs[i]).value] else [])
  {
    assert xs[..i + 1][..i] == xs[..i];
  }

  predicate Increasing(idx: seq<nat>) {
    forall i, j | 0 <= i < j < |idx| :: idx[i] < idx[j]
  }

  /** `r` holds the images under `f` of the elements of `xs` at the positions
      `idx`, in order, and `idx` is exactly the positions `f` keeps. */
  ghost predicate KeptAt<T, U>(xs: seq<T>, f: T -> Option<U>, r: seq<U>, idx: seq<nat>) {
    |idx| == |r| && Increasing(idx)
    && (forall k | 0 <= k < |idx| :: idx[k] < |xs| && f(xs[idx[k]]) == Some(r[k]))
    && (forall j | 0 <= j < |xs| && f(xs[j]).Some? :: j in idx)
  }

  /** The reference meaning of a filtering comprehension: one result per kept
      element, nothing else, in the order of the input. */
  ghost predicate IsFilterMap<T, U>(xs: seq<T>, f: T -> Option<U>, r: seq<U>) {
    exists idx: seq<nat> :: KeptAt(xs, f, r, idx)
  }

  lemma {:induction false} CollectIsFilterMap<T, U>(xs: seq<T>, f: T -> Option<U>)
    ensures IsFilterMap(xs, f, Collect(xs, f))
    decreases |xs|
  {
    if xs == [] {
      assert KeptAt(xs, f, [], []);
    } else {
      var n := |xs| - 1;
      CollectIsFilterMap(xs[..n], f);
      var idx0: seq<nat> :| KeptAt(xs[..n], f, Collect(xs[..n], f), idx0);
      var idx := KeptAtSnoc(xs, f, Collect(xs[..n], f), idx0);
    }
  }

  /** One more element at the end: kept or dropped. */
  lemma KeptAtSnoc<T, U>(xs: seq<T>, f: T -> Option<U>, r0: seq<U>, idx0: seq<nat>) returns (idx: seq<nat>)
    requires xs != [] && KeptAt(xs[..|xs| - 1], f, r0, idx0)
    ensures var y := f(xs[|xs| - 1]); KeptAt(xs, f, r0 + (if y.Some? then [y.value] else []), idx)
  {
    var n := |xs| - 1;
    var y := f(xs[n]);
    assert forall j | 0 <= j < n :: xs[..n][j] == xs[j];
    assert forall k | 0 <= k < |idx0| :: idx0[k] < n;
    if y.Some? {
      idx := idx0 + [n];
      assert r0 + [y.value] == r0 + (if y.Some? then [y.value] else []);
    } else {
      idx := idx0;
      assert r0 + [] == r0;
    }
  }

  /** Corollaries in terms of membership: every result comes from a kept
      element, and every kept element contributes its image. */
  lemma FilterMapMembers<T, U>(xs: seq<T>, f: T -> Option<U>)
    ensures forall y | y in Collect(xs, f) :: exists x | x in xs :: f(x) == Some(y)
    ensures forall x | x in xs && f(x).Some? :: f(x).value in Collect(xs, f)
  {
    var r := Collect(xs, f);
    CollectIsFilterMap(xs, f);
    var idx: seq<nat> :| KeptAt(xs, f, r, idx);
    KeptAtSources(xs, f, r, idx);
    KeptAtImages(xs, f, r, idx);
  }

  lemma KeptAtSources<T, U>(xs: seq<T>, f: T -> Option<U>, r: seq<U>, idx: seq<nat>)
    requires KeptAt(xs, f, r, idx)
    ensures forall y | y in r :: exists x | x in xs :: f(x) == Some(y)
  {
    forall y | y in r ensures exists x | x in xs :: f(x) == Some(y) {
      var k :| 0 <= k < |r| && r[k] == y;
      var x := xs[idx[k]];
      assert x in xs && f(x) == Some(y);
    }
  }

  lemma KeptAtImages<T, U>(xs: seq<T>, f: T -> Option<U>, r: seq<U>, idx: seq<nat>)
    requires KeptAt(xs, f, r, idx)
    ensures forall x | x in xs && f(x).Some? :: f(x).value in r
  {
    forall x | x in xs && f(x).Some? ensures f(x).value in r {
      var j :| 0 <= j < |xs| && xs[j] == x;
      var k :| 0 <= k < |idx| && idx[k] == j;
      assert r[k] == f(x).value;
    }
  }

  // ------------------------------------------------------- dict.fromkeys

  predicate NoDuplicates<T(==)>(s: seq<T>) {
    forall i, j | 0 <= i < j < |s| :: s[i] != s[j]
  }

  /** Position of the first occurrence of `x` in `xs`. */
  function FirstIndex<T(==)>(xs: seq<T>, x: T): (i: nat)
    requires x in xs
    ensures i < |xs| && xs[i] == x
    ensures forall j | 0 <= j < i :: xs[j] != x
  {
    if xs[0] == x then 0 else 1 + FirstIndex(xs[1..], x)
  }

  /** `list(dict.fromkeys(xs))`: the keys of a dictionary filled in the order
      of `xs`; inserting a key already present changes nothing. */
  function FromKeys<T(==)>(xs: seq<T>): (r: seq<T>)
    ensures NoDuplicates(r)
    ensures forall x | x in r :: x in xs
    ensures forall x | x in xs :: x in r
    decreases |xs|
  {
    if xs == [] then []
    else
      var r0 := FromKeys(xs[..|xs| - 1]);
      var x := xs[|xs| - 1];
      assert xs == xs[..|xs| - 1] + [x];
      if x in r0 then r0 else r0 + [x]
  }

  lemma FirstIndexInPrefix<T>(xs: seq<T>, n: nat, x: T)
    requires n <= |xs| && x in xs[..n]
    ensures x in xs && FirstIndex(xs, x) == FirstIndex(xs[..n], x)
  {
    var i := FirstIndex(xs[..n], x);
    var i' := FirstIndex(xs, x);
    assert xs[i] == x;
    assert i' <= i && xs[..n][i'] == xs[i'];
  }

  /** The keys keep the order in which they first occur in `xs`. */
  lemma {:induction false} FromKeysFirstOccurrenceOrder<T>(xs: seq<T>)
    ensures forall i, j | 0 <= i < j < |FromKeys(xs)| ::
      FirstIndex(xs, FromKeys(xs)[i]) < FirstIndex(xs, FromKeys(xs)[j])
    decreases |xs|
  {
    if xs != [] {
      var n := |xs| - 1;
      var init := xs[..n];
      var x := xs[n];
      var r0 := FromKeys(init);
      FromKeysFirstOccurrenceOrder(init);
      var r := FromKeys(xs);
      assert xs == init + [x];
      forall k | 0 <= k < |r0| ensures r0[k] in xs && FirstIndex(xs, r0[k]) == FirstIndex(init, r0[k]) < n {
        FirstIndexInPrefix(xs, n, r0[k]);
      }
      if x !in r0 {
        assert x !in init;
        assert forall j | 0 <= j < n :: init[j] == xs[j];
      }
    }
  }
}
