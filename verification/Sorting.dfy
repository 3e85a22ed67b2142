/** `ORDER BY` as a function: insertion sort under a total preorder. */
module Sorting {

  ghost predicate TotalPreorder<T(!new)>(leq: (T, T) -> bool)
  {
    && (forall a, b :: leq(a, b) || leq(b, a))
    && (forall a, b, c :: leq(a, b) && leq(b, c) ==> leq(a, c))
  }

  ghost predicate Ordered<T>(xs: seq<T>, leq: (T, T) -> bool)
  {
    forall i, j :: 0 <= i < j < |xs| ==> leq(xs[i], xs[j])
  }

  function Insert<T>(x: T, xs: seq<T>, leq: (T, T) -> bool): seq<T>
  {
    if xs == [] then [x]
    else if leq(x, xs[0]) then [x] + xs
    else [xs[0]] + Insert(x, xs[1..], leq)
  }

  function Sort<T>(xs: seq<T>, leq: (T, T) -> bool): seq<T>
  {
    if xs == [] then [] else Insert(xs[0], Sort(xs[1..], leq), leq)
  }

  lemma {:induction false} InsertPermutes<T>(x: T, xs: seq<T>, leq: (T, T) -> bool)
    ensures multiset(Insert(x, xs, leq)) == multiset{x} + multiset(xs)
    decreases |xs|
  {
    if xs != [] {
      assert xs == [xs[0]] + xs[1..];
      if !leq(x, xs[0]) { InsertPermutes(x, xs[1..], leq); }
    }
  }

  lemma {:induction false} InsertOrders<T(!new)>(x: T, xs: seq<T>, leq: (T, T) -> bool)
    requires TotalPreorder(leq) && Ordered(xs, leq)
    ensures Ordered(Insert(x, xs, leq), leq)
    decreases |xs|
  {
    if xs != [] && !leq(x, xs[0]) {
      var rest := Insert(x, xs[1..], leq);
      InsertOrders(x, xs[1..], leq);
      InsertPermutes(x, xs[1..], leq);
      forall k | 0 <= k < |rest| ensures leq(xs[0], rest[k]) {
        assert rest[k] in multiset(rest);
        assert rest[k] == x || rest[k] in xs[1..];
      }
    }
  }

  /** Sorting returns an ordered rearrangement. */
  lemma {:induction false} SortPermutes<T>(xs: seq<T>, leq: (T, T) -> bool)
    ensures multiset(Sort(xs, leq)) == multiset(xs)
    ensures |Sort(xs, leq)| == |xs|
    decreases |xs|
  {
    if xs != [] {
      SortPermutes(xs[1..], leq);
      InsertPermutes(xs[0], Sort(xs[1..], leq), leq);
      assert xs == [xs[0]] + xs[1..];
    }
    assert |multiset(Sort(xs, leq))| == |Sort(xs, leq)|;
    assert |multiset(xs)| == |xs|;
  }

  lemma {:induction false} SortOrders<T(!new)>(xs: seq<T>, leq: (T, T) -> bool)
    requires TotalPreorder(leq)
    ensures Ordered(Sort(xs, leq), leq)
    decreases |xs|
  {
    if xs != [] {
      SortOrders(xs[1..], leq);
      InsertOrders(xs[0], Sort(xs[1..], leq), leq);
    }
  }

  lemma HeadIsLeast<T(!new)>(xs: seq<T>, x: T, leq: (T, T) -> bool)
    requires TotalPreorder(leq) && Ordered(xs, leq) && x in xs
    ensures leq(xs[0], x)
  {
  }

  /** No two different elements of `xs` tie. */
  ghost predicate TieFree<T>(xs: seq<T>, leq: (T, T) -> bool)
  {
    forall a, b | a in xs && b in xs :: leq(a, b) && leq(b, a) ==> a == b
  }

  lemma SameHead<T(!new)>(xs: seq<T>, ys: seq<T>, leq: (T, T) -> bool)
    requires TotalPreorder(leq) && Ordered(xs, leq) && Ordered(ys, leq)
    requires multiset(xs) == multiset(ys) && TieFree(xs, leq) && xs != [] && ys != []
    ensures xs[0] == ys[0]
  {
    hide TotalPreorder, Ordered;
    assert xs[0] in multiset(ys) && ys[0] in multiset(xs);
    HeadIsLeast(xs, ys[0], leq);
    HeadIsLeast(ys, xs[0], leq);
  }

  lemma SameTail<T>(xs: seq<T>, ys: seq<T>)
    requires multiset(xs) == multiset(ys) && xs != [] && ys != [] && xs[0] == ys[0]
    ensures multiset(xs[1..]) == multiset(ys[1..])
  {
    assert xs == [xs[0]] + xs[1..] && ys == [xs[0]] + ys[1..];
    assert multiset(xs[1..]) == multiset(xs) - multiset{xs[0]} == multiset(ys[1..]);
  }

  lemma TailTieFree<T(!new)>(xs: seq<T>, leq: (T, T) -> bool)
    requires xs != [] && TieFree(xs, leq)
    ensures TieFree(xs[1..], leq)
  {
  }

  lemma TailOrdered<T(!new)>(xs: seq<T>, leq: (T, T) -> bool)
    requires xs != [] && Ordered(xs, leq)
    ensures Ordered(xs[1..], leq)
  {
  }

  /** An ordered arrangement of a multiset is unique when the order has no ties. */
  lemma {:induction false} OrderedUnique<T(!new)>(xs: seq<T>, ys: seq<T>, leq: (T, T) -> bool)
    requires TotalPreorder(leq)
    requires Ordered(xs, leq) && Ordered(ys, leq)
    requires multiset(xs) == multiset(ys)
    requires TieFree(xs, leq)
    ensures xs == ys
    decreases |xs|
  {
    hide TotalPreorder, Ordered, TieFree;
    assert |multiset(xs)| == |xs| && |multiset(ys)| == |ys|;
    if xs != [] {
      SameHead(xs, ys, leq);
      SameTail(xs, ys);
      TailTieFree(xs, leq);
      TailOrdered(xs, leq);
      TailOrdered(ys, leq);
      OrderedUnique(xs[1..], ys[1..], leq);
      assert xs == [xs[0]] + xs[1..] && ys == [xs[0]] + ys[1..];
    }
  }

  lemma TwiceCounted<T>(xs: seq<T>, i: nat, j: nat)
    requires i < j < |xs|
    ensures xs[i] == xs[j] ==> multiset(xs)[xs[i]] >= 2
  {
    assert xs == xs[..j] + ([xs[j]] + xs[j + 1..]);
    assert xs[..j][i] == xs[i];
    assert xs[i] in multiset(xs[..j]);
  }

  /** Sorting leaves an ordered sequence as it is. */
  lemma {:induction false} SortOrdered<T(!new)>(xs: seq<T>, leq: (T, T) -> bool)
    requires Ordered(xs, leq)
    ensures Sort(xs, leq) == xs
    decreases |xs|
  {
    if xs != [] {
      TailOrdered(xs, leq);
      SortOrdered(xs[1..], leq);
      assert xs == [xs[0]] + xs[1..];
      if |xs| > 1 { assert leq(xs[0], xs[1]); }
    }
  }
}
