/** Mapping each element of a list to a list, and joining the results. */
module Lists {

  function Collect<A, B>(f: A -> seq<B>, xs: seq<A>): seq<B> {
    if xs == [] then [] else f(xs[0]) + Collect(f, xs[1..])
  }

  lemma {:induction false} CollectAppend<A, B>(f: A -> seq<B>, a: seq<A>, b: seq<A>)
    ensures Collect(f, a + b) == Collect(f, a) + Collect(f, b)
  {
    if a == [] {
      assert a + b == b;
    } else {
      CollectAppend(f, a[1..], b);
      assert (a + b)[1..] == a[1..] + b;
    }
  }

  lemma CollectOne<A, B>(f: A -> seq<B>, x: A)
    ensures Collect(f, [x]) == f(x)
  {
    assert Collect(f, [x]) == f(x) + Collect(f, []);
  }

  lemma {:induction false} CollectLength<A, B>(f: A -> seq<B>, xs: seq<A>)
    ensures (forall x :: x in xs ==> |f(x)| <= 1) ==> |Collect(f, xs)| <= |xs|
    ensures (forall x :: x in xs ==> |f(x)| >= 1) ==> |Collect(f, xs)| >= |xs|
  {
    if xs != [] {
      assert xs[0] in xs;
      CollectLength(f, xs[1..]);
    }
  }

  /** Element by element when every list is a singleton. */
  lemma {:induction false} CollectSingletons<A, B>(f: A -> seq<B>, xs: seq<A>)
    requires forall x :: x in xs ==> |f(x)| == 1
    ensures |Collect(f, xs)| == |xs| && forall i :: 0 <= i < |xs| ==> Collect(f, xs)[i] == f(xs[i])[0]
  {
    if xs != [] {
      assert xs[0] in xs;
      CollectSingletons(f, xs[1..]);
      assert forall i :: 1 <= i < |xs| ==> xs[i] == xs[1..][i - 1];
    }
  }

  lemma {:induction false} CollectEmpty<A, B>(f: A -> seq<B>, xs: seq<A>)
    requires forall x :: x in xs ==> f(x) == []
    ensures Collect(f, xs) == []
  {
    if xs != [] {
      assert xs[0] in xs;
      CollectEmpty(f, xs[1..]);
    }
  }
}
