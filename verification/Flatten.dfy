/** Lists made by joining what each element of another list produces. */
module Flatten {

  function FlatMap<A, B>(f: A -> seq<B>, s: seq<A>): seq<B> {
    if s == [] then [] else f(s[0]) + FlatMap(f, s[1..])
  }

  lemma {:induction false} FlatMapJoin<A, B>(f: A -> seq<B>, a: seq<A>, b: seq<A>)
    ensures FlatMap(f, a + b) == FlatMap(f, a) + FlatMap(f, b)
  {
    if a == [] {
      assert a + b == b;
    } else {
      assert (a + b)[1..] == a[1..] + b;
      FlatMapJoin(f, a[1..], b);
    }
  }

  lemma FlatMapOne<A, B>(f: A -> seq<B>, x: A)
    ensures FlatMap(f, [x]) == f(x)
  {
    assert [x][1..] == [] && FlatMap(f, []) == [];
    assert f(x) + [] == f(x);
  }

  lemma RemoveOne<T>(rest: seq<T>, left: seq<T>, right: seq<T>, x: T)
    requires multiset([x] + rest) == multiset(left + [x] + right)
    ensures multiset(rest) == multiset(left + right)
  {
    assert multiset([x] + rest) == multiset{x} + multiset(rest);
    assert multiset(left + [x] + right) == multiset{x} + multiset(left + right);
    assert multiset(rest) == multiset([x] + rest) - multiset{x};
    assert multiset(left + right) == multiset(left + [x] + right) - multiset{x};
  }

  /** Reordering the elements only reorders what they produce. */
  lemma {:induction false} FlatMapReordered<A, B>(f: A -> seq<B>, a: seq<A>, b: seq<A>)
    requires multiset(a) == multiset(b)
    ensures multiset(FlatMap(f, a)) == multiset(FlatMap(f, b))
  {
    if a == [] {
      assert |multiset(b)| == 0 && b == [];
    } else {
      var x := a[0];
      assert x in multiset(a) && x in b;
      var j :| 0 <= j < |b| && b[j] == x;
      assert a == [x] + a[1..] && b == b[..j] + [x] + b[j + 1..];
      RemoveOne(a[1..], b[..j], b[j + 1..], x);
      FlatMapReordered(f, a[1..], b[..j] + b[j + 1..]);
      FlatMapOne(f, x);
      FlatMapJoin(f, [x], a[1..]);
      FlatMapJoin(f, b[..j], b[j + 1..]);
      FlatMapJoin(f, b[..j], [x]);
      FlatMapJoin(f, b[..j] + [x], b[j + 1..]);
    }
  }
}
