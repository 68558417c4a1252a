// Concatenation of the images of a sequence's elements.
module Sequences {

  function FlatMap<A, B>(f: A -> seq<B>, s: seq<A>): seq<B> {
    if s == [] then [] else f(s[0]) + FlatMap(f, s[1..])
  }

  lemma FlatMapNil<A, B>(f: A -> seq<B>)
    ensures FlatMap(f, []) == []
  {
  }

  lemma FlatMapCons<A, B>(f: A -> seq<B>, x: A, s: seq<A>)
    ensures FlatMap(f, [x] + s) == f(x) + FlatMap(f, s)
  {
    assert ([x] + s)[1..] == s;
  }

  lemma FlatMapOne<A, B>(f: A -> seq<B>, x: A)
    ensures FlatMap(f, [x]) == f(x)
  {
    assert [x] == [x] + [];
    FlatMapCons(f, x, []);
  }

  lemma {:induction false} FlatMapConcat<A, B>(f: A -> seq<B>, a: seq<A>, b: seq<A>)
    ensures FlatMap(f, a + b) == FlatMap(f, a) + FlatMap(f, b)
    decreases |a|
  {
    if a == [] {
      assert a + b == b;
    } else {
      hide FlatMap;
      var x, s := a[0], a[1..];
      assert a == [x] + s && a + b == [x] + (s + b);
      FlatMapConcat(f, s, b);
      FlatMapCons(f, x, s);
      FlatMapCons(f, x, s + b);
      assert f(x) + (FlatMap(f, s) + FlatMap(f, b)) == (f(x) + FlatMap(f, s)) + FlatMap(f, b);
    }
  }

  lemma FlatMapSnoc<A, B>(f: A -> seq<B>, s: seq<A>, x: A)
    ensures FlatMap(f, s + [x]) == FlatMap(f, s) + f(x)
  {
    FlatMapConcat(f, s, [x]);
    FlatMapOne(f, x);
  }

  lemma Assoc<T>(a: seq<T>, b: seq<T>, c: seq<T>)
    ensures (a + b) + c == a + (b + c)
  {
  }

  function Same<T>(s: seq<T>): seq<T> {
    s
  }

  function Flatten<T>(ss: seq<seq<T>>): seq<T> {
    FlatMap(Same<T>, ss)
  }

  lemma FlattenCons<T>(s: seq<T>, ss: seq<seq<T>>)
    ensures Flatten([s] + ss) == s + Flatten(ss)
  {
    FlatMapCons(Same<T>, s, ss);
  }

  lemma FlattenConcat<T>(a: seq<seq<T>>, b: seq<seq<T>>)
    ensures Flatten(a + b) == Flatten(a) + Flatten(b)
  {
    FlatMapConcat(Same<T>, a, b);
  }

  lemma FlattenSnoc<T>(ss: seq<seq<T>>, s: seq<T>)
    ensures Flatten(ss + [s]) == Flatten(ss) + s
  {
    FlatMapSnoc(Same<T>, ss, s);
  }

  lemma FlattenOne<T>(s: seq<T>)
    ensures Flatten([s]) == s
  {
    FlatMapOne(Same<T>, s);
  }

  lemma LastSplit<T>(s: seq<T>)
    requires s != []
    ensures s == s[..|s| - 1] + [s[|s| - 1]]
  {
  }
}
