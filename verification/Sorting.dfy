/** A stable sort, and when its result does not depend on the order of its input. */
module Sorting {
  import opened Seqs
  import opened Counting

  ghost predicate TotalPreorder<T(!new)>(leq: (T, T) -> bool) {
    && (forall x, y :: leq(x, y) || leq(y, x))
    && (forall x, y, z :: leq(x, y) && leq(y, z) ==> leq(x, z))
  }

  function Insert<T>(x: T, s: seq<T>, leq: (T, T) -> bool): seq<T> {
    if s == [] || leq(x, s[0]) then [x] + s else [s[0]] + Insert(x, s[1..], leq)
  }

  /** Elements the order does not tell apart keep their relative order. */
  function StableSort<T>(s: seq<T>, leq: (T, T) -> bool): seq<T> {
    if s == [] then [] else Insert(s[0], StableSort(s[1..], leq), leq)
  }

  ghost predicate Sorted<T>(s: seq<T>, leq: (T, T) -> bool) {
    forall i, j :: 0 <= i < j < |s| ==> leq(s[i], s[j])
  }

  lemma {:induction false} InsertPermutes<T>(x: T, s: seq<T>, leq: (T, T) -> bool)
    ensures multiset(Insert(x, s, leq)) == multiset{x} + multiset(s)
  {
    if s == [] || leq(x, s[0]) {
    } else {
      InsertPermutes(x, s[1..], leq);
      assert s == [s[0]] + s[1..];
    }
  }

  lemma {:induction false} SortPermutes<T>(s: seq<T>, leq: (T, T) -> bool)
    ensures multiset(StableSort(s, leq)) == multiset(s)
    ensures |StableSort(s, leq)| == |s|
  {
    if s != [] {
      SortPermutes(s[1..], leq);
      InsertPermutes(s[0], StableSort(s[1..], leq), leq);
      assert s == [s[0]] + s[1..];
    }
    assert |StableSort(s, leq)| == |multiset(StableSort(s, leq))|;
  }

  lemma {:induction false} InsertSorts<T(!new)>(x: T, s: seq<T>, leq: (T, T) -> bool)
    requires TotalPreorder(leq) && Sorted(s, leq)
    ensures Sorted(Insert(x, s, leq), leq)
  {
    if s == [] || leq(x, s[0]) {
    } else {
      var t := Insert(x, s[1..], leq);
      InsertSorts(x, s[1..], leq);
      InsertPermutes(x, s[1..], leq);
      forall y | y in t ensures leq(s[0], y) {
        assert y in multiset(t);
        assert y == x || y in multiset(s[1..]);
      }
    }
  }

  lemma {:induction false} SortSorts<T(!new)>(s: seq<T>, leq: (T, T) -> bool)
    requires TotalPreorder(leq)
    ensures Sorted(StableSort(s, leq), leq)
  {
    if s != [] {
      SortSorts(s[1..], leq);
      InsertSorts(s[0], StableSort(s[1..], leq), leq);
    }
  }

  lemma SortMembers<T>(s: seq<T>, leq: (T, T) -> bool)
    ensures forall x :: x in StableSort(s, leq) <==> x in s
  {
    SortPermutes(s, leq);
    SameMembers(s, StableSort(s, leq));
  }

  /** The order tells the elements of `s` apart. */
  ghost predicate Discriminates<T>(s: seq<T>, leq: (T, T) -> bool) {
    forall x, y :: x in s && y in s && leq(x, y) && leq(y, x) ==> x == y
  }

  lemma HeadApart<T>(s: seq<T>)
    requires s != []
    ensures multiset(s[1..]) == multiset(s) - multiset{s[0]}
  {
    assert s == [s[0]] + s[1..];
  }

  lemma {:induction false} SortedUnique<T>(s: seq<T>, t: seq<T>, leq: (T, T) -> bool)
    requires Sorted(s, leq) && Sorted(t, leq) && multiset(s) == multiset(t)
    requires Discriminates(s, leq)
    ensures s == t
  {
    assert |s| == |multiset(s)| == |multiset(t)| == |t|;
    if s != [] {
      assert s[0] in multiset(t) && t[0] in multiset(s);
      var i :| 0 <= i < |s| && s[i] == t[0];
      var j :| 0 <= j < |t| && t[j] == s[0];
      assert i == 0 || leq(s[0], t[0]);
      assert j == 0 || leq(t[0], s[0]);
      HeadApart(s);
      HeadApart(t);
      SortedUnique(s[1..], t[1..], leq);
    }
  }

  lemma SortDetermined<T(!new)>(s: seq<T>, t: seq<T>, leq: (T, T) -> bool)
    requires TotalPreorder(leq) && Discriminates(s, leq) && multiset(t) == multiset(s)
    ensures StableSort(t, leq) == StableSort(s, leq)
  {
    hide StableSort;
    SortPermutes(s, leq);
    SortPermutes(t, leq);
    SortSorts(s, leq);
    SortSorts(t, leq);
    SortMembers(s, leq);
    SortedUnique(StableSort(s, leq), StableSort(t, leq), leq);
  }

  lemma SortTwo<T>(x: T, y: T, rest: seq<T>, leq: (T, T) -> bool)
    ensures StableSort([x, y] + rest, leq) == Insert(x, Insert(y, StableSort(rest, leq), leq), leq)
  {
    assert ([x, y] + rest)[1..] == [y] + rest;
    assert ([y] + rest)[1..] == rest;
  }

  lemma TakeOut<T>(s: seq<T>, x: T) returns (rest: seq<T>)
    requires x in s
    ensures multiset(s) == multiset{x} + multiset(rest)
  {
    var i :| 0 <= i < |s| && s[i] == x;
    RemoveAtMultiset(s, i);
    rest := RemoveAt(s, i);
  }

  lemma Rest<T>(s: seq<T>, x: T, y: T) returns (rest: seq<T>)
    requires x in s && y in s && x != y
    ensures multiset(s) == multiset{x, y} + multiset(rest)
  {
    var withoutX := TakeOut(s, x);
    assert y in multiset(s) && y in multiset(withoutX);
    rest := TakeOut(withoutX, y);
  }

  /** Two elements the order ties come out in the order they went in. */
  lemma {:induction false} SortKeepsTies<T(!new)>(x: T, y: T, s: seq<T>, leq: (T, T) -> bool)
    requires TotalPreorder(leq) && leq(x, y) && leq(y, x) && x != y
    ensures Insert(x, Insert(y, s, leq), leq) != Insert(y, Insert(x, s, leq), leq)
  {
    if s == [] || leq(x, s[0]) {
      assert s == [] || leq(y, s[0]);
      assert Insert(x, Insert(y, s, leq), leq)[0] == x;
      assert Insert(y, Insert(x, s, leq), leq)[0] == y;
    } else {
      SortKeepsTies(x, y, s[1..], leq);
      var a, b := Insert(x, Insert(y, s[1..], leq), leq), Insert(y, Insert(x, s[1..], leq), leq);
      assert Insert(x, Insert(y, s, leq), leq) == [s[0]] + a;
      assert Insert(y, Insert(x, s, leq), leq) == [s[0]] + b;
      assert ([s[0]] + a)[1..] == a && ([s[0]] + b)[1..] == b;
    }
  }

  /** Sorting images hides the order of what they are images of exactly when the sort order tells the images apart. */
  lemma SortHidesMappedOrder<A(!new), B(!new)>(s: seq<A>, f: A -> B, leq: (B, B) -> bool)
    requires TotalPreorder(leq)
    ensures (forall t :: multiset(t) == multiset(s) ==> StableSort(Mapped(t, f), leq) == StableSort(Mapped(s, f), leq)) <==>
            Discriminates(Mapped(s, f), leq)
  {
    hide StableSort, Mapped;
    if Discriminates(Mapped(s, f), leq) {
      forall t: seq<A> | multiset(t) == multiset(s) ensures StableSort(Mapped(t, f), leq) == StableSort(Mapped(s, f), leq) {
        MappedPermuted(t, s, f);
        SortDetermined(Mapped(s, f), Mapped(t, f), leq);
      }
    } else {
      var x, y :| x in Mapped(s, f) && y in Mapped(s, f) && leq(x, y) && leq(y, x) && x != y;
      var a, b := TiedListings(s, f, leq, x, y);
    }
  }

  /** Two listings of the same elements whose sorted images differ. */
  lemma TiedListings<A(!new), B(!new)>(s: seq<A>, f: A -> B, leq: (B, B) -> bool, x: B, y: B) returns (a: seq<A>, b: seq<A>)
    requires TotalPreorder(leq) && x in Mapped(s, f) && y in Mapped(s, f) && leq(x, y) && leq(y, x) && x != y
    ensures multiset(a) == multiset(s) && multiset(b) == multiset(s)
    ensures StableSort(Mapped(a, f), leq) != StableSort(Mapped(b, f), leq)
  {
    hide StableSort, Insert;
    var i :| 0 <= i < |s| && f(s[i]) == x;
    var j :| 0 <= j < |s| && f(s[j]) == y;
    var rest := Rest(s, s[i], s[j]);
    a, b := [s[i], s[j]] + rest, [s[j], s[i]] + rest;
    TiedPair(s[i], s[j], rest, f, leq);
  }

  lemma TiedPair<A, B(!new)>(e: A, e': A, rest: seq<A>, f: A -> B, leq: (B, B) -> bool)
    requires TotalPreorder(leq) && leq(f(e), f(e')) && leq(f(e'), f(e)) && f(e) != f(e')
    ensures StableSort(Mapped([e, e'] + rest, f), leq) != StableSort(Mapped([e', e] + rest, f), leq)
  {
    hide StableSort, Insert;
    var images := Mapped(rest, f);
    assert Mapped([e, e'] + rest, f) == [f(e), f(e')] + images;
    assert Mapped([e', e] + rest, f) == [f(e'), f(e)] + images;
    SortTwo(f(e), f(e'), images, leq);
    SortTwo(f(e'), f(e), images, leq);
    SortKeepsTies(f(e), f(e'), StableSort(images, leq), leq);
  }

  function IntLeq(a: int, b: int): bool { a <= b }
}
