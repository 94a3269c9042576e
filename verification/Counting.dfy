/** Counting list elements by their keys: what survives reordering, and what two lists share. */
module Counting {
  import opened Seqs

  function Mapped<A, B>(s: seq<A>, f: A -> B): (r: seq<B>)
    ensures |r| == |s| && forall i :: 0 <= i < |s| ==> r[i] == f(s[i])
  {
    seq(|s|, i requires 0 <= i < |s| => f(s[i]))
  }

  function CountIf<A>(s: seq<A>, p: A -> bool): (n: nat)
    ensures n <= |s|
  {
    if s == [] then 0 else CountIf(s[..|s| - 1], p) + if p(s[|s| - 1]) then 1 else 0
  }

  lemma {:induction false} CountAppend<A>(s: seq<A>, t: seq<A>, p: A -> bool)
    ensures CountIf(s + t, p) == CountIf(s, p) + CountIf(t, p)
  {
    if t == [] {
      assert s + t == s;
    } else {
      assert (s + t)[..|s + t| - 1] == s + t[..|t| - 1];
      CountAppend(s, t[..|t| - 1], p);
    }
  }

  lemma {:induction false} CountSame<A, B>(s: seq<A>, t: seq<B>, p: A -> bool, q: B -> bool)
    requires |s| == |t| && forall i :: 0 <= i < |s| ==> p(s[i]) == q(t[i])
    ensures CountIf(s, p) == CountIf(t, q)
  {
    if s != [] {
      CountSame(s[..|s| - 1], t[..|t| - 1], p, q);
    }
  }

  lemma CountRemoved<A>(t: seq<A>, i: nat, p: A -> bool)
    requires i < |t|
    ensures CountIf(t, p) == CountIf(RemoveAt(t, i), p) + if p(t[i]) then 1 else 0
  {
    hide CountIf;
    SplitsAt(t, i);
    CountInserted(t[..i], t[i], t[i + 1..], p);
  }

  lemma SplitsAt<A>(t: seq<A>, i: nat)
    requires i < |t|
    ensures t == t[..i] + ([t[i]] + t[i + 1..])
  {
  }

  lemma CountInserted<A>(before: seq<A>, x: A, after: seq<A>, p: A -> bool)
    ensures CountIf(before + ([x] + after), p) == CountIf(before + after, p) + if p(x) then 1 else 0
  {
    hide CountIf;
    CountAppend(before, [x] + after, p);
    CountAppend([x], after, p);
    CountAppend(before, after, p);
    CountOne(x, p);
  }

  lemma CountOne<A>(x: A, p: A -> bool)
    ensures CountIf([x], p) == if p(x) then 1 else 0
  {
    assert [x][..0] == [];
  }

  lemma {:induction false} CountPermuted<A>(s: seq<A>, t: seq<A>, p: A -> bool)
    requires multiset(s) == multiset(t)
    ensures CountIf(s, p) == CountIf(t, p)
    decreases |s|
  {
    SameMembers(s, t);
    if s != [] {
      var x := s[|s| - 1];
      assert x in s;
      var i :| 0 <= i < |t| && t[i] == x;
      CountRemoved(t, i, p);
      RemoveAtMultiset(t, i);
      RemoveAtMultiset(s, |s| - 1);
      assert RemoveAt(s, |s| - 1) == s[..|s| - 1];
      CountPermuted(s[..|s| - 1], RemoveAt(t, i), p);
    }
  }

  /** Two lists whose keys agree as multisets have as many elements with any property of the key. */
  lemma CountTransfer<A, B, K>(s: seq<A>, t: seq<B>, ks: A -> K, kt: B -> K, p: K -> bool, ps: A -> bool, pt: B -> bool)
    requires multiset(Mapped(s, ks)) == multiset(Mapped(t, kt))
    requires forall a :: a in s ==> ps(a) == p(ks(a))
    requires forall b :: b in t ==> pt(b) == p(kt(b))
    ensures CountIf(s, ps) == CountIf(t, pt)
  {
    CountSame(s, Mapped(s, ks), ps, p);
    CountSame(t, Mapped(t, kt), pt, p);
    CountPermuted(Mapped(s, ks), Mapped(t, kt), p);
  }

  lemma MappedRemoved<A, B>(t: seq<A>, i: nat, f: A -> B)
    requires i < |t|
    ensures multiset(Mapped(t, f)) == multiset(Mapped(RemoveAt(t, i), f)) + multiset{f(t[i])}
  {
    var m := Mapped(t, f);
    RemoveAtMultiset(m, i);
    assert RemoveAt(m, i) == Mapped(RemoveAt(t, i), f);
    assert m[i] in multiset(m);
  }

  lemma {:induction false} MappedPermuted<A, B>(s: seq<A>, t: seq<A>, f: A -> B)
    requires multiset(s) == multiset(t)
    ensures multiset(Mapped(s, f)) == multiset(Mapped(t, f))
    decreases |s|
  {
    SameMembers(s, t);
    if s == [] {
      assert Mapped(s, f) == Mapped(t, f);
    } else {
      hide RemoveAt, Mapped;
      var x := s[|s| - 1];
      assert x in s;
      var i :| 0 <= i < |t| && t[i] == x;
      MappedRemoved(t, i, f);
      MappedRemoved(s, |s| - 1, f);
      RemoveMatch(s, t, i);
      MappedPermuted(RemoveAt(s, |s| - 1), RemoveAt(t, i), f);
    }
  }

  lemma RemoveMatch<A>(s: seq<A>, t: seq<A>, i: nat)
    requires multiset(s) == multiset(t) && s != [] && i < |t| && t[i] == s[|s| - 1]
    ensures multiset(RemoveAt(s, |s| - 1)) == multiset(RemoveAt(t, i))
    ensures |RemoveAt(s, |s| - 1)| < |s|
  {
    RemoveAtMultiset(t, i);
    RemoveAtMultiset(s, |s| - 1);
  }

  lemma {:induction false} CountNone<A>(s: seq<A>, p: A -> bool)
    requires forall x :: x in s ==> !p(x)
    ensures CountIf(s, p) == 0
  {
    if s != [] {
      assert s == s[..|s| - 1] + [s[|s| - 1]];
      CountNone(s[..|s| - 1], p);
    }
  }

  /** Three properties of which each element has exactly one split the list. */
  lemma {:induction false} CountPartition<A>(s: seq<A>, p: A -> bool, q: A -> bool, r: A -> bool)
    requires forall x :: x in s ==> (p(x) || q(x) || r(x)) && !(p(x) && q(x)) && !(p(x) && r(x)) && !(q(x) && r(x))
    ensures CountIf(s, p) + CountIf(s, q) + CountIf(s, r) == |s|
  {
    if s != [] {
      assert s == s[..|s| - 1] + [s[|s| - 1]];
      CountPartition(s[..|s| - 1], p, q, r);
    }
  }

  // ----- grouping ---------------------------------------------------------------------------

  /** The elements with a key, in order. */
  function WithKey<A, K(==)>(s: seq<A>, key: A -> K, k: K): seq<A> {
    if s == [] then []
    else WithKey(s[..|s| - 1], key, k) + if key(s[|s| - 1]) == k then [s[|s| - 1]] else []
  }

  lemma {:induction false} WithKeyMembers<A, K>(s: seq<A>, key: A -> K, k: K)
    ensures forall x :: x in WithKey(s, key, k) <==> x in s && key(x) == k
    ensures |WithKey(s, key, k)| == multiset(Mapped(s, key))[k]
  {
    if s != [] {
      var init, x := s[..|s| - 1], s[|s| - 1];
      assert s == init + [x];
      WithKeyMembers(init, key, k);
      assert Mapped(s, key) == Mapped(init, key) + [key(x)];
    }
  }

  lemma WithKeySnoc<A, K>(init: seq<A>, x: A, key: A -> K, k: K)
    ensures WithKey(init + [x], key, k) == WithKey(init, key, k) + if key(x) == k then [x] else []
  {
    assert (init + [x])[..|init|] == init;
  }

  /** A map from each key to its elements, filled element by element. */
  method GroupBy<A, K(==)>(s: seq<A>, key: A -> K) returns (groups: map<K, seq<A>>)
    ensures forall k :: k in groups <==> exists x :: x in s && key(x) == k
    ensures forall k :: k in groups ==> groups[k] == WithKey(s, key, k) && groups[k] != []
  {
    hide WithKey;
    groups := map[];
    for i := 0 to |s|
      invariant forall k :: k in groups <==> exists x :: x in s[..i] && key(x) == k
      invariant forall k :: k in groups ==> groups[k] == WithKey(s[..i], key, k) && groups[k] != []
    {
      var k := key(s[i]);
      assert s[..i + 1] == s[..i] + [s[i]];
      ghost var before := groups;
      if k !in groups {
        WithKeyMembers(s[..i], key, k);
        NoMembers(WithKey(s[..i], key, k));
      }
      var group := if k in groups then groups[k] else [];
      assert group == WithKey(s[..i], key, k);
      groups := groups[k := group + [s[i]]];
      forall k' | k' in groups ensures groups[k'] == WithKey(s[..i + 1], key, k') && groups[k'] != [] {
        WithKeySnoc(s[..i], s[i], key, k');
        if k' != k {
          assert k' in before && groups[k'] == before[k'] == before[k'] + [];
          assert WithKey(s[..i + 1], key, k') == before[k'] + [];
        }
      }
    }
    assert s[..|s|] == s;
  }

  lemma NoMembers<A>(s: seq<A>)
    requires forall x :: x !in s
    ensures s == []
  {
    if s != [] {
      HeadIsMember(s);
    }
  }

  lemma HeadIsMember<A>(s: seq<A>)
    requires s != []
    ensures s[0] in s
  {
  }
}
