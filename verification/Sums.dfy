/** Weighted sums over finite maps and over duplicate-free lists of their keys. */
module Sums {

  ghost function Sum<V>(m: map<nat, V>, w: V -> nat): nat {
    if m == map[] then 0 else
    var k :| k in m;
    w(m[k]) + Sum(m - {k}, w)
  }

  lemma {:induction false} SumRemove<V>(m: map<nat, V>, w: V -> nat, k: nat)
    requires k in m
    ensures Sum(m, w) == w(m[k]) + Sum(m - {k}, w)
    decreases |m|
  {
    var j :| j in m && Sum(m, w) == w(m[j]) + Sum(m - {j}, w);
    if j != k {
      SumRemove(m - {j}, w, k);
      SumRemove(m - {k}, w, j);
      assert m - {j} - {k} == m - {k} - {j};
    }
  }

  lemma SumInsert<V>(m: map<nat, V>, w: V -> nat, k: nat, v: V)
    requires k !in m
    ensures Sum(m[k := v], w) == Sum(m, w) + w(v)
  {
    SumRemove(m[k := v], w, k);
    assert m[k := v] - {k} == m;
  }

  lemma SumUpdate<V>(m: map<nat, V>, w: V -> nat, k: nat, v: V)
    requires k in m
    ensures Sum(m[k := v], w) + w(m[k]) == Sum(m, w) + w(v)
  {
    SumRemove(m, w, k);
    SumRemove(m[k := v], w, k);
    assert m[k := v] - {k} == m - {k};
  }

  predicate NoDup(s: seq<nat>) {
    s == [] || (s[0] !in s[1..] && NoDup(s[1..]))
  }

  lemma NoDupCons(x: nat, s: seq<nat>)
    requires x !in s && NoDup(s)
    ensures NoDup([x] + s) && forall a :: a in [x] + s <==> a == x || a in s
  {
    assert ([x] + s)[1..] == s;
  }

  lemma {:induction false} NoDupPair(s: seq<nat>, i: nat, j: nat)
    requires NoDup(s) && i < j < |s|
    ensures s[i] != s[j]
  {
    if i > 0 {
      NoDupPair(s[1..], i - 1, j - 1);
    } else {
      assert s[j] == s[1..][j - 1];
    }
  }

  function IndexOf(s: seq<nat>, a: nat): (k: nat)
    requires a in s
    ensures k < |s| && s[k] == a
  {
    if s[0] == a then 0 else 1 + IndexOf(s[1..], a)
  }

  function Without(s: seq<nat>, a: nat): seq<nat>
    requires a in s
  {
    var k := IndexOf(s, a);
    s[..k] + s[k + 1..]
  }

  lemma {:induction false} WithoutMembers(s: seq<nat>, a: nat)
    requires a in s && NoDup(s)
    ensures NoDup(Without(s, a))
    ensures forall x :: x in Without(s, a) <==> x in s && x != a
  {
    if s[0] == a {
      assert Without(s, a) == s[1..];
    } else {
      WithoutMembers(s[1..], a);
      assert Without(s, a) == [s[0]] + Without(s[1..], a);
      NoDupCons(s[0], Without(s[1..], a));
    }
  }

  /** The sum over the keys listed in `s`; keys outside `m` weigh nothing. */
  function ListSum<V>(m: map<nat, V>, w: V -> nat, s: seq<nat>): nat {
    if s == [] then 0 else (if s[0] in m then w(m[s[0]]) else 0) + ListSum(m, w, s[1..])
  }

  lemma {:induction false} ListSumSame<V>(m: map<nat, V>, n: map<nat, V>, w: V -> nat, s: seq<nat>)
    requires forall a :: a in s ==> a in m && a in n && w(m[a]) == w(n[a])
    ensures ListSum(m, w, s) == ListSum(n, w, s)
  {
    if s != [] {
      assert forall a :: a in s[1..] ==> a in s;
      ListSumSame(m, n, w, s[1..]);
    }
  }

  lemma {:induction false} ListSumWithout<V>(m: map<nat, V>, w: V -> nat, s: seq<nat>, a: nat)
    requires a in s && a in m
    ensures ListSum(m, w, s) == w(m[a]) + ListSum(m, w, Without(s, a))
  {
    if s[0] == a {
      assert Without(s, a) == s[1..];
    } else {
      ListSumWithout(m, w, s[1..], a);
      assert Without(s, a) == [s[0]] + Without(s[1..], a);
    }
  }
}
