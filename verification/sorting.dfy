/**
 * Array.prototype.sort with a comparator, as the pages use it. The
 * language requires the sort to be stable; for a comparator that is a total
 * preorder a stable sort has exactly one possible result, and the stable
 * insertion sort below computes it.
 */
module Sorting {

  /** The comparator reads "a belongs no later than b" when it returns a
      non-positive number: it is total and transitive. */
  ghost predicate TotalPreorder<T(!new)>(cmp: (T, T) -> int) {
    && (forall a, b :: cmp(a, b) <= 0 || cmp(b, a) <= 0)
    && (forall a, b, c :: cmp(a, b) <= 0 && cmp(b, c) <= 0 ==> cmp(a, c) <= 0)
  }

  /** Every element comes no later than each one after it. */
  predicate SortedBy<T>(s: seq<T>, cmp: (T, T) -> int) {
    forall i, j :: 0 <= i < j < |s| ==> cmp(s[i], s[j]) <= 0
  }

  /** Places x in front of the first element it may precede, so that x stays
      ahead of every element that compares equal to it. */
  function InsertBy<T>(x: T, s: seq<T>, cmp: (T, T) -> int): (r: seq<T>)
    ensures |r| == |s| + 1
    ensures multiset(r) == multiset(s) + multiset{x}
  {
    if s == [] then [x]
    else if cmp(x, s[0]) <= 0 then [x] + s
    else
      assert s == [s[0]] + s[1..];
      [s[0]] + InsertBy(x, s[1..], cmp)
  }

  /** The stable sort: the permutation of s that keeps equal elements in
      their input order. */
  function SortBy<T>(s: seq<T>, cmp: (T, T) -> int): (r: seq<T>)
    ensures |r| == |s|
    ensures multiset(r) == multiset(s)
  {
    if s == [] then []
    else
      assert s == [s[0]] + s[1..];
      InsertBy(s[0], SortBy(s[1..], cmp), cmp)
  }

  /** y may precede every element of s. */
  predicate Precedes<T>(y: T, s: seq<T>, cmp: (T, T) -> int) {
    forall k :: 0 <= k < |s| ==> cmp(y, s[k]) <= 0
  }

  lemma PrecedesPerm<T>(y: T, s: seq<T>, t: seq<T>, cmp: (T, T) -> int)
    requires Precedes(y, s, cmp) && multiset(t) <= multiset(s)
    ensures Precedes(y, t, cmp)
  {
    forall k | 0 <= k < |t| ensures cmp(y, t[k]) <= 0 {
      assert t[k] in multiset(s);
      var i :| 0 <= i < |s| && s[i] == t[k];
    }
  }

  /** A sequence is sorted when its head precedes its tail and the tail is sorted. */
  lemma SortedCons<T>(y: T, s: seq<T>, cmp: (T, T) -> int)
    requires Precedes(y, s, cmp) && SortedBy(s, cmp)
    ensures SortedBy([y] + s, cmp)
  {
    var r := [y] + s;
    forall i, j | 0 <= i < j < |r| ensures cmp(r[i], r[j]) <= 0 {
      if i == 0 {
        assert r[j] == s[j - 1];
      } else {
        assert r[i] == s[i - 1] && r[j] == s[j - 1];
      }
    }
  }

  lemma SortedTail<T>(s: seq<T>, cmp: (T, T) -> int)
    requires s != [] && SortedBy(s, cmp)
    ensures Precedes(s[0], s[1..], cmp) && SortedBy(s[1..], cmp)
  {
    forall i, j | 0 <= i < j < |s[1..]| ensures cmp(s[1..][i], s[1..][j]) <= 0 {
      assert s[1..][i] == s[i + 1] && s[1..][j] == s[j + 1];
    }
    forall k | 0 <= k < |s[1..]| ensures cmp(s[0], s[1..][k]) <= 0 {
      assert s[1..][k] == s[k + 1];
    }
  }

  lemma PrecedesByTransitivity<T(!new)>(x: T, s: seq<T>, cmp: (T, T) -> int)
    requires TotalPreorder(cmp) && s != [] && SortedBy(s, cmp) && cmp(x, s[0]) <= 0
    ensures Precedes(x, s, cmp)
  {
    forall k | 0 <= k < |s| ensures cmp(x, s[k]) <= 0 {
      if k > 0 {
        assert cmp(s[0], s[k]) <= 0;
      }
    }
  }

  lemma {:induction false} InsertBySorted<T(!new)>(x: T, s: seq<T>, cmp: (T, T) -> int)
    requires TotalPreorder(cmp) && SortedBy(s, cmp)
    ensures SortedBy(InsertBy(x, s, cmp), cmp)
  {
    if s == [] {
    } else if cmp(x, s[0]) <= 0 {
      PrecedesByTransitivity(x, s, cmp);
      SortedCons(x, s, cmp);
    } else {
      SortedTail(s, cmp);
      var t := InsertBy(x, s[1..], cmp);
      InsertBySorted(x, s[1..], cmp);
      assert cmp(s[0], x) <= 0;
      assert Precedes(s[0], s[1..] + [x], cmp);
      assert multiset(s[1..] + [x]) == multiset(s[1..]) + multiset{x};
      PrecedesPerm(s[0], s[1..] + [x], t, cmp);
      SortedCons(s[0], t, cmp);
    }
  }

  /** For a total preorder, the sort's result is ordered and is a permutation
      of its input. */
  lemma {:induction false} SortBySorted<T(!new)>(s: seq<T>, cmp: (T, T) -> int)
    requires TotalPreorder(cmp)
    ensures SortedBy(SortBy(s, cmp), cmp)
    ensures multiset(SortBy(s, cmp)) == multiset(s)
  {
    if s != [] {
      SortBySorted(s[1..], cmp);
      InsertBySorted(s[0], SortBy(s[1..], cmp), cmp);
    }
  }

  /** y and z are tied: each may precede the other. */
  predicate Tied<T>(y: T, z: T, cmp: (T, T) -> int) {
    cmp(y, z) <= 0 && cmp(z, y) <= 0
  }

  /** The elements of s tied with z, in their order in s. */
  function TiesWith<T>(s: seq<T>, z: T, cmp: (T, T) -> int): (r: seq<T>)
    ensures forall k :: 0 <= k < |r| ==> Tied(r[k], z, cmp)
  {
    if s == [] then []
    else (if Tied(s[0], z, cmp) then [s[0]] else []) + TiesWith(s[1..], z, cmp)
  }

  lemma TiesWithCons<T>(y: T, s: seq<T>, z: T, cmp: (T, T) -> int)
    ensures TiesWith([y] + s, z, cmp) == (if Tied(y, z, cmp) then [y] else []) + TiesWith(s, z, cmp)
  {
    assert ([y] + s)[1..] == s;
  }

  lemma {:induction false} InsertByTies<T(!new)>(x: T, t: seq<T>, z: T, cmp: (T, T) -> int)
    requires TotalPreorder(cmp)
    ensures TiesWith(InsertBy(x, t, cmp), z, cmp)
         == (if Tied(x, z, cmp) then [x] else []) + TiesWith(t, z, cmp)
  {
    if t == [] {
    } else if cmp(x, t[0]) <= 0 {
      TiesWithCons(x, t, z, cmp);
    } else {
      var rest := InsertBy(x, t[1..], cmp);
      assert InsertBy(x, t, cmp) == [t[0]] + rest;
      InsertByTies(x, t[1..], z, cmp);
      NotBothTied(x, t[0], z, cmp);
      TiesSwap(x, t[0], rest, TiesWith(t[1..], z, cmp), z, cmp);
      TiesWithCons(t[0], t[1..], z, cmp);
      assert [t[0]] + t[1..] == t;
    }
  }

  /** Moving x past an element y that is not tied with z alongside it keeps
      the elements tied with z in the same order. */
  lemma TiesSwap<T>(x: T, y: T, rest: seq<T>, ts: seq<T>, z: T, cmp: (T, T) -> int)
    requires !(Tied(x, z, cmp) && Tied(y, z, cmp))
    requires TiesWith(rest, z, cmp) == (if Tied(x, z, cmp) then [x] else []) + ts
    ensures TiesWith([y] + rest, z, cmp)
         == (if Tied(x, z, cmp) then [x] else []) + ((if Tied(y, z, cmp) then [y] else []) + ts)
  {
    TiesWithCons(y, rest, z, cmp);
    var tx := if Tied(x, z, cmp) then [x] else [];
    var ty := if Tied(y, z, cmp) then [y] else [];
    if tx == [] {
      assert tx + ts == ts && tx + (ty + ts) == ty + ts;
    } else {
      assert ty == [];
      assert ty + (tx + ts) == tx + ts && ty + ts == ts;
    }
  }

  /** Two elements the comparator keeps apart are not both tied with a third. */
  lemma NotBothTied<T(!new)>(x: T, y: T, z: T, cmp: (T, T) -> int)
    requires TotalPreorder(cmp) && cmp(x, y) > 0
    ensures !(Tied(x, z, cmp) && Tied(y, z, cmp))
  {
  }

  /** Stability: the sort keeps every group of tied elements in input order. */
  lemma {:induction false} SortByStable<T(!new)>(s: seq<T>, z: T, cmp: (T, T) -> int)
    requires TotalPreorder(cmp)
    ensures TiesWith(SortBy(s, cmp), z, cmp) == TiesWith(s, z, cmp)
  {
    if s != [] {
      SortByStable(s[1..], z, cmp);
      InsertByTies(s[0], SortBy(s[1..], cmp), z, cmp);
    }
  }

  // ---------------------------------------------------------------------
  // Uniqueness: every stable sort returns SortBy's list

  /** The heads of two sorted lists with the same elements are tied. */
  lemma HeadsTied<T(!new)>(t: seq<T>, u: seq<T>, cmp: (T, T) -> int)
    requires TotalPreorder(cmp) && t != [] && multiset(t) == multiset(u)
    requires SortedBy(t, cmp) && SortedBy(u, cmp)
    ensures u != [] && Tied(t[0], u[0], cmp)
  {
    assert t[0] in multiset(u);
    var j :| 0 <= j < |u| && u[j] == t[0];
    assert u[0] in multiset(t);
    var i :| 0 <= i < |t| && t[i] == u[0];
    if j > 0 {
      assert cmp(u[0], u[j]) <= 0;
    }
    if i > 0 {
      assert cmp(t[0], t[i]) <= 0;
    }
  }

  /** With equal heads, equal tie groups of the lists give equal tie groups
      of their tails. */
  lemma TailTies<T>(t: seq<T>, u: seq<T>, z: T, cmp: (T, T) -> int)
    requires t != [] && u != [] && t[0] == u[0]
    requires TiesWith(t, z, cmp) == TiesWith(u, z, cmp)
    ensures TiesWith(t[1..], z, cmp) == TiesWith(u[1..], z, cmp)
  {
    var h := if Tied(t[0], z, cmp) then [t[0]] else [];
    assert TiesWith(t, z, cmp) == h + TiesWith(t[1..], z, cmp);
    assert TiesWith(u, z, cmp) == h + TiesWith(u[1..], z, cmp);
    assert TiesWith(t[1..], z, cmp) == TiesWith(t, z, cmp)[|h|..];
  }

  /** Under equal tie groups, the heads of two sorted lists with the same
      elements are the same element. */
  lemma HeadsEqual<T(!new)>(t: seq<T>, u: seq<T>, cmp: (T, T) -> int)
    requires TotalPreorder(cmp) && t != [] && multiset(t) == multiset(u)
    requires SortedBy(t, cmp) && SortedBy(u, cmp)
    requires TiesWith(t, t[0], cmp) == TiesWith(u, t[0], cmp)
    ensures u != [] && t[0] == u[0]
  {
    HeadsTied(t, u, cmp);
    var z := t[0];
    assert Tied(z, z, cmp);
    assert TiesWith(t, z, cmp)[0] == t[0];
    assert TiesWith(u, z, cmp)[0] == u[0];
  }

  /** Lists with the same elements and the same head have tails with the
      same elements. */
  lemma TailsSameElements<T>(t: seq<T>, u: seq<T>)
    requires t != [] && u != [] && t[0] == u[0] && multiset(t) == multiset(u)
    ensures multiset(t[1..]) == multiset(u[1..])
  {
    assert t == [t[0]] + t[1..] && u == [u[0]] + u[1..];
    assert multiset(t[1..]) == multiset(t) - multiset{t[0]};
    assert multiset(u[1..]) == multiset(u) - multiset{u[0]};
  }

  /** Two sorted lists with the same elements and the same order within
      every group of tied elements are equal. */
  lemma {:induction false} SortedStableUnique<T(!new)>(t: seq<T>, u: seq<T>, cmp: (T, T) -> int)
    requires TotalPreorder(cmp) && multiset(t) == multiset(u)
    requires SortedBy(t, cmp) && SortedBy(u, cmp)
    requires forall z :: TiesWith(t, z, cmp) == TiesWith(u, z, cmp)
    ensures t == u
  {
    if t == [] {
      assert |u| == |multiset(u)| == 0;
    } else {
      HeadsEqual(t, u, cmp);
      TailsSameElements(t, u);
      SortedTail(t, cmp);
      SortedTail(u, cmp);
      forall y ensures TiesWith(t[1..], y, cmp) == TiesWith(u[1..], y, cmp) {
        TailTies(t, u, y, cmp);
      }
      SortedStableUnique(t[1..], u[1..], cmp);
      assert t == [t[0]] + t[1..] && u == [u[0]] + u[1..];
    }
  }

  /** A sorted permutation of s that keeps every group of tied elements in
      input order is SortBy(s, cmp): all stable sorts agree. */
  lemma StableSortIsUnique<T(!new)>(s: seq<T>, t: seq<T>, cmp: (T, T) -> int)
    requires TotalPreorder(cmp) && multiset(t) == multiset(s) && SortedBy(t, cmp)
    requires forall z :: TiesWith(t, z, cmp) == TiesWith(s, z, cmp)
    ensures t == SortBy(s, cmp)
  {
    SortBySorted(s, cmp);
    forall z ensures TiesWith(SortBy(s, cmp), z, cmp) == TiesWith(s, z, cmp) {
      SortByStable(s, z, cmp);
    }
    SortedStableUnique(t, SortBy(s, cmp), cmp);
  }
}
