/** Sequence helpers shared by the services: the ordering a database applies
    for `orderBy` (a stable sort on an integer key), the de-duplication that a
    `groupBy` or an insertion-ordered JavaScript `Map` performs, and the sum
    of a sequence of integers. */
module Collections {

  predicate SortedDesc<T>(s: seq<T>, key: T -> int) {
    forall i, j :: 0 <= i < j < |s| ==> key(s[i]) >= key(s[j])
  }

  /** Places `x` before the first element whose key is not larger, so that
      among equal keys the inserted element comes first. */
  function InsertDesc<T>(x: T, s: seq<T>, key: T -> int): (r: seq<T>)
    ensures multiset(r) == multiset(s) + multiset{x}
    ensures |r| == |s| + 1
    ensures r[0] == x || (s != [] && r[0] == s[0])
  {
    if s == [] || key(x) >= key(s[0]) then
      [x] + s
    else
      assert s == [s[0]] + s[1..];
      [s[0]] + InsertDesc(x, s[1..], key)
  }

  lemma {:induction false} InsertDescSorted<T>(x: T, s: seq<T>, key: T -> int)
    requires SortedDesc(s, key)
    ensures SortedDesc(InsertDesc(x, s, key), key)
  {
    if s != [] && key(x) < key(s[0]) {
      var rest := InsertDesc(x, s[1..], key);
      InsertDescSorted(x, s[1..], key);
      assert InsertDesc(x, s, key) == [s[0]] + rest;
      ConsSorted(s[0], rest, key);
    }
  }

  lemma ConsSorted<T>(h: T, rest: seq<T>, key: T -> int)
    requires SortedDesc(rest, key) && (rest != [] ==> key(rest[0]) <= key(h))
    ensures SortedDesc([h] + rest, key)
  {
    var r := [h] + rest;
    forall i, j | 0 <= i < j < |r| ensures key(r[i]) >= key(r[j]) {
      assert r[j] == rest[j - 1];
      if i > 0 {
        assert r[i] == rest[i - 1];
      }
    }
  }

  /** Stable insertion sort, largest key first: the order a database returns
      for `orderBy: { <key>: 'desc' }`, with ties left in table order. */
  function SortDesc<T>(s: seq<T>, key: T -> int): (r: seq<T>)
    ensures SortedDesc(r, key)
    ensures multiset(r) == multiset(s)
    ensures |r| == |s|
  {
    if s == [] then []
    else
      assert s == [s[0]] + s[1..];
      var rest := SortDesc(s[1..], key);
      InsertDescSorted(s[0], rest, key);
      InsertDesc(s[0], rest, key)
  }

  predicate Distinct<T(==)>(s: seq<T>) {
    forall i, j :: 0 <= i < j < |s| ==> s[i] != s[j]
  }

  /** `skip: offset, take: limit`: the elements of `s` from position `offset`,
      at most `limit` of them. */
  function Window<T>(s: seq<T>, offset: nat, limit: nat): (r: seq<T>)
    ensures |r| == if offset >= |s| then 0 else if offset + limit <= |s| then limit else |s| - offset
    ensures forall i :: 0 <= i < |r| ==> r[i] == s[offset + i]
  {
    if offset >= |s| then []
    else if offset + limit <= |s| then s[offset..offset + limit]
    else s[offset..]
  }

  /** Index of the first occurrence of `x`. */
  function IndexOf<T(==)>(s: seq<T>, x: T): (i: nat)
    requires x in s
    ensures i < |s| && s[i] == x
    ensures forall k :: 0 <= k < i ==> s[k] != x
  {
    if s[0] == x then 0 else 1 + IndexOf(s[1..], x)
  }

  /** The distinct elements of `s`, each where it is first met. */
  function FirstOccurrences<T(==)>(s: seq<T>): (r: seq<T>)
    ensures Distinct(r)
    ensures forall i :: 0 <= i < |r| ==> r[i] in s
    ensures forall i :: 0 <= i < |s| ==> s[i] in r
    ensures |r| <= |s|
  {
    if s == [] then []
    else
      var p := FirstOccurrences(s[..|s| - 1]);
      var x := s[|s| - 1];
      assert forall i :: 0 <= i < |s| - 1 ==> s[i] == s[..|s| - 1][i];
      if x in p then p else p + [x]
  }

  lemma IndexOfPrefix<T>(s: seq<T>, y: T, x: T)
    requires x in s
    ensures x in s + [y] && IndexOf(s + [y], x) == IndexOf(s, x)
  {
    var i := IndexOf(s, x);
    var t := s + [y];
    assert t[i] == x;
    var j := IndexOf(t, x);
    assert forall k :: 0 <= k < i ==> t[k] == s[k] && t[k] != x;
  }

  /** Every element of `r` occurs in `s`, and `r` lists them in the order in
      which `s` first meets them. */
  ghost predicate InFirstMetOrder<T>(s: seq<T>, r: seq<T>) {
    && (forall i :: 0 <= i < |r| ==> r[i] in s)
    && (forall i, j :: 0 <= i < j < |r| ==> IndexOf(s, r[i]) < IndexOf(s, r[j]))
  }

  lemma {:induction false} FirstOccurrencesOrder<T>(s: seq<T>)
    ensures InFirstMetOrder(s, FirstOccurrences(s))
  {
    if s != [] {
      var q := s[..|s| - 1];
      var x := s[|s| - 1];
      var p := FirstOccurrences(q);
      assert s == q + [x];
      FirstOccurrencesOrder(q);
      forall k | 0 <= k < |p|
        ensures p[k] in s && IndexOf(s, p[k]) == IndexOf(q, p[k]) < |q|
      {
        IndexOfPrefix(q, x, p[k]);
      }
      if x in p {
        assert FirstOccurrences(s) == p;
      } else {
        var r := p + [x];
        assert FirstOccurrences(s) == r;
        assert forall k :: 0 <= k < |q| ==> s[k] == q[k] && s[k] != x;
        assert IndexOf(s, x) == |q|;
        assert forall i :: 0 <= i < |p| ==> r[i] == p[i];
      }
    }
  }

  function Sum(s: seq<int>): int {
    if s == [] then 0 else Sum(s[..|s| - 1]) + s[|s| - 1]
  }

  lemma {:induction false} SumAppend(s: seq<int>, t: seq<int>)
    ensures Sum(s + t) == Sum(s) + Sum(t)
    decreases |t|
  {
    if t != [] {
      var u := s + t;
      assert u[..|u| - 1] == s + t[..|t| - 1];
      SumAppend(s, t[..|t| - 1]);
    } else {
      assert s + t == s;
    }
  }

  /** Replacing one element changes the sum by the difference. */
  lemma {:induction false} SumUpdate(s: seq<int>, k: nat, v: int)
    requires k < |s|
    ensures Sum(s[k := v]) == Sum(s) - s[k] + v
    decreases |s|
  {
    var t := s[k := v];
    if k == |s| - 1 {
      assert t[..|t| - 1] == s[..|s| - 1];
    } else {
      assert t[..|t| - 1] == s[..|s| - 1][k := v];
      SumUpdate(s[..|s| - 1], k, v);
    }
  }

  /** `s.filter(p)`: the elements satisfying `p`, in their original order. */
  function Filter<T>(s: seq<T>, p: T -> bool): (r: seq<T>)
    ensures |r| <= |s|
    ensures forall i :: 0 <= i < |r| ==> p(r[i]) && r[i] in s
    ensures forall i :: 0 <= i < |s| && p(s[i]) ==> s[i] in r
    ensures multiset(r) <= multiset(s)
  {
    if s == [] then []
    else
      var q := Filter(s[..|s| - 1], p);
      var x := s[|s| - 1];
      assert s == s[..|s| - 1] + [x];
      if p(x) then q + [x] else q
  }

  /** A sequence is Distinct exactly when no element occurs twice. */
  lemma {:induction false} DistinctMultiplicity<T>(s: seq<T>)
    ensures Distinct(s) <==> forall i :: 0 <= i < |s| ==> multiset(s)[s[i]] == 1
  {
    if s != [] {
      var q := s[..|s| - 1];
      var x := s[|s| - 1];
      assert s == q + [x];
      DistinctMultiplicity(q);
      if Distinct(s) {
        assert Distinct(q);
        assert x !in q;
        forall i | 0 <= i < |s| ensures multiset(s)[s[i]] == 1 {
          if i < |s| - 1 { assert s[i] == q[i] && s[i] != x; }
        }
      }
      if forall i :: 0 <= i < |s| ==> multiset(s)[s[i]] == 1 {
        forall i | 0 <= i < |q| ensures multiset(q)[q[i]] == 1 {
          assert s[i] == q[i];
          assert multiset(s)[q[i]] == multiset(q)[q[i]] + (if q[i] == x then 1 else 0);
        }
        forall i, j | 0 <= i < j < |s| ensures s[i] != s[j] {
          if j < |s| - 1 {
            assert s[i] == q[i] && s[j] == q[j];
          } else {
            assert multiset(s)[x] == multiset(q)[x] + 1;
            assert s[i] == q[i] && q[i] in multiset(q);
          }
        }
      }
    }
  }

  /** A reordering has the same members. */
  lemma PermutationMembers<T>(s: seq<T>, t: seq<T>)
    requires multiset(s) == multiset(t)
    ensures forall i :: 0 <= i < |t| ==> t[i] in s
    ensures forall i :: 0 <= i < |s| ==> s[i] in t
  {
    assert forall i :: 0 <= i < |t| ==> t[i] in multiset(s);
    assert forall i :: 0 <= i < |s| ==> s[i] in multiset(t);
  }

  /** Reordering keeps a sequence free of repetitions. */
  lemma PermutationKeepsDistinct<T>(s: seq<T>, t: seq<T>)
    requires Distinct(s) && multiset(s) == multiset(t)
    ensures Distinct(t)
  {
    DistinctMultiplicity(s);
    DistinctMultiplicity(t);
    forall i | 0 <= i < |t| ensures multiset(t)[t[i]] == 1 {
      assert t[i] in multiset(s);
      var k :| 0 <= k < |s| && s[k] == t[i];
    }
  }

  lemma FirstOccurrencesSnoc<T>(s: seq<T>, x: T)
    ensures FirstOccurrences(s + [x])
         == if x in s then FirstOccurrences(s) else FirstOccurrences(s) + [x]
  {
    assert (s + [x])[..|s|] == s;
    if x in FirstOccurrences(s) {
      var i :| 0 <= i < |FirstOccurrences(s)| && FirstOccurrences(s)[i] == x;
    }
  }

  /** A longer prefix is the shorter one and the next element. */
  lemma PrefixSnoc<T>(s: seq<T>, i: nat)
    requires i < |s|
    ensures s[..i + 1] == s[..i] + [s[i]]
    ensures s[..i + 1][..i] == s[..i]
  {
  }

  /** FirstOccurrences keeps exactly the elements of `s`. */
  lemma FirstOccurrencesIn<T>(s: seq<T>, x: T)
    ensures x in FirstOccurrences(s) <==> x in s
  {
    if x in s {
      var i :| 0 <= i < |s| && s[i] == x;
    }
    if x in FirstOccurrences(s) {
      var i :| 0 <= i < |FirstOccurrences(s)| && FirstOccurrences(s)[i] == x;
    }
  }

  /** `s.map(f)`. */
  function Image<T, K>(s: seq<T>, f: T -> K): (r: seq<K>)
    ensures |r| == |s|
    ensures forall i :: 0 <= i < |s| ==> r[i] == f(s[i])
  {
    if s == [] then [] else Image(s[..|s| - 1], f) + [f(s[|s| - 1])]
  }

  /** A member of the image is the image of some element. */
  lemma ImageMember<T, K>(s: seq<T>, f: T -> K, y: K) returns (j: nat)
    requires y in Image(s, f)
    ensures j < |s| && f(s[j]) == y
  {
    j :| 0 <= j < |s| && Image(s, f)[j] == y;
  }

  lemma ImageSnoc<T, K>(s: seq<T>, x: T, f: T -> K)
    ensures Image(s + [x], f) == Image(s, f) + [f(x)]
  {
    assert (s + [x])[..|s|] == s;
  }

  /** The elements whose key is `k`, in their original order. */
  function Select<T, K(==)>(s: seq<T>, key: T -> K, k: K): (r: seq<T>)
    ensures |r| <= |s|
    ensures forall i :: 0 <= i < |r| ==> key(r[i]) == k
  {
    if s == [] then []
    else Select(s[..|s| - 1], key, k) + if key(s[|s| - 1]) == k then [s[|s| - 1]] else []
  }

  lemma SelectSnoc<T, K>(s: seq<T>, x: T, key: T -> K, k: K)
    ensures Select(s + [x], key, k) == Select(s, key, k) + if key(x) == k then [x] else []
  {
    assert (s + [x])[..|s|] == s;
  }

  /** No element has key `k`, so none is selected. */
  lemma {:induction false} SelectNone<T, K>(s: seq<T>, key: T -> K, k: K)
    requires forall i :: 0 <= i < |s| ==> key(s[i]) != k
    ensures Select(s, key, k) == []
  {
    if s != [] {
      SelectNone(s[..|s| - 1], key, k);
    }
  }

  /** The sum of `val` over the elements. */
  function Total<T>(s: seq<T>, val: T -> int): int {
    if s == [] then 0 else Total(s[..|s| - 1], val) + val(s[|s| - 1])
  }

  lemma TotalSnoc<T>(s: seq<T>, x: T, val: T -> int)
    ensures Total(s + [x], val) == Total(s, val) + val(x)
  {
    assert (s + [x])[..|s|] == s;
  }

  /** The per-key totals of the keys `ks`, added up. */
  function TotalOver<T, K(==)>(s: seq<T>, key: T -> K, val: T -> int, ks: seq<K>): int {
    if ks == [] then 0
    else TotalOver(s, key, val, ks[..|ks| - 1]) + Total(Select(s, key, ks[|ks| - 1]), val)
  }

  /** One more element adds its value to the total of its own key, if that
      key is listed, and to no other. */
  lemma {:induction false} TotalOverSnoc<T, K>(s: seq<T>, x: T, key: T -> K, val: T -> int, ks: seq<K>)
    requires Distinct(ks)
    ensures TotalOver(s + [x], key, val, ks)
         == TotalOver(s, key, val, ks) + if key(x) in ks then val(x) else 0
  {
    if ks != [] {
      var p, k := ks[..|ks| - 1], ks[|ks| - 1];
      assert ks == p + [k];
      assert Distinct(p);
      assert k !in p;
      TotalOverSnoc(s, x, key, val, p);
      SelectSnoc(s, x, key, k);
      if key(x) == k {
        TotalSnoc(Select(s, key, k), x, val);
      } else {
        assert Select(s, key, k) + [] == Select(s, key, k);
      }
    }
  }

  /** Totals per key, over a repetition-free list holding every key that
      occurs, add up to the grand total. */
  lemma {:induction false} TotalPartition<T, K>(s: seq<T>, key: T -> K, val: T -> int, ks: seq<K>)
    requires Distinct(ks)
    requires forall i :: 0 <= i < |s| ==> key(s[i]) in ks
    ensures TotalOver(s, key, val, ks) == Total(s, val)
  {
    if s == [] {
      EmptyTotalOver(key, val, ks);
    } else {
      var p, x := s[..|s| - 1], s[|s| - 1];
      assert s == p + [x];
      TotalPartition(p, key, val, ks);
      TotalOverSnoc(p, x, key, val, ks);
    }
  }

  lemma {:induction false} EmptyTotalOver<T, K>(key: T -> K, val: T -> int, ks: seq<K>)
    ensures TotalOver([], key, val, ks) == 0
  {
    if ks != [] {
      EmptyTotalOver(key, val, ks[..|ks| - 1]);
    }
  }
}
