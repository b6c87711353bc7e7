/** Sequence and map helpers shared by the models: filtering, sorting and
    summing over a map. */
module Collections {
  /** The elements of `s` satisfying `p`, in order (Rust's `retain`). */
  function Filter<T>(p: T -> bool, s: seq<T>): (r: seq<T>)
    ensures |r| <= |s|
    ensures forall i :: 0 <= i < |r| ==> r[i] in s && p(r[i])
    ensures forall i :: 0 <= i < |s| && p(s[i]) ==> s[i] in r
    decreases |s|
  {
    if |s| == 0 then []
    else if p(s[0]) then [s[0]] + Filter(p, s[1..])
    else Filter(p, s[1..])
  }

  lemma {:induction false} FilterKeepsAll<T>(p: T -> bool, s: seq<T>)
    requires forall i :: 0 <= i < |s| ==> p(s[i])
    ensures Filter(p, s) == s
    decreases |s|
  {
    if |s| > 0 {
      FilterKeepsAll(p, s[1..]);
    }
  }

  lemma {:induction false} FilterShorter<T>(p: T -> bool, s: seq<T>, i: nat)
    requires i < |s| && !p(s[i])
    ensures |Filter(p, s)| < |s|
    decreases |s|
  {
    if i > 0 {
      FilterShorter(p, s[1..], i - 1);
    }
  }

  lemma {:induction false} FilterAppend<T>(p: T -> bool, a: seq<T>, b: seq<T>)
    ensures Filter(p, a + b) == Filter(p, a) + Filter(p, b)
    decreases |a|
  {
    if |a| == 0 {
      assert a + b == b;
    } else {
      assert (a + b)[1..] == a[1..] + b;
      FilterAppend(p, a[1..], b);
    }
  }

  /** `Vec::remove(i)`. */
  function RemoveAt<T>(s: seq<T>, i: nat): (r: seq<T>)
    requires i < |s|
    ensures |r| == |s| - 1
    ensures forall k :: 0 <= k < i ==> r[k] == s[k]
    ensures forall k :: i <= k < |r| ==> r[k] == s[k + 1]
  {
    s[..i] + s[i + 1..]
  }

  predicate SortedBy<T>(key: T -> int, s: seq<T>) {
    forall i, j :: 0 <= i < j < |s| ==> key(s[i]) <= key(s[j])
  }

  /** Insert `x` after every element whose key is not larger. */
  function InsertBy<T>(key: T -> int, x: T, s: seq<T>): (r: seq<T>)
    ensures multiset(r) == multiset(s) + multiset{x}
    ensures |r| == |s| + 1
  {
    if |s| == 0 then [x]
    else if key(x) < key(s[0]) then [x] + s
    else
      assert s == [s[0]] + s[1..];
      [s[0]] + InsertBy(key, x, s[1..])
  }

  lemma SortedCons<T>(key: T -> int, a: T, rest: seq<T>)
    requires SortedBy(key, rest)
    requires forall k :: 0 <= k < |rest| ==> key(a) <= key(rest[k])
    ensures SortedBy(key, [a] + rest)
  {
    var s := [a] + rest;
    forall i, j | 0 <= i < j < |s| ensures key(s[i]) <= key(s[j]) {
      assert s[j] == rest[j - 1];
      if i > 0 {
        assert s[i] == rest[i - 1];
      }
    }
  }

  lemma {:induction false} InsertBySorted<T>(key: T -> int, x: T, s: seq<T>)
    requires SortedBy(key, s)
    ensures SortedBy(key, InsertBy(key, x, s))
  {
    if |s| == 0 {
    } else if key(x) < key(s[0]) {
      SortedCons(key, x, s);
    } else {
      var rest := InsertBy(key, x, s[1..]);
      InsertBySorted(key, x, s[1..]);
      assert s == [s[0]] + s[1..];
      forall k | 0 <= k < |rest|
        ensures key(s[0]) <= key(rest[k])
      {
        assert rest[k] in multiset(rest);
        assert rest[k] == x || rest[k] in multiset(s[1..]);
        if rest[k] != x {
          var j :| 0 <= j < |s[1..]| && s[1..][j] == rest[k];
          assert s[j + 1] == rest[k];
        }
      }
      SortedCons(key, s[0], rest);
    }
  }

  /** A stable sort by `key` (`sort_by_key`). */
  function SortBy<T>(key: T -> int, s: seq<T>): (r: seq<T>)
    ensures SortedBy(key, r)
    ensures multiset(r) == multiset(s)
    ensures |r| == |s|
  {
    if |s| == 0 then []
    else
      assert s == s[..|s| - 1] + [s[|s| - 1]];
      InsertBySorted(key, s[|s| - 1], SortBy(key, s[..|s| - 1]));
      InsertBy(key, s[|s| - 1], SortBy(key, s[..|s| - 1]))
  }

  ghost function PickKey<K, V>(m: map<K, V>): (k: K)
    requires |m.Keys| > 0
    ensures k in m.Keys
  {
    var k :| k in m.Keys; k
  }

  lemma RemoveShrinks<K, V>(m: map<K, V>, k: K)
    requires k in m.Keys
    ensures (m - {k}).Keys == m.Keys - {k}
    ensures |(m - {k}).Keys| == |m.Keys| - 1
  {
    assert m.Keys == (m - {k}).Keys + {k};
  }

  /** The sum of `f` over the values of a map. */
  ghost function SumOver<K, V>(m: map<K, V>, f: V -> nat): nat
    decreases |m.Keys|
  {
    if |m.Keys| == 0 then 0
    else
      var k := PickKey(m);
      RemoveShrinks(m, k);
      f(m[k]) + SumOver(m - {k}, f)
  }

  /** The sum does not depend on which key is taken first. */
  lemma {:induction false} SumOverRemove<K, V>(m: map<K, V>, f: V -> nat, k: K)
    requires k in m.Keys
    ensures SumOver(m, f) == f(m[k]) + SumOver(m - {k}, f)
    decreases |m.Keys|
  {
    var j := PickKey(m);
    if j != k {
      RemoveShrinks(m, j);
      RemoveShrinks(m, k);
      SumOverRemove(m - {j}, f, k);
      SumOverRemove(m - {k}, f, j);
      assert m - {j} - {k} == m - {k} - {j};
    }
  }

  /** Replacing one value changes the sum by the difference. */
  lemma SumOverUpdate<K, V>(m: map<K, V>, f: V -> nat, k: K, v: V)
    ensures SumOver(m[k := v], f) + (if k in m then f(m[k]) else 0) == SumOver(m, f) + f(v)
  {
    SumOverWithout(m[k := v], f, k);
    SumOverWithout(m, f, k);
    assert m[k := v] - {k} == m - {k};
  }

  /** The sum splits into the value at `k`, if any, and the rest. */
  lemma SumOverWithout<K, V>(m: map<K, V>, f: V -> nat, k: K)
    ensures SumOver(m, f) == (if k in m then f(m[k]) else 0) + SumOver(m - {k}, f)
  {
    if k in m {
      SumOverRemove(m, f, k);
    } else {
      assert m - {k} == m;
    }
  }

  /** The entries of `m` whose key is in `ks`. */
  function Restrict<K, V>(m: map<K, V>, ks: set<K>): (r: map<K, V>)
    ensures r.Keys == m.Keys * ks
    ensures forall k :: k in r ==> r[k] == m[k]
  {
    map k | k in m && k in ks :: m[k]
  }

  lemma SumOverRestrictAdd<K, V>(m: map<K, V>, f: V -> nat, ks: set<K>, k: K)
    requires k in m && k !in ks
    ensures SumOver(Restrict(m, ks + {k}), f) == SumOver(Restrict(m, ks), f) + f(m[k])
  {
    SumOverRemove(Restrict(m, ks + {k}), f, k);
    assert Restrict(m, ks + {k}) - {k} == Restrict(m, ks);
  }

  lemma SumOverEmpty<K, V>(m: map<K, V>, f: V -> nat)
    requires |m.Keys| == 0
    ensures SumOver(m, f) == 0
  {
  }

  /** A subset is no larger than its superset. */
  lemma SubsetCard<K>(a: set<K>, b: set<K>)
    requires a <= b
    ensures |a| <= |b|
  {
    assert b == a + (b - a);
  }

  /** A non-empty sequence is its front followed by its last element. */
  lemma InitLast<T>(s: seq<T>)
    requires s != []
    ensures s == s[..|s| - 1] + [s[|s| - 1]]
  {
  }

  /** No element occurs twice. */
  ghost predicate Distinct<T>(s: seq<T>) {
    forall i, j :: 0 <= i < j < |s| ==> s[i] != s[j]
  }

  /** An element of a sequence without repeats occurs in it at most once. */
  lemma {:induction false} DistinctCount<T>(s: seq<T>, x: T)
    requires Distinct(s)
    ensures multiset(s)[x] <= 1
  {
    if s != [] {
      assert s == [s[0]] + s[1..];
      assert Distinct(s[1..]) by {
        forall i, j | 0 <= i < j < |s[1..]| ensures s[1..][i] != s[1..][j] {
          assert s[1..][i] == s[i + 1] && s[1..][j] == s[j + 1];
        }
      }
      DistinctCount(s[1..], x);
      if x == s[0] {
        assert x !in s[1..];
      }
    }
  }

  /** An element at two positions occurs at least twice. */
  lemma RepeatCount<T>(s: seq<T>, i: nat, j: nat)
    requires i < j < |s| && s[i] == s[j]
    ensures multiset(s)[s[i]] >= 2
  {
    assert s == s[..i] + [s[i]] + s[i + 1..];
    assert s[i + 1..][j - i - 1] == s[j];
  }

  /** Reordering a sequence without repeats gives a sequence without repeats. */
  lemma PermutationDistinct<T>(a: seq<T>, b: seq<T>)
    requires multiset(a) == multiset(b) && Distinct(b)
    ensures Distinct(a)
  {
    forall i, j | 0 <= i < j < |a| ensures a[i] != a[j] {
      if a[i] == a[j] {
        RepeatCount(a, i, j);
        DistinctCount(b, a[i]);
      }
    }
  }
}
