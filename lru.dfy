/** The `lru` crate's `LruCache`, used by the governor and the RAM chunk
    cache, as a value: the entries from least recently used (index 0) to
    most recently used (last), each key at most once. */
module Lru {
  import opened Wrappers

  type Entries<K, V> = seq<(K, V)>

  predicate UniqueKeys<K(==), V>(s: Entries<K, V>) {
    forall i, j :: 0 <= i < j < |s| ==> s[i].0 != s[j].0
  }

  function IndexOf<K(==), V>(s: Entries<K, V>, k: K): (r: Option<nat>)
    ensures r.Some? ==> r.value < |s| && s[r.value].0 == k
    ensures r.None? <==> forall i :: 0 <= i < |s| ==> s[i].0 != k
  {
    if |s| == 0 then None
    else if s[|s| - 1].0 == k then Some(|s| - 1)
    else IndexOf(s[..|s| - 1], k)
  }

  predicate Contains<K(==), V>(s: Entries<K, V>, k: K) {
    IndexOf(s, k).Some?
  }

  /** `peek`: the value, without changing the order. */
  function Peek<K(==), V>(s: Entries<K, V>, k: K): (r: Option<V>)
    ensures r.Some? <==> Contains(s, k)
  {
    match IndexOf(s, k)
    case Some(i) => Some(s[i].1)
    case None => None
  }

  /** `pop(k)`: the order without that key. */
  function Remove<K(==), V(==)>(s: Entries<K, V>, k: K): (r: Entries<K, V>)
    ensures UniqueKeys(s) ==> UniqueKeys(r) && !Contains(r, k)
    ensures Contains(s, k) ==> |r| == |s| - 1
    ensures !Contains(s, k) ==> r == s
    ensures forall i :: 0 <= i < |r| ==> r[i] in s
    ensures forall i :: 0 <= i < |s| && s[i].0 != k ==> s[i] in r
  {
    match IndexOf(s, k)
    case Some(i) =>
      var r := s[..i] + s[i + 1..];
      assert forall j :: 0 <= j < |s| && j != i ==> s[j] in r by {
        forall j | 0 <= j < |s| && j != i
          ensures s[j] in r
        {
          if j < i { assert s[j] == r[j]; } else { assert s[j] == r[j - 1]; }
        }
      }
      r
    case None => s
  }

  /** `get(k)`: the entry moves to the most recently used end. */
  function Promote<K(==), V(==)>(s: Entries<K, V>, k: K): (r: Entries<K, V>)
    requires UniqueKeys(s)
    ensures UniqueKeys(r) && |r| == |s|
    ensures Contains(s, k) ==> r == Remove(s, k) + [(k, Peek(s, k).value)]
    ensures !Contains(s, k) ==> r == s
  {
    match IndexOf(s, k)
    case Some(i) => Remove(s, k) + [(k, s[i].1)]
    case None => s
  }

  /** `put(k, v)` on a cache of `cap` entries: an existing key is updated
      and promoted; a new key is added as most recently used, first
      dropping the least recently used entry when the cache is full. */
  function Put<K(==), V(==)>(s: Entries<K, V>, k: K, v: V, cap: nat): (r: Entries<K, V>)
    requires UniqueKeys(s) && 0 < cap && |s| <= cap
    ensures UniqueKeys(r) && 0 < |r| <= cap
    ensures r[|r| - 1] == (k, v)
    ensures Contains(s, k) ==> r == Remove(s, k) + [(k, v)]
    ensures !Contains(s, k) && |s| < cap ==> r == s + [(k, v)]
    ensures !Contains(s, k) && |s| == cap ==> r == s[1..] + [(k, v)]
  {
    if Contains(s, k) then Remove(s, k) + [(k, v)]
    else if |s| == cap then s[1..] + [(k, v)]
    else s + [(k, v)]
  }

  /** With unique keys, the position holding a key is where `IndexOf` finds it. */
  lemma IndexOfUnique<K, V>(s: Entries<K, V>, k: K, j: nat)
    requires UniqueKeys(s) && j < |s| && s[j].0 == k
    ensures IndexOf(s, k) == Some(j)
  {
  }

  /** After `put`, `peek` of that key gives the new value, and other keys
      keep their value unless theirs was the entry dropped for room. */
  lemma PutThenPeek<K, V>(s: Entries<K, V>, k: K, v: V, cap: nat, other: K)
    requires UniqueKeys(s) && 0 < cap && |s| <= cap
    ensures Peek(Put(s, k, v, cap), k) == Some(v)
    ensures other != k && Contains(s, other) && !(|s| == cap && !Contains(s, k) && s[0].0 == other) ==>
              Peek(Put(s, k, v, cap), other) == Peek(s, other)
  {
    var r := Put(s, k, v, cap);
    IndexOfUnique(r, k, |r| - 1);
    if other != k && Contains(s, other) && !(|s| == cap && !Contains(s, k) && s[0].0 == other) {
      PutKeepsOther(s, k, v, cap, other);
    }
  }

  lemma PutKeepsOther<K, V>(s: Entries<K, V>, k: K, v: V, cap: nat, other: K)
    requires UniqueKeys(s) && 0 < cap && |s| <= cap
    requires other != k && Contains(s, other) && !(|s| == cap && !Contains(s, k) && s[0].0 == other)
    ensures Peek(Put(s, k, v, cap), other) == Peek(s, other)
  {
    var r := Put(s, k, v, cap);
    var i := IndexOf(s, other).value;
    var x := s[i];
    assert x in r by {
      if Contains(s, k) {
        assert x in Remove(s, k);
      } else if |s| == cap {
        assert i > 0;
        assert x == s[1..][i - 1];
      }
    }
    var j :| 0 <= j < |r| && r[j] == x;
    IndexOfUnique(r, other, j);
    assert Peek(s, other) == Some(x.1);
  }

  /** `pop_lru`. */
  function PopLru<K(==), V>(s: Entries<K, V>): (r: (Entries<K, V>, Option<(K, V)>))
    ensures |s| == 0 ==> r == (s, None)
    ensures |s| > 0 ==> r == (s[1..], Some(s[0]))
  {
    if |s| == 0 then (s, None) else (s[1..], Some(s[0]))
  }

  lemma {:induction false} IndexOfCons<K, V>(x: (K, V), t: Entries<K, V>, k: K)
    ensures IndexOf([x] + t, k) == (match IndexOf(t, k)
                                    case Some(i) => Some(i + 1)
                                    case None => if x.0 == k then Some(0) else None)
    decreases |t|
  {
    var s := [x] + t;
    if |t| == 0 {
      assert s[..0] == [];
    } else {
      assert s[|s| - 1] == t[|t| - 1];
      if t[|t| - 1].0 != k {
        assert s[..|s| - 1] == [x] + t[..|t| - 1];
        IndexOfCons(x, t[..|t| - 1], k);
      }
    }
  }

  /** `pop(k)` seen from the least recently used end. */
  lemma RemoveCons<K, V>(x: (K, V), t: Entries<K, V>, k: K)
    requires UniqueKeys([x] + t)
    ensures Remove([x] + t, k) == if x.0 == k then t else [x] + Remove(t, k)
  {
    var s := [x] + t;
    IndexOfCons(x, t, k);
    if x.0 == k {
      assert forall j :: 0 <= j < |t| ==> t[j].0 != k by {
        forall j | 0 <= j < |t| ensures t[j].0 != k { assert s[0].0 != s[j + 1].0; }
      }
      assert s[1..] == t;
    } else {
      match IndexOf(t, k)
      case Some(i) =>
        assert s[..i + 1] + s[i + 2..] == [x] + (t[..i] + t[i + 1..]);
      case None =>
    }
  }

  /** The entries whose key is not in `ks`, in their order. */
  function DropKeys<K(==), V>(s: Entries<K, V>, ks: set<K>): (r: Entries<K, V>)
    ensures |r| <= |s|
    ensures forall i :: 0 <= i < |r| ==> r[i] in s && r[i].0 !in ks
    ensures forall i :: 0 <= i < |s| && s[i].0 !in ks ==> s[i] in r
  {
    if |s| == 0 then []
    else if s[0].0 in ks then DropKeys(s[1..], ks)
    else [s[0]] + DropKeys(s[1..], ks)
  }

  lemma {:induction false} DropKeysUnique<K, V>(s: Entries<K, V>, ks: set<K>)
    requires UniqueKeys(s)
    ensures UniqueKeys(DropKeys(s, ks))
    decreases |s|
  {
    if |s| > 0 {
      DropKeysUnique(s[1..], ks);
      var t := DropKeys(s[1..], ks);
      if s[0].0 !in ks {
        forall j | 0 <= j < |t| ensures s[0].0 != t[j].0 {
          assert t[j] in s[1..];
          var m :| 0 <= m < |s[1..]| && s[1..][m] == t[j];
          assert s[0].0 != s[m + 1].0;
        }
      }
    }
  }

  lemma RemoveKeptHead<K, V>(s: Entries<K, V>, ks: set<K>, k: K)
    requires UniqueKeys(s) && |s| > 0 && s[0].0 !in ks && s[0].0 != k
    requires Remove(DropKeys(s[1..], ks), k) == DropKeys(s[1..], ks + {k})
    ensures Remove(DropKeys(s, ks), k) == DropKeys(s, ks + {k})
  {
    var t := DropKeys(s[1..], ks);
    assert DropKeys(s, ks) == [s[0]] + t;
    DropKeysUnique(s, ks);
    RemoveCons(s[0], t, k);
  }

  lemma HeadKeyNotInTail<K, V>(s: Entries<K, V>, ks: set<K>)
    requires UniqueKeys(s) && |s| > 0
    ensures !Contains(DropKeys(s[1..], ks), s[0].0)
  {
    var t := DropKeys(s[1..], ks);
    forall j | 0 <= j < |t| ensures t[j].0 != s[0].0 {
      assert t[j] in s[1..];
      var m :| 0 <= m < |s[1..]| && s[1..][m] == t[j];
      assert s[0].0 != s[m + 1].0;
    }
  }

  lemma RemoveDroppedHead<K, V>(s: Entries<K, V>, ks: set<K>, k: K)
    requires UniqueKeys(s) && |s| > 0 && s[0].0 !in ks && s[0].0 == k
    requires Remove(DropKeys(s[1..], ks), k) == DropKeys(s[1..], ks + {k})
    ensures Remove(DropKeys(s, ks), k) == DropKeys(s, ks + {k})
  {
    var t := DropKeys(s[1..], ks);
    assert DropKeys(s, ks) == [s[0]] + t;
    DropKeysUnique(s, ks);
    RemoveCons(s[0], t, k);
    HeadKeyNotInTail(s, ks);
    assert Remove(t, k) == t;
    assert DropKeys(s, ks + {k}) == DropKeys(s[1..], ks + {k});
  }

  /** Popping one more key from what is left drops that key too. */
  lemma {:induction false} RemoveDropKeys<K, V>(s: Entries<K, V>, ks: set<K>, k: K)
    requires UniqueKeys(s)
    ensures Remove(DropKeys(s, ks), k) == DropKeys(s, ks + {k})
    decreases |s|
  {
    if |s| > 0 {
      RemoveDropKeys(s[1..], ks, k);
      if s[0].0 !in ks && s[0].0 != k {
        RemoveKeptHead(s, ks, k);
      } else if s[0].0 !in ks {
        RemoveDroppedHead(s, ks, k);
      }
    }
  }
}
