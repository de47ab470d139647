/** Insertion-ordered dictionaries, oldest entry first. */
module Ordered {
  import opened Bytes

  type Dict<K, V> = seq<(K, V)>

  predicate Unique<K(==), V>(d: Dict<K, V>) {
    forall i, j | 0 <= i < j < |d| :: d[i].0 != d[j].0
  }

  function Find<K(==), V>(d: Dict<K, V>, k: K): Option<V> {
    if d == [] then None else if d[0].0 == k then Some(d[0].1) else Find(d[1..], k)
  }

  /** `del d[k]`, and no change when the key is absent. */
  function Remove<K(==), V>(d: Dict<K, V>, k: K): Dict<K, V> {
    if d == [] then [] else if d[0].0 == k then Remove(d[1..], k) else [d[0]] + Remove(d[1..], k)
  }

  /** `d[k] = v`: a key that is present keeps its place. */
  function Put<K(==), V>(d: Dict<K, V>, k: K, v: V): Dict<K, V> {
    if d == [] then [(k, v)] else if d[0].0 == k then [(k, v)] + d[1..] else [d[0]] + Put(d[1..], k, v)
  }

  /** `d[k] = v; d.move_to_end(k)`. */
  function Renew<K(==), V>(d: Dict<K, V>, k: K, v: V): Dict<K, V> {
    Remove(d, k) + [(k, v)]
  }

  /** `while len(d) > n: d.popitem(last=False)`. */
  function Newest<K, V>(d: Dict<K, V>, n: nat): Dict<K, V> {
    if |d| <= n then d else d[|d| - n..]
  }

  lemma {:induction false} InRemove<K, V>(d: Dict<K, V>, k: K, e: (K, V))
    ensures e in Remove(d, k) <==> e in d && e.0 != k
  {
    if d != [] {
      InRemove(d[1..], k, e);
      assert d == [d[0]] + d[1..];
    }
  }

  lemma {:induction false} RemoveKeepsUnique<K, V>(d: Dict<K, V>, k: K)
    requires Unique(d)
    ensures Unique(Remove(d, k)) && |Remove(d, k)| <= |d|
  {
    if d != [] {
      var rest := Remove(d[1..], k);
      RemoveKeepsUnique(d[1..], k);
      forall j | 0 <= j < |rest| ensures rest[j].0 != d[0].0 {
        InRemove(d[1..], k, rest[j]);
      }
    }
  }

  lemma InRenew<K, V>(d: Dict<K, V>, k: K, v: V, e: (K, V))
    ensures e in Renew(d, k, v) <==> e == (k, v) || (e in d && e.0 != k)
  {
    InRemove(d, k, e);
  }

  lemma RenewKeepsUnique<K, V>(d: Dict<K, V>, k: K, v: V)
    requires Unique(d)
    ensures Unique(Renew(d, k, v)) && |Renew(d, k, v)| <= |d| + 1
  {
    RemoveKeepsUnique(d, k);
    forall e | e in Remove(d, k) ensures e.0 != k {
      InRemove(d, k, e);
    }
  }

  lemma {:induction false} InPut<K, V>(d: Dict<K, V>, k: K, v: V, e: (K, V))
    ensures e in Put(d, k, v) ==> e == (k, v) || e in d
    ensures (k, v) in Put(d, k, v)
  {
    if d != [] && d[0].0 != k {
      InPut(d[1..], k, v, e);
    }
  }

  lemma {:induction false} FindIsIn<K, V>(d: Dict<K, V>, k: K)
    ensures Find(d, k).Some? ==> (k, Find(d, k).value) in d
    ensures Find(d, k).None? ==> forall e | e in d :: e.0 != k
  {
    if d != [] {
      FindIsIn(d[1..], k);
    }
  }

  lemma {:induction false} InIsFind<K, V>(d: Dict<K, V>, e: (K, V))
    requires Unique(d) && e in d
    ensures Find(d, e.0) == Some(e.1)
  {
    if d[0] != e {
      var i :| 0 <= i < |d| && d[i] == e;
      assert d[1..][i - 1] == e;
      InIsFind(d[1..], e);
    }
  }

  lemma {:induction false} RemoveShortens<K, V>(d: Dict<K, V>, k: K)
    ensures |Remove(d, k)| <= |d|
    ensures Find(d, k).Some? ==> |Remove(d, k)| < |d|
  {
    if d != [] {
      RemoveShortens(d[1..], k);
    }
  }

  /** Removing one key brings no other entry nearer to the front of the queue for eviction. */
  lemma {:induction false} RemoveKeepsRank<K, V>(d: Dict<K, V>, k: K, i: nat) returns (i': nat)
    requires i < |d| && d[i].0 != k
    ensures i' < |Remove(d, k)| && Remove(d, k)[i'] == d[i] && |Remove(d, k)| - i' <= |d| - i
  {
    if i == 0 {
      i' := 0;
      RemoveShortens(d[1..], k);
    } else {
      i' := RemoveKeepsRank(d[1..], k, i - 1);
      if d[0].0 != k {
        i' := i' + 1;
      }
    }
  }

  lemma {:induction false} FindRemove<K, V>(d: Dict<K, V>, k: K, o: K)
    ensures Find(Remove(d, k), o) == if o == k then None else Find(d, o)
  {
    if d != [] {
      FindRemove(d[1..], k, o);
    }
  }

  lemma {:induction false} FindPut<K, V>(d: Dict<K, V>, k: K, v: V, o: K)
    ensures Find(Put(d, k, v), o) == if o == k then Some(v) else Find(d, o)
    ensures |Put(d, k, v)| <= |d| + 1
    ensures Find(d, k).Some? ==> |Put(d, k, v)| == |d|
  {
    if d != [] && d[0].0 != k {
      FindPut(d[1..], k, v, o);
    }
  }

  lemma {:induction false} FindAppend<K, V>(d: Dict<K, V>, k: K, v: V, o: K)
    ensures Find(d + [(k, v)], o) == if Find(d, o).Some? then Find(d, o) else if o == k then Some(v) else None
  {
    if d == [] {
      assert d + [(k, v)] == [(k, v)];
    } else {
      assert (d + [(k, v)])[1..] == d[1..] + [(k, v)];
      FindAppend(d[1..], k, v, o);
    }
  }

  lemma FindRenew<K, V>(d: Dict<K, V>, k: K, v: V, o: K)
    ensures Find(Renew(d, k, v), o) == if o == k then Some(v) else Find(d, o)
  {
    FindRemove(d, k, o);
    FindAppend(Remove(d, k), k, v, o);
  }

  lemma {:induction false} FindDropped<K, V>(d: Dict<K, V>, n: nat, o: K)
    requires Unique(d) && n <= |d|
    ensures Find(d[n..], o).Some? ==> Find(d[n..], o) == Find(d, o)
  {
    if n > 0 {
      assert d[n..] == d[1..][n - 1..];
      FindDropped(d[1..], n - 1, o);
      FindIsIn(d[n..], o);
    }
  }

  /** Eviction only forgets, and the entry just renewed is not the one it forgets. */
  lemma DroppedUnique<K, V>(d: Dict<K, V>, n: nat)
    requires Unique(d) && n <= |d|
    ensures Unique(d[n..])
  {
  }

  lemma FindLast<K, V>(d: Dict<K, V>)
    requires Unique(d) && d != []
    ensures Find(d, d[|d| - 1].0) == Some(d[|d| - 1].1)
  {
    hide Find;
    InIsFind(d, d[|d| - 1]);
  }

  lemma FindNewest<K, V>(d: Dict<K, V>, n: nat, o: K)
    requires Unique(d)
    ensures Find(Newest(d, n), o).Some? ==> Find(Newest(d, n), o) == Find(d, o)
    ensures 0 < n && d != [] && o == d[|d| - 1].0 ==> Find(Newest(d, n), o) == Some(d[|d| - 1].1)
  {
    hide Find, Unique;
    var kept := Newest(d, n);
    if |d| > n {
      FindDropped(d, |d| - n, o);
      DroppedUnique(d, |d| - n);
    }
    if 0 < n && d != [] {
      assert kept[|kept| - 1] == d[|d| - 1];
      FindLast(kept);
    }
  }

  /** Pops the oldest entries until no more than `n` are left. */
  method KeepNewest<K, V>(d: Dict<K, V>, n: nat) returns (left: Dict<K, V>)
    ensures left == Newest(d, n)
  {
    left := d;
    while |left| > n
      invariant |left| <= |d| && left == d[|d| - |left|..]
      invariant |d| > n ==> |left| >= n
      invariant |d| <= n ==> left == d
    {
      left := left[1..];
    }
  }

  lemma {:induction false} PutKeepsUnique<K, V>(d: Dict<K, V>, k: K, v: V)
    requires Unique(d)
    ensures Unique(Put(d, k, v))
  {
    if d != [] && d[0].0 != k {
      PutKeepsUnique(d[1..], k, v);
      forall e | e in Put(d[1..], k, v) ensures e.0 != d[0].0 {
        InPut(d[1..], k, v, e);
      }
    }
  }
}
