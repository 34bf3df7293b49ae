// Python dictionaries as association lists in insertion order: lookup,
// item assignment (which keeps an existing key in its place and appends a
// new one) and `pop(key, None)`.

module Dicts {
  import opened Wrappers

  type Dict<K, V> = seq<(K, V)>

  /** No key occurs twice, as in every Python dict. */
  ghost predicate KeysDistinct<K, V>(d: Dict<K, V>) {
    forall i, j :: 0 <= i < j < |d| ==> d[i].0 != d[j].0
  }

  /** `k in d` */
  predicate HasKey<K(==), V>(d: Dict<K, V>, k: K) {
    exists i :: 0 <= i < |d| && d[i].0 == k
  }

  /** `d.get(k)`: the value stored under `k`, or None. */
  function Lookup<K(==), V>(d: Dict<K, V>, k: K): (r: Option<V>)
    decreases |d|
  {
    if d == [] then None
    else if d[0].0 == k then Some(d[0].1)
    else Lookup(d[1..], k)
  }

  /** A key looks up a value exactly when it is present, and the value is
      the one stored with it. */
  lemma {:induction false} LookupSpec<K, V>(d: Dict<K, V>, k: K)
    ensures Lookup(d, k).Some? <==> HasKey(d, k)
    ensures Lookup(d, k).Some? ==> exists i :: 0 <= i < |d| && d[i] == (k, Lookup(d, k).value)
    decreases |d|
  {
    if d != [] && d[0].0 != k {
      LookupSpec(d[1..], k);
      if HasKey(d, k) {
        var i :| 0 <= i < |d| && d[i].0 == k;
        assert d[1..][i - 1].0 == k;
      }
      if Lookup(d, k).Some? {
        var i :| 0 <= i < |d[1..]| && d[1..][i] == (k, Lookup(d, k).value);
        assert d[i + 1] == d[1..][i];
      }
    }
  }

  /** With distinct keys, the entry at index `i` is what its key looks up. */
  lemma {:induction false} LookupAt<K, V>(d: Dict<K, V>, i: nat)
    requires KeysDistinct(d) && i < |d|
    ensures Lookup(d, d[i].0) == Some(d[i].1)
    decreases |d|
  {
    if i > 0 {
      assert d[1..][i - 1] == d[i];
      LookupAt(d[1..], i - 1);
    }
  }

  /** `d[k] = v` */
  function Put<K(==), V>(d: Dict<K, V>, k: K, v: V): (r: Dict<K, V>)
    ensures |r| == |d| || r == d + [(k, v)]
    decreases |d|
  {
    if d == [] then [(k, v)]
    else if d[0].0 == k then [(k, v)] + d[1..]
    else [d[0]] + Put(d[1..], k, v)
  }

  /** After `d[k] = v`, `k` gives `v` and every other key what it gave. */
  lemma {:induction false} PutLookup<K, V>(d: Dict<K, V>, k: K, v: V, j: K)
    ensures Lookup(Put(d, k, v), j) == if j == k then Some(v) else Lookup(d, j)
    decreases |d|
  {
    if d != [] && d[0].0 != k {
      PutLookup(d[1..], k, v, j);
    }
  }

  /** Assigning to a present key keeps every key in its place; assigning
      to a new one appends it. */
  lemma {:induction false} PutShape<K, V>(d: Dict<K, V>, k: K, v: V)
    ensures HasKey(d, k) ==> |Put(d, k, v)| == |d|
                             && forall i :: 0 <= i < |d| ==> Put(d, k, v)[i].0 == d[i].0
    ensures !HasKey(d, k) ==> Put(d, k, v) == d + [(k, v)]
    decreases |d|
  {
    if d != [] && d[0].0 != k {
      PutShape(d[1..], k, v);
      var r := Put(d, k, v);
      assert r == [d[0]] + Put(d[1..], k, v);
      if HasKey(d, k) {
        var i :| 0 <= i < |d| && d[i].0 == k;
        assert d[1..][i - 1].0 == k;
        forall i | 0 < i < |d| ensures r[i].0 == d[i].0 {
          assert r[i] == Put(d[1..], k, v)[i - 1];
          assert d[i] == d[1..][i - 1];
        }
      } else {
        assert !HasKey(d[1..], k) by {
          forall i | 0 <= i < |d[1..]| ensures d[1..][i].0 != k {
            assert d[1..][i] == d[i + 1];
          }
        }
        assert d == [d[0]] + d[1..];
      }
    } else if d != [] {
      assert HasKey(d, k);
    }
  }

  /** Item assignment keeps the keys distinct. */
  lemma PutDistinct<K, V>(d: Dict<K, V>, k: K, v: V)
    requires KeysDistinct(d)
    ensures KeysDistinct(Put(d, k, v))
  {
    PutShape(d, k, v);
    var r := Put(d, k, v);
    if !HasKey(d, k) {
      forall i, j | 0 <= i < j < |r| ensures r[i].0 != r[j].0 {
        if j == |d| {
          assert r[i] == d[i];
        }
      }
    }
  }

  /** `d.pop(k, None)`: the entry under `k` removed, the others kept in
      order. */
  function Pop<K(==), V>(d: Dict<K, V>, k: K): (r: Dict<K, V>)
    ensures |r| <= |d|
    decreases |d|
  {
    if d == [] then []
    else if d[0].0 == k then Pop(d[1..], k)
    else [d[0]] + Pop(d[1..], k)
  }

  /** After `d.pop(k)`, `k` is gone and every other key gives what it gave. */
  lemma {:induction false} PopLookup<K, V>(d: Dict<K, V>, k: K, j: K)
    ensures Lookup(Pop(d, k), j) == if j == k then None else Lookup(d, j)
    decreases |d|
  {
    if d != [] {
      PopLookup(d[1..], k, j);
    }
  }

  /** Popping an absent key changes nothing. */
  lemma {:induction false} PopAbsent<K, V>(d: Dict<K, V>, k: K)
    requires !HasKey(d, k)
    ensures Pop(d, k) == d
    decreases |d|
  {
    if d != [] {
      assert !HasKey(d[1..], k) by {
        forall i | 0 <= i < |d[1..]| ensures d[1..][i].0 != k {
          assert d[1..][i] == d[i + 1];
        }
      }
      PopAbsent(d[1..], k);
      assert d == [d[0]] + d[1..];
    }
  }

  /** Popping the key of the entry at index `i` from a dict with distinct
      keys leaves the entries before and after it. */
  lemma {:induction false} PopAt<K, V>(d: Dict<K, V>, i: nat)
    requires KeysDistinct(d) && i < |d|
    ensures Pop(d, d[i].0) == d[..i] + d[i + 1..]
    decreases |d|
  {
    var k := d[i].0;
    if i == 0 {
      assert !HasKey(d[1..], k) by {
        forall j | 0 <= j < |d[1..]| ensures d[1..][j].0 != k {
          assert d[1..][j] == d[j + 1];
        }
      }
      PopAbsent(d[1..], k);
    } else {
      var t := d[1..];
      assert t[i - 1] == d[i];
      assert KeysDistinct(t) by {
        forall a, b | 0 <= a < b < |t| ensures t[a].0 != t[b].0 {
          assert t[a] == d[a + 1] && t[b] == d[b + 1];
        }
      }
      PopAt(t, i - 1);
      assert d[0].0 != k;
      assert t[..i - 1] + t[i..] == d[1..i] + d[i + 1..];
      assert [d[0]] + (d[1..i] + d[i + 1..]) == d[..i] + d[i + 1..];
    }
  }

  /** Looking up in a concatenation finds the first part's entry when it
      has the key, otherwise the second part's. */
  lemma {:induction false} LookupAppend<K, V>(a: Dict<K, V>, b: Dict<K, V>, k: K)
    ensures Lookup(a + b, k) == if HasKey(a, k) then Lookup(a, k) else Lookup(b, k)
    decreases |a|
  {
    if a == [] {
      assert a + b == b;
    } else {
      assert (a + b)[0] == a[0] && (a + b)[1..] == a[1..] + b;
      LookupAppend(a[1..], b, k);
      if a[0].0 != k {
        assert HasKey(a, k) <==> HasKey(a[1..], k) by {
          if HasKey(a, k) {
            var i :| 0 <= i < |a| && a[i].0 == k;
            assert a[1..][i - 1] == a[i];
          }
          if HasKey(a[1..], k) {
            var i :| 0 <= i < |a[1..]| && a[1..][i].0 == k;
            assert a[i + 1] == a[1..][i];
          }
        }
      } else {
        assert HasKey(a, k);
      }
    }
  }

  /** Popping from a concatenation pops from both parts. */
  lemma {:induction false} PopAppend<K, V>(a: Dict<K, V>, b: Dict<K, V>, k: K)
    ensures Pop(a + b, k) == Pop(a, k) + Pop(b, k)
    decreases |a|
  {
    if a == [] {
      assert a + b == b;
    } else {
      assert (a + b)[0] == a[0] && (a + b)[1..] == a[1..] + b;
      PopAppend(a[1..], b, k);
    }
  }
}
