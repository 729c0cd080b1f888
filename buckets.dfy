/** The per-book caches of the three services: maps from a book name to a list of rows.
    `AppendTo` is the source's `putIfAbsent(key, new ArrayList<>())` followed by
    `computeIfPresent(key, (k, v) -> { v.add(row); return v; })`. */
module Buckets {

  /** `map.getOrDefault(key, new ArrayList<>())`. */
  function Lookup<T>(m: map<string, seq<T>>, k: string): seq<T> {
    if k in m then m[k] else []
  }

  /** Appends `v` to the end of the list under `k`, creating the list when absent. */
  function AppendTo<T>(m: map<string, seq<T>>, k: string, v: T): (r: map<string, seq<T>>)
    ensures r.Keys == m.Keys + {k}
    ensures Lookup(r, k) == Lookup(m, k) + [v]
    ensures forall k' :: k' != k ==> Lookup(r, k') == Lookup(m, k')
  {
    m[k := Lookup(m, k) + [v]]
  }

  /** The rows whose key is `k`, in their original order. */
  function WithKey<T>(rows: seq<T>, key: T -> string, k: string): (r: seq<T>)
    ensures forall v :: v in r ==> v in rows && key(v) == k
    ensures forall v :: v in rows && key(v) == k ==> v in r
  {
    if rows == [] then []
    else
      var last := rows[|rows| - 1];
      WithKey(rows[..|rows| - 1], key, k) + (if key(last) == k then [last] else [])
  }

  /** Appends every row, in order, to the list of its key (the bucketing loops of `start`). */
  function Bucket<T>(m: map<string, seq<T>>, rows: seq<T>, key: T -> string): map<string, seq<T>> {
    if rows == [] then m
    else
      var last := rows[|rows| - 1];
      AppendTo(Bucket(m, rows[..|rows| - 1], key), key(last), last)
  }

  /** Bucketing one more row appends it to its key's list. */
  lemma BucketSnoc<T>(m: map<string, seq<T>>, rows: seq<T>, v: T, key: T -> string)
    ensures Bucket(m, rows + [v], key) == AppendTo(Bucket(m, rows, key), key(v), v)
  {
    assert (rows + [v])[..|rows|] == rows;
  }

  /** Appending `v` under `kv` extends the list under `k` by `v` exactly when the keys agree. */
  lemma LookupAppendTo<T>(m: map<string, seq<T>>, kv: string, v: T, k: string, prefix: seq<T>, rest: seq<T>)
    requires Lookup(m, k) == prefix + rest
    ensures Lookup(AppendTo(m, kv, v), k) == prefix + (rest + (if kv == k then [v] else []))
  {
    if kv == k {
      assert (prefix + rest) + [v] == prefix + (rest + [v]);
    } else {
      assert rest + [] == rest;
    }
  }

  /** After bucketing, each key's list is its old list followed by that key's rows in order. */
  lemma {:induction false} BucketLookup<T>(m: map<string, seq<T>>, rows: seq<T>, key: T -> string, k: string)
    ensures Lookup(Bucket(m, rows, key), k) == Lookup(m, k) + WithKey(rows, key, k)
  {
    if rows == [] {
      assert Lookup(m, k) + [] == Lookup(m, k);
    } else {
      var init := rows[..|rows| - 1];
      var last := rows[|rows| - 1];
      BucketLookup(m, init, key, k);
      LookupAppendTo(Bucket(m, init, key), key(last), last, k, Lookup(m, k), WithKey(init, key, k));
    }
  }

  /** Bucketing adds exactly the keys of the rows. */
  lemma {:induction false} BucketKeys<T>(m: map<string, seq<T>>, rows: seq<T>, key: T -> string)
    ensures Bucket(m, rows, key).Keys == m.Keys + set v | v in rows :: key(v)
  {
    if rows != [] {
      var init := rows[..|rows| - 1];
      BucketKeys(m, init, key);
      assert rows == init + [rows[|rows| - 1]];
    }
  }

  /** Appending to the list of a map with no other key leaves a map with that one list. */
  lemma AppendToOnly<T>(m: map<string, seq<T>>, k: string, v: T)
    requires m.Keys <= {k}
    ensures AppendTo(m, k, v) == map[k := Lookup(m, k) + [v]]
  {
  }

  /** Bucketing rows that all share key `k` into an empty map gives at most that one list. */
  lemma {:induction false} BucketOneKey<T>(rows: seq<T>, key: T -> string, k: string)
    requires forall v :: v in rows ==> key(v) == k
    ensures Bucket(map[], rows, key).Keys <= {k}
    ensures Lookup(Bucket(map[], rows, key), k) == rows
  {
    if rows != [] {
      var init := rows[..|rows| - 1];
      var last := rows[|rows| - 1];
      assert key(last) == k by { assert last in rows; }
      assert init + [last] == rows;
      assert forall v :: v in init ==> v in rows;
      BucketOneKey(init, key, k);
      AppendToOnly(Bucket(map[], init, key), k, last);
    }
  }
}
