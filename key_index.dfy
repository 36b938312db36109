/**
 * The abstract hash table shared by the hashing strategies: it maps a key to
 * the key index (aggregate-state slot) that the key was given when first
 * seen. A lookup of a known key returns its index; an unseen key is inserted
 * with the next unused index, and the counter advances.
 */
module KeyIndex {
  /** Keys `a` and `b` are both in the table, with the same index. */
  ghost predicate SameIndex<K>(t: map<K, nat>, a: K, b: K)
  {
    a in t && b in t && t[a] == t[b]
  }

  /** Table entries keep distinct indices. */
  ghost predicate Injective<K>(t: map<K, nat>)
  {
    forall a, b {:trigger SameIndex(t, a, b)} :: a in t && b in t && SameIndex(t, a, b) ==> a == b
  }

  /** Every index in the table lies in `[lo, hi)`. */
  ghost predicate IndicesIn<K>(t: map<K, nat>, lo: nat, hi: nat)
  {
    forall k :: k in t ==> lo <= t[k] < hi
  }

  /** `h_insert` followed by "if not found, take the next index". */
  function LookupOrInsert<K(==)>(t: map<K, nat>, next: nat, k: K): (r: (map<K, nat>, nat))
    ensures k in r.0 && r.0.Keys == t.Keys + {k}
    ensures k in t ==> r.0 == t && r.1 == next
    ensures k !in t ==> r.0 == t[k := next] && r.1 == next + 1
  {
    if k in t then (t, next) else (t[k := next], next + 1)
  }

  /** Lookup-or-insert of each key in turn. */
  function InsertAll<K(==)>(t: map<K, nat>, next: nat, keys: seq<K>): (r: (map<K, nat>, nat))
    decreases |keys|
  {
    if keys == [] then (t, next)
    else
      var prefix := InsertAll(t, next, keys[..|keys| - 1]);
      LookupOrInsert(prefix.0, prefix.1, keys[|keys| - 1])
  }

  /** Inserting one more key extends the fold by one step. */
  lemma {:induction false} InsertAllSnoc<K>(t: map<K, nat>, next: nat, keys: seq<K>, k: K)
    ensures var p := InsertAll(t, next, keys);
            InsertAll(t, next, keys + [k]) == LookupOrInsert(p.0, p.1, k)
  {
    assert (keys + [k])[..|keys|] == keys;
  }

  /** The keys of a sequence, as a set. */
  function KeySet<K>(keys: seq<K>): (s: set<K>)
    ensures forall i :: 0 <= i < |keys| ==> keys[i] in s
    ensures forall k :: k in s ==> exists i :: 0 <= i < |keys| && keys[i] == k
  {
    set i | 0 <= i < |keys| :: keys[i]
  }

  /** After inserting `keys`, the table holds exactly the old keys and the inserted ones. */
  lemma {:induction false} InsertAllKeys<K>(t: map<K, nat>, next: nat, keys: seq<K>)
    ensures InsertAll(t, next, keys).0.Keys == t.Keys + KeySet(keys)
  {
    if keys != [] {
      var init := keys[..|keys| - 1];
      InsertAllKeys(t, next, init);
      assert KeySet(keys) == KeySet(init) + {keys[|keys| - 1]};
    }
  }

  /**
   * `u` (with counter `m`) extends `t` (with counter `n`): every old key keeps
   * its index, every new key got an index at or past `n`, and the counter
   * advanced by exactly the number of new keys.
   */
  ghost predicate Extends<K>(t: map<K, nat>, n: nat, u: map<K, nat>, m: nat)
  {
    && (forall k :: k in t ==> k in u && u[k] == t[k])
    && (forall k :: k in u && k !in t ==> n <= u[k])
    && n <= m && m - n == |u| - |t|
  }

  /** A well-formed table: injective, with every index in `[lo, next)`. */
  ghost predicate Dense<K>(t: map<K, nat>, lo: nat, next: nat)
  {
    lo <= next && Injective(t) && IndicesIn(t, lo, next)
  }

  /** One lookup-or-insert keeps the table well formed and extends it. */
  lemma {:induction false} LookupOrInsertStep<K>(t: map<K, nat>, lo: nat, next: nat, k: K)
    requires Dense(t, lo, next)
    ensures var r := LookupOrInsert(t, next, k);
            Dense(r.0, lo, r.1) && Extends(t, next, r.0, r.1)
  {
    if k !in t {
      var u := t[k := next];
      assert |u| == |t| + 1;
      forall a, b | a in u && b in u && SameIndex(u, a, b)
        ensures a == b
      {
        if a != k && b != k {
          assert SameIndex(t, a, b);
        }
      }
    }
  }

  /** Extension is transitive. */
  lemma {:induction false} ExtendsTrans<K>(t: map<K, nat>, n: nat, u: map<K, nat>, m: nat, v: map<K, nat>, p: nat)
    requires Extends(t, n, u, m) && Extends(u, m, v, p)
    ensures Extends(t, n, v, p)
  {
  }

  /** `u` (with counter `m`) is well formed and extends `t` (with counter `n`). */
  ghost predicate Grown<K>(t: map<K, nat>, n: nat, u: map<K, nat>, m: nat, lo: nat)
  {
    Dense(u, lo, m) && Extends(t, n, u, m)
  }

  /** A lookup-or-insert into a table grown from `t` leaves a table grown from `t`. */
  lemma {:induction false} GrownStep<K>(t: map<K, nat>, n: nat, u: map<K, nat>, m: nat, lo: nat, k: K)
    requires Grown(t, n, u, m, lo)
    ensures var r := LookupOrInsert(u, m, k);
            Grown(t, n, r.0, r.1, lo)
  {
    LookupOrInsertStep(u, lo, m, k);
    var r := LookupOrInsert(u, m, k);
    ExtendsTrans(t, n, u, m, r.0, r.1);
  }

  /**
   * Key stability and density: keys already in the table keep their index,
   * the new keys take the consecutive indices `next .. next'-1`, so the
   * counter advances by the number of new distinct keys, and the table stays
   * injective.
   */
  lemma {:induction false} InsertAllStable<K>(t: map<K, nat>, lo: nat, next: nat, keys: seq<K>)
    requires Dense(t, lo, next)
    ensures var r := InsertAll(t, next, keys);
            Dense(r.0, lo, r.1) && Extends(t, next, r.0, r.1)
  {
    if keys != [] {
      var init := keys[..|keys| - 1];
      InsertAllStable(t, lo, next, init);
      var p := InsertAll(t, next, init);
      LookupOrInsertStep(p.0, lo, p.1, keys[|keys| - 1]);
      var r := LookupOrInsert(p.0, p.1, keys[|keys| - 1]);
      ExtendsTrans(t, next, p.0, p.1, r.0, r.1);
    }
  }

  /** Each lookup-or-insert advances the counter by zero or one. */
  lemma {:induction false} InsertAllBound<K>(t: map<K, nat>, next: nat, keys: seq<K>)
    ensures next <= InsertAll(t, next, keys).1 <= next + |keys|
  {
    if keys != [] {
      InsertAllBound(t, next, keys[..|keys| - 1]);
    }
  }

  /** The index a lookup-or-insert of `k` hands out. */
  lemma {:induction false} LookupOrInsertIndex<K>(t: map<K, nat>, next: nat, k: K)
    requires IndicesIn(t, 0, next)
    ensures var r := LookupOrInsert(t, next, k);
            r.0[k] < r.1 && (k !in t ==> r.0[k] == next)
  {
  }
}
