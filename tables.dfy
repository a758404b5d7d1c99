/**
 A JavaScript object used as a dictionary (`{}` with string keys), as the
 sequence of its (key, value) entries in the order a `for...in` loop visits
 them. A real object never holds a key twice; `UniqueKeys` is that invariant.
 */
module Tables {

  type Table<V> = seq<(string, V)>

  /** The keys of the object, as `Object.keys` would give them (unordered). */
  function Keys<V>(t: Table<V>): set<string>
  {
    set i | 0 <= i < |t| :: t[i].0
  }

  /** No key appears twice: the invariant every JavaScript object satisfies. */
  predicate UniqueKeys<V>(t: Table<V>)
  {
    forall i, j :: 0 <= i < j < |t| ==> t[i].0 != t[j].0
  }

  /** The object as a Dafny map (for a table with unique keys; otherwise the first entry of a key wins). */
  function ToMap<V>(t: Table<V>): map<string, V>
  {
    if t == [] then map[] else ToMap(t[1..])[t[0].0 := t[0].1]
  }

  /** Property assignment `t[k] = v`: an existing key keeps its position and
      takes the new value; a new key is appended. JavaScript places a new key
      last only when it is not an array index, or when every key already held
      is a smaller array index; otherwise an index key is visited earlier. */
  function Put<V>(t: Table<V>, k: string, v: V): Table<V>
  {
    if t == [] then [(k, v)]
    else if t[0].0 == k then [(k, v)] + t[1..]
    else [t[0]] + Put(t[1..], k, v)
  }

  lemma {:induction false} ToMapDomain<V>(t: Table<V>)
    ensures ToMap(t).Keys == Keys(t)
  {
    if t != [] {
      ToMapDomain(t[1..]);
      assert Keys(t) == Keys(t[1..]) + {t[0].0} by {
        forall k | k in Keys(t) ensures k in Keys(t[1..]) + {t[0].0} {
          var i :| 0 <= i < |t| && t[i].0 == k;
          if i > 0 { assert t[1..][i - 1].0 == k; }
        }
        forall k | k in Keys(t[1..]) ensures k in Keys(t) {
          var i :| 0 <= i < |t[1..]| && t[1..][i].0 == k;
          assert t[i + 1].0 == k;
        }
      }
    }
  }

  /** In a table with unique keys, the map view holds every entry as it is. */
  lemma {:induction false} ToMapAt<V>(t: Table<V>, i: nat)
    requires UniqueKeys(t) && i < |t|
    ensures t[i].0 in ToMap(t) && ToMap(t)[t[i].0] == t[i].1
  {
    if i > 0 {
      assert UniqueKeys(t[1..]) by {
        forall a, b | 0 <= a < b < |t[1..]| ensures t[1..][a].0 != t[1..][b].0 {
          assert t[1..][a] == t[a + 1] && t[1..][b] == t[b + 1];
        }
      }
      ToMapAt(t[1..], i - 1);
      assert t[0].0 != t[i].0;
    }
  }

  /** Assigning a key the table does not yet hold appends the entry at the end of the sequence. */
  lemma {:induction false} PutFresh<V>(t: Table<V>, k: string, v: V)
    requires k !in Keys(t)
    ensures Put(t, k, v) == t + [(k, v)]
  {
    if t != [] {
      assert t[0].0 in Keys(t);
      PutFresh(t[1..], k, v);
      assert [t[0]] + (t[1..] + [(k, v)]) == t + [(k, v)];
    }
  }

  /** Assignment agrees with map update: the map view of `t[k] = v` is the old view with `k` bound to `v`. */
  lemma {:induction false} PutToMap<V>(t: Table<V>, k: string, v: V)
    ensures ToMap(Put(t, k, v)) == ToMap(t)[k := v]
  {
    if t == [] {
    } else if t[0].0 == k {
      assert Put(t, k, v)[1..] == t[1..];
    } else {
      PutToMap(t[1..], k, v);
      assert Put(t, k, v)[0] == t[0] && Put(t, k, v)[1..] == Put(t[1..], k, v);
    }
  }
}
