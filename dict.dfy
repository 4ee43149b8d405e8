/** Python's insertion-ordered `dict` with string keys: the keys in
    insertion order beside the key-to-value mapping. A dictionary display
    such as `{"a": x, **m, **n}` inserts its entries left to right: a key
    seen before keeps its place and takes the new value, a new key is
    appended at the end. */
module Dict {
  datatype Dict<V> = Dict(order: seq<string>, entries: map<string, V>)

  /** No key appears twice and the order lists exactly the mapped keys,
      which every Python dict satisfies. */
  predicate Valid<V>(d: Dict<V>) {
    && Distinct(d.order)
    && (forall k :: k in d.order ==> k in d.entries)
    && (forall k :: k in d.entries ==> k in d.order)
  }

  /** `{}` */
  function Empty<V>(): (d: Dict<V>)
    ensures Valid(d)
    ensures d.order == [] && d.entries == map[]
  {
    Dict([], map[])
  }

  /** `d.get(k, default)`. */
  function Get<V>(d: Dict<V>, k: string, default: V): (r: V)
  {
    if k in d.entries then d.entries[k] else default
  }

  /** `d[k] = v`: the value of an existing key is replaced where it stands,
      a new key is appended. */
  function Put<V>(d: Dict<V>, k: string, v: V): (r: Dict<V>)
    ensures Valid(d) ==> Valid(r)
    ensures Valid(d) ==> r.order == if k in d.entries then d.order else d.order + [k]
    ensures r.entries == d.entries[k := v]
  {
    Dict(if k in d.entries then d.order else d.order + [k], d.entries[k := v])
  }

  /** The keys of `ks` that are not in `existing`, in order. */
  function NewKeys(ks: seq<string>, existing: seq<string>): (r: seq<string>)
    ensures |r| <= |ks|
  {
    if ks == [] then []
    else (if ks[0] in existing then [] else [ks[0]]) + NewKeys(ks[1..], existing)
  }

  /** `NewKeys` keeps exactly the keys of `ks` missing from `existing`. */
  lemma {:induction false} NewKeysMember(ks: seq<string>, existing: seq<string>, x: string)
    ensures x in NewKeys(ks, existing) <==> x in ks && x !in existing
  {
    if ks != [] {
      NewKeysMember(ks[1..], existing, x);
    }
  }

  /** The entries of `e` whose keys are `ks`, inserted into `d` one by one
      in that order. */
  function PutAll<V>(d: Dict<V>, e: Dict<V>, ks: seq<string>): (r: Dict<V>)
    requires forall i :: 0 <= i < |ks| ==> ks[i] in e.entries
    decreases |ks|
  {
    if ks == [] then d else PutAll(Put(d, ks[0], e.entries[ks[0]]), e, ks[1..])
  }

  /** `{**d, **e}`: the entries of `e` inserted into `d` in `e`'s order. */
  function Update<V>(d: Dict<V>, e: Dict<V>): (r: Dict<V>)
    requires Valid(e)
  {
    PutAll(d, e, e.order)
  }

  lemma {:induction false} NewKeysSkips(ks: seq<string>, existing: seq<string>, k: string)
    requires k !in ks
    ensures NewKeys(ks, existing + [k]) == NewKeys(ks, existing)
  {
    if ks != [] {
      NewKeysSkips(ks[1..], existing, k);
    }
  }

  /** Keys listed twice nowhere. */
  predicate Distinct(ks: seq<string>) {
    forall i, j :: 0 <= i < j < |ks| ==> ks[i] != ks[j]
  }

  /** The first of distinct keys is not among the rest. */
  lemma HeadNotInTail(ks: seq<string>)
    requires ks != [] && Distinct(ks)
    ensures ks[0] !in ks[1..]
  {
  }

  /** Inserting keys one by one keeps a dict valid. */
  lemma {:induction false} PutAllValid<V>(d: Dict<V>, e: Dict<V>, ks: seq<string>)
    requires Valid(d)
    requires forall i :: 0 <= i < |ks| ==> ks[i] in e.entries
    ensures Valid(PutAll(d, e, ks))
    decreases |ks|
  {
    if ks != [] {
      PutAllValid(Put(d, ks[0], e.entries[ks[0]]), e, ks[1..]);
    }
  }

  /** Inserting distinct keys `ks` keeps `d`'s keys first, in their old
      order, and appends the new ones in the order of `ks`. */
  lemma {:induction false} PutAllOrder<V>(d: Dict<V>, e: Dict<V>, ks: seq<string>)
    requires Valid(d) && Distinct(ks)
    requires forall i :: 0 <= i < |ks| ==> ks[i] in e.entries
    ensures PutAll(d, e, ks).order == d.order + NewKeys(ks, d.order)
    decreases |ks|
  {
    if ks != [] {
      var k := ks[0];
      var d' := Put(d, k, e.entries[k]);
      assert Distinct(ks[1..]);
      PutAllOrder(d', e, ks[1..]);
      assert PutAll(d, e, ks) == PutAll(d', e, ks[1..]);
      if k in d.order {
        assert d'.order == d.order;
        assert NewKeys(ks, d.order) == NewKeys(ks[1..], d.order);
      } else {
        assert d'.order == d.order + [k];
        assert NewKeys(ks, d.order) == [k] + NewKeys(ks[1..], d.order);
        HeadNotInTail(ks);
        NewKeysSkips(ks[1..], d.order, k);
        AppendStep(d.order, k, NewKeys(ks[1..], d.order), NewKeys(ks, d.order));
      }
    }
  }

  /** Appending `k` and then the rest is appending `[k] + rest`. */
  lemma AppendStep(a: seq<string>, k: string, rest: seq<string>, n: seq<string>)
    requires n == [k] + rest
    ensures (a + [k]) + rest == a + n
  {
  }

  /** After inserting the keys `ks`, each of them has its value from `e`
      and every other key keeps its value from `d`. */
  lemma {:induction false} PutAllEntries<V>(d: Dict<V>, e: Dict<V>, ks: seq<string>, x: string)
    requires forall i :: 0 <= i < |ks| ==> ks[i] in e.entries
    ensures x in PutAll(d, e, ks).entries <==> x in d.entries || x in ks
    ensures x in ks ==> PutAll(d, e, ks).entries[x] == e.entries[x]
    ensures x !in ks && x in d.entries ==> PutAll(d, e, ks).entries[x] == d.entries[x]
    decreases |ks|
  {
    if ks != [] {
      PutAllEntries(Put(d, ks[0], e.entries[ks[0]]), e, ks[1..], x);
    }
  }

  /** `{**d, **e}` is a valid dict whose keys are those of `d` in their old
      order followed by the new keys of `e` in `e`'s order, and whose
      mapping is `d`'s overridden by `e`'s (later keys win). */
  lemma UpdateSpec<V>(d: Dict<V>, e: Dict<V>)
    requires Valid(d) && Valid(e)
    ensures Valid(Update(d, e))
    ensures Update(d, e).order == d.order + NewKeys(e.order, d.order)
    ensures Update(d, e).entries == d.entries + e.entries
  {
    PutAllValid(d, e, e.order);
    PutAllOrder(d, e, e.order);
    var r := Update(d, e);
    var u := d.entries + e.entries;
    forall x ensures x in r.entries <==> x in u {
      PutAllEntries(d, e, e.order, x);
    }
    forall x | x in u ensures r.entries[x] == u[x] {
      PutAllEntries(d, e, e.order, x);
    }
  }

  /** A lookup after `d[k] = v` sees `v` at `k` and `d` everywhere else. */
  lemma GetPut<V>(d: Dict<V>, k: string, v: V, k': string, default: V)
    ensures Get(Put(d, k, v), k', default) == if k' == k then v else Get(d, k', default)
  {
  }

  /** A lookup on `{**d, **e}` tries `e` first and falls back on `d`. */
  lemma GetUpdate<V>(d: Dict<V>, e: Dict<V>, k: string, default: V)
    requires Valid(d) && Valid(e)
    ensures Get(Update(d, e), k, default) == Get(e, k, Get(d, k, default))
  {
    UpdateSpec(d, e);
  }

  /** The display `{keys[0]: values[0], keys[1]: values[1], ...}`, whose
      entries are inserted left to right. */
  function FromList<V>(keys: seq<string>, values: seq<V>): (d: Dict<V>)
    requires |keys| == |values|
    decreases |keys|
  {
    if keys == [] then Empty()
    else
      var n := |keys| - 1;
      Put(FromList(keys[..n], values[..n]), keys[n], values[n])
  }

  /** A display with distinct keys is a valid dict holding the keys in the
      order written. */
  lemma {:induction false} FromListShape<V>(keys: seq<string>, values: seq<V>)
    requires |keys| == |values| && Distinct(keys)
    ensures Valid(FromList(keys, values))
    ensures FromList(keys, values).order == keys
    decreases |keys|
  {
    if keys != [] {
      var n := |keys| - 1;
      assert Distinct(keys[..n]);
      FromListShape(keys[..n], values[..n]);
      assert keys[n] !in keys[..n];
      assert keys[..n] + [keys[n]] == keys;
    }
  }

  /** In a display with distinct keys, key `k` is mapped to value `k`. */
  lemma {:induction false} FromListAt<V>(keys: seq<string>, values: seq<V>, k: nat)
    requires |keys| == |values| && Distinct(keys) && k < |keys|
    ensures keys[k] in FromList(keys, values).entries
    ensures FromList(keys, values).entries[keys[k]] == values[k]
    decreases |keys|
  {
    var n := |keys| - 1;
    if k < n {
      assert Distinct(keys[..n]);
      FromListAt(keys[..n], values[..n], k);
      assert keys[..n][k] == keys[k] && values[..n][k] == values[k];
    }
  }
}
