/** Python dictionaries as insertion-ordered association lists. */
module Dicts {
  import opened Results

  /** Entries in insertion order; `Update` keeps the keys distinct. */
  type Dict<K, V> = seq<(K, V)>

  /** The keys of the entries, in order, like `list(d.keys())`. */
  function Keys<K, V>(d: Dict<K, V>): (ks: seq<K>)
    ensures |ks| == |d|
    ensures forall i :: 0 <= i < |d| ==> ks[i] == d[i].0
  {
    seq(|d|, i requires 0 <= i < |d| => d[i].0)
  }

  /** No key appears twice. */
  ghost predicate Distinct<K>(ks: seq<K>) {
    forall i, j :: 0 <= i < j < |ks| ==> ks[i] != ks[j]
  }

  /** Python's `d.get(k)`: the value stored under `k`, if any. */
  function Get<K(==), V>(d: Dict<K, V>, k: K): (r: Option<V>)
    ensures r.None? <==> k !in Keys(d)
    ensures r.Some? ==> exists i :: 0 <= i < |d| && d[i] == (k, r.value)
  {
    if |d| == 0 then None
    else if d[0].0 == k then Some(d[0].1)
    else
      assert forall i :: 0 < i < |d| ==> d[1..][i - 1] == d[i];
      Get(d[1..], k)
  }

  /** Python's `d[k] = v`: afterwards the pair is stored. */
  function Update<K(==), V>(d: Dict<K, V>, k: K, v: V): (r: Dict<K, V>)
    ensures (k, v) in r
  {
    if |d| == 0 then [(k, v)]
    else if d[0].0 == k then [(k, v)] + d[1..]
    else [d[0]] + Update(d[1..], k, v)
  }

  lemma KeysCons<K, V>(x: (K, V), d: Dict<K, V>)
    ensures Keys([x] + d) == [x.0] + Keys(d)
  {
  }

  lemma GetCons<K, V>(x: (K, V), d: Dict<K, V>, k: K)
    ensures Get([x] + d, k) == if x.0 == k then Some(x.1) else Get(d, k)
  {
    assert ([x] + d)[1..] == d;
  }

  /** Storing under an existing key keeps every key in its position; storing
      under a new key appends it at the end. */
  lemma {:induction false} UpdateKeys<K, V>(d: Dict<K, V>, k: K, v: V)
    ensures Keys(Update(d, k, v)) == if k in Keys(d) then Keys(d) else Keys(d) + [k]
  {
    if |d| > 0 {
      KeysCons(d[0], d[1..]);
      assert d == [d[0]] + d[1..];
      if d[0].0 == k {
        KeysCons((k, v), d[1..]);
      } else {
        UpdateKeys(d[1..], k, v);
        KeysCons(d[0], Update(d[1..], k, v));
      }
    }
  }

  /** After storing, the key maps to the new value and every other key to
      what it mapped to before. */
  lemma {:induction false} UpdateGet<K, V>(d: Dict<K, V>, k: K, v: V, k': K)
    ensures Get(Update(d, k, v), k') == if k' == k then Some(v) else Get(d, k')
  {
    if |d| > 0 {
      GetCons(d[0], d[1..], k');
      assert d == [d[0]] + d[1..];
      if d[0].0 == k {
        GetCons((k, v), d[1..], k');
      } else {
        UpdateGet(d[1..], k, v, k');
        GetCons(d[0], Update(d[1..], k, v), k');
      }
    }
  }

  /** Python's `d.update(e)`: the entries of `e` stored into `d` one after
      another, in `e`'s order, so the last entry of `e` is stored. */
  function Merge<K(==), V>(d: Dict<K, V>, e: Dict<K, V>): (r: Dict<K, V>)
    ensures |e| > 0 ==> e[|e| - 1] in r
    decreases |e|
  {
    if |e| == 0 then d
    else
      var (k, v) := e[|e| - 1];
      Update(Merge(d, e[..|e| - 1]), k, v)
  }

  /** Reference definition: `ks` with every repeated key dropped, so that each
      key stays at its first occurrence. */
  function Dedup<K(==)>(ks: seq<K>): seq<K>
  {
    if |ks| == 0 then []
    else
      var init := ks[..|ks| - 1];
      Dedup(init) + (if ks[|ks| - 1] in init then [] else [ks[|ks| - 1]])
  }

  /** Reference definition: the value of the last pair whose key is `k`. */
  function LastValue<K(==), V>(ps: seq<(K, V)>, k: K): Option<V>
  {
    if |ps| == 0 then None
    else if ps[|ps| - 1].0 == k then Some(ps[|ps| - 1].1)
    else LastValue(ps[..|ps| - 1], k)
  }

  /** Dropping repeats keeps every key and leaves none twice. */
  lemma {:induction false} DedupMembers<K>(ks: seq<K>)
    ensures forall x :: x in Dedup(ks) <==> x in ks
    ensures Distinct(Dedup(ks))
  {
    if |ks| > 0 {
      var init := ks[..|ks| - 1];
      DedupMembers(init);
      assert ks == init + [ks[|ks| - 1]];
    }
  }

  /** Storing pairs one by one into an empty dictionary keeps each key at its
      first occurrence. */
  lemma {:induction false} MergeKeys<K, V>(ps: seq<(K, V)>)
    ensures Keys(Merge([], ps)) == Dedup(Keys(ps))
  {
    if |ps| > 0 {
      var init, k, v := ps[..|ps| - 1], ps[|ps| - 1].0, ps[|ps| - 1].1;
      assert Keys(ps)[..|ps| - 1] == Keys(init);
      assert Dedup(Keys(ps)) == Dedup(Keys(init)) + (if k in Keys(init) then [] else [k]);
      var before := Merge([], init);
      assert Merge([], ps) == Update(before, k, v);
      MergeKeys(init);
      DedupMembers(Keys(init));
      assert k in Keys(before) <==> k in Keys(init);
      UpdateKeys(before, k, v);
    }
  }

  /** Every key stored into an empty dictionary is the key of some pair. */
  lemma MergeKeySource<K, V>(ps: seq<(K, V)>, k: K)
    requires k in Keys(Merge([], ps))
    ensures exists i :: 0 <= i < |ps| && ps[i].0 == k
  {
    var ks := Keys(ps);
    MergeKeys(ps);
    assert k in Dedup(ks);
    DedupMembers(ks);
    var i :| 0 <= i < |ks| && ks[i] == k;
    assert ps[i].0 == k;
  }

  /** Storing pairs one by one into an empty dictionary: the last value given
      for a key wins. */
  lemma {:induction false} MergeValues<K, V>(ps: seq<(K, V)>, k: K)
    ensures Get(Merge([], ps), k) == LastValue(ps, k)
  {
    if |ps| > 0 {
      MergeValues(ps[..|ps| - 1], k);
      UpdateGet(Merge([], ps[..|ps| - 1]), ps[|ps| - 1].0, ps[|ps| - 1].1, k);
    }
  }

  /** A dictionary built by updates never holds a key twice. */
  lemma MergeDistinct<K, V>(ps: seq<(K, V)>)
    ensures Distinct(Keys(Merge([], ps)))
  {
    MergeKeys(ps);
    DedupMembers(Keys(ps));
  }

  /** Updating with a one-entry dictionary is a single store. */
  lemma MergeOne<K, V>(d: Dict<K, V>, k: K, v: V)
    ensures Merge(d, [(k, v)]) == Update(d, k, v)
  {
    assert [(k, v)][..0] == [];
  }

  /** Storing no pairs, and only storing no pairs, leaves a dictionary empty. */
  lemma MergeEmpty<K, V>(ps: seq<(K, V)>)
    ensures Merge([], ps) == [] <==> ps == []
  {
    MergeKeys(ps);
    DedupMembers(Keys(ps));
    if |ps| > 0 {
      assert ps[0].0 in Keys(ps);
    }
  }

  /** Two pairs with different keys are stored side by side, in order. */
  lemma MergeTwo<K, V>(k1: K, v1: V, k2: K, v2: V)
    requires k1 != k2
    ensures Merge([], [(k1, v1), (k2, v2)]) == [(k1, v1), (k2, v2)]
  {
    var ps := [(k1, v1), (k2, v2)];
    assert ps[..1] == [(k1, v1)];
    MergeOne([], k1, v1);
    assert Update([(k1, v1)], k2, v2) == [(k1, v1)] + Update([], k2, v2);
  }
}
