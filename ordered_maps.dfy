/** Ordered maps with integer keys, as `std::map<uint32_t, V>` keeps them:
    the entries in strictly ascending key order, which is also the order in
    which a range-for visits them. */
module OrderedMaps {

  datatype Option<T> = None | Some(value: T)

  type OrdMap<V> = seq<(nat, V)>

  predicate Ascending<V>(m: OrdMap<V>)
  {
    forall i, j | 0 <= i < j < |m| :: m[i].0 < m[j].0
  }

  function Keys<V>(m: OrdMap<V>): set<nat>
  {
    set i | 0 <= i < |m| :: m[i].0
  }

  /** The value stored under k, if any. */
  function Find<V>(m: OrdMap<V>, k: nat): Option<V>
  {
    if |m| == 0 then None else if m[0].0 == k then Some(m[0].1) else Find(m[1..], k)
  }

  /** `m[k]` on a const map: the stored value, or the default-constructed d. */
  function Get<V>(m: OrdMap<V>, k: nat, d: V): V
  {
    match Find(m, k)
    case Some(v) => v
    case None => d
  }

  /** `m[k] = v`: inserts k in its place, or replaces the value already under k. */
  function Put<V>(m: OrdMap<V>, k: nat, v: V): (r: OrdMap<V>)
    requires Ascending(m)
    ensures Ascending(r)
    ensures Find(r, k) == Some(v)
    ensures forall k' | k' != k :: Find(r, k') == Find(m, k')
    ensures Keys(r) == Keys(m) + {k}
  {
    if |m| == 0 then
      KeysCons([(k, v)]);
      [(k, v)]
    else if m[0].0 == k then
      PutHere(m, v);
      [(k, v)] + m[1..]
    else if k < m[0].0 then
      PutFront(m, k, v);
      [(k, v)] + m
    else
      var t := Put(m[1..], k, v);
      PutLater(m, k, v, t);
      [m[0]] + t
  }

  /** A map with one more entry in front, below all its keys. */
  lemma AscendingCons<V>(e: (nat, V), t: OrdMap<V>)
    requires Ascending(t) && forall j | 0 <= j < |t| :: e.0 < t[j].0
    ensures Ascending([e] + t)
  {
    var r := [e] + t;
    forall i, j | 0 <= i < j < |r|
      ensures r[i].0 < r[j].0
    {
      assert r[j] == t[j - 1];
      if i > 0 {
        assert r[i] == t[i - 1];
      }
    }
  }

  /** Looking up in a map with one more entry in front. */
  lemma FindCons<V>(e: (nat, V), t: OrdMap<V>)
    ensures forall k' :: Find([e] + t, k') == if e.0 == k' then Some(e.1) else Find(t, k')
  {
    assert ([e] + t)[1..] == t;
  }

  /** The keys after the first of an ascending map lie above it. */
  lemma AscendingTail<V>(m: OrdMap<V>)
    requires Ascending(m) && |m| > 0
    ensures Ascending(m[1..]) && forall j | 0 <= j < |m[1..]| :: m[0].0 < m[1..][j].0
  {
    forall j | 0 <= j < |m[1..]|
      ensures m[0].0 < m[1..][j].0
    {
      assert m[1..][j] == m[j + 1];
    }
  }

  /** Every key after the first of an ascending map lies above it. */
  lemma KeysAbove<V>(m: OrdMap<V>)
    requires Ascending(m) && |m| > 0
    ensures forall x | x in Keys(m[1..]) :: m[0].0 < x
  {
    forall x | x in Keys(m[1..])
      ensures m[0].0 < x
    {
      var i :| 0 <= i < |m[1..]| && m[1..][i].0 == x;
      assert m[1..][i] == m[i + 1];
    }
  }

  /** Replacing the value of the first entry. */
  lemma PutHere<V>(m: OrdMap<V>, v: V)
    requires Ascending(m) && |m| > 0
    ensures var r := [(m[0].0, v)] + m[1..];
            Ascending(r) && Find(r, m[0].0) == Some(v)
            && (forall k' | k' != m[0].0 :: Find(r, k') == Find(m, k'))
            && Keys(r) == Keys(m) + {m[0].0}
  {
    AscendingTail(m);
    AscendingCons((m[0].0, v), m[1..]);
    FindCons((m[0].0, v), m[1..]);
    FindCons(m[0], m[1..]);
    assert [m[0]] + m[1..] == m;
    KeysCons(m);
    KeysCons([(m[0].0, v)] + m[1..]);
    assert ([(m[0].0, v)] + m[1..])[1..] == m[1..];
  }

  /** Inserting a key below every key of the map. */
  lemma PutFront<V>(m: OrdMap<V>, k: nat, v: V)
    requires Ascending(m) && |m| > 0 && k < m[0].0
    ensures var r := [(k, v)] + m;
            Ascending(r) && Find(r, k) == Some(v)
            && (forall k' | k' != k :: Find(r, k') == Find(m, k'))
            && Keys(r) == Keys(m) + {k}
  {
    var r := [(k, v)] + m;
    forall j | 0 <= j < |m|
      ensures k < m[j].0
    {
      if j > 0 {
        assert m[0].0 < m[j].0;
      }
    }
    AscendingCons((k, v), m);
    FindCons((k, v), m);
    assert r[1..] == m;
    KeysCons(r);
  }

  /** Inserting a key above the first key: the first entry stays in front. */
  lemma PutLater<V>(m: OrdMap<V>, k: nat, v: V, t: OrdMap<V>)
    requires Ascending(m) && |m| > 0 && m[0].0 < k
    requires Ascending(t) && Find(t, k) == Some(v)
    requires forall k' | k' != k :: Find(t, k') == Find(m[1..], k')
    requires Keys(t) == Keys(m[1..]) + {k}
    ensures var r := [m[0]] + t;
            Ascending(r) && Find(r, k) == Some(v)
            && (forall k' | k' != k :: Find(r, k') == Find(m, k'))
            && Keys(r) == Keys(m) + {k}
  {
    KeysAbove(m);
    forall j | 0 <= j < |t|
      ensures m[0].0 < t[j].0
    {
      assert t[j].0 in Keys(t);
    }
    AscendingCons(m[0], t);
    FindCons(m[0], t);
    FindCons(m[0], m[1..]);
    assert [m[0]] + m[1..] == m;
    KeysCons(m);
    KeysCons([m[0]] + t);
    assert ([m[0]] + t)[1..] == t;
  }

  /** `m.emplace(k, v)`: inserts only when k is not yet present. */
  function Emplace<V>(m: OrdMap<V>, k: nat, v: V): (r: OrdMap<V>)
    requires Ascending(m)
    ensures Ascending(r)
    ensures Find(r, k) == if Find(m, k).Some? then Find(m, k) else Some(v)
    ensures forall k' | k' != k :: Find(r, k') == Find(m, k')
  {
    if Find(m, k).Some? then m else Put(m, k, v)
  }

  lemma KeysCons<V>(m: OrdMap<V>)
    requires |m| > 0
    ensures Keys(m) == {m[0].0} + Keys(m[1..])
  {
    assert forall i | 0 < i < |m| :: m[i] == m[1..][i - 1];
    forall k | k in Keys(m)
      ensures k in {m[0].0} + Keys(m[1..])
    {
      var i :| 0 <= i < |m| && m[i].0 == k;
      if i > 0 {
        assert m[1..][i - 1].0 == k;
      }
    }
  }

  /** No key below the first one is present. */
  lemma {:induction false} FindBelow<V>(m: OrdMap<V>, k: nat)
    requires Ascending(m) && |m| > 0 && k < m[0].0
    ensures Find(m, k) == None
  {
    if |m| > 1 {
      FindBelow(m[1..], k);
    }
  }

  /** In an ascending map every entry is found under its own key. */
  lemma {:induction false} FindEntry<V>(m: OrdMap<V>, i: nat)
    requires Ascending(m) && i < |m|
    ensures Find(m, m[i].0) == Some(m[i].1)
  {
    if i > 0 {
      FindEntry(m[1..], i - 1);
    }
  }

  /** A key is found exactly when it is one of the map's keys. */
  lemma {:induction false} FindKeys<V>(m: OrdMap<V>, k: nat)
    ensures Find(m, k).Some? <==> k in Keys(m)
  {
    if |m| > 0 {
      FindKeys(m[1..], k);
      KeysCons(m);
    }
  }

  /** The map with f applied to each value, under the same keys. */
  function MapValues<V, W>(m: OrdMap<V>, f: V -> W): (r: OrdMap<W>)
    ensures |r| == |m|
  {
    if m == [] then [] else [(m[0].0, f(m[0].1))] + MapValues(m[1..], f)
  }

  /** Each entry of the transformed map is the entry at the same place,
      its value transformed. */
  lemma {:induction false} MapValuesAt<V, W>(m: OrdMap<V>, f: V -> W)
    ensures forall i | 0 <= i < |m| :: MapValues(m, f)[i] == (m[i].0, f(m[i].1))
  {
    if m != [] {
      MapValuesAt(m[1..], f);
      forall i | 0 <= i < |m| ensures MapValues(m, f)[i] == (m[i].0, f(m[i].1)) {
        if i > 0 {
          assert m[1..][i - 1] == m[i];
        }
      }
    }
  }

  /** A key holds the transformed value exactly when it held a value. */
  lemma {:induction false} FindMapValues<V, W>(m: OrdMap<V>, f: V -> W, k: nat)
    ensures Find(MapValues(m, f), k) == if Find(m, k).Some? then Some(f(Find(m, k).value)) else None
  {
    if m != [] {
      assert MapValues(m, f)[1..] == MapValues(m[1..], f);
      FindMapValues(m[1..], f, k);
    }
  }

  /** Transforming the values keeps the keys in order. */
  lemma MapValuesAscending<V, W>(m: OrdMap<V>, f: V -> W)
    requires Ascending(m)
    ensures Ascending(MapValues(m, f))
  {
    MapValuesAt(m, f);
  }

  /** Storing a value then transforming the map is transforming the map
      then storing the transformed value. */
  lemma {:induction false} MapValuesPut<V, W>(m: OrdMap<V>, k: nat, v: V, f: V -> W)
    requires Ascending(m)
    ensures Ascending(MapValues(m, f))
    ensures MapValues(Put(m, k, v), f) == Put(MapValues(m, f), k, f(v))
  {
    MapValuesAscending(m, f);
    if m != [] {
      AscendingTail(m);
      MapValuesAscending(m[1..], f);
      assert MapValues(m, f)[1..] == MapValues(m[1..], f);
      if m[0].0 == k {
        assert Put(m, k, v) == [(k, v)] + m[1..];
        assert MapValues(Put(m, k, v), f)[1..] == MapValues(m[1..], f);
      } else if k < m[0].0 {
        assert Put(m, k, v) == [(k, v)] + m;
        assert MapValues(Put(m, k, v), f)[1..] == MapValues(m, f);
      } else {
        MapValuesPut(m[1..], k, v, f);
        assert Put(m, k, v) == [m[0]] + Put(m[1..], k, v);
        assert MapValues(Put(m, k, v), f)[1..] == MapValues(Put(m[1..], k, v), f);
      }
    }
  }
}
