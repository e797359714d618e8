/** Python's insertion-ordered `dict` with string keys, and the order of first
    occurrence that its keys follow. */
module OrderedMaps {
  import opened Wrappers

  predicate Distinct<T(==,!new)>(s: seq<T>) {
    forall i, j :: 0 <= i < j < |s| ==> s[i] != s[j]
  }

  /** The elements of `s`, each once, in the order of their first occurrence. */
  function Dedup<T(==,!new)>(s: seq<T>): (r: seq<T>)
    ensures Distinct(r)
    ensures forall x :: x in r <==> x in s
  {
    if s == [] then []
    else
      var init, x := s[..|s| - 1], s[|s| - 1];
      var d := Dedup(init);
      assert s == init + [x];
      if x in d then d
      else
        assert forall j :: 0 <= j < |d| ==> d[j] != x;
        d + [x]
  }

  /** Appending an element keeps the first-occurrence order: a repeated element
      adds nothing, a new one goes last. */
  lemma DedupSnoc<T(!new)>(s: seq<T>, x: T)
    ensures Dedup(s + [x]) == if x in s then Dedup(s) else Dedup(s) + [x]
  {
    assert (s + [x])[..|s|] == s;
  }

  /** Position of the first entry whose key is `k`, or the number of entries
      when no entry has that key. */
  function Position<V>(es: seq<(string, V)>, k: string): (i: nat)
    ensures i <= |es|
    ensures i < |es| ==> es[i].0 == k
    ensures forall j :: 0 <= j < i ==> es[j].0 != k
  {
    if es == [] then 0 else if es[0].0 == k then 0 else 1 + Position(es[1..], k)
  }

  /** A dict as its entries in insertion order. */
  datatype OrderedMap<V> = OrderedMap(entries: seq<(string, V)>) {

    function Keys(): seq<string> {
      seq(|entries|, i requires 0 <= i < |entries| => entries[i].0)
    }

    /** No key occurs twice. */
    predicate Valid() {
      Distinct(Keys())
    }

    /** Python's `d.get(k)`. */
    function Get(k: string): (r: Option<V>)
      ensures r.Some? <==> k in Keys()
    {
      PositionInKeys(this, k);
      var i := Position(entries, k);
      if i < |entries| then Some(entries[i].1) else None
    }

    /** Python's `d[k] = v`: an existing key keeps its place and takes the new
        value, a new key goes last, and every other key keeps its value. */
    function Put(k: string, v: V): (r: OrderedMap<V>)
      ensures r.Get(k) == Some(v)
      ensures forall k' :: k' != k ==> r.Get(k') == Get(k')
      ensures k in Keys() ==> r.Keys() == Keys()
      ensures k !in Keys() ==> r.Keys() == Keys() + [k]
      ensures Valid() ==> r.Valid()
    {
      PositionInKeys(this, k);
      var i := Position(entries, k);
      var r := if i < |entries| then OrderedMap(entries[i := (k, v)]) else OrderedMap(entries + [(k, v)]);
      PutOthers(this, k, v, r);
      PositionIs(r.entries, k, if i < |entries| then i else |entries|);
      assert r.Keys() == if i < |entries| then Keys() else Keys() + [k];
      PositionInKeys(r, k);
      r
    }
  }

  /** The first position of `k` is short of the end exactly when `k` is a key. */
  lemma PositionInKeys<V>(m: OrderedMap<V>, k: string)
    ensures Position(m.entries, k) < |m.entries| <==> k in m.Keys()
  {
    var p := Position(m.entries, k);
    assert p < |m.entries| ==> m.Keys()[p] == k;
    if k in m.Keys() {
      var j :| 0 <= j < |m.entries| && m.Keys()[j] == k;
      assert m.entries[j].0 == k;
    }
  }

  lemma PositionIs<V>(es: seq<(string, V)>, k: string, i: nat)
    requires i <= |es|
    requires i < |es| ==> es[i].0 == k
    requires forall j :: 0 <= j < i ==> es[j].0 != k
    ensures Position(es, k) == i
  {
  }

  /** In a dict without repeated keys, the key of entry `i` looks up its value. */
  lemma GetAt<V>(m: OrderedMap<V>, i: nat)
    requires m.Valid() && i < |m.entries|
    ensures m.Get(m.entries[i].0) == Some(m.entries[i].1)
  {
    assert forall j :: 0 <= j < i ==> m.Keys()[j] != m.Keys()[i];
    assert forall j :: 0 <= j < i ==> m.entries[j].0 == m.Keys()[j];
    PositionIs(m.entries, m.entries[i].0, i);
  }

  /** Writing key `k` leaves every other key's value alone. */
  lemma PutOthers<V>(m: OrderedMap<V>, k: string, v: V, r: OrderedMap<V>)
    requires var i := Position(m.entries, k);
      r == if i < |m.entries| then OrderedMap(m.entries[i := (k, v)]) else OrderedMap(m.entries + [(k, v)])
    ensures forall k' :: k' != k ==> r.Get(k') == m.Get(k')
  {
    var i := Position(m.entries, k);
    forall k' | k' != k
      ensures r.Get(k') == m.Get(k')
    {
      var p := Position(m.entries, k');
      if p < |m.entries| {
        PositionIs(r.entries, k', p);
      } else if i < |m.entries| {
        PositionIs(r.entries, k', p);
      } else {
        PositionIs(r.entries, k', p + 1);
      }
    }
  }

  /** Python's `{k: v for k in ks}`: one entry per distinct key, in the order of
      first occurrence, all holding `v`. */
  function FromKeys<V>(ks: seq<string>, v: V): (m: OrderedMap<V>)
    ensures m.Valid() && m.Keys() == Dedup(ks)
    ensures forall i :: 0 <= i < |m.entries| ==> m.entries[i].1 == v
  {
    var d := Dedup(ks);
    var m := OrderedMap(seq(|d|, i requires 0 <= i < |d| => (d[i], v)));
    assert m.Keys() == d;
    m
  }

  /** If a dict's keys are the first occurrences of `ks`, then after `d[k] = v`
      they are the first occurrences of `ks + [k]`. */
  lemma PutKeepsOrder<V>(m: OrderedMap<V>, ks: seq<string>, k: string, v: V)
    requires m.Keys() == Dedup(ks)
    ensures m.Put(k, v).Keys() == Dedup(ks + [k])
  {
    DedupSnoc(ks, k);
  }
}
