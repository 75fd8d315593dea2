/**
 * Python dictionaries, as the sequence of their items in insertion order.
 * The source builds its lookup tables with `dict(rows)`, dict comprehensions
 * and first-wins loops; which item survives a repeated key matters.
 */
module Dicts {

  /** No key occurs twice: the items of an actual dict. */
  predicate DistinctKeys<K(==), V>(ps: seq<(K, V)>) {
    forall i, j :: 0 <= i < j < |ps| ==> ps[i].0 != ps[j].0
  }

  /** No value occurs twice. */
  predicate DistinctValues<K, V(==)>(ps: seq<(K, V)>) {
    forall i, j :: 0 <= i < j < |ps| ==> ps[i].1 != ps[j].1
  }

  function KeySet<K, V>(ps: seq<(K, V)>): set<K> {
    set i | 0 <= i < |ps| :: ps[i].0
  }

  function ValueSet<K, V>(ps: seq<(K, V)>): set<V> {
    set i | 0 <= i < |ps| :: ps[i].1
  }

  /** `list(d.keys())`: every key, in insertion order. */
  function Keys<K, V>(ps: seq<(K, V)>): (ks: seq<K>)
    ensures |ks| == |ps|
    ensures forall i :: 0 <= i < |ps| ==> ks[i] == ps[i].0
  {
    seq(|ps|, i requires 0 <= i < |ps| => ps[i].0)
  }

  /** Item `i` is the last one with its key. */
  predicate LastWithKey<K(==), V>(ps: seq<(K, V)>, i: int) {
    0 <= i < |ps| && forall j :: i < j < |ps| ==> ps[j].0 != ps[i].0
  }

  /** Item `i` is the first one with its key. */
  predicate FirstWithKey<K(==), V>(ps: seq<(K, V)>, i: int) {
    0 <= i < |ps| && forall j :: 0 <= j < i ==> ps[j].0 != ps[i].0
  }

  /**
   * `dict(items)` or `{k: v for k, v in items}`: every key of the items, bound
   * to the value of the last item that has it.
   */
  function MapOf<K, V>(ps: seq<(K, V)>): (m: map<K, V>)
    ensures m.Keys == KeySet(ps)
  {
    if |ps| == 0 then map[]
    else
      var init := ps[..|ps| - 1];
      assert KeySet(ps) == KeySet(init) + {ps[|ps| - 1].0} by {
        assert forall i :: 0 <= i < |init| ==> init[i] == ps[i];
      }
      MapOf(init)[ps[|ps| - 1].0 := ps[|ps| - 1].1]
  }

  /** The last item with a key decides that key's value. */
  lemma {:induction false} MapOfLast<K, V>(ps: seq<(K, V)>, i: int)
    requires LastWithKey(ps, i)
    ensures ps[i].0 in MapOf(ps) && MapOf(ps)[ps[i].0] == ps[i].1
  {
    if i < |ps| - 1 {
      var init := ps[..|ps| - 1];
      assert LastWithKey(init, i) by {
        forall j | i < j < |init|
          ensures init[j].0 != init[i].0
        {
          assert init[j] == ps[j];
        }
      }
      MapOfLast(init, i);
    }
  }

  /** Every entry of `MapOf` comes from the last item with that key. */
  lemma MapOfSource<K, V>(ps: seq<(K, V)>, k: K) returns (i: int)
    requires k in MapOf(ps)
    ensures LastWithKey(ps, i) && ps[i] == (k, MapOf(ps)[k])
  {
    assert k in KeySet(ps);
    i :| 0 <= i < |ps| && ps[i].0 == k;
    while exists j :: i < j < |ps| && ps[j].0 == k
      invariant 0 <= i < |ps| && ps[i].0 == k
      decreases |ps| - i
    {
      var i' :| i < i' < |ps| && ps[i'].0 == k;
      i := i';
    }
    MapOfLast(ps, i);
  }

  /** A dict built from items with distinct keys holds exactly those items. */
  lemma MapOfDistinct<K, V>(ps: seq<(K, V)>, i: int)
    requires DistinctKeys(ps) && 0 <= i < |ps|
    ensures ps[i].0 in MapOf(ps) && MapOf(ps)[ps[i].0] == ps[i].1
  {
    MapOfLast(ps, i);
  }

  function Swap<K, V>(ps: seq<(K, V)>): (qs: seq<(V, K)>)
    ensures |qs| == |ps|
    ensures forall i :: 0 <= i < |ps| ==> qs[i] == (ps[i].1, ps[i].0)
  {
    seq(|ps|, i requires 0 <= i < |ps| => (ps[i].1, ps[i].0))
  }

  /**
   * `{v: k for k, v in d.items()}`: keyed by the values; among keys sharing a
   * value, the last one wins.
   */
  function Invert<K, V>(ps: seq<(K, V)>): (m: map<V, K>)
    ensures m.Keys == ValueSet(ps)
  {
    var qs := Swap(ps);
    assert KeySet(qs) == ValueSet(ps) by {
      forall v | v in ValueSet(ps) ensures v in KeySet(qs) {
        var i :| 0 <= i < |ps| && ps[i].1 == v;
        assert qs[i].0 == v;
      }
    }
    MapOf(qs)
  }

  /** With distinct values, the inversion undoes the dict: `rev[d[k]] == k`. */
  lemma {:induction false} InvertUndoes<K, V>(ps: seq<(K, V)>, i: int)
    requires DistinctValues(ps) && 0 <= i < |ps|
    ensures ps[i].1 in Invert(ps) && Invert(ps)[ps[i].1] == ps[i].0
  {
    var qs := Swap(ps);
    assert LastWithKey(qs, i);
    MapOfLast(qs, i);
  }

  /** Every entry of an inversion maps a value back to a key that has it. */
  lemma InvertSource<K, V>(ps: seq<(K, V)>, v: V) returns (i: int)
    requires v in Invert(ps)
    ensures 0 <= i < |ps| && ps[i] == (Invert(ps)[v], v)
    ensures forall j :: i < j < |ps| ==> ps[j].1 != v
  {
    var qs := Swap(ps);
    i := MapOfSource(qs, v);
  }

  /**
   * `result = {}; for k, v in items: if k not in result: result[k] = v`:
   * the first item of every key, in the order the keys first appear.
   */
  function FirstWins<K(==), V>(ps: seq<(K, V)>): (d: seq<(K, V)>)
    ensures DistinctKeys(d)
    ensures KeySet(d) == KeySet(ps)
    ensures forall j :: FirstWithKey(ps, j) ==> ps[j] in d
  {
    if |ps| == 0 then []
    else
      var init := ps[..|ps| - 1];
      var d0 := FirstWins(init);
      var p := ps[|ps| - 1];
      var d := if p.0 in KeySet(d0) then d0 else d0 + [p];
      FirstWinsStep(ps, init, d0, d);
      d
  }

  lemma FirstWinsStep<K, V>(ps: seq<(K, V)>, init: seq<(K, V)>, d0: seq<(K, V)>, d: seq<(K, V)>)
    requires |ps| > 0 && init == ps[..|ps| - 1]
    requires DistinctKeys(d0) && KeySet(d0) == KeySet(init)
    requires forall j :: FirstWithKey(init, j) ==> init[j] in d0
    requires d == if ps[|ps| - 1].0 in KeySet(d0) then d0 else d0 + [ps[|ps| - 1]]
    ensures DistinctKeys(d) && KeySet(d) == KeySet(ps)
    ensures forall j :: FirstWithKey(ps, j) ==> ps[j] in d
  {
    var p := ps[|ps| - 1];
    KeySetSnoc(ps);
    forall j | FirstWithKey(ps, j)
      ensures ps[j] in d
    {
      if j < |init| {
        assert init[j] == ps[j];
        assert FirstWithKey(init, j) by {
          forall k | 0 <= k < j ensures init[k].0 != init[j].0 {
            assert init[k] == ps[k];
          }
        }
      } else {
        assert p.0 !in KeySet(init) by {
          forall k | 0 <= k < |init| ensures init[k].0 != p.0 {
            assert init[k] == ps[k];
          }
        }
      }
    }
    if p.0 !in KeySet(d0) {
      KeySetSnoc(d);
      assert d[..|d| - 1] == d0;
      DistinctKeysSnoc(d);
    }
  }

  /** The listed keys hold exactly the keys of the set. */
  lemma KeysListed<K, V>(ps: seq<(K, V)>)
    ensures forall k :: k in Keys(ps) <==> k in KeySet(ps)
  {
    forall k | k in KeySet(ps) ensures k in Keys(ps) {
      var i :| 0 <= i < |ps| && ps[i].0 == k;
      assert Keys(ps)[i] == k;
    }
  }

  /** The dict of a first-wins loop binds every key to the value of its first item. */
  lemma FirstWinsValue<K, V>(ps: seq<(K, V)>, j: int)
    requires FirstWithKey(ps, j)
    ensures ps[j].0 in MapOf(FirstWins(ps)) && MapOf(FirstWins(ps))[ps[j].0] == ps[j].1
  {
    var d := FirstWins(ps);
    var i :| 0 <= i < |d| && d[i] == ps[j];
    MapOfDistinct(d, i);
  }

  /** The position of a key in a dict. */
  function IndexOfKey<K(==), V>(d: seq<(K, V)>, k: K): (i: nat)
    requires k in KeySet(d)
    ensures i < |d| && d[i].0 == k
  {
    if d[0].0 == k then 0
    else
      assert k in KeySet(d[1..]) by {
        var j :| 0 <= j < |d| && d[j].0 == k;
        assert d[1..][j - 1] == d[j];
      }
      1 + IndexOfKey(d[1..], k)
  }

  lemma PutExisting<K, V>(d: seq<(K, V)>, i: nat, v: V)
    requires DistinctKeys(d) && i < |d|
    ensures var r := d[i := (d[i].0, v)];
      && DistinctKeys(r)
      && KeySet(r) == KeySet(d)
      && MapOf(r) == MapOf(d)[d[i].0 := v]
  {
    PutSameKeys(d, i, v);
    PutValues(d, i, v);
    var r := d[i := (d[i].0, v)];
    assert MapOf(r).Keys == MapOf(d)[d[i].0 := v].Keys;
  }

  /** Replacing the value of an item keeps every key where it was. */
  lemma PutSameKeys<K, V>(d: seq<(K, V)>, i: nat, v: V)
    requires DistinctKeys(d) && i < |d|
    ensures var r := d[i := (d[i].0, v)];
      DistinctKeys(r) && KeySet(r) == KeySet(d)
  {
    var r := d[i := (d[i].0, v)];
    assert forall j :: 0 <= j < |d| ==> r[j].0 == d[j].0;
    forall x | x in KeySet(r) ensures x in KeySet(d) {
      var j :| 0 <= j < |r| && r[j].0 == x;
      assert d[j].0 == x;
    }
    forall x | x in KeySet(d) ensures x in KeySet(r) {
      var j :| 0 <= j < |d| && d[j].0 == x;
      assert r[j].0 == x;
    }
  }

  /** Replacing the value of an item rebinds its key alone. */
  lemma PutValues<K, V>(d: seq<(K, V)>, i: nat, v: V)
    requires DistinctKeys(d) && i < |d|
    ensures var r := d[i := (d[i].0, v)];
      forall x :: x in MapOf(r) ==> x in MapOf(d)[d[i].0 := v] && MapOf(r)[x] == MapOf(d)[d[i].0 := v][x]
  {
    PutSameKeys(d, i, v);
    var k := d[i].0;
    var r := d[i := (k, v)];
    forall x | x in MapOf(r)
      ensures x in MapOf(d)[k := v] && MapOf(r)[x] == MapOf(d)[k := v][x]
    {
      var j :| 0 <= j < |r| && r[j].0 == x;
      MapOfDistinct(r, j);
      if j == i {
        assert x == k && r[j].1 == v;
      } else {
        MapOfDistinct(d, j);
        assert r[j] == d[j] && d[j].0 != d[i].0;
      }
    }
  }

  lemma PutNew<K, V>(d: seq<(K, V)>, k: K, v: V)
    requires DistinctKeys(d) && k !in KeySet(d)
    ensures var r := d + [(k, v)];
      && DistinctKeys(r)
      && KeySet(r) == KeySet(d) + {k}
      && MapOf(r) == MapOf(d)[k := v]
  {
    var r := d + [(k, v)];
    assert forall j :: 0 <= j < |d| ==> r[j] == d[j];
    assert r[..|r| - 1] == d;
    forall x | x in KeySet(d) ensures x in KeySet(r) {
      var j :| 0 <= j < |d| && d[j].0 == x;
      assert r[j].0 == x;
    }
    assert r[|d|].0 == k;
  }

  /** `d[k] = v` on a dict: a new key goes last, an existing key keeps its place. */
  function Put<K(==), V>(d: seq<(K, V)>, k: K, v: V): (r: seq<(K, V)>)
    requires DistinctKeys(d)
    ensures DistinctKeys(r)
    ensures KeySet(r) == KeySet(d) + {k}
    ensures MapOf(r) == MapOf(d)[k := v]
  {
    if k in KeySet(d) then
      var i := IndexOfKey(d, k);
      PutExisting(d, i, v);
      d[i := (k, v)]
    else
      PutNew(d, k, v);
      d + [(k, v)]
  }

  /** A dict filled by `d[k] = v` for each item in turn. */
  function DictOf<K(==), V>(ps: seq<(K, V)>): (d: seq<(K, V)>)
    ensures DistinctKeys(d)
    ensures KeySet(d) == KeySet(ps)
    ensures MapOf(d) == MapOf(ps)
  {
    if |ps| == 0 then []
    else
      var init := ps[..|ps| - 1];
      assert KeySet(ps) == KeySet(init) + {ps[|ps| - 1].0} by {
        assert forall i :: 0 <= i < |init| ==> init[i] == ps[i];
      }
      Put(DictOf(init), ps[|ps| - 1].0, ps[|ps| - 1].1)
  }

  /** Items are as many as their keys exactly when no key repeats. */
  lemma {:induction false} KeyCount<K, V>(ps: seq<(K, V)>)
    ensures |KeySet(ps)| <= |ps|
    ensures |KeySet(ps)| == |ps| <==> DistinctKeys(ps)
  {
    if |ps| > 0 {
      var init := ps[..|ps| - 1];
      var last := ps[|ps| - 1].0;
      KeyCount(init);
      KeySetSnoc(ps);
      if last in KeySet(init) {
        var i :| 0 <= i < |init| && init[i].0 == last;
        assert ps[i].0 == ps[|ps| - 1].0;
      } else {
        DistinctKeysSnoc(ps);
      }
    }
  }

  /** The keys of a non-empty sequence are those of all but its last item, and the last item's. */
  lemma KeySetSnoc<K, V>(ps: seq<(K, V)>)
    requires |ps| > 0
    ensures KeySet(ps) == KeySet(ps[..|ps| - 1]) + {ps[|ps| - 1].0}
  {
    var init := ps[..|ps| - 1];
    forall x | x in KeySet(ps) ensures x in KeySet(init) + {ps[|ps| - 1].0} {
      var i :| 0 <= i < |ps| && ps[i].0 == x;
      if i < |init| { assert init[i] == ps[i]; }
    }
    forall x | x in KeySet(init) ensures x in KeySet(ps) {
      var i :| 0 <= i < |init| && init[i].0 == x;
      assert ps[i] == init[i];
    }
  }

  /** A last item with a new key keeps the keys distinct exactly when they were before it. */
  lemma DistinctKeysSnoc<K, V>(ps: seq<(K, V)>)
    requires |ps| > 0 && ps[|ps| - 1].0 !in KeySet(ps[..|ps| - 1])
    ensures DistinctKeys(ps) <==> DistinctKeys(ps[..|ps| - 1])
  {
    var init := ps[..|ps| - 1];
    if DistinctKeys(init) {
      forall i, j | 0 <= i < j < |ps| ensures ps[i].0 != ps[j].0 {
        assert init[i] == ps[i];
        if j < |ps| - 1 { assert init[j] == ps[j]; }
      }
    }
    if DistinctKeys(ps) {
      forall i, j | 0 <= i < j < |init| ensures init[i].0 != init[j].0 {
        assert init[i] == ps[i] && init[j] == ps[j];
      }
    }
  }

  /** Filling a dict from items whose keys never repeat keeps the items as they are. */
  lemma {:induction false} DictOfDistinct<K, V>(ps: seq<(K, V)>)
    requires DistinctKeys(ps)
    ensures DictOf(ps) == ps
  {
    if |ps| > 0 {
      var init := ps[..|ps| - 1];
      assert DistinctKeys(init) by {
        forall i, j | 0 <= i < j < |init| ensures init[i].0 != init[j].0 {
          assert init[i] == ps[i] && init[j] == ps[j];
        }
      }
      DictOfDistinct(init);
      forall i | 0 <= i < |init| ensures init[i].0 != ps[|ps| - 1].0 {
        assert init[i] == ps[i];
      }
      assert init + [ps[|ps| - 1]] == ps;
    }
  }
}
