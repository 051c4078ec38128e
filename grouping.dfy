/** pandas' groupby(...).sum(): entries are summed per key, and the groups
    come out once per key, in ascending key order. A key has two levels
    compared lexicographically, which covers every grouping in the system:
    (myoji_index), (male, age) and (myoji, male), with False before True. */
module Grouping {

  datatype Key = Key(hi: int, lo: int)

  /** The order groupby sorts its keys in. */
  predicate Less(a: Key, b: Key) {
    a.hi < b.hi || (a.hi == b.hi && a.lo < b.lo)
  }

  /** One value to be summed under one key (a row of the grouped frame). */
  datatype Entry = Entry(key: Key, value: real)

  /** One row of the grouped result. */
  datatype Group = Group(key: Key, total: real)

  /** Each key is below the next one, so keys are ascending and unique. */
  predicate StrictlySorted(gs: seq<Group>) {
    forall i :: 0 <= i < |gs| - 1 ==> Less(gs[i].key, gs[i + 1].key)
  }

  function KeySet(gs: seq<Group>): set<Key> {
    if gs == [] then {} else {gs[0].key} + KeySet(gs[1..])
  }

  function EntryKeys(es: seq<Entry>): set<Key> {
    if es == [] then {} else {es[0].key} + EntryKeys(es[1..])
  }

  /** The total of the groups with key k (0 when there is none). */
  function SumFor(gs: seq<Group>, k: Key): real {
    if gs == [] then 0.0
    else (if gs[0].key == k then gs[0].total else 0.0) + SumFor(gs[1..], k)
  }

  function Total(gs: seq<Group>): real {
    if gs == [] then 0.0 else gs[0].total + Total(gs[1..])
  }

  /** The sum of the values entered under key k. */
  function EntrySum(es: seq<Entry>, k: Key): real {
    if es == [] then 0.0
    else (if es[0].key == k then es[0].value else 0.0) + EntrySum(es[1..], k)
  }

  function EntryTotal(es: seq<Entry>): real {
    if es == [] then 0.0 else es[0].value + EntryTotal(es[1..])
  }

  /** Adds v under key k to a sorted group list: the group with key k grows
      by v, or a new group is placed where the order puts it. */
  function Insert(gs: seq<Group>, k: Key, v: real): (r: seq<Group>)
    requires StrictlySorted(gs)
    ensures StrictlySorted(r)
    ensures KeySet(r) == KeySet(gs) + {k}
    ensures forall j :: SumFor(r, j) == SumFor(gs, j) + (if j == k then v else 0.0)
    ensures Total(r) == Total(gs) + v
    ensures r[0].key == k || (gs != [] && r[0].key == gs[0].key)
  {
    if gs == [] then
      assert [Group(k, v)][1..] == [];
      [Group(k, v)]
    else if gs[0].key == k then
      var r := [Group(k, gs[0].total + v)] + gs[1..];
      assert r[1..] == gs[1..];
      r
    else if Less(k, gs[0].key) then
      var r := [Group(k, v)] + gs;
      assert r[1..] == gs;
      r
    else
      var rest := Insert(gs[1..], k, v);
      var r := [gs[0]] + rest;
      assert r[1..] == rest;
      r
  }

  /** groupby(key).sum() over a list of entries. */
  function GroupSums(es: seq<Entry>): (r: seq<Group>)
    ensures StrictlySorted(r)
    ensures KeySet(r) == EntryKeys(es)
    ensures forall k :: SumFor(r, k) == EntrySum(es, k)
    ensures Total(r) == EntryTotal(es)
  {
    if es == [] then [] else Insert(GroupSums(es[1..]), es[0].key, es[0].value)
  }

  /** Sortedness of neighbours gives sortedness of any two positions. */
  lemma {:induction false} SortedAt(gs: seq<Group>, i: nat, j: nat)
    requires StrictlySorted(gs) && i < j < |gs|
    ensures Less(gs[i].key, gs[j].key)
  {
    if j > i + 1 {
      SortedAt(gs, i, j - 1);
    }
  }

  lemma {:induction false} KeySetAt(gs: seq<Group>, k: Key)
    ensures k in KeySet(gs) <==> exists i :: 0 <= i < |gs| && gs[i].key == k
  {
    if gs != [] {
      KeySetAt(gs[1..], k);
      if k in KeySet(gs[1..]) {
        var i :| 0 <= i < |gs| - 1 && gs[1..][i].key == k;
        assert gs[i + 1].key == k;
      }
      if exists i :: 0 <= i < |gs| && gs[i].key == k {
        var i :| 0 <= i < |gs| && gs[i].key == k;
        if i > 0 { assert gs[1..][i - 1].key == k; }
      }
    }
  }

  lemma {:induction false} EntryKeysAt(es: seq<Entry>, k: Key)
    ensures k in EntryKeys(es) <==> exists i :: 0 <= i < |es| && es[i].key == k
  {
    if es != [] {
      EntryKeysAt(es[1..], k);
      if k in EntryKeys(es[1..]) {
        var i :| 0 <= i < |es| - 1 && es[1..][i].key == k;
        assert es[i + 1].key == k;
      }
      if exists i :: 0 <= i < |es| && es[i].key == k {
        var i :| 0 <= i < |es| && es[i].key == k;
        if i > 0 { assert es[1..][i - 1].key == k; }
      }
    }
  }

  /** In a sorted group list each key occurs once, so the group at position
      i holds the whole total of its key. */
  lemma {:induction false} SumForAt(gs: seq<Group>, i: nat)
    requires StrictlySorted(gs) && i < |gs|
    ensures SumFor(gs, gs[i].key) == gs[i].total
  {
    if i == 0 {
      forall m | 0 <= m < |gs| - 1 ensures gs[1..][m].key != gs[0].key {
        SortedAt(gs, 0, m + 1);
      }
      SumForAbsent(gs[1..], gs[0].key);
    } else {
      SortedAt(gs, 0, i);
      assert gs[1..][i - 1] == gs[i];
      SumForAt(gs[1..], i - 1);
    }
  }

  /** A key that no group carries sums to 0 (the pivot's fillna(0)). */
  lemma {:induction false} SumForAbsent(gs: seq<Group>, k: Key)
    requires forall i :: 0 <= i < |gs| ==> gs[i].key != k
    ensures SumFor(gs, k) == 0.0
  {
    if gs != [] {
      SumForAbsent(gs[1..], k);
    }
  }

  function ZeroEntries(ks: seq<Key>): (r: seq<Entry>)
    ensures |r| == |ks| && forall i :: 0 <= i < |ks| ==> r[i] == Entry(ks[i], 0.0)
  {
    seq(|ks|, i requires 0 <= i < |ks| => Entry(ks[i], 0.0))
  }

  /** The keys of ks, once each, in ascending order (the index or the
      columns a pivot produces). */
  function SortedKeys(ks: seq<Key>): seq<Key> {
    var gs := GroupSums(ZeroEntries(ks));
    seq(|gs|, i requires 0 <= i < |gs| => gs[i].key)
  }

  lemma SortedKeysSpec(ks: seq<Key>)
    ensures forall i, j :: 0 <= i < j < |SortedKeys(ks)| ==> Less(SortedKeys(ks)[i], SortedKeys(ks)[j])
    ensures forall k :: k in SortedKeys(ks) <==> k in ks
  {
    var es := ZeroEntries(ks);
    var gs := GroupSums(es);
    var sk := SortedKeys(ks);
    assert |sk| == |gs| && forall i :: 0 <= i < |gs| ==> sk[i] == gs[i].key;
    forall i, j | 0 <= i < j < |gs| ensures Less(sk[i], sk[j]) {
      SortedAt(gs, i, j);
    }
    forall k ensures k in sk <==> k in ks {
      SortedKeysHas(ks, k);
    }
  }

  lemma SortedKeysHas(ks: seq<Key>, k: Key)
    ensures k in SortedKeys(ks) <==> k in ks
  {
    var es := ZeroEntries(ks);
    var gs := GroupSums(es);
    var sk := SortedKeys(ks);
    KeySetAt(gs, k);
    EntryKeysAt(es, k);
    if k in ks {
      var i :| 0 <= i < |ks| && ks[i] == k;
      assert es[i].key == k;
      var g :| 0 <= g < |gs| && gs[g].key == k;
      assert sk[g] == k;
    }
    if k in sk {
      var i :| 0 <= i < |sk| && sk[i] == k;
      assert gs[i].key == k;
    }
  }

}
