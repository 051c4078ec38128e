/** The cohort table: one row per (myoji_index, male, age) cohort with its
    head count `num`, and the per-year summaries written beside it. */
module Cohort {
  import opened Grouping

  /** A row of the cohort table; `num` is a pandas float, here an exact real. */
  datatype Row = Row(myoji: nat, male: bool, age: nat, num: real)

  /** df['num'].sum() */
  function Weight(t: seq<Row>): real {
    if t == [] then 0.0 else t[0].num + Weight(t[1..])
  }

  lemma {:induction false} WeightAppend(a: seq<Row>, b: seq<Row>)
    ensures Weight(a + b) == Weight(a) + Weight(b)
  {
    if a == [] {
      assert a + b == b;
    } else {
      assert (a + b)[1..] == a[1..] + b;
      WeightAppend(a[1..], b);
    }
  }

  predicate NonNegative(t: seq<Row>) {
    forall i :: 0 <= i < |t| ==> t[i].num >= 0.0
  }

  /** The boolean level of a group key: False sorts before True. */
  function SexLevel(male: bool): int {
    if male then 1 else 0
  }

  /** The key of groupby('myoji_index'). */
  function MyojiKey(r: Row): Key {
    Key(r.myoji, 0)
  }

  /** The key of groupby(['male', 'age']). */
  function AgeKey(r: Row): Key {
    Key(SexLevel(r.male), r.age)
  }

  /** The (key, num) pairs a group-by over the table sums. */
  function EntriesBy(t: seq<Row>, key: Row -> Key): (es: seq<Entry>)
    ensures |es| == |t|
    ensures forall i :: 0 <= i < |t| ==> es[i] == Entry(key(t[i]), t[i].num)
  {
    if t == [] then [] else [Entry(key(t[0]), t[0].num)] + EntriesBy(t[1..], key)
  }

  /** The head count of the rows whose key is k. */
  function WeightWith(t: seq<Row>, key: Row -> Key, k: Key): real {
    if t == [] then 0.0
    else (if key(t[0]) == k then t[0].num else 0.0) + WeightWith(t[1..], key, k)
  }

  /** df.groupby('myoji_index')['num'].sum() */
  function MyojiSummary(t: seq<Row>): seq<Group> {
    GroupSums(EntriesBy(t, MyojiKey))
  }

  /** df.groupby(['male', 'age'])['num'].sum() */
  function AgeSummary(t: seq<Row>): seq<Group> {
    GroupSums(EntriesBy(t, AgeKey))
  }

  lemma {:induction false} EntriesByTotal(t: seq<Row>, key: Row -> Key)
    ensures EntryTotal(EntriesBy(t, key)) == Weight(t)
  {
    if t != [] {
      assert EntriesBy(t, key)[1..] == EntriesBy(t[1..], key);
      EntriesByTotal(t[1..], key);
    }
  }

  lemma {:induction false} EntriesBySum(t: seq<Row>, key: Row -> Key, k: Key)
    ensures EntrySum(EntriesBy(t, key), k) == WeightWith(t, key, k)
  {
    if t != [] {
      assert EntriesBy(t, key)[1..] == EntriesBy(t[1..], key);
      EntriesBySum(t[1..], key, k);
    }
  }

  /** Both summaries partition the whole population: their groups add up
      to the table's total head count. */
  lemma SummariesTotal(t: seq<Row>)
    ensures Total(MyojiSummary(t)) == Weight(t)
    ensures Total(AgeSummary(t)) == Weight(t)
  {
    EntriesByTotal(t, MyojiKey);
    EntriesByTotal(t, AgeKey);
  }

  /** Each summary group is keyed once and holds exactly the head count of
      the rows with its key; a key no row has does not appear. */
  lemma SummaryGroups(t: seq<Row>, key: Row -> Key)
    ensures StrictlySorted(GroupSums(EntriesBy(t, key)))
    ensures forall i :: 0 <= i < |GroupSums(EntriesBy(t, key))| ==>
      GroupSums(EntriesBy(t, key))[i].total == WeightWith(t, key, GroupSums(EntriesBy(t, key))[i].key)
    ensures forall k :: k in KeySet(GroupSums(EntriesBy(t, key))) <==> exists i :: 0 <= i < |t| && key(t[i]) == k
  {
    var es := EntriesBy(t, key);
    var gs := GroupSums(es);
    forall i | 0 <= i < |gs| ensures gs[i].total == WeightWith(t, key, gs[i].key) {
      SumForAt(gs, i);
      EntriesBySum(t, key, gs[i].key);
    }
    forall k ensures k in KeySet(gs) <==> exists i :: 0 <= i < |t| && key(t[i]) == k {
      EntryKeysAt(es, k);
      if exists i :: 0 <= i < |t| && key(t[i]) == k {
        var i :| 0 <= i < |t| && key(t[i]) == k;
        assert es[i].key == k;
      }
    }
  }
}
