/** The aggregation job: every per-year cohort table written by the
    simulator is found by its file name, read in sorted path order and
    summed by (male, age) and by surname; the per-year sums are then
    pivoted into one table per grouping, with one column per year, zero in
    the cells a year lacks, and the cells and the index levels cast to
    unsigned integers. The file reads and writes are left to the caller:
    the model takes each path with its table. */
module Aggregate {
  import opened Wrappers
  import opened Numeric
  import opened Decimal
  import opened Grouping
  import opened Cohort

  const Prefix: string := "output/01/df_generation_"
  const Suffix: string := ".pkl"

  /** A file the glob found: its path and the cohort table it holds. */
  datatype YearFile = YearFile(path: string, table: seq<Row>)

  /** One year's group-by result with its year column. */
  datatype Frame = Frame(year: int, groups: seq<Group>)

  datatype AggregateError =
    | BadYear(path: string)   // int() rejects what is left of the file name
    | NoTables                // concat of an empty list
    | DuplicateEntries        // pivot finds one (key, year) pair twice

  // File names and years.

  /** str.replace(pat, ''): the occurrences of pat found scanning from the
      left, each after the previous one, are removed. */
  function RemoveAll(s: string, pat: string): (r: string)
    requires pat != []
    ensures |r| <= |s|
    decreases |s|
  {
    if |s| < |pat| then s
    else if s[..|pat|] == pat then RemoveAll(s[|pat|..], pat)
    else [s[0]] + RemoveAll(s[1..], pat)
  }

  /** pat occurs in s starting at position k. */
  predicate OccursAt(s: string, pat: string, k: int) {
    0 <= k && k + |pat| <= |s| && s[k..k + |pat|] == pat
  }

  /** Without an occurrence of pat, str.replace leaves s as it is. */
  lemma RemoveAllNone(s: string, pat: string)
    requires pat != []
    requires forall k :: 0 <= k <= |s| - |pat| ==> !OccursAt(s, pat, k)
    ensures RemoveAll(s, pat) == s
  {
    assert s + [] == s;
    RemoveAllKeeps(s, [], pat);
  }

  /** str.replace removes the leftmost occurrence first: the text before it
      stays, the occurrence goes, and the rest is handled the same way. */
  lemma RemoveAllFirst(s: string, pat: string, k: nat)
    requires pat != [] && OccursAt(s, pat, k)
    requires forall j :: 0 <= j < k ==> !OccursAt(s, pat, j)
    ensures RemoveAll(s, pat) == s[..k] + RemoveAll(s[k + |pat|..], pat)
  {
    var v := s[k..];
    assert s[..k] + v == s;
    RemoveAllKeeps(s[..k], v, pat);
    assert v[..|pat|] == pat && v[|pat|..] == s[k + |pat|..];
  }

  /** Text in front that starts no occurrence passes through unchanged. */
  lemma {:induction false} RemoveAllKeeps(u: string, v: string, pat: string)
    requires pat != []
    requires forall j :: 0 <= j < |u| ==> !OccursAt(u + v, pat, j)
    ensures RemoveAll(u + v, pat) == u + RemoveAll(v, pat)
    decreases |u|
  {
    var w := u + v;
    if u == [] {
      assert w == v;
    } else if |w| < |pat| {
      assert RemoveAll(v, pat) == v;
    } else {
      assert !OccursAt(w, pat, 0);
      RemoveAllSkip(w, pat);
      assert w[1..] == u[1..] + v;
      forall j | 0 <= j < |u[1..]| ensures !OccursAt(u[1..] + v, pat, j) {
        OccursTail(w, pat, j);
      }
      RemoveAllKeeps(u[1..], v, pat);
      assert [u[0]] + (u[1..] + RemoveAll(v, pat)) == u + RemoveAll(v, pat);
    }
  }

  /** A position of s that does not start pat is kept. */
  lemma RemoveAllSkip(s: string, pat: string)
    requires pat != [] && |s| >= |pat| && !OccursAt(s, pat, 0)
    ensures RemoveAll(s, pat) == [s[0]] + RemoveAll(s[1..], pat)
  {
  }

  lemma OccursTail(s: string, pat: string, j: nat)
    requires s != []
    ensures OccursAt(s[1..], pat, j) <==> OccursAt(s, pat, j + 1)
  {
    if j + 1 + |pat| <= |s| {
      assert s[1..][j..j + |pat|] == s[j + 1..j + 1 + |pat|];
    }
  }

  /** int(path.replace(pre, '').replace(post, '')) */
  function YearOf(path: string): Option<int> {
    ParseInt(RemoveAll(RemoveAll(path, Prefix), Suffix))
  }

  /** The decimal text of a year, with a minus sign when it is negative. */
  function YearText(y: int): string {
    if y < 0 then "-" + Digits(-y) else Digits(y)
  }

  /** The name the simulator's output for year y would have. */
  function PathOf(y: int): string {
    Prefix + YearText(y) + Suffix
  }

  /** A string none of whose characters starts the pattern. */
  predicate Avoids(s: string, c: char) {
    forall i :: 0 <= i < |s| ==> s[i] != c
  }

  lemma {:induction false} RemoveAbsent(s: string, pat: string)
    requires pat != [] && Avoids(s, pat[0])
    ensures RemoveAll(s, pat) == s
    decreases |s|
  {
    if |s| >= |pat| {
      assert s[..|pat|][0] == s[0];
      RemoveAbsent(s[1..], pat);
    }
  }

  lemma {:induction false} RemoveLeading(pat: string, s: string)
    requires pat != [] && Avoids(s, pat[0])
    ensures RemoveAll(pat + s, pat) == s
  {
    assert (pat + s)[..|pat|] == pat;
    assert (pat + s)[|pat|..] == s;
    RemoveAbsent(s, pat);
  }

  lemma {:induction false} RemoveTrailing(s: string, pat: string)
    requires pat != [] && Avoids(s, pat[0])
    ensures RemoveAll(s + pat, pat) == s
    decreases |s|
  {
    if s == [] {
      assert s + pat == pat && pat[..|pat|] == pat;
      assert pat[|pat|..] == [];
    } else {
      assert (s + pat)[..|pat|][0] == s[0];
      assert (s + pat)[1..] == s[1..] + pat;
      RemoveTrailing(s[1..], pat);
    }
  }

  /** The year key round-trips through the file name: the year parsed from
      the name of year y's output is y. */
  lemma YearOfPathOf(y: int)
    ensures YearOf(PathOf(y)) == Some(y)
  {
    var text := YearText(y);
    assert AllDigits(text[1..]) || AllDigits(text) by {
      if y < 0 {
        assert text[1..] == Digits(-y);
      }
    }
    assert Avoids(text, '.') && Avoids(text, 'o') by {
      forall i | 0 <= i < |text| ensures text[i] != '.' && text[i] != 'o' {
        if y < 0 && i > 0 {
          assert text[i] == Digits(-y)[i - 1];
        }
      }
    }
    assert Avoids(text + Suffix, 'o') by {
      forall i | 0 <= i < |text + Suffix| ensures (text + Suffix)[i] != 'o' {
        if i >= |text| {
          assert (text + Suffix)[i] == Suffix[i - |text|];
        }
      }
    }
    assert PathOf(y) == Prefix + (text + Suffix);
    RemoveLeading(Prefix, text + Suffix);
    RemoveTrailing(text, Suffix);
    ParseIntDigits(if y < 0 then -y else y);
  }

  // Sorted path order.

  /** Python's string order: code point by code point, a proper prefix
      first. */
  predicate StrLe(a: string, b: string)
    decreases |a|
  {
    a == [] || (b != [] && (a[0] < b[0] || (a[0] == b[0] && StrLe(a[1..], b[1..]))))
  }

  lemma {:induction false} StrLeTotal(a: string, b: string)
    ensures StrLe(a, b) || StrLe(b, a)
    decreases |a|
  {
    if a != [] && b != [] && a[0] == b[0] {
      StrLeTotal(a[1..], b[1..]);
    }
  }

  lemma {:induction false} StrLeTrans(a: string, b: string, c: string)
    requires StrLe(a, b) && StrLe(b, c)
    ensures StrLe(a, c)
    decreases |a|
  {
    if a != [] && a[0] == b[0] && b[0] == c[0] {
      StrLeTrans(a[1..], b[1..], c[1..]);
    }
  }

  predicate PathsSorted(fs: seq<YearFile>) {
    forall i, j :: 0 <= i < j < |fs| ==> StrLe(fs[i].path, fs[j].path)
  }

  function InsertFile(f: YearFile, fs: seq<YearFile>): (r: seq<YearFile>)
    requires PathsSorted(fs)
    ensures PathsSorted(r)
    ensures multiset(r) == multiset(fs) + multiset{f}
  {
    if fs == [] then [f]
    else if StrLe(f.path, fs[0].path) then
      SortedBefore(f, fs);
      [f] + fs
    else
      var rest := InsertFile(f, fs[1..]);
      assert fs == [fs[0]] + fs[1..];
      StrLeTotal(f.path, fs[0].path);
      SortedAfterHead(fs[0], f, fs[1..], rest);
      [fs[0]] + rest
  }

  /** A file not above the head of a sorted list may go in front of it. */
  lemma SortedBefore(f: YearFile, fs: seq<YearFile>)
    requires PathsSorted(fs) && fs != [] && StrLe(f.path, fs[0].path)
    ensures PathsSorted([f] + fs)
  {
    forall j | 0 <= j < |fs| ensures StrLe(f.path, fs[j].path) {
      if j > 0 {
        StrLeTrans(f.path, fs[0].path, fs[j].path);
      }
    }
  }

  /** The head stays in front when f is inserted into the tail behind it. */
  lemma SortedAfterHead(h: YearFile, f: YearFile, tail: seq<YearFile>, rest: seq<YearFile>)
    requires PathsSorted([h] + tail) && StrLe(h.path, f.path)
    requires PathsSorted(rest) && multiset(rest) == multiset(tail) + multiset{f}
    ensures PathsSorted([h] + rest)
  {
    forall j | 0 <= j < |rest| ensures StrLe(h.path, rest[j].path) {
      assert rest[j] in multiset(rest);
      if rest[j] != f {
        assert rest[j] in multiset(tail);
        var m :| 0 <= m < |tail| && tail[m] == rest[j];
        assert ([h] + tail)[0] == h && ([h] + tail)[m + 1] == rest[j];
      }
    }
  }

  /** sorted(paths): the files in ascending path order, none lost or
      added. */
  function SortFiles(fs: seq<YearFile>): (r: seq<YearFile>)
    ensures PathsSorted(r)
    ensures multiset(r) == multiset(fs)
  {
    if fs == [] then []
    else
      assert fs == [fs[0]] + fs[1..];
      InsertFile(fs[0], SortFiles(fs[1..]))
  }

  // The loop over the files.

  /** The two frames the loop appends for one file. */
  function AgeFrame(y: int, t: seq<Row>): Frame {
    Frame(y, AgeSummary(t))
  }

  function MyojiFrame(y: int, t: seq<Row>): Frame {
    Frame(y, MyojiSummary(t))
  }

  /** Every file name leaves an integer once the prefix and suffix go. */
  predicate AllYears(fs: seq<YearFile>) {
    forall i :: 0 <= i < |fs| ==> YearOf(fs[i].path).Some?
  }

  /** The first file whose year does not parse. */
  function FirstBadYear(fs: seq<YearFile>): (i: nat)
    requires !AllYears(fs)
    ensures i < |fs| && YearOf(fs[i].path).None?
    ensures forall j :: 0 <= j < i ==> YearOf(fs[j].path).Some?
  {
    if YearOf(fs[0].path).None? then 0
    else
      assert !AllYears(fs[1..]) by {
        var k :| 0 <= k < |fs| && YearOf(fs[k].path).None?;
        assert fs[1..][k - 1] == fs[k];
      }
      var i := FirstBadYear(fs[1..]);
      assert forall j :: 0 < j <= i ==> fs[j] == fs[1..][j - 1];
      i + 1
  }

  /** The ages and myojis lists after the loop, or the error of the first
      file (in the order given) whose year does not parse. */
  function Frames(fs: seq<YearFile>): (r: Result<(seq<Frame>, seq<Frame>), AggregateError>)
    ensures r.Ok? <==> AllYears(fs)
    ensures r.Ok? ==> |r.value.0| == |fs| && |r.value.1| == |fs|
    ensures r.Ok? ==> forall i :: 0 <= i < |fs| ==>
      r.value.0[i] == AgeFrame(YearOf(fs[i].path).value, fs[i].table) &&
      r.value.1[i] == MyojiFrame(YearOf(fs[i].path).value, fs[i].table)
    ensures r.Err? ==> r.error == BadYear(fs[FirstBadYear(fs)].path)
  {
    if AllYears(fs) then
      Ok((seq(|fs|, i requires 0 <= i < |fs| => AgeFrame(YearOf(fs[i].path).value, fs[i].table)),
          seq(|fs|, i requires 0 <= i < |fs| => MyojiFrame(YearOf(fs[i].path).value, fs[i].table))))
    else Err(BadYear(fs[FirstBadYear(fs)].path))
  }

  /** The for loop over sorted(paths): each year key is parsed and both
      group-by sums are appended; int() raising ends the job. */
  method Collect(files: seq<YearFile>) returns (r: Result<(seq<Frame>, seq<Frame>), AggregateError>)
    ensures r == Frames(SortFiles(files))
  {
    var paths := SortFiles(files);
    var ages: seq<Frame> := [];
    var myojis: seq<Frame> := [];
    var i := 0;
    while i < |paths|
      invariant 0 <= i <= |paths|
      invariant Frames(paths[..i]) == Ok((ages, myojis))
    {
      var year := YearOf(paths[i].path);
      if year.None? {
        FramesStop(paths, i);
        return Err(BadYear(paths[i].path));
      }
      FramesStep(paths, i);
      ages := ages + [AgeFrame(year.value, paths[i].table)];
      myojis := myojis + [MyojiFrame(year.value, paths[i].table)];
      i := i + 1;
    }
    assert paths[..i] == paths;
    r := Ok((ages, myojis));
  }

  /** One more file with a year extends both lists by its frames. */
  lemma FramesStep(fs: seq<YearFile>, i: nat)
    requires i < |fs| && Frames(fs[..i]).Ok? && YearOf(fs[i].path).Some?
    ensures Frames(fs[..i + 1]) == Ok((
      Frames(fs[..i]).value.0 + [AgeFrame(YearOf(fs[i].path).value, fs[i].table)],
      Frames(fs[..i]).value.1 + [MyojiFrame(YearOf(fs[i].path).value, fs[i].table)]))
  {
    var before := fs[..i];
    var after := fs[..i + 1];
    assert forall j :: 0 <= j < i ==> after[j] == before[j];
    assert AllYears(after);
    var f := fs[i];
    var y := YearOf(f.path).value;
    var (a, m) := Frames(before).value;
    var (a', m') := Frames(after).value;
    assert after[i] == f;
    forall k | 0 <= k < i ensures a'[k] == a[k] && m'[k] == m[k] {
      assert after[k] == before[k];
    }
    Snoc(a', a, AgeFrame(y, f.table));
    Snoc(m', m, MyojiFrame(y, f.table));
  }

  lemma Snoc(longer: seq<Frame>, s: seq<Frame>, x: Frame)
    requires |longer| == |s| + 1 && longer[|s|] == x
    requires forall k :: 0 <= k < |s| ==> longer[k] == s[k]
    ensures longer == s + [x]
  {
  }

  /** The first file without a year decides the error. */
  lemma FramesStop(fs: seq<YearFile>, i: nat)
    requires i < |fs| && Frames(fs[..i]).Ok? && YearOf(fs[i].path).None?
    ensures Frames(fs) == Err(BadYear(fs[i].path))
  {
    assert forall j :: 0 <= j < i ==> fs[..i][j] == fs[j];
    assert FirstBadYear(fs) == i;
  }

  // The pivot.

  /** A row of the concatenated frames: its group key, its year column and
      its summed num. */
  datatype Observation = Observation(key: Key, year: int, value: real)

  /** A pivoted table: rows in ascending key order, columns in ascending
      year order, cells[i][j] the cell of keys[i] in years[j]. */
  datatype PivotTable = PivotTable(keys: seq<Key>, years: seq<int>, cells: seq<seq<nat>>)

  function FrameObservations(f: Frame): (r: seq<Observation>)
    ensures |r| == |f.groups|
    ensures forall i :: 0 <= i < |r| ==> r[i] == Observation(f.groups[i].key, f.year, f.groups[i].total)
  {
    seq(|f.groups|, i requires 0 <= i < |f.groups| => Observation(f.groups[i].key, f.year, f.groups[i].total))
  }

  /** pd.concat(frames): the frames' rows one after the other. */
  function Concat(fs: seq<Frame>): seq<Observation> {
    if fs == [] then [] else FrameObservations(fs[0]) + Concat(fs[1..])
  }

  /** A row of the concatenation is a group of one of the frames, with
      that frame's year. */
  lemma {:induction false} ConcatAt(fs: seq<Frame>, o: Observation)
    ensures o in Concat(fs) <==>
      exists f, j :: 0 <= f < |fs| && 0 <= j < |fs[f].groups| &&
        o == Observation(fs[f].groups[j].key, fs[f].year, fs[f].groups[j].total)
  {
    if fs != [] {
      ConcatAt(fs[1..], o);
      if o in Concat(fs[1..]) {
        var f, j :| 0 <= f < |fs[1..]| && 0 <= j < |fs[1..][f].groups| &&
          o == Observation(fs[1..][f].groups[j].key, fs[1..][f].year, fs[1..][f].groups[j].total);
        assert fs[f + 1] == fs[1..][f];
      }
      if o in FrameObservations(fs[0]) {
        var j :| 0 <= j < |fs[0].groups| && FrameObservations(fs[0])[j] == o;
        assert o == Observation(fs[0].groups[j].key, fs[0].year, fs[0].groups[j].total);
      }
      if exists f, j :: 0 <= f < |fs| && 0 <= j < |fs[f].groups| &&
          o == Observation(fs[f].groups[j].key, fs[f].year, fs[f].groups[j].total) {
        var f, j :| 0 <= f < |fs| && 0 <= j < |fs[f].groups| &&
          o == Observation(fs[f].groups[j].key, fs[f].year, fs[f].groups[j].total);
        if f == 0 {
          assert FrameObservations(fs[0])[j] == o;
        } else {
          assert fs[1..][f - 1] == fs[f];
        }
      }
    }
  }

  /** Two rows of the concatenation share a key and a year, which pivot
      refuses. */
  predicate Duplicated(obs: seq<Observation>) {
    exists i, j :: 0 <= i < j < |obs| && obs[i].key == obs[j].key && obs[i].year == obs[j].year
  }

  function ObservedKeys(obs: seq<Observation>): (r: seq<Key>)
    ensures |r| == |obs| && forall i :: 0 <= i < |obs| ==> r[i] == obs[i].key
  {
    seq(|obs|, i requires 0 <= i < |obs| => obs[i].key)
  }

  function ObservedYears(obs: seq<Observation>): (r: seq<Key>)
    ensures |r| == |obs| && forall i :: 0 <= i < |obs| ==> r[i] == Key(obs[i].year, 0)
  {
    seq(|obs|, i requires 0 <= i < |obs| => Key(obs[i].year, 0))
  }

  /** The pivot's columns: the distinct years, ascending. */
  function Columns(obs: seq<Observation>): seq<int> {
    var ks := SortedKeys(ObservedYears(obs));
    seq(|ks|, i requires 0 <= i < |ks| => ks[i].hi)
  }

  /** The value of the row with this key and year, if there is one. */
  function ValueAt(obs: seq<Observation>, k: Key, y: int): (r: Option<real>)
    ensures r.None? <==> forall n :: 0 <= n < |obs| ==> !(obs[n].key == k && obs[n].year == y)
    ensures r.Some? ==> exists n :: 0 <= n < |obs| && obs[n].key == k && obs[n].year == y && obs[n].value == r.value
  {
    if obs == [] then None
    else if obs[0].key == k && obs[0].year == y then Some(obs[0].value)
    else
      assert forall n :: 0 < n < |obs| ==> obs[n] == obs[1..][n - 1];
      ValueAt(obs[1..], k, y)
  }

  /** fillna(0).astype('uint32') on one cell. */
  function CellOf(obs: seq<Observation>, k: Key, y: int): nat {
    match ValueAt(obs, k, y)
    case None => 0
    case Some(v) => ToUint32(v)
  }

  /** pd.concat(frames).pivot(columns='year', values='num').fillna(0)
      .astype('uint32') */
  function Pivot(fs: seq<Frame>): Result<PivotTable, AggregateError> {
    if fs == [] then Err(NoTables)
    else
      var obs := Concat(fs);
      if Duplicated(obs) then Err(DuplicateEntries)
      else
        var keys := SortedKeys(ObservedKeys(obs));
        var years := Columns(obs);
        Ok(PivotTable(keys, years,
          seq(|keys|, i requires 0 <= i < |keys| =>
            seq(|years|, j requires 0 <= j < |years| => CellOf(obs, keys[i], years[j])))))
  }

  /** The pivot's rows: the distinct keys, ascending. */
  lemma PivotKeys(obs: seq<Observation>)
    ensures forall i, j :: 0 <= i < j < |SortedKeys(ObservedKeys(obs))| ==>
      Less(SortedKeys(ObservedKeys(obs))[i], SortedKeys(ObservedKeys(obs))[j])
    ensures forall k :: k in SortedKeys(ObservedKeys(obs)) <==> exists n :: 0 <= n < |obs| && obs[n].key == k
  {
    SortedKeysSpec(ObservedKeys(obs));
    forall k ensures k in ObservedKeys(obs) <==> exists n :: 0 <= n < |obs| && obs[n].key == k {
      if exists n :: 0 <= n < |obs| && obs[n].key == k {
        var n :| 0 <= n < |obs| && obs[n].key == k;
        assert ObservedKeys(obs)[n] == k;
      }
    }
  }

  /** The pivot's columns: the distinct years, ascending. */
  lemma PivotColumns(obs: seq<Observation>)
    ensures forall i, j :: 0 <= i < j < |Columns(obs)| ==> Columns(obs)[i] < Columns(obs)[j]
    ensures forall y :: y in Columns(obs) <==> exists n :: 0 <= n < |obs| && obs[n].year == y
  {
    var ys := SortedKeys(ObservedYears(obs));
    var cols := Columns(obs);
    SortedKeysSpec(ObservedYears(obs));
    assert forall i :: 0 <= i < |ys| ==> ys[i].lo == 0 by {
      forall i | 0 <= i < |ys| ensures ys[i].lo == 0 {
        assert ys[i] in ObservedYears(obs);
      }
    }
    forall i, j | 0 <= i < j < |cols| ensures cols[i] < cols[j] {
      assert Less(ys[i], ys[j]);
    }
    forall y ensures y in cols <==> exists n :: 0 <= n < |obs| && obs[n].year == y {
      if y in cols {
        var i :| 0 <= i < |cols| && cols[i] == y;
        assert ys[i] in ObservedYears(obs);
        var n :| 0 <= n < |obs| && ObservedYears(obs)[n] == ys[i];
      }
      if exists n :: 0 <= n < |obs| && obs[n].year == y {
        var n :| 0 <= n < |obs| && obs[n].year == y;
        assert ObservedYears(obs)[n] == Key(y, 0);
        assert Key(y, 0) in ObservedYears(obs);
        assert Key(y, 0) in ys;
        var i :| 0 <= i < |ys| && ys[i] == Key(y, 0);
        assert cols[i] == y;
      }
    }
  }

  /** The shape of the pivot: it fails exactly on no frames or a repeated
      (key, year) pair; otherwise its rows are the distinct keys and its
      columns the distinct years of the concatenation, both ascending. */
  lemma PivotShape(fs: seq<Frame>)
    ensures Pivot(fs).Err? <==> fs == [] || Duplicated(Concat(fs))
    ensures fs == [] ==> Pivot(fs) == Err(NoTables)
    ensures Pivot(fs).Ok? ==>
      var t := Pivot(fs).value;
      var obs := Concat(fs);
      (forall i, j :: 0 <= i < j < |t.keys| ==> Less(t.keys[i], t.keys[j])) &&
      (forall k :: k in t.keys <==> exists n :: 0 <= n < |obs| && obs[n].key == k) &&
      (forall i, j :: 0 <= i < j < |t.years| ==> t.years[i] < t.years[j]) &&
      (forall y :: y in t.years <==> exists n :: 0 <= n < |obs| && obs[n].year == y) &&
      |t.cells| == |t.keys| &&
      (forall i :: 0 <= i < |t.keys| ==> |t.cells[i]| == |t.years|)
  {
    if Pivot(fs).Ok? {
      PivotKeys(Concat(fs));
      PivotColumns(Concat(fs));
    }
  }

  /** The pivot's cells: a key present in a year holds that year's group
      sum truncated to uint32, and a key a year lacks holds 0. */
  lemma PivotCell(fs: seq<Frame>, a: nat, b: nat)
    requires Pivot(fs).Ok?
    requires a < |Pivot(fs).value.keys| && b < |Pivot(fs).value.years|
    ensures var t := Pivot(fs).value;
      forall f, g ::
        (0 <= f < |fs| && 0 <= g < |fs[f].groups| &&
         fs[f].year == t.years[b] && fs[f].groups[g].key == t.keys[a]) ==>
        t.cells[a][b] == ToUint32(fs[f].groups[g].total)
    ensures var t := Pivot(fs).value;
      (forall f, g :: 0 <= f < |fs| && 0 <= g < |fs[f].groups| ==>
        !(fs[f].year == t.years[b] && fs[f].groups[g].key == t.keys[a])) ==>
      t.cells[a][b] == 0
  {
    var t := Pivot(fs).value;
    var obs := Concat(fs);
    var k := t.keys[a];
    var y := t.years[b];
    assert t.cells[a][b] == CellOf(obs, k, y);
    forall f, g | 0 <= f < |fs| && 0 <= g < |fs[f].groups| && fs[f].year == y && fs[f].groups[g].key == k
      ensures t.cells[a][b] == ToUint32(fs[f].groups[g].total)
    {
      var o := Observation(k, y, fs[f].groups[g].total);
      ConcatAt(fs, o);
      var n :| 0 <= n < |obs| && obs[n] == o;
      var m :| 0 <= m < |obs| && obs[m].key == k && obs[m].year == y && obs[m].value == ValueAt(obs, k, y).value;
      assert m == n by {
        if m != n {
          assert obs[m].key == obs[n].key && obs[m].year == obs[n].year;
          assert Duplicated(obs);
        }
      }
    }
    if ValueAt(obs, k, y).Some? {
      var m :| 0 <= m < |obs| && obs[m].key == k && obs[m].year == y && obs[m].value == ValueAt(obs, k, y).value;
      assert obs[m] in obs;
      ConcatAt(fs, obs[m]);
    }
  }

  // Both pivots are well defined when every year is named once.

  /** No two files name the same year. */
  predicate DistinctYears(fs: seq<YearFile>) {
    forall i, j :: 0 <= i < j < |fs| ==> YearOf(fs[i].path) != YearOf(fs[j].path)
  }

  /** No two frames carry the same year. */
  predicate DistinctFrameYears(fs: seq<Frame>) {
    forall i, j :: 0 <= i < j < |fs| ==> fs[i].year != fs[j].year
  }

  /** A group-by result has each key once, so one frame brings no repeated
      pair; frames of different years cannot clash either. */
  lemma {:induction false} NoDuplicates(fs: seq<Frame>)
    requires forall f :: 0 <= f < |fs| ==> StrictlySorted(fs[f].groups)
    requires DistinctFrameYears(fs)
    ensures !Duplicated(Concat(fs))
  {
    if fs != [] {
      var a := FrameObservations(fs[0]);
      var b := Concat(fs[1..]);
      assert forall f :: 0 <= f < |fs[1..]| ==> fs[1..][f] == fs[f + 1];
      NoDuplicates(fs[1..]);
      var obs := a + b;
      forall i, j | 0 <= i < j < |obs|
        ensures !(obs[i].key == obs[j].key && obs[i].year == obs[j].year)
      {
        if j < |a| {
          SortedAt(fs[0].groups, i, j);
        } else if i >= |a| {
          assert obs[i] == b[i - |a|] && obs[j] == b[j - |a|];
        } else {
          assert obs[j] == b[j - |a|] && obs[j] in b;
          ConcatAt(fs[1..], obs[j]);
          var f, g :| 0 <= f < |fs[1..]| && 0 <= g < |fs[1..][f].groups| &&
            obs[j] == Observation(fs[1..][f].groups[g].key, fs[1..][f].year, fs[1..][f].groups[g].total);
          assert fs[1..][f].year == fs[f + 1].year != fs[0].year;
        }
      }
    }
  }

  /** Some index with at least two copies of an element in a sequence. */
  lemma {:induction false} TwoCopies<T>(s: seq<T>, x: T)
    requires multiset(s)[x] >= 2
    ensures exists p, q :: 0 <= p < q < |s| && s[p] == x && s[q] == x
  {
    assert s == [s[0]] + s[1..];
    if s[0] == x {
      assert x in multiset(s[1..]);
      var q :| 0 <= q < |s[1..]| && s[1..][q] == x;
      assert s[q + 1] == x;
    } else {
      TwoCopies(s[1..], x);
      var p, q :| 0 <= p < q < |s[1..]| && s[1..][p] == x && s[1..][q] == x;
      assert s[p + 1] == x && s[q + 1] == x;
    }
  }

  /** Reordering the files keeps their years distinct. */
  lemma DistinctYearsPermuted(a: seq<YearFile>, b: seq<YearFile>)
    requires multiset(a) == multiset(b) && DistinctYears(a)
    ensures DistinctYears(b)
  {
    forall i, j | 0 <= i < j < |b| ensures YearOf(b[i].path) != YearOf(b[j].path) {
      if b[i] == b[j] {
        assert multiset(b)[b[i]] >= 2 by {
          assert b == b[..j] + [b[j]] + b[j + 1..];
          assert b[i] in b[..j];
        }
        TwoCopies(a, b[i]);
      } else {
        assert b[i] in multiset(a) && b[j] in multiset(a);
        var p :| 0 <= p < |a| && a[p] == b[i];
        var q :| 0 <= q < |a| && a[q] == b[j];
        assert p != q;
        if p < q {
          assert YearOf(a[p].path) != YearOf(a[q].path);
        } else {
          assert YearOf(a[q].path) != YearOf(a[p].path);
        }
      }
    }
  }

  lemma {:induction false} WeightWithAbsent(t: seq<Row>, key: Row -> Key, k: Key)
    requires forall i :: 0 <= i < |t| ==> key(t[i]) != k
    ensures WeightWith(t, key, k) == 0.0
  {
    if t != [] {
      assert forall i :: 0 <= i < |t[1..]| ==> t[1..][i] == t[i + 1];
      WeightWithAbsent(t[1..], key, k);
    }
  }

  /** A pivot cell is the year's head count under the row's key: the sum
      of num over that year's rows with the key, truncated to uint32 (0
      when the year has no such row). */
  lemma PivotCellWeight(fs: seq<Frame>, tables: seq<seq<Row>>, key: Row -> Key, a: nat, b: nat, f: nat)
    requires |fs| == |tables| && DistinctFrameYears(fs) && Pivot(fs).Ok?
    requires forall i :: 0 <= i < |fs| ==> fs[i].groups == GroupSums(EntriesBy(tables[i], key))
    requires a < |Pivot(fs).value.keys| && b < |Pivot(fs).value.years|
    requires f < |fs| && fs[f].year == Pivot(fs).value.years[b]
    ensures Pivot(fs).value.cells[a][b] == ToUint32(WeightWith(tables[f], key, Pivot(fs).value.keys[a]))
  {
    var k := Pivot(fs).value.keys[a];
    var gs := fs[f].groups;
    if g :| 0 <= g < |gs| && gs[g].key == k {
      PivotCellPresent(fs, a, b, f, g);
      SummaryGroups(tables[f], key);
    } else {
      SummaryGroups(tables[f], key);
      KeySetAt(gs, k);
      WeightWithAbsent(tables[f], key, k);
      PivotCellAbsent(fs, a, b, f);
    }
  }

  lemma PivotCellPresent(fs: seq<Frame>, a: nat, b: nat, f: nat, g: nat)
    requires Pivot(fs).Ok?
    requires a < |Pivot(fs).value.keys| && b < |Pivot(fs).value.years|
    requires f < |fs| && g < |fs[f].groups|
    requires fs[f].year == Pivot(fs).value.years[b] && fs[f].groups[g].key == Pivot(fs).value.keys[a]
    ensures Pivot(fs).value.cells[a][b] == ToUint32(fs[f].groups[g].total)
  {
    PivotCell(fs, a, b);
  }

  lemma PivotCellAbsent(fs: seq<Frame>, a: nat, b: nat, f: nat)
    requires DistinctFrameYears(fs) && Pivot(fs).Ok?
    requires a < |Pivot(fs).value.keys| && b < |Pivot(fs).value.years|
    requires f < |fs| && fs[f].year == Pivot(fs).value.years[b]
    requires forall g :: 0 <= g < |fs[f].groups| ==> fs[f].groups[g].key != Pivot(fs).value.keys[a]
    ensures Pivot(fs).value.cells[a][b] == 0
  {
    var t := Pivot(fs).value;
    PivotCell(fs, a, b);
    forall h, g | 0 <= h < |fs| && 0 <= g < |fs[h].groups|
      ensures !(fs[h].year == t.years[b] && fs[h].groups[g].key == t.keys[a])
    {
    }
  }

  // The index casts.

  /** index.set_levels([lv[0], lv[1].astype('uint16')]): the age level of
      every row key wraps to 16 bits; the sex level, the columns and the
      cells stay. */
  function CastAgeIndex(t: PivotTable): (r: PivotTable)
    ensures r.years == t.years && r.cells == t.cells && |r.keys| == |t.keys|
    ensures forall i :: 0 <= i < |t.keys| ==>
      r.keys[i].hi == t.keys[i].hi && 0 <= r.keys[i].lo < Uint16Modulus &&
      (0 <= t.keys[i].lo < Uint16Modulus ==> r.keys[i] == t.keys[i])
  {
    t.(keys := seq(|t.keys|, i requires 0 <= i < |t.keys| => Key(t.keys[i].hi, WrapUint16(t.keys[i].lo))))
  }

  /** index.astype('uint32'): every surname index wraps to 32 bits. */
  function CastMyojiIndex(t: PivotTable): (r: PivotTable)
    ensures r.years == t.years && r.cells == t.cells && |r.keys| == |t.keys|
    ensures forall i :: 0 <= i < |t.keys| ==>
      r.keys[i].lo == t.keys[i].lo && 0 <= r.keys[i].hi < Uint32Modulus &&
      (0 <= t.keys[i].hi < Uint32Modulus ==> r.keys[i] == t.keys[i])
  {
    t.(keys := seq(|t.keys|, i requires 0 <= i < |t.keys| => Key(WrapUint32(t.keys[i].hi), t.keys[i].lo)))
  }

  // The whole job.

  /** The two tables the job writes: (male, age) by year and surname by
      year. */
  function Aggregation(files: seq<YearFile>): Result<(PivotTable, PivotTable), AggregateError> {
    match Frames(SortFiles(files))
    case Err(e) => Err(e)
    case Ok((ages, myojis)) =>
      match Pivot(ages)
      case Err(e) => Err(e)
      case Ok(byAge) =>
        match Pivot(myojis)
        case Err(e) => Err(e)
        case Ok(bySurname) => Ok((CastAgeIndex(byAge), CastMyojiIndex(bySurname)))
  }

  /** The job fails on no files and on the first unparsable year in path
      order, and succeeds whenever every file names its own year. */
  lemma AggregationOutcome(files: seq<YearFile>)
    ensures files == [] ==> Aggregation(files) == Err(NoTables)
    ensures !AllYears(SortFiles(files)) ==>
      Aggregation(files) == Err(BadYear(SortFiles(files)[FirstBadYear(SortFiles(files))].path))
    ensures files != [] && AllYears(files) && DistinctYears(files) ==> Aggregation(files).Ok?
  {
    var sorted := SortFiles(files);
    if files == [] {
      assert sorted == [];
    }
    if files != [] && AllYears(files) && DistinctYears(files) {
      assert sorted != [] by {
        assert files[0] in multiset(files);
      }
      assert AllYears(sorted) by {
        forall i | 0 <= i < |sorted| ensures YearOf(sorted[i].path).Some? {
          assert sorted[i] in multiset(files);
        }
      }
      DistinctYearsPermuted(files, sorted);
      FramesWellFormed(sorted);
      NoDuplicates(Frames(sorted).value.0);
      NoDuplicates(Frames(sorted).value.1);
    }
  }

  /** Frames of files with distinct years have distinct years, and each
      holds a group-by result, sorted by key. */
  lemma FramesWellFormed(fs: seq<YearFile>)
    requires AllYears(fs) && DistinctYears(fs)
    ensures DistinctFrameYears(Frames(fs).value.0) && DistinctFrameYears(Frames(fs).value.1)
    ensures forall f :: 0 <= f < |fs| ==>
      StrictlySorted(Frames(fs).value.0[f].groups) && StrictlySorted(Frames(fs).value.1[f].groups)
  {
    var fr := Frames(fs).value;
    forall f | 0 <= f < |fs|
      ensures StrictlySorted(fr.0[f].groups) && StrictlySorted(fr.1[f].groups)
    {
      SummaryGroups(fs[f].table, AgeKey);
      SummaryGroups(fs[f].table, MyojiKey);
    }
  }
}
