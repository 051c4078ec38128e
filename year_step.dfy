/** next_year: one year of the simulation on a copy of the cohort table.
    Every row ages by one year; the candidate parents (men at the father
    age, women at the mother age) give the number of boys and girls; each
    child has a drawn father and mother and takes one of their surnames;
    the children are grouped into new age-0 rows; then every row's head
    count is multiplied by its survival rate. The weighted draws and the
    uniform numbers come in as inputs. */
module YearStep {
  import opened Numeric
  import opened Grouping
  import opened Cohort
  import opened Rates

  /** The random input of one year: the positions drawn among the father
      candidates and among the mother candidates (DataFrame.sample), and
      the uniform numbers of np.random.rand. */
  datatype Draws = Draws(fathers: seq<nat>, mothers: seq<nat>, uniforms: seq<real>)

  /** A row of df_families once the child's surname and sex are set. */
  datatype Child = Child(myoji: nat, male: bool)

  function AgedRow(r: Row): Row {
    r.(age := r.age + 1)
  }

  /** df['age'] = df['age'] + 1 */
  function Aged(t: seq<Row>): (r: seq<Row>)
    ensures |r| == |t|
    ensures forall i :: 0 <= i < |t| ==> r[i] == AgedRow(t[i])
  {
    seq(|t|, i requires 0 <= i < |t| => AgedRow(t[i]))
  }

  /** df.query('male==... and age==...'): the matching rows, in table order,
      each as often as the table holds it. */
  function Candidates(t: seq<Row>, male: bool, age: int): (r: seq<Row>)
    ensures |r| <= |t|
    ensures forall x :: x in r <==> x in t && x.male == male && x.age == age
    ensures forall x :: multiset(r)[x] == if x.male == male && x.age == age then multiset(t)[x] else 0
  {
    if t == [] then []
    else
      var rest := Candidates(t[1..], male, age);
      assert t == [t[0]] + t[1..];
      assert forall x :: x in t <==> x == t[0] || x in t[1..];
      if t[0].male == male && t[0].age == age then [t[0]] + rest else rest
  }

  /** The query's head count is the table's head count at that (sex, age),
      the cell groupby(['male', 'age']) would give it. */
  lemma {:induction false} CandidatesWeight(t: seq<Row>, male: bool, age: int)
    ensures Weight(Candidates(t, male, age)) == WeightWith(t, AgeKey, Key(SexLevel(male), age))
  {
    if t != [] {
      CandidatesWeight(t[1..], male, age);
      var rest := Candidates(t[1..], male, age);
      assert AgeKey(t[0]) == Key(SexLevel(male), age) <==> t[0].male == male && t[0].age == age;
      if t[0].male == male && t[0].age == age {
        assert Candidates(t, male, age) == [t[0]] + rest;
        assert ([t[0]] + rest)[1..] == rest;
      } else {
        assert Candidates(t, male, age) == rest;
      }
    }
  }

  function Fathers(c: Consts, aged: seq<Row>): seq<Row> {
    Candidates(aged, true, c.ageMale)
  }

  function Mothers(c: Consts, aged: seq<Row>): seq<Row> {
    Candidates(aged, false, c.ageFemale)
  }

  /** num_of_parent_ages: the head count of both candidate pools. */
  function ParentPool(c: Consts, aged: seq<Row>): real {
    Weight(Fathers(c, aged)) + Weight(Mothers(c, aged))
  }

  /** num_of_parent_ages is the head count of the men at the father age plus
      that of the women at the mother age. */
  lemma ParentPoolSpec(c: Consts, aged: seq<Row>)
    ensures ParentPool(c, aged) ==
      WeightWith(aged, AgeKey, Key(1, c.ageMale)) + WeightWith(aged, AgeKey, Key(0, c.ageFemale))
  {
    CandidatesWeight(aged, true, c.ageMale);
    CandidatesWeight(aged, false, c.ageFemale);
  }

  function NumBoys(c: Consts, aged: seq<Row>): int {
    RoundHalfEven(ParentPool(c, aged) * c.birthrateMale)
  }

  function NumGirls(c: Consts, aged: seq<Row>): int {
    RoundHalfEven(ParentPool(c, aged) * c.birthrateFemale)
  }

  function NumBabies(c: Consts, aged: seq<Row>): int {
    NumBoys(c, aged) + NumGirls(c, aged)
  }

  /** Every pick is a position in the pool whose row has positive weight,
      the only rows a weighted sample can return. */
  predicate ValidPicks(pool: seq<Row>, picks: seq<nat>) {
    forall k :: 0 <= k < |picks| ==> picks[k] < |pool| && pool[picks[k]].num > 0.0
  }

  /** The years next_year completes and the draws they can have. There is
      at least one baby (with none, the surname column of the empty family
      table cannot be assigned), no candidate has a negative head count
      (the weighted sample refuses negative weights), and there is one
      father, one mother and one uniform number in [0, 1) per baby. */
  predicate ValidDraws(c: Consts, aged: seq<Row>, d: Draws) {
    NumBabies(c, aged) > 0 &&
    NonNegative(Fathers(c, aged)) && NonNegative(Mothers(c, aged)) &&
    |d.fathers| == NumBabies(c, aged) &&
    |d.mothers| == NumBabies(c, aged) &&
    |d.uniforms| == NumBabies(c, aged) &&
    ValidPicks(Fathers(c, aged), d.fathers) &&
    ValidPicks(Mothers(c, aged), d.mothers) &&
    forall k :: 0 <= k < |d.uniforms| ==> 0.0 <= d.uniforms[k] < 1.0
  }

  /** Family k: a boy when k < num_of_boys; the father's surname when its
      uniform number is below male_myoji_rate, else the mother's. */
  function ChildAt(c: Consts, aged: seq<Row>, d: Draws, k: nat): Child
    requires ValidDraws(c, aged, d) && k < |d.fathers|
  {
    ChildOf(Fathers(c, aged), Mothers(c, aged), d, c.maleMyojiRate, NumBoys(c, aged), k)
  }

  /** df_families: the children in draw order. */
  function Children(c: Consts, aged: seq<Row>, d: Draws): (r: seq<Child>)
    requires ValidDraws(c, aged, d)
    ensures |r| == NumBabies(c, aged)
    ensures forall k :: 0 <= k < |r| ==> r[k] == ChildAt(c, aged, d, k)
  {
    seq(|d.fathers|, k requires 0 <= k < |d.fathers| => ChildAt(c, aged, d, k))
  }

  /** The key of groupby(['child_myoji', 'child_male']). */
  function BabyKey(ch: Child): Key {
    Key(ch.myoji, SexLevel(ch.male))
  }

  function ChildEntries(cs: seq<Child>): (es: seq<Entry>)
    ensures |es| == |cs|
    ensures forall i :: 0 <= i < |cs| ==> es[i] == Entry(BabyKey(cs[i]), 1.0)
  {
    if cs == [] then [] else [Entry(BabyKey(cs[0]), 1.0)] + ChildEntries(cs[1..])
  }

  /** groupby(...).size(): the family count per (surname, sex). */
  function BabyGroups(cs: seq<Child>): seq<Group> {
    GroupSums(ChildEntries(cs))
  }

  lemma BabyGroupKeys(cs: seq<Child>)
    ensures forall i :: 0 <= i < |BabyGroups(cs)| ==>
      BabyGroups(cs)[i].key.hi >= 0 && (BabyGroups(cs)[i].key.lo == 0 || BabyGroups(cs)[i].key.lo == 1)
  {
    var gs := BabyGroups(cs);
    var es := ChildEntries(cs);
    forall i | 0 <= i < |gs|
      ensures gs[i].key.hi >= 0 && (gs[i].key.lo == 0 || gs[i].key.lo == 1)
    {
      KeySetAt(gs, gs[i].key);
      EntryKeysAt(es, gs[i].key);
    }
  }

  /** df_babies: one age-0 row per (surname, sex) group, its head count the
      number of children in the group. */
  function BabyRows(cs: seq<Child>): (r: seq<Row>)
    ensures |r| == |BabyGroups(cs)|
  {
    var gs := BabyGroups(cs);
    BabyGroupKeys(cs);
    seq(|gs|, i requires 0 <= i < |gs| => Row(gs[i].key.hi as nat, gs[i].key.lo == 1, 0, gs[i].total))
  }

  /** The table after births: the aged rows, then the babies. */
  function WithBabies(c: Consts, t: seq<Row>, d: Draws): seq<Row>
    requires ValidDraws(c, Aged(t), d)
  {
    Aged(t) + BabyRows(Children(c, Aged(t), d))
  }

  /** The left merge with df_survival_rate finds a rate for this row. */
  predicate HasSurvival(c: Consts, r: Row) {
    SurvivalFor(c.survival, r.age, r.male).Some?
  }

  function SurvivingRow(c: Consts, r: Row): Row
    requires HasSurvival(c, r)
  {
    r.(num := r.num * SurvivalFor(c.survival, r.age, r.male).value)
  }

  /** df['num'] = df['num'] * df['survival_rate'] */
  function Survive(c: Consts, t: seq<Row>): (r: seq<Row>)
    requires forall i :: 0 <= i < |t| ==> HasSurvival(c, t[i])
    ensures |r| == |t|
    ensures forall i :: 0 <= i < |t| ==> r[i] == SurvivingRow(c, t[i])
  {
    seq(|t|, i requires 0 <= i < |t| => SurvivingRow(c, t[i]))
  }

  /** Every row of the post-birth table has a survival rate (otherwise the
      merge yields NaN). */
  predicate Survivable(c: Consts, t: seq<Row>, d: Draws)
    requires ValidDraws(c, Aged(t), d)
  {
    forall i :: 0 <= i < |WithBabies(c, t, d)| ==> HasSurvival(c, WithBabies(c, t, d)[i])
  }

  /** The table next_year returns. The threshold filter and the sort at the
      end of next_year discard their results, so no row is removed and no
      row moves. */
  function Step(c: Consts, t: seq<Row>, d: Draws): seq<Row>
    requires ValidDraws(c, Aged(t), d) && Survivable(c, t, d)
  {
    Survive(c, WithBabies(c, t, d))
  }

  /** df['age'] = df['age'] + 1, row by row. */
  method AgeRows(t: seq<Row>) returns (r: seq<Row>)
    ensures r == Aged(t)
  {
    r := t;
    var i := 0;
    while i < |r|
      invariant |r| == |t| && 0 <= i <= |r|
      invariant forall k :: 0 <= k < i ==> r[k] == AgedRow(t[k])
      invariant forall k :: i <= k < |r| ==> r[k] == t[k]
    {
      r := r[i := AgedRow(r[i])];
      i := i + 1;
    }
  }

  /** The family table: father draw k paired with mother draw k, the first
      num_of_boys children boys, each surname chosen by its uniform number. */
  method Families(c: Consts, aged: seq<Row>, d: Draws) returns (children: seq<Child>)
    requires ValidDraws(c, aged, d)
    ensures children == Children(c, aged, d)
  {
    children := PairFamilies(Fathers(c, aged), Mothers(c, aged), d, c.maleMyojiRate, NumBoys(c, aged));
    assert |children| == |Children(c, aged, d)|;
    forall k | 0 <= k < |children| ensures children[k] == Children(c, aged, d)[k] {
      assert Children(c, aged, d)[k] == ChildAt(c, aged, d, k);
    }
  }

  /** Child k of the family table, built from the k-th draws. */
  function ChildOf(fathers: seq<Row>, mothers: seq<Row>, d: Draws, rate: real, boys: int, k: nat): Child
    requires k < |d.fathers| && k < |d.mothers| && k < |d.uniforms|
    requires d.fathers[k] < |fathers| && d.mothers[k] < |mothers|
  {
    Child(if d.uniforms[k] < rate then fathers[d.fathers[k]].myoji else mothers[d.mothers[k]].myoji, k < boys)
  }

  /** The loop behind the family table, one family per draw. */
  method PairFamilies(fathers: seq<Row>, mothers: seq<Row>, d: Draws, rate: real, boys: int)
    returns (children: seq<Child>)
    requires |d.mothers| == |d.fathers| && |d.uniforms| == |d.fathers|
    requires forall k :: 0 <= k < |d.fathers| ==> d.fathers[k] < |fathers| && d.mothers[k] < |mothers|
    ensures |children| == |d.fathers|
    ensures forall k :: 0 <= k < |d.fathers| ==> children[k] == ChildOf(fathers, mothers, d, rate, boys, k)
  {
    children := [];
    var k := 0;
    while k < |d.fathers|
      invariant 0 <= k <= |d.fathers|
      invariant |children| == k
      invariant forall j :: 0 <= j < k ==> children[j] == ChildOf(fathers, mothers, d, rate, boys, j)
    {
      var father := fathers[d.fathers[k]];
      var mother := mothers[d.mothers[k]];
      var fromFather := d.uniforms[k] < rate;
      children := children + [Child(if fromFather then father.myoji else mother.myoji, k < boys)];
      k := k + 1;
    }
  }

  /** df['num'] = df['num'] * df['survival_rate'], row by row. */
  method ApplySurvival(c: Consts, t: seq<Row>) returns (r: seq<Row>)
    requires forall i :: 0 <= i < |t| ==> HasSurvival(c, t[i])
    ensures r == Survive(c, t)
  {
    r := t;
    var i := 0;
    while i < |r|
      invariant |r| == |t| && 0 <= i <= |r|
      invariant forall j :: 0 <= j < i ==> r[j] == SurvivingRow(c, t[j])
      invariant forall j :: i <= j < |r| ==> r[j] == t[j]
    {
      var rate := SurvivalFor(c.survival, r[i].age, r[i].male).value;
      r := r[i := r[i].(num := r[i].num * rate)];
      i := i + 1;
    }
  }

  /** next_year on a copy of the table: ageing, births, deaths. */
  method NextYear(c: Consts, current: seq<Row>, d: Draws) returns (next: seq<Row>)
    requires ValidDraws(c, Aged(current), d)
    requires Survivable(c, current, d)
    ensures next == Step(c, current, d)
    ensures |next| == |current| + |BabyRows(Children(c, Aged(current), d))|
    ensures forall i :: 0 <= i < |current| ==>
      next[i].myoji == current[i].myoji && next[i].male == current[i].male &&
      next[i].age == current[i].age + 1
    ensures forall i :: |current| <= i < |next| ==> next[i].age == 0
  {
    var df := AgeRows(current);
    var children := Families(c, df, d);
    var babies := BabyRows(children);
    df := df + babies;
    assert df == WithBabies(c, current, d);
    next := ApplySurvival(c, df);
    forall i | 0 <= i < |current|
      ensures next[i].myoji == current[i].myoji && next[i].male == current[i].male
      ensures next[i].age == current[i].age + 1
    {
      assert next[i] == SurvivingRow(c, df[i]);
      assert df[i] == AgedRow(current[i]);
    }
    forall i | |current| <= i < |next| ensures next[i].age == 0 {
      assert next[i] == SurvivingRow(c, df[i]);
      assert df[i] == babies[i - |current|];
    }
  }

  // Properties of one year.

  /** A row's head count bounds it from below: the weight of a table with
      no negative count is at least any one row's count. */
  lemma {:induction false} WeightAtLeast(t: seq<Row>, i: nat)
    requires NonNegative(t) && i < |t|
    ensures t[i].num <= Weight(t)
  {
    assert NonNegative(t[1..]) by {
      forall j | 0 <= j < |t[1..]| ensures t[1..][j].num >= 0.0 {
        assert t[1..][j] == t[j + 1];
      }
    }
    if i > 0 {
      assert t[1..][i - 1] == t[i];
      WeightAtLeast(t[1..], i - 1);
    } else if |t| > 1 {
      WeightAtLeast(t[1..], 0);
    }
  }

  /** A table without negative head counts gives candidate pools without
      negative weights, so only an empty pool can stop the sampling. */
  lemma CandidatesNonNegative(t: seq<Row>, male: bool, age: int)
    requires NonNegative(t)
    ensures NonNegative(Candidates(t, male, age))
  {
    var cs := Candidates(t, male, age);
    forall i | 0 <= i < |cs| ensures cs[i].num >= 0.0 {
      assert cs[i] in t;
    }
  }

  /** Births need parents: in a year next_year completes, both candidate
      pools hold a positive head count (the weighted sample refuses weights
      that sum to zero). */
  lemma BirthsNeedParents(c: Consts, aged: seq<Row>, d: Draws)
    requires ValidDraws(c, aged, d)
    ensures Weight(Fathers(c, aged)) > 0.0 && Weight(Mothers(c, aged)) > 0.0
  {
    WeightAtLeast(Fathers(c, aged), d.fathers[0]);
    WeightAtLeast(Mothers(c, aged), d.mothers[0]);
  }

  /** Child k: a boy exactly when k < num_of_boys; its surname is that of
      a father candidate (a man of the father age with a positive head
      count) when its uniform number is below male_myoji_rate, and that of
      a mother candidate otherwise. */
  lemma ChildrenSpec(c: Consts, aged: seq<Row>, d: Draws, k: nat)
    requires ValidDraws(c, aged, d) && k < NumBabies(c, aged)
    ensures Children(c, aged, d)[k].male <==> k < NumBoys(c, aged)
    ensures d.uniforms[k] < c.maleMyojiRate ==>
      Children(c, aged, d)[k].myoji == Fathers(c, aged)[d.fathers[k]].myoji
    ensures d.uniforms[k] >= c.maleMyojiRate ==>
      Children(c, aged, d)[k].myoji == Mothers(c, aged)[d.mothers[k]].myoji
    ensures Fathers(c, aged)[d.fathers[k]] in aged &&
      Fathers(c, aged)[d.fathers[k]].male && Fathers(c, aged)[d.fathers[k]].age == c.ageMale &&
      Fathers(c, aged)[d.fathers[k]].num > 0.0
    ensures Mothers(c, aged)[d.mothers[k]] in aged &&
      !Mothers(c, aged)[d.mothers[k]].male && Mothers(c, aged)[d.mothers[k]].age == c.ageFemale &&
      Mothers(c, aged)[d.mothers[k]].num > 0.0
  {
    assert Fathers(c, aged)[d.fathers[k]] in Fathers(c, aged);
    assert Mothers(c, aged)[d.mothers[k]] in Mothers(c, aged);
  }

  /** The number of children with this surname and sex. */
  function CountChildren(cs: seq<Child>, myoji: nat, male: bool): nat {
    if cs == [] then 0
    else (if cs[0] == Child(myoji, male) then 1 else 0) + CountChildren(cs[1..], myoji, male)
  }

  lemma {:induction false} ChildEntriesSum(cs: seq<Child>, myoji: nat, male: bool)
    ensures EntrySum(ChildEntries(cs), Key(myoji, SexLevel(male))) == CountChildren(cs, myoji, male) as real
  {
    if cs != [] {
      assert ChildEntries(cs)[1..] == ChildEntries(cs[1..]);
      ChildEntriesSum(cs[1..], myoji, male);
    }
  }

  lemma {:induction false} ChildEntriesTotal(cs: seq<Child>)
    ensures EntryTotal(ChildEntries(cs)) == |cs| as real
  {
    if cs != [] {
      assert ChildEntries(cs)[1..] == ChildEntries(cs[1..]);
      ChildEntriesTotal(cs[1..]);
    }
  }

  /** A table whose counts are the group totals weighs their total. */
  lemma {:induction false} WeightOfGroups(rows: seq<Row>, gs: seq<Group>)
    requires |rows| == |gs|
    requires forall i :: 0 <= i < |gs| ==> rows[i].num == gs[i].total
    ensures Weight(rows) == Total(gs)
  {
    if gs != [] {
      WeightOfGroups(rows[1..], gs[1..]);
    }
  }

  /** df_babies: age-0 rows, one per (surname, sex) that some child has and
      none twice, each counting the children with that surname and sex;
      together they hold every child. */
  lemma BabyRowsSpec(cs: seq<Child>)
    ensures forall i :: 0 <= i < |BabyRows(cs)| ==> BabyRows(cs)[i].age == 0
    ensures forall i, j :: 0 <= i < j < |BabyRows(cs)| ==>
      BabyRows(cs)[i].myoji != BabyRows(cs)[j].myoji || BabyRows(cs)[i].male != BabyRows(cs)[j].male
    ensures forall i :: 0 <= i < |BabyRows(cs)| ==>
      1 <= CountChildren(cs, BabyRows(cs)[i].myoji, BabyRows(cs)[i].male) &&
      BabyRows(cs)[i].num == CountChildren(cs, BabyRows(cs)[i].myoji, BabyRows(cs)[i].male) as real
    ensures forall k :: 0 <= k < |cs| ==>
      exists i :: 0 <= i < |BabyRows(cs)| && BabyRows(cs)[i].myoji == cs[k].myoji && BabyRows(cs)[i].male == cs[k].male
    ensures Weight(BabyRows(cs)) == |cs| as real
  {
    var r := BabyRows(cs);
    var gs := BabyGroups(cs);
    var es := ChildEntries(cs);
    BabyGroupKeys(cs);
    forall i | 0 <= i < |r|
      ensures r[i].age == 0 && Key(r[i].myoji, SexLevel(r[i].male)) == gs[i].key
    {
    }
    forall i, j | 0 <= i < j < |r|
      ensures r[i].myoji != r[j].myoji || r[i].male != r[j].male
    {
      SortedAt(gs, i, j);
    }
    forall i | 0 <= i < |r|
      ensures 1 <= CountChildren(cs, r[i].myoji, r[i].male)
      ensures r[i].num == CountChildren(cs, r[i].myoji, r[i].male) as real
    {
      SumForAt(gs, i);
      ChildEntriesSum(cs, r[i].myoji, r[i].male);
      KeySetAt(gs, gs[i].key);
      EntryKeysAt(es, gs[i].key);
      var k :| 0 <= k < |es| && es[k].key == gs[i].key;
      CountAtLeastOne(cs, k);
    }
    forall k | 0 <= k < |cs|
      ensures exists i :: 0 <= i < |r| && r[i].myoji == cs[k].myoji && r[i].male == cs[k].male
    {
      EntryKeysAt(es, BabyKey(cs[k]));
      KeySetAt(gs, BabyKey(cs[k]));
      var i :| 0 <= i < |gs| && gs[i].key == BabyKey(cs[k]);
      assert r[i].myoji == cs[k].myoji && r[i].male == cs[k].male;
    }
    WeightOfGroups(r, gs);
    ChildEntriesTotal(cs);
  }

  lemma {:induction false} CountAtLeastOne(cs: seq<Child>, k: nat)
    requires k < |cs|
    ensures CountChildren(cs, cs[k].myoji, cs[k].male) >= 1
  {
    if k > 0 {
      assert cs[1..][k - 1] == cs[k];
      CountAtLeastOne(cs[1..], k - 1);
    }
  }

  /** Births account for every baby: the new rows hold num_of_babies head
      count in all. */
  lemma BabiesTotal(c: Consts, aged: seq<Row>, d: Draws)
    requires ValidDraws(c, aged, d)
    ensures Weight(BabyRows(Children(c, aged, d))) == NumBabies(c, aged) as real
  {
    BabyRowsSpec(Children(c, aged, d));
  }

  /** Existing row i, one year on: the same surname and sex, one year
      older, its head count scaled by the survival rate of its new age. */
  lemma StepRow(c: Consts, t: seq<Row>, d: Draws, i: nat)
    requires ValidDraws(c, Aged(t), d) && Survivable(c, t, d)
    requires i < |t|
    ensures HasSurvival(c, AgedRow(t[i]))
    ensures Step(c, t, d)[i] == SurvivingRow(c, AgedRow(t[i]))
    ensures Step(c, t, d)[i].myoji == t[i].myoji && Step(c, t, d)[i].male == t[i].male
    ensures Step(c, t, d)[i].age == t[i].age + 1
  {
    var aged := Aged(t);
    var w := WithBabies(c, t, d);
    assert w == aged + BabyRows(Children(c, aged, d));
    assert Step(c, t, d) == Survive(c, w);
    SurviveBefore(c, w, aged, BabyRows(Children(c, aged, d)), i);
  }

  /** Baby group j becomes the row after all existing rows: age 0, its
      count scaled by the survival rate of age 0 for its sex. */
  lemma StepBabyRow(c: Consts, t: seq<Row>, d: Draws, j: nat)
    requires ValidDraws(c, Aged(t), d) && Survivable(c, t, d)
    requires j < |BabyRows(Children(c, Aged(t), d))|
    ensures var b := BabyRows(Children(c, Aged(t), d))[j];
      b.age == 0 && HasSurvival(c, b) && Step(c, t, d)[|t| + j] == SurvivingRow(c, b)
  {
    var aged := Aged(t);
    var babies := BabyRows(Children(c, aged, d));
    var w := WithBabies(c, t, d);
    assert w == aged + babies;
    assert Step(c, t, d) == Survive(c, w);
    BabyAgeZero(Children(c, aged, d), j);
    SurviveBehind(c, w, aged, babies, j);
  }

  /** Row i of the rows in front, after survival. */
  lemma SurviveBefore(c: Consts, w: seq<Row>, a: seq<Row>, b: seq<Row>, i: nat)
    requires w == a + b && forall k :: 0 <= k < |w| ==> HasSurvival(c, w[k])
    requires i < |a|
    ensures HasSurvival(c, a[i]) && Survive(c, w)[i] == SurvivingRow(c, a[i])
  {
    assert w[i] == a[i];
  }

  /** Row j of the rows appended behind a, after survival. */
  lemma SurviveBehind(c: Consts, w: seq<Row>, a: seq<Row>, b: seq<Row>, j: nat)
    requires w == a + b && forall k :: 0 <= k < |w| ==> HasSurvival(c, w[k])
    requires j < |b|
    ensures HasSurvival(c, b[j]) && Survive(c, w)[|a| + j] == SurvivingRow(c, b[j])
  {
    assert w[|a| + j] == b[j];
  }

  lemma BabyAgeZero(cs: seq<Child>, j: nat)
    requires j < |BabyRows(cs)|
    ensures BabyRows(cs)[j].age == 0
  {
  }

  /** Deaths only shrink cohorts: with every survival rate in [0, 1] and no
      negative head count, the step keeps every count non-negative and no
      existing row grows. */
  lemma StepNonIncreasing(c: Consts, t: seq<Row>, d: Draws)
    requires ValidDraws(c, Aged(t), d) && Survivable(c, t, d)
    requires NonNegative(t) && RatesInUnit(c.survival)
    ensures NonNegative(Step(c, t, d))
    ensures forall i :: 0 <= i < |t| ==> Step(c, t, d)[i].num <= t[i].num
  {
    var aged := Aged(t);
    var babies := BabyRows(Children(c, aged, d));
    var w := WithBabies(c, t, d);
    BabyRowsSpec(Children(c, aged, d));
    assert NonNegative(w) by {
      forall i | 0 <= i < |w| ensures w[i].num >= 0.0 {
        if i < |t| {
          assert w[i] == aged[i];
        } else {
          assert w[i] == babies[i - |t|];
        }
      }
    }
    SurviveNonIncreasing(c, w);
  }

  lemma SurviveNonIncreasing(c: Consts, w: seq<Row>)
    requires forall i :: 0 <= i < |w| ==> HasSurvival(c, w[i])
    requires NonNegative(w) && RatesInUnit(c.survival)
    ensures NonNegative(Survive(c, w))
    ensures forall i :: 0 <= i < |w| ==> 0.0 <= Survive(c, w)[i].num <= w[i].num
  {
    var s := Survive(c, w);
    forall i | 0 <= i < |s| ensures 0.0 <= s[i].num <= w[i].num {
      SurvivingRowBounds(c, w[i]);
    }
  }

  lemma SurvivingRowBounds(c: Consts, r: Row)
    requires HasSurvival(c, r) && r.num >= 0.0 && RatesInUnit(c.survival)
    ensures 0.0 <= SurvivingRow(c, r).num <= r.num
  {
    SurvivalForInUnit(c.survival, r.age, r.male);
    ScaledBounds(r, SurvivalFor(c.survival, r.age, r.male).value);
  }

  lemma ScaledBounds(r: Row, rate: real)
    requires r.num >= 0.0 && 0.0 <= rate <= 1.0
    ensures 0.0 <= r.(num := r.num * rate).num <= r.num
  {
  }
}
