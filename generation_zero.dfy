/** init_generation_zero: the surname registry (the explicit surname table
    plus synthesised minor surnames) and the first cohort table, which
    spreads every surname's population over every (sex, age) cell of the
    age pyramid in proportion to the cell. */
module GenerationZero {
  import opened Wrappers
  import opened Decimal
  import opened Rates
  import opened Cohort

  /** A row of the surname table: myoji_index, myoji, myoji_population. */
  datatype MyojiEntry = MyojiEntry(index: nat, name: string, population: real)

  /** A row of df_age_pyramid_rate: a (sex, age) cell and its share of the
      whole pyramid. */
  datatype Cell = Cell(male: bool, age: nat, rate: real)

  /** The name stem of a minor surname ("rare surname"). */
  const MinorStem: string := "[希少名字"
  const MinorWidth: nat := 6

  /** The total population of the age pyramid, both sexes. */
  function PyramidTotal(p: Params): real {
    Sum(p.pyramidMale) + Sum(p.pyramidFemale)
  }

  function PopulationSum(es: seq<MyojiEntry>): real {
    if es == [] then 0.0 else es[0].population + PopulationSum(es[1..])
  }

  /** total_number_of_myoji - len(df_myoji), where a negative count gives an
      empty range(). */
  function MinorCount(p: Params, explicit: seq<MyojiEntry>): nat {
    if p.totalNumberOfMyoji > |explicit| then p.totalNumberOfMyoji - |explicit| else 0
  }

  /** f'[希少名字{i + 1:06}]' */
  function MinorName(i: nat): string {
    MinorStem + PadDigits(i + 1, MinorWidth) + "]"
  }

  /** minor_myoji_population / minor_myoji_len: the population the explicit
      table leaves out, per minor surname. */
  function AverageMinorPopulation(p: Params, explicit: seq<MyojiEntry>): real
    requires MinorCount(p, explicit) > 0
  {
    (PyramidTotal(p) - PopulationSum(explicit)) / MinorCount(p, explicit) as real
  }

  /** The synthesised minor surnames, numbered on from the explicit table. */
  function MinorEntries(p: Params, explicit: seq<MyojiEntry>): (r: seq<MyojiEntry>)
    ensures |r| == MinorCount(p, explicit)
    ensures forall i :: 0 <= i < |r| ==>
      r[i].index == i + |explicit| + 1 && r[i].name == MinorName(i) &&
      r[i].population == AverageMinorPopulation(p, explicit)
  {
    var n := MinorCount(p, explicit);
    if n == 0 then []
    else
      var average := AverageMinorPopulation(p, explicit);
      seq(n, i requires 0 <= i < n => MyojiEntry(i + |explicit| + 1, MinorName(i), average))
  }

  /** pd.concat([df_myoji, minor_items]) */
  function Registry(p: Params, explicit: seq<MyojiEntry>): seq<MyojiEntry> {
    explicit + MinorEntries(p, explicit)
  }

  function CellsOf(es: seq<AgeValue>, male: bool, total: real): (r: seq<Cell>)
    requires total != 0.0
    ensures |r| == |es|
    ensures forall i :: 0 <= i < |es| ==> r[i] == Cell(male, es[i].age, es[i].value / total)
  {
    if es == [] then [] else [Cell(male, es[0].age, es[0].value / total)] + CellsOf(es[1..], male, total)
  }

  /** df_age_pyramid / total, stacked: the male cells, then the female
      cells. */
  function PyramidRates(p: Params): seq<Cell>
    requires PyramidTotal(p) != 0.0
  {
    CellsOf(p.pyramidMale, true, PyramidTotal(p)) + CellsOf(p.pyramidFemale, false, PyramidTotal(p))
  }

  function RateSum(cells: seq<Cell>): real {
    if cells == [] then 0.0 else cells[0].rate + RateSum(cells[1..])
  }

  /** The row of surname e in cell c: num = myoji_population * rate. */
  function Share(e: MyojiEntry, c: Cell): Row {
    Row(e.index, c.male, c.age, e.population * c.rate)
  }

  /** One surname's rows of the cross join, in cell order. */
  function Block(e: MyojiEntry, cells: seq<Cell>): (r: seq<Row>)
    ensures |r| == |cells|
  {
    if cells == [] then []
    else [Share(e, cells[0])] + Block(e, cells[1..])
  }

  /** The cross join of the registry with the cells: for each surname in
      registry order, its row for each cell in cell order. */
  function CrossJoin(reg: seq<MyojiEntry>, cells: seq<Cell>): seq<Row> {
    if reg == [] then [] else Block(reg[0], cells) + CrossJoin(reg[1..], cells)
  }

  /** The cohort table of the start year. */
  function GenerationZero(p: Params, explicit: seq<MyojiEntry>): seq<Row>
    requires PyramidTotal(p) != 0.0
  {
    CrossJoin(Registry(p, explicit), PyramidRates(p))
  }

  /** dict(zip(myoji_index, myoji)): a later entry overrides an earlier one
      with the same index. */
  function MyojiDict(reg: seq<MyojiEntry>): map<nat, string> {
    if reg == [] then map[]
    else MyojiDict(reg[..|reg| - 1])[reg[|reg| - 1].index := reg[|reg| - 1].name]
  }

  lemma {:induction false} BlockAt(e: MyojiEntry, cells: seq<Cell>, j: nat)
    requires j < |cells|
    ensures Block(e, cells)[j] == Share(e, cells[j])
  {
    if j > 0 {
      BlockAt(e, cells[1..], j - 1);
    }
  }

  /** Rows i*|cells| up to (i+1)*|cells| of the cross join are surname i's
      block. */
  lemma {:induction false} CrossJoinBlock(reg: seq<MyojiEntry>, cells: seq<Cell>, i: nat)
    requires i < |reg|
    ensures |CrossJoin(reg, cells)| == |reg| * |cells|
    ensures i * |cells| + |cells| <= |CrossJoin(reg, cells)|
    ensures CrossJoin(reg, cells)[i * |cells|..i * |cells| + |cells|] == Block(reg[i], cells)
  {
    var n := |cells|;
    CrossJoinLength(reg, cells);
    CrossJoinLength(reg[1..], cells);
    MulBelow(i, |reg|, n);
    var head := Block(reg[0], cells);
    var tail := CrossJoin(reg[1..], cells);
    assert CrossJoin(reg, cells) == head + tail;
    if i > 0 {
      CrossJoinBlock(reg[1..], cells, i - 1);
      MulStep(i, n);
      assert reg[1..][i - 1] == reg[i];
      SliceBehind(head, tail, (i - 1) * n, n);
    } else {
      assert i * n == 0;
    }
  }

  lemma {:induction false} MulBelow(i: nat, m: nat, n: nat)
    requires i < m
    ensures i * n + n <= m * n
    decreases m
  {
    MulStep(m, n);
    if i + 1 < m {
      MulBelow(i, m - 1, n);
    }
  }

  lemma SliceBehind(head: seq<Row>, tail: seq<Row>, k: nat, n: nat)
    requires k + n <= |tail|
    ensures (head + tail)[|head| + k..|head| + k + n] == tail[k..k + n]
  {
  }

  lemma MulStep(i: nat, n: nat)
    requires i > 0
    ensures i * n == (i - 1) * n + n
    ensures (i - 1) * n >= 0
  {
  }

  lemma {:induction false} CrossJoinLength(reg: seq<MyojiEntry>, cells: seq<Cell>)
    ensures |CrossJoin(reg, cells)| == |reg| * |cells|
  {
    if reg != [] {
      CrossJoinLength(reg[1..], cells);
      assert |reg| * |cells| == (|reg| - 1) * |cells| + |cells|;
    }
  }

  lemma {:induction false} BlockWeight(e: MyojiEntry, cells: seq<Cell>)
    ensures Weight(Block(e, cells)) == e.population * RateSum(cells)
  {
    if cells != [] {
      assert Block(e, cells)[1..] == Block(e, cells[1..]);
      BlockWeight(e, cells[1..]);
    }
  }

  lemma {:induction false} CrossJoinWeight(reg: seq<MyojiEntry>, cells: seq<Cell>)
    ensures Weight(CrossJoin(reg, cells)) == PopulationSum(reg) * RateSum(cells)
  {
    if reg != [] {
      WeightAppend(Block(reg[0], cells), CrossJoin(reg[1..], cells));
      BlockWeight(reg[0], cells);
      CrossJoinWeight(reg[1..], cells);
    }
  }

  lemma {:induction false} CellsOfRateSum(es: seq<AgeValue>, male: bool, total: real)
    requires total != 0.0
    ensures RateSum(CellsOf(es, male, total)) == Sum(es) / total
  {
    if es != [] {
      var cells := CellsOf(es, male, total);
      assert cells[1..] == CellsOf(es[1..], male, total);
      assert RateSum(cells) == es[0].value / total + RateSum(cells[1..]);
      CellsOfRateSum(es[1..], male, total);
      assert Sum(es) == es[0].value + Sum(es[1..]);
      DivAdd(es[0].value, Sum(es[1..]), total);
    }
  }

  lemma DivAdd(a: real, b: real, t: real)
    requires t != 0.0
    ensures a / t + b / t == (a + b) / t
  {
  }

  lemma {:induction false} RateSumAppend(a: seq<Cell>, b: seq<Cell>)
    ensures RateSum(a + b) == RateSum(a) + RateSum(b)
  {
    if a == [] {
      assert a + b == b;
    } else {
      assert (a + b)[1..] == a[1..] + b;
      RateSumAppend(a[1..], b);
    }
  }

  /** The cell shares of the pyramid add up to one. */
  lemma PyramidRatesSumToOne(p: Params)
    requires PyramidTotal(p) != 0.0
    ensures RateSum(PyramidRates(p)) == 1.0
  {
    var t := PyramidTotal(p);
    RateSumAppend(CellsOf(p.pyramidMale, true, t), CellsOf(p.pyramidFemale, false, t));
    CellsOfRateSum(p.pyramidMale, true, t);
    CellsOfRateSum(p.pyramidFemale, false, t);
    DivSum(Sum(p.pyramidMale), Sum(p.pyramidFemale), t);
  }

  lemma DivSum(a: real, b: real, t: real)
    requires t != 0.0 && a + b == t
    ensures a / t + b / t == 1.0
  {
    var x := a / t;
    var y := b / t;
    assert x * t == a;
    assert y * t == b;
    assert (x + y - 1.0) * t == 0.0;
  }

  lemma {:induction false} PopulationSumAppend(a: seq<MyojiEntry>, b: seq<MyojiEntry>)
    ensures PopulationSum(a + b) == PopulationSum(a) + PopulationSum(b)
  {
    if a == [] {
      assert a + b == b;
    } else {
      assert (a + b)[1..] == a[1..] + b;
      PopulationSumAppend(a[1..], b);
    }
  }

  lemma {:induction false} UniformPopulationSum(es: seq<MyojiEntry>, v: real)
    requires forall i :: 0 <= i < |es| ==> es[i].population == v
    ensures PopulationSum(es) == |es| as real * v
  {
    if es != [] {
      UniformPopulationSum(es[1..], v);
    }
  }

  /** When there is at least one minor surname, the registry's populations
      add up to the age pyramid's total: the minor surnames absorb exactly
      the residual. */
  lemma RegistryCoversPyramid(p: Params, explicit: seq<MyojiEntry>)
    requires MinorCount(p, explicit) > 0
    ensures PopulationSum(Registry(p, explicit)) == PyramidTotal(p)
  {
    PopulationSumAppend(explicit, MinorEntries(p, explicit));
    MinorPopulation(p, explicit);
  }

  /** The minor surnames together hold the residual population. */
  lemma MinorPopulation(p: Params, explicit: seq<MyojiEntry>)
    requires MinorCount(p, explicit) > 0
    ensures PopulationSum(MinorEntries(p, explicit)) == PyramidTotal(p) - PopulationSum(explicit)
  {
    var minor := MinorEntries(p, explicit);
    var x := PyramidTotal(p) - PopulationSum(explicit);
    var n := |minor| as real;
    assert AverageMinorPopulation(p, explicit) == x / n;
    UniformPopulationSum(minor, x / n);
    AverageTimesCount(x, n);
  }

  lemma AverageTimesCount(x: real, n: real)
    requires n != 0.0
    ensures n * (x / n) == x
  {
  }

  /** Every surname's rows in generation zero add back up to its
      population. */
  lemma SurnameRowsSumToPopulation(p: Params, explicit: seq<MyojiEntry>, i: nat)
    requires PyramidTotal(p) != 0.0 && i < |Registry(p, explicit)|
    ensures Weight(Block(Registry(p, explicit)[i], PyramidRates(p))) == Registry(p, explicit)[i].population
  {
    BlockWeight(Registry(p, explicit)[i], PyramidRates(p));
    PyramidRatesSumToOne(p);
  }

  /** Generation zero holds the registry's whole population, which is the
      pyramid total whenever minor surnames exist. */
  lemma GenerationZeroTotal(p: Params, explicit: seq<MyojiEntry>)
    requires PyramidTotal(p) != 0.0
    ensures Weight(GenerationZero(p, explicit)) == PopulationSum(Registry(p, explicit))
    ensures MinorCount(p, explicit) > 0 ==> Weight(GenerationZero(p, explicit)) == PyramidTotal(p)
  {
    CrossJoinWeight(Registry(p, explicit), PyramidRates(p));
    PyramidRatesSumToOne(p);
    if MinorCount(p, explicit) > 0 {
      RegistryCoversPyramid(p, explicit);
    }
  }

  /** Generation zero has exactly one row per surname and cell, laid out
      surname by surname: row i*|cells| + j is surname i in cell j, its
      head count the surname's population times the cell's share. */
  lemma GenerationZeroRows(p: Params, explicit: seq<MyojiEntry>, i: nat, j: nat)
    requires PyramidTotal(p) != 0.0
    requires i < |Registry(p, explicit)| && j < |PyramidRates(p)|
    ensures |GenerationZero(p, explicit)| == |Registry(p, explicit)| * |PyramidRates(p)|
    ensures i * |PyramidRates(p)| + j < |GenerationZero(p, explicit)|
    ensures GenerationZero(p, explicit)[i * |PyramidRates(p)| + j] ==
      Share(Registry(p, explicit)[i], PyramidRates(p)[j])
  {
    CrossJoinLength(Registry(p, explicit), PyramidRates(p));
    CrossJoinAt(Registry(p, explicit), PyramidRates(p), i, j);
  }

  lemma CrossJoinAt(reg: seq<MyojiEntry>, cells: seq<Cell>, i: nat, j: nat)
    requires i < |reg| && j < |cells|
    ensures i * |cells| + j < |CrossJoin(reg, cells)|
    ensures CrossJoin(reg, cells)[i * |cells| + j] == Share(reg[i], cells[j])
  {
    var n := |cells|;
    var k := i * n;
    var rows := CrossJoin(reg, cells);
    CrossJoinBlock(reg, cells, i);
    MulStep(i + 1, n);
    assert k + n <= |rows|;
    var block := rows[k..k + n];
    assert block == Block(reg[i], cells);
    assert rows[k + j] == block[j];
    BlockAt(reg[i], cells, j);
  }

  /** The minor surname names: the stem, the number i + 1 zero-padded to at
      least six digits, and a closing bracket. */
  lemma MinorNameSpec(i: nat)
    ensures |MinorName(i)| == |MinorStem| + (if |Digits(i + 1)| < MinorWidth then MinorWidth else |Digits(i + 1)|) + 1
    ensures MinorName(i)[..|MinorStem|] == MinorStem && MinorName(i)[|MinorName(i)| - 1] == ']'
    ensures ParseNat(MinorName(i)[|MinorStem|..|MinorName(i)| - 1]) == Some(i + 1)
  {
    PadDigitsRoundTrip(i + 1, MinorWidth);
    var name := MinorName(i);
    assert name[|MinorStem|..|name| - 1] == PadDigits(i + 1, MinorWidth);
  }

  /** The dictionary maps every index that occurs, and each index to the
      name of its last occurrence. */
  lemma {:induction false} MyojiDictSpec(reg: seq<MyojiEntry>)
    ensures forall k :: k in MyojiDict(reg) <==> exists i :: 0 <= i < |reg| && reg[i].index == k
    ensures forall i :: 0 <= i < |reg| && (forall j :: i < j < |reg| ==> reg[j].index != reg[i].index) ==>
      MyojiDict(reg)[reg[i].index] == reg[i].name
  {
    if reg != [] {
      var n := |reg| - 1;
      var init := reg[..n];
      MyojiDictSpec(init);
      assert forall i :: 0 <= i < n ==> init[i] == reg[i];
    }
  }

  /** Minor surname i is listed in the dictionary under index
      len(df_myoji) + i + 1 with its synthesised name. */
  lemma MinorNamesInDict(p: Params, explicit: seq<MyojiEntry>, i: nat)
    requires i < MinorCount(p, explicit)
    ensures |explicit| + i + 1 in MyojiDict(Registry(p, explicit))
    ensures MyojiDict(Registry(p, explicit))[|explicit| + i + 1] == MinorName(i)
  {
    var reg := Registry(p, explicit);
    var minor := MinorEntries(p, explicit);
    var at := |explicit| + i;
    assert reg[at] == minor[i];
    MyojiDictSpec(reg);
    forall j | at < j < |reg| ensures reg[j].index != reg[at].index {
      assert reg[j] == minor[j - |explicit|];
    }
  }
}
