/** init_consts: the parenting ages, the two birth rates, the probability of
    taking the father's surname, and the survival-rate table derived from the
    parameter file. */
module Rates {
  import opened Wrappers
  import opened Numeric

  /** One member of a JSON object keyed by age ("30": 1234.0), with the key
      already read as a number; an object is a list of these in file order. */
  datatype AgeValue = AgeValue(age: nat, value: real)

  /** The parameters the model reads, as parsed values. */
  datatype Params = Params(
    ageAtChildbirthMale: real,
    ageAtChildbirthFemale: real,
    pyramidMale: seq<AgeValue>,
    pyramidFemale: seq<AgeValue>,
    birthsMale: real,
    birthsFemale: real,
    selectivityMale: real,
    selectivityFemale: real,
    deathRateMale: seq<AgeValue>,
    deathRateFemale: seq<AgeValue>,
    totalNumberOfMyoji: int,
    startYear: int)

  /** One row of the flattened survival table df_survival_rate. */
  datatype SurvivalEntry = SurvivalEntry(age: nat, male: bool, rate: real)

  /** The dictionary init_consts returns. */
  datatype Consts = Consts(
    ageMale: int,
    ageFemale: int,
    birthrateMale: real,
    birthrateFemale: real,
    maleMyojiRate: real,
    survival: seq<SurvivalEntry>)

  /** The exceptions init_consts can raise: a KeyError for a parenting age
      missing from the age pyramid, a ZeroDivisionError for an empty parent
      pool or an all-zero selectivity. */
  datatype ConstsError =
    | MissingPyramidAge(male: bool, age: int)
    | NoParents
    | NoSelectivity

  /** The first age the table covers beyond the dense range 0..499. */
  const DenseAges: nat := 500

  /** Death rates are given per 100,000 people. */
  const RateScale: real := 100000.0

  /** obj[str(age)]: the value stored under an age, if the object has it. */
  function Lookup(es: seq<AgeValue>, age: int): Option<real> {
    if es == [] then None
    else if es[0].age == age then Some(es[0].value)
    else Lookup(es[1..], age)
  }

  /** A lookup succeeds exactly when the age is listed, and then returns a
      value listed under that age. */
  lemma {:induction false} LookupSpec(es: seq<AgeValue>, age: int)
    ensures Lookup(es, age).Some? <==> exists i :: 0 <= i < |es| && es[i].age == age
    ensures Lookup(es, age).Some? ==>
      exists i :: 0 <= i < |es| && es[i].age == age && es[i].value == Lookup(es, age).value
  {
    if es != [] && es[0].age != age {
      LookupSpec(es[1..], age);
      assert forall i :: 0 < i < |es| ==> es[i] == es[1..][i - 1];
    }
  }

  function Sum(es: seq<AgeValue>): real {
    if es == [] then 0.0 else es[0].value + Sum(es[1..])
  }

  function FathersAtAge(p: Params): Option<real> {
    Lookup(p.pyramidMale, Ceil(p.ageAtChildbirthMale))
  }

  function MothersAtAge(p: Params): Option<real> {
    Lookup(p.pyramidFemale, Ceil(p.ageAtChildbirthFemale))
  }

  /** 1 - rate / 100000 */
  function Survival(deathRate: real): (s: real)
    ensures 0.0 <= deathRate <= RateScale ==> 0.0 <= s <= 1.0
    ensures s * RateScale == RateScale - deathRate
  {
    1.0 - deathRate / RateScale
  }

  /** The position of the entry with the greatest age not above a (the row
      forward fill copies into age a). */
  function LastAtOrBelow(es: seq<AgeValue>, a: nat): (r: Option<nat>)
    ensures r.Some? ==> r.value < |es| && es[r.value].age <= a
  {
    if es == [] then None
    else
      var n := |es| - 1;
      var b := LastAtOrBelow(es[..n], a);
      if es[n].age <= a && (b.None? || es[b.value].age <= es[n].age) then Some(n) else b
  }

  lemma {:induction false} LastAtOrBelowSpec(es: seq<AgeValue>, a: nat)
    ensures LastAtOrBelow(es, a).Some? <==> exists i :: 0 <= i < |es| && es[i].age <= a
    ensures LastAtOrBelow(es, a).Some? ==>
      forall j :: 0 <= j < |es| && es[j].age <= a ==> es[j].age <= es[LastAtOrBelow(es, a).value].age
  {
    if es != [] {
      var n := |es| - 1;
      LastAtOrBelowSpec(es[..n], a);
      assert forall j :: 0 <= j < n ==> es[..n][j] == es[j];
    }
  }

  /** The death rate of age a after reindexing onto the dense age axis and
      interpolate('ffill'): the rate of the nearest given age at or below a,
      or nothing (NaN) when no given age is that low. */
  function FFill(es: seq<AgeValue>, a: nat): Option<real> {
    match LastAtOrBelow(es, a)
    case Some(i) => Some(es[i].value)
    case None => None
  }

  /** Forward fill finds a rate exactly when some given age is at or below
      a, and then it is the rate of the greatest such age. */
  lemma FFillSpec(es: seq<AgeValue>, a: nat)
    ensures FFill(es, a).Some? <==> exists i :: 0 <= i < |es| && es[i].age <= a
    ensures FFill(es, a).Some? ==>
      (exists i :: 0 <= i < |es| && es[i].age <= a && es[i].value == FFill(es, a).value &&
        (forall j :: 0 <= j < |es| && es[j].age <= a ==> es[j].age <= es[i].age))
  {
    LastAtOrBelowSpec(es, a);
  }

  /** The ages of the death-rate frame's index: 0..499 and every given age. */
  predicate InIndex(p: Params, a: nat) {
    a < DenseAges || Lookup(p.deathRateMale, a).Some? || Lookup(p.deathRateFemale, a).Some?
  }

  function MaxAge(es: seq<AgeValue>): (m: nat)
    ensures forall i :: 0 <= i < |es| ==> es[i].age <= m
  {
    if es == [] then 0
    else
      var m := MaxAge(es[1..]);
      assert forall i :: 0 < i < |es| ==> es[i] == es[1..][i - 1];
      if es[0].age > m then es[0].age else m
  }

  /** One past the highest age of the index. */
  function IndexBound(p: Params): (b: nat)
    ensures DenseAges <= b
    ensures forall i :: 0 <= i < |p.deathRateMale| ==> p.deathRateMale[i].age < b
    ensures forall i :: 0 <= i < |p.deathRateFemale| ==> p.deathRateFemale[i].age < b
  {
    var m := MaxAge(p.deathRateMale);
    var f := MaxAge(p.deathRateFemale);
    var top := if m > f then m else f;
    if top + 1 > DenseAges then top + 1 else DenseAges
  }

  function SexRates(p: Params, male: bool): seq<AgeValue> {
    if male then p.deathRateMale else p.deathRateFemale
  }

  /** The survival rate stack() emits for (a, male), if the cell is not NaN. */
  function ExpectedSurvival(p: Params, a: nat, male: bool): Option<real> {
    if !InIndex(p, a) then None
    else match FFill(SexRates(p, male), a)
      case Some(d) => Some(Survival(d))
      case None => None
  }

  /** The stacked rows of one index age: male column, then female column;
      stack() drops a NaN cell. */
  function RowsAt(p: Params, a: nat): seq<SurvivalEntry> {
    (match FFill(p.deathRateMale, a)
     case Some(d) => [SurvivalEntry(a, true, Survival(d))]
     case None => [])
    +
    (match FFill(p.deathRateFemale, a)
     case Some(d) => [SurvivalEntry(a, false, Survival(d))]
     case None => [])
  }

  function SurvivalFrom(p: Params, a: nat, bound: nat): seq<SurvivalEntry>
    decreases bound - a
  {
    if a >= bound then []
    else (if InIndex(p, a) then RowsAt(p, a) else []) + SurvivalFrom(p, a + 1, bound)
  }

  /** df_survival_rate: the death-rate frame in ascending age order,
      forward-filled, turned into survival rates and flattened to one row
      per (age, sex) cell. */
  function SurvivalTable(p: Params): seq<SurvivalEntry> {
    SurvivalFrom(p, 0, IndexBound(p))
  }

  /** The survival_rate a left merge on (age, male) finds for a row. */
  function SurvivalFor(t: seq<SurvivalEntry>, age: nat, male: bool): (r: Option<real>)
    ensures r.Some? <==> exists i :: 0 <= i < |t| && t[i].age == age && t[i].male == male
  {
    if t == [] then None
    else if t[0].age == age && t[0].male == male then Some(t[0].rate)
    else
      var r := SurvivalFor(t[1..], age, male);
      assert forall i :: 0 < i < |t| ==> t[i] == t[1..][i - 1];
      r
  }

  /** Every rate of the table lies in [0, 1]. */
  predicate RatesInUnit(t: seq<SurvivalEntry>) {
    forall i :: 0 <= i < |t| ==> 0.0 <= t[i].rate <= 1.0
  }

  /** The merge finds one of the table's own rates. */
  lemma {:induction false} SurvivalForInUnit(t: seq<SurvivalEntry>, age: nat, male: bool)
    requires RatesInUnit(t)
    requires SurvivalFor(t, age, male).Some?
    ensures 0.0 <= SurvivalFor(t, age, male).value <= 1.0
  {
    if t[0].age != age || t[0].male != male {
      assert RatesInUnit(t[1..]) by {
        forall i | 0 <= i < |t[1..]| ensures 0.0 <= t[1..][i].rate <= 1.0 {
          assert t[1..][i] == t[i + 1];
        }
      }
      SurvivalForInUnit(t[1..], age, male);
    }
  }

  /** init_consts */
  function InitConsts(p: Params): (r: Result<Consts, ConstsError>)
    ensures r.Err? <==>
      FathersAtAge(p).None? || MothersAtAge(p).None? ||
      FathersAtAge(p).value + MothersAtAge(p).value == 0.0 ||
      p.selectivityMale + p.selectivityFemale == 0.0
    ensures FathersAtAge(p).None? ==> r == Err(MissingPyramidAge(true, Ceil(p.ageAtChildbirthMale)))
    ensures FathersAtAge(p).Some? && MothersAtAge(p).None? ==>
      r == Err(MissingPyramidAge(false, Ceil(p.ageAtChildbirthFemale)))
    ensures r.Ok? ==>
      var c := r.value;
      var parents := FathersAtAge(p).value + MothersAtAge(p).value;
      c.ageMale as real - 1.0 < p.ageAtChildbirthMale <= c.ageMale as real &&
      c.ageFemale as real - 1.0 < p.ageAtChildbirthFemale <= c.ageFemale as real &&
      c.birthrateMale * parents == p.birthsMale &&
      c.birthrateFemale * parents == p.birthsFemale &&
      c.maleMyojiRate * (p.selectivityMale + p.selectivityFemale) == p.selectivityMale &&
      c.survival == SurvivalTable(p)
  {
    var ageMale := Ceil(p.ageAtChildbirthMale);
    var ageFemale := Ceil(p.ageAtChildbirthFemale);
    match (FathersAtAge(p), MothersAtAge(p))
    case (None, _) => Err(MissingPyramidAge(true, ageMale))
    case (Some(_), None) => Err(MissingPyramidAge(false, ageFemale))
    case (Some(fathers), Some(mothers)) =>
      var parents := fathers + mothers;
      if parents == 0.0 then Err(NoParents)
      else
        var selectivity := p.selectivityMale + p.selectivityFemale;
        if selectivity == 0.0 then Err(NoSelectivity)
        else Ok(Consts(
          ageMale, ageFemale,
          p.birthsMale / parents, p.birthsFemale / parents,
          p.selectivityMale / selectivity,
          SurvivalTable(p)))
  }

  /** The probability of taking the father's surname is a probability when
      both selectivity counts are non-negative. */
  lemma MaleMyojiRateInUnit(p: Params)
    requires InitConsts(p).Ok?
    requires p.selectivityMale >= 0.0 && p.selectivityFemale >= 0.0
    ensures 0.0 <= InitConsts(p).value.maleMyojiRate <= 1.0
  {
    var total := p.selectivityMale + p.selectivityFemale;
    assert InitConsts(p).value.maleMyojiRate == p.selectivityMale / total;
    RatioInUnit(p.selectivityMale, total);
  }

  lemma RatioInUnit(part: real, whole: real)
    requires 0.0 <= part <= whole && whole > 0.0
    ensures 0.0 <= part / whole <= 1.0
  {
    var q := part / whole;
    assert q * whole == part;
    assert (1.0 - q) * whole == whole - part;
  }

  lemma {:induction false} SurvivalForAppend(x: seq<SurvivalEntry>, y: seq<SurvivalEntry>, age: nat, male: bool)
    ensures SurvivalFor(x + y, age, male) ==
      if SurvivalFor(x, age, male).Some? then SurvivalFor(x, age, male) else SurvivalFor(y, age, male)
  {
    if x != [] {
      assert (x + y)[0] == x[0];
      assert (x + y)[1..] == x[1..] + y;
      SurvivalForAppend(x[1..], y, age, male);
    } else {
      assert x + y == y;
    }
  }

  lemma RowsAtSpec(p: Params, a: nat, age: nat, male: bool)
    requires InIndex(p, a)
    ensures SurvivalFor(RowsAt(p, a), age, male) == if age == a then ExpectedSurvival(p, a, male) else None
  {
    var m := match FFill(p.deathRateMale, a)
      case Some(d) => [SurvivalEntry(a, true, Survival(d))]
      case None => [];
    var f := match FFill(p.deathRateFemale, a)
      case Some(d) => [SurvivalEntry(a, false, Survival(d))]
      case None => [];
    SurvivalForAppend(m, f, age, male);
  }

  lemma {:induction false} SurvivalFromSpec(p: Params, b: nat, bound: nat, age: nat, male: bool)
    ensures SurvivalFor(SurvivalFrom(p, b, bound), age, male) ==
      if b <= age < bound then ExpectedSurvival(p, age, male) else None
    decreases bound - b
  {
    if b < bound {
      SurvivalFromSpec(p, b + 1, bound, age, male);
      SurvivalFromStep(p, b, bound, age, male);
    }
  }

  /** The rows of age b in front of the rest of the table. */
  lemma SurvivalFromStep(p: Params, b: nat, bound: nat, age: nat, male: bool)
    requires b < bound
    requires SurvivalFor(SurvivalFrom(p, b + 1, bound), age, male) ==
      if b + 1 <= age < bound then ExpectedSurvival(p, age, male) else None
    ensures SurvivalFor(SurvivalFrom(p, b, bound), age, male) ==
      if b <= age < bound then ExpectedSurvival(p, age, male) else None
  {
    var here := if InIndex(p, b) then RowsAt(p, b) else [];
    var rest := SurvivalFrom(p, b + 1, bound);
    assert SurvivalFrom(p, b, bound) == here + rest;
    SurvivalForAppend(here, rest, age, male);
    if InIndex(p, b) {
      RowsAtSpec(p, b, age, male);
    } else {
      assert SurvivalFor(here, age, male) == None;
      OutsideIndex(p, b, male);
    }
  }

  lemma OutsideIndex(p: Params, a: nat, male: bool)
    requires !InIndex(p, a)
    ensures ExpectedSurvival(p, a, male) == None
  {
  }

  /** The survival table has a rate for (age, male) exactly when age is in
      the death-rate index and some given age of that sex is at or below it;
      the rate is then 1 - (forward-filled death rate) / 100000. Ages
      0..499 are all in the index. */
  lemma SurvivalTableSpec(p: Params, age: nat, male: bool)
    ensures SurvivalFor(SurvivalTable(p), age, male) == ExpectedSurvival(p, age, male)
    ensures age < DenseAges ==>
      (SurvivalFor(SurvivalTable(p), age, male).Some? <==>
       exists i :: 0 <= i < |SexRates(p, male)| && SexRates(p, male)[i].age <= age)
  {
    SurvivalFromSpec(p, 0, IndexBound(p), age, male);
    FFillSpec(SexRates(p, male), age);
    if age >= IndexBound(p) {
      LookupSpec(p.deathRateMale, age);
      LookupSpec(p.deathRateFemale, age);
    }
  }

  function SortKey(e: SurvivalEntry): (nat, bool) {
    (e.age, e.male)
  }

  lemma {:induction false} SurvivalFromAges(p: Params, b: nat, bound: nat)
    ensures forall i :: 0 <= i < |SurvivalFrom(p, b, bound)| ==> b <= SurvivalFrom(p, b, bound)[i].age
    decreases bound - b
  {
    if b < bound {
      SurvivalFromAges(p, b + 1, bound);
    }
  }

  /** Entries come in ascending age, the male row before the female row of
      the same age. */
  predicate Ordered(t: seq<SurvivalEntry>) {
    forall i, j :: 0 <= i < j < |t| ==>
      t[i].age < t[j].age || (t[i].age == t[j].age && t[i].male && !t[j].male)
  }

  /** The rows of one index age: at most two, both of that age, the male
      row first. */
  lemma RowsAtShape(p: Params, a: nat)
    ensures |RowsAt(p, a)| <= 2
    ensures forall i :: 0 <= i < |RowsAt(p, a)| ==> RowsAt(p, a)[i].age == a
    ensures |RowsAt(p, a)| == 2 ==> RowsAt(p, a)[0].male && !RowsAt(p, a)[1].male
  {
  }

  lemma {:induction false} SurvivalFromOrdered(p: Params, b: nat, bound: nat)
    ensures Ordered(SurvivalFrom(p, b, bound))
    decreases bound - b
  {
    if b < bound {
      var here := if InIndex(p, b) then RowsAt(p, b) else [];
      var rest := SurvivalFrom(p, b + 1, bound);
      assert SurvivalFrom(p, b, bound) == here + rest;
      SurvivalFromOrdered(p, b + 1, bound);
      SurvivalFromAges(p, b + 1, bound);
      RowsAtShape(p, b);
      PrependAge(here, rest, b);
    }
  }

  /** The rows of one age, male first, before rows of higher ages. */
  lemma PrependAge(x: seq<SurvivalEntry>, y: seq<SurvivalEntry>, b: nat)
    requires |x| <= 2 && forall i :: 0 <= i < |x| ==> x[i].age == b
    requires |x| == 2 ==> x[0].male && !x[1].male
    requires Ordered(y) && forall j :: 0 <= j < |y| ==> b + 1 <= y[j].age
    ensures Ordered(x + y)
  {
    forall i, j | 0 <= i < j < |x + y|
      ensures (x + y)[i].age < (x + y)[j].age ||
        ((x + y)[i].age == (x + y)[j].age && (x + y)[i].male && !(x + y)[j].male)
    {
      if j < |x| {
      } else if i >= |x| {
        assert (x + y)[i] == y[i - |x|] && (x + y)[j] == y[j - |x|];
      } else {
        assert (x + y)[i] == x[i] && (x + y)[j] == y[j - |x|];
      }
    }
  }

  /** No (age, male) cell occurs twice in the table, so the left merge in the
      year step neither duplicates nor drops a row that has a rate. */
  lemma SurvivalTableUnique(p: Params)
    ensures forall i, j :: 0 <= i < j < |SurvivalTable(p)| ==>
      SortKey(SurvivalTable(p)[i]) != SortKey(SurvivalTable(p)[j])
  {
    SurvivalFromOrdered(p, 0, IndexBound(p));
  }

  lemma {:induction false} SurvivalFromInUnit(p: Params, b: nat, bound: nat)
    requires forall i :: 0 <= i < |p.deathRateMale| ==> 0.0 <= p.deathRateMale[i].value <= RateScale
    requires forall i :: 0 <= i < |p.deathRateFemale| ==> 0.0 <= p.deathRateFemale[i].value <= RateScale
    ensures forall i :: 0 <= i < |SurvivalFrom(p, b, bound)| ==> 0.0 <= SurvivalFrom(p, b, bound)[i].rate <= 1.0
    decreases bound - b
  {
    if b < bound {
      SurvivalFromInUnit(p, b + 1, bound);
    }
  }

  /** With every given death rate in [0, 100000], every survival rate in
      the table is a probability. */
  lemma SurvivalTableInUnit(p: Params)
    requires forall i :: 0 <= i < |p.deathRateMale| ==> 0.0 <= p.deathRateMale[i].value <= RateScale
    requires forall i :: 0 <= i < |p.deathRateFemale| ==> 0.0 <= p.deathRateFemale[i].value <= RateScale
    ensures RatesInUnit(SurvivalTable(p))
  {
    SurvivalFromInUnit(p, 0, IndexBound(p));
  }
}
