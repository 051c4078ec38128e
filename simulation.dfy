/** main of the simulator: generation zero is summarised under start_year,
    then each pass of the loop computes the next generation, summarises it
    under the current year and moves the year counter on. The loop itself
    never ends; the model has one pass as a method and any finite number of
    passes as a function over the draws of each year. */
module Simulation {
  import opened Grouping
  import opened Cohort
  import opened Rates
  import opened YearStep

  /** The state main carries from one pass to the next. */
  class Simulation {
    const consts: Consts
    var year: int
    var generation: seq<Row>

    /** No cohort has a negative head count and every survival rate is a
        probability. The program does not check this; it holds from the
        start when the inputs are in range, and every pass keeps it. */
    predicate InRange()
      reads this
    {
      NonNegative(generation) && RatesInUnit(consts.survival)
    }

    /** main before the loop: generation zero has been summarised under
        start_year and the counter has moved past it. */
    constructor (c: Consts, startYear: int, zero: seq<Row>)
      ensures consts == c && year == startYear + 1 && generation == zero
      ensures InRange() <==> NonNegative(zero) && RatesInUnit(c.survival)
    {
      consts := c;
      year := startYear + 1;
      generation := zero;
    }

    /** output_summary(df_generation, year): both group-by sums of the
        current generation, each adding up to its whole head count. */
    method Summary() returns (bySurname: seq<Group>, byAge: seq<Group>)
      ensures bySurname == MyojiSummary(generation) && byAge == AgeSummary(generation)
      ensures Total(bySurname) == Weight(generation) && Total(byAge) == Weight(generation)
    {
      bySurname := MyojiSummary(generation);
      byAge := AgeSummary(generation);
      SummariesTotal(generation);
    }

    /** One pass of the loop: df_generation = next_year(consts, df_generation),
        then year += 1. Existing cohorts keep their place, surname and sex
        and grow one year older; the babies follow them. */
    method Advance(d: Draws)
      requires ValidDraws(consts, Aged(generation), d)
      requires Survivable(consts, generation, d)
      modifies this
      ensures generation == Step(consts, old(generation), d)
      ensures year == old(year) + 1
      ensures |old(generation)| <= |generation|
      ensures forall i :: 0 <= i < |old(generation)| ==>
        generation[i].myoji == old(generation)[i].myoji &&
        generation[i].male == old(generation)[i].male &&
        generation[i].age == old(generation)[i].age + 1
      ensures old(InRange()) ==> InRange()
    {
      if InRange() {
        StepNonIncreasing(consts, generation, d);
      }
      generation := NextYear(consts, generation, d);
      year := year + 1;
    }
  }

  /** The draws of each year in turn fit the generation they are used on. */
  predicate RunnableFrom(c: Consts, t: seq<Row>, ds: seq<Draws>)
    decreases |ds|
  {
    ds == [] ||
    (ValidDraws(c, Aged(t), ds[0]) && Survivable(c, t, ds[0]) &&
     RunnableFrom(c, Step(c, t, ds[0]), ds[1..]))
  }

  /** The generation after |ds| passes of the loop. */
  function Run(c: Consts, t: seq<Row>, ds: seq<Draws>): seq<Row>
    requires RunnableFrom(c, t, ds)
    decreases |ds|
  {
    if ds == [] then t else Run(c, Step(c, t, ds[0]), ds[1..])
  }

  /** A cohort's lineage over the years: row i of the starting table stays
      row i, with its surname and sex, |ds| years older, and (when no count
      is negative and every survival rate is a probability) never larger. */
  lemma {:induction false} RunLineage(c: Consts, t: seq<Row>, ds: seq<Draws>)
    requires RunnableFrom(c, t, ds)
    ensures |t| <= |Run(c, t, ds)|
    ensures forall i :: 0 <= i < |t| ==>
      Run(c, t, ds)[i].myoji == t[i].myoji && Run(c, t, ds)[i].male == t[i].male &&
      Run(c, t, ds)[i].age == t[i].age + |ds|
    ensures NonNegative(t) && RatesInUnit(c.survival) ==>
      NonNegative(Run(c, t, ds)) &&
      forall i :: 0 <= i < |t| ==> Run(c, t, ds)[i].num <= t[i].num
    decreases |ds|
  {
    if ds != [] {
      var s := Step(c, t, ds[0]);
      forall i | 0 <= i < |t|
        ensures s[i].myoji == t[i].myoji && s[i].male == t[i].male && s[i].age == t[i].age + 1
      {
        StepRow(c, t, ds[0], i);
      }
      if NonNegative(t) && RatesInUnit(c.survival) {
        StepNonIncreasing(c, t, ds[0]);
      }
      RunLineage(c, s, ds[1..]);
    }
  }
}
