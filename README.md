# Surname simulator, modelled in Dafny

The modelled system simulates Japanese surnames ("myoji") year by year. The
population is a cohort table with one row per surname, sex and age, holding
the head count `num`. The model covers two programs.

The simulator (`01_simulate.py`):
- `init_consts` derives the parent ages, the birth rates, the probability of
  taking the father's surname, and a dense survival table.
- `init_generation_zero` builds the start-year table. It synthesises the
  "minor surname" entries, then splits every surname's population over the
  (sex, age) cells of the age pyramid.
- `next_year` ages every row, counts the candidate parents, draws the
  families, adds the babies as age-0 rows and applies survival.
- `output_summary` produces the per-surname and per-(sex, age) sums.
- `main` carries the year counter and the current generation through the
  loop.

The aggregation job (`02_aggregate.py`):
- It parses the year from each output file name and visits the files in
  sorted path order.
- It sums each table by (male, age) and by surname.
- It pivots both into key × year tables, with zero fill, uint32 cells and
  the index levels cast to unsigned integers.

Randomness is an input. `DataFrame.sample` becomes the drawn positions among
the father and mother candidates. `np.random.rand` becomes the uniform
numbers, each compared with `male_myoji_rate`. Head counts are exact `real`s
rather than floats. Python's `round` is round-half-to-even; `math.ceil` is
the ceiling.

Layout, one module per file:
- `numeric.dfy`: ceil, round, and the truncating and wrapping casts.
- `decimal.dfy`: decimal text, zero padding, `int()` parsing.
- `grouping.dfy`: group-by sums with sorted unique keys.
- `cohort.dfy`: the cohort row and the two summaries.
- `rates.dfy`: `init_consts`.
- `generation_zero.dfy`: `init_generation_zero`.
- `year_step.dfy`: `next_year`, as the methods `AgeRows`, `Families`,
  `ApplySurvival` and `NextYear`, each proved against a specification
  function.
- `simulation.dfy`: `main`'s state, as the class `Simulation`.
- `aggregate.dfy`: `02_aggregate.py`, where the loop over the files is the
  method `Collect`.

Behaviours of the code that the model keeps as written:
- A surname count below the explicit table's length is no error. The code's
  `range` is simply empty, so `MinorCount` is 0.
- The threshold filter (`01_simulate.py:154`) and the sort (`:157`) discard
  their results. No row is removed and no row moves.
- Generation zero is a deterministic split: each surname's population is
  multiplied by each cell's share of the age pyramid, with no random draw.
- `next_year` completes only in a year with at least one baby and with no
  negative head count among the candidate parents (`ValidDraws`). With no
  baby, assigning the family table's surname column fails. A weighted sample
  refuses negative weights and weights that sum to zero. So the simulation
  cannot continue past a year without births.

## Model

| member | source | states |
|---|---|---|
| Numeric.Ceil | 01_simulate.py:17-18 | math.ceil: the result is the least integer not below the average age |
| Numeric.RoundHalfEven | 01_simulate.py:124-125 | Python round: within one half of x, even on an exact tie, never negative for x ≥ 0 |
| Numeric.ToUint32 | 02_aggregate.py:28 | astype('uint32') on a float cell: below 2^32, and for a value in range it is its integer part |
| Numeric.WrapUint16 | 02_aggregate.py:29-30 | astype('uint16') on the age level: congruent modulo 2^16, in range, the identity for values that fit |
| Numeric.WrapUint32 | 02_aggregate.py:34 | astype('uint32') on the surname index: congruent modulo 2^32, in range, the identity for values that fit |
| Decimal.Digits | 01_simulate.py:72 | the decimal text of n: non-empty, all digits, no leading zero unless n is 0 |
| Decimal.ParseInt | 02_aggregate.py:22-23 | int() on a string: defined exactly on an optional sign followed by digits, with the sign of the result following the text |
| Decimal.PadDigitsRoundTrip | 01_simulate.py:72 | the `:06` format: width max(6, digit count), and it parses back to the same number |
| Decimal.ParseIntDigits | 02_aggregate.py:22-23 | int() reads back the decimal text of any integer, negative ones with a minus sign |
| Grouping.Insert | 01_simulate.py:164-166 | adding one value to sorted groups keeps them strictly sorted, adds its key, grows that key's sum by the value and no other, and grows the total by the value |
| Grouping.GroupSums | 01_simulate.py:164-166 | groupby(...).sum(): strictly ascending unique keys, exactly the keys entered, each group's total the sum of its entries, and the grand total preserved |
| Grouping.SumForAt | 01_simulate.py:164-166 | in a sorted group list, the sum found for a group's key is that group's total (no other group shares it) |
| Grouping.SortedKeysSpec | 02_aggregate.py:28 | the pivot's index: the distinct keys, strictly ascending, no key lost or added |
| Grouping.SortedKeysHas | 02_aggregate.py:28 | a key is in the pivot's index exactly when some row carries it |
| Cohort.SummariesTotal | 01_simulate.py:163-167 | both summaries sum to the total `num` of the table |
| Cohort.SummaryGroups | 01_simulate.py:163-167 | each summary has each key once in ascending order, each group holding exactly the head count of the rows with its key, and a key appears iff some row has it |
| Rates.LookupSpec | 01_simulate.py:22-23 | a pyramid lookup succeeds iff the age is listed, and then returns that age's value |
| Rates.InitConsts | 01_simulate.py:14-54 | fails exactly when a parent age is missing from the pyramid or a denominator is zero, naming the missing parent age; otherwise the ages are the ceilings of the averages, both birth rates times the shared parent count give the births, rate × (m + f) = m, and the survival table is the dense one |
| Rates.MaleMyojiRateInUnit | 01_simulate.py:31-32 | male_myoji_rate lies in [0, 1] for non-negative selectivity counts |
| Rates.Survival | 01_simulate.py:41 | survival × 100000 = 100000 − death rate, in [0, 1] for a rate in [0, 100000] |
| Rates.FFillSpec | 01_simulate.py:37-40 | forward fill: defined iff some given age is at or below the age, and then the rate of the greatest such age |
| Rates.SurvivalFor | 01_simulate.py:148 | the left merge finds a rate iff the table has a row for the (age, male) pair |
| Rates.SurvivalTableSpec | 01_simulate.py:35-45 | the rate the table holds for (age, sex) is 1 − ffill(age)/100000 on the dense index; below 500 an age has a rate iff some listed age of that sex is at or below it |
| Rates.SurvivalTableUnique | 01_simulate.py:42-45 | the flattened table has at most one row per (age, sex), so the merge never duplicates a cohort |
| Rates.SurvivalTableInUnit | 01_simulate.py:41 | every survival rate is in [0, 1] when every death rate is in [0, 100000] |
| Rates.SurvivalForInUnit | 01_simulate.py:148-149 | a rate found by the merge is one of the table's rates, so it is in [0, 1] when they all are |
| GenerationZero.MinorEntries | 01_simulate.py:67-74 | count = total_number_of_myoji − len(df_myoji) (none when that is not positive); entry i has index i + len + 1, the padded name and the average residual population |
| GenerationZero.MinorNameSpec | 01_simulate.py:72 | name i is the stem, then i + 1 zero-padded to at least 6 digits, then `]`, and its number parses back to i + 1 |
| GenerationZero.MinorPopulation | 01_simulate.py:66-74 | with at least one minor surname, the minor surnames together hold exactly the population the explicit table leaves out |
| GenerationZero.RegistryCoversPyramid | 01_simulate.py:61-75 | with at least one minor surname, all surname populations together sum to the pyramid total |
| GenerationZero.CellsOf | 01_simulate.py:82-91 | each stacked cell of one sex has its age and its population divided by the pyramid total |
| GenerationZero.PyramidRatesSumToOne | 01_simulate.py:78-91 | the cell rates sum to 1 |
| GenerationZero.CrossJoinAt | 01_simulate.py:93-98 | the cross join has one row per surname × cell, row i·n + j being surname i in cell j |
| GenerationZero.GenerationZeroRows | 01_simulate.py:93-103 | generation zero has len(registry) × len(cells) rows, row i·n + j having surname i's index, the cell's sex and age, and num = population × rate |
| GenerationZero.SurnameRowsSumToPopulation | 01_simulate.py:93-98 | one surname's rows sum back to its population |
| GenerationZero.GenerationZeroTotal | 01_simulate.py:61-103 | all rows sum to the registry population, which is the pyramid total when there is a minor surname |
| GenerationZero.MyojiDictSpec | 01_simulate.py:105 | dict(zip(...)) maps exactly the indices that occur, each to the name of its last entry |
| GenerationZero.MinorNamesInDict | 01_simulate.py:70-105 | minor surname i is listed under index len + i + 1 with its padded name |
| YearStep.Aged | 01_simulate.py:114 | same length, each row one year older and otherwise unchanged |
| YearStep.AgeRows | 01_simulate.py:111-114 | the copy's age column incremented row by row equals the aged table |
| YearStep.Candidates | 01_simulate.py:118-119 | the query keeps exactly the rows of that sex and age, each as many times as the table holds it |
| YearStep.CandidatesNonNegative | 01_simulate.py:118-119 | from a table without negative counts the query keeps no negative count, so the sample's weights are never negative |
| YearStep.CandidatesWeight | 01_simulate.py:118-121 | a candidate pool's num sum is the table's head count at that (sex, age) |
| YearStep.ParentPoolSpec | 01_simulate.py:118-122 | num_of_parent_ages is the head count of men at the father age plus women at the mother age |
| YearStep.Children | 01_simulate.py:134-139 | num_of_babies children, child k built from father draw k, mother draw k and uniform k |
| YearStep.PairFamilies | 01_simulate.py:134-139 | one child per drawn family, child k pairing father draw k with mother draw k: male iff k < num_of_boys, father's surname iff uniform k is below the rate, else the mother's |
| YearStep.Families | 01_simulate.py:130-139 | the family loop produces exactly the children of the specification |
| YearStep.ChildrenSpec | 01_simulate.py:130-139 | child k is male iff k < num_of_boys; it takes the father's surname iff its uniform is below male_myoji_rate, else the mother's; its father is a man at the father age with positive count and its mother a woman at the mother age with positive count |
| YearStep.BirthsNeedParents | 01_simulate.py:130-131 | in a year next_year completes, both candidate pools have positive weight |
| YearStep.BabyRowsSpec | 01_simulate.py:142-145 | baby rows are age 0, unique per (surname, sex), each counting its children (at least one), every child is in some row, and they sum to the number of children |
| YearStep.BabiesTotal | 01_simulate.py:121-145 | the new age-0 rows sum to num_of_babies = round(P·brm) + round(P·brf) |
| YearStep.Survive | 01_simulate.py:148-150 | same length, each row's num times its survival rate |
| YearStep.ApplySurvival | 01_simulate.py:148-150 | multiplying the num column row by row equals the survival specification |
| YearStep.NextYear | 01_simulate.py:110-160 | returns the specified step: old rows first, each keeping its surname and sex one year older, then the baby rows at age 0; row count = input rows + baby groups |
| YearStep.StepRow | 01_simulate.py:111-158 | existing row i stays at position i, keeps surname and sex, is one year older and is scaled by the survival rate of (age + 1, sex) |
| YearStep.StepBabyRow | 01_simulate.py:142-149 | baby group j is row len(input) + j, age 0, its count scaled by the age-0 survival rate of its sex |
| YearStep.StepNonIncreasing | 01_simulate.py:148-158 | with rates in [0, 1] and no negative count, every count stays non-negative and no existing row grows |
| YearStep.SurviveNonIncreasing | 01_simulate.py:148-149 | survival keeps every count in [0, its old value] |
| Simulation.Simulation.constructor | 01_simulate.py:177-181 | the loop starts at start_year + 1 on generation zero, in range exactly when generation zero has no negative count and every survival rate is in [0, 1] |
| Simulation.Simulation.Summary | 01_simulate.py:163-167 | output_summary's two sums, each adding up to the generation's head count |
| Simulation.Simulation.Advance | 01_simulate.py:182-186 | one pass: the generation becomes next_year of the old one, the year grows by one, existing cohorts keep their place, surname and sex one year older, and the in-range property (no negative count, rates in [0, 1]) is kept |
| Simulation.RunLineage | 01_simulate.py:182-186 | after n passes, row i of the start table is still row i with its surname and sex, n years older, and (rates in [0, 1]) never larger |
| Aggregate.RemoveAllNone | 02_aggregate.py:17 | str.replace with '' leaves a string without the pattern unchanged |
| Aggregate.RemoveAllFirst | 02_aggregate.py:17 | str.replace with '' keeps the text before the leftmost occurrence, drops that occurrence and treats the rest the same way |
| Aggregate.YearOfPathOf | 02_aggregate.py:10-23 | the year parsed from `output/01/df_generation_<y>.pkl` is y, for every integer y |
| Aggregate.StrLeTotal | 02_aggregate.py:16 | Python's string order compares any two paths |
| Aggregate.StrLeTrans | 02_aggregate.py:16 | Python's string order is transitive |
| Aggregate.SortFiles | 02_aggregate.py:16 | sorted(paths): ascending path order and a permutation of the files |
| Aggregate.FirstBadYear | 02_aggregate.py:17-23 | the first file whose year int() rejects |
| Aggregate.Frames | 02_aggregate.py:14-25 | succeeds iff every year parses, and then frame i is file i's year with its (male, age) sums and its surname sums; otherwise the error names the first bad file |
| Aggregate.Collect | 02_aggregate.py:14-25 | the loop over sorted paths gives exactly the frames of the sorted files, stopping at the first bad year |
| Aggregate.ConcatAt | 02_aggregate.py:27 | a row of the concatenation is exactly a group of some frame with that frame's year |
| Aggregate.ValueAt | 02_aggregate.py:28 | a cell value is found iff some row has that key and year, and it is that row's value |
| Aggregate.PivotShape | 02_aggregate.py:27-28 | pivot fails exactly on no frames or a repeated (key, year) pair; else its rows are the distinct keys and its columns the distinct years, both strictly ascending, with a full rectangle of cells |
| Aggregate.PivotKeys | 02_aggregate.py:28 | the rows are the keys that occur, ascending and unique |
| Aggregate.PivotColumns | 02_aggregate.py:28 | the columns are the years that occur, ascending and unique |
| Aggregate.PivotCell | 02_aggregate.py:28 | a key present in a year holds its group sum truncated to uint32; an absent pair holds 0 |
| Aggregate.PivotCellWeight | 02_aggregate.py:20-28 | a cell is the year's summed num over rows with that key, truncated to uint32, and 0 where the year has none |
| Aggregate.NoDuplicates | 02_aggregate.py:20-28 | group keys are unique within a year, so frames of distinct years never repeat a (key, year) pair |
| Aggregate.DistinctYearsPermuted | 02_aggregate.py:16 | sorting the files keeps their years distinct |
| Aggregate.FramesWellFormed | 02_aggregate.py:14-25 | files with distinct years give frames with distinct years, each holding key-sorted groups |
| Aggregate.CastAgeIndex | 02_aggregate.py:29-30 | the age level wraps to 16 bits, the identity for ages that fit; sex, columns and cells are unchanged |
| Aggregate.CastMyojiIndex | 02_aggregate.py:34 | the surname index wraps to 32 bits, the identity for indices that fit; columns and cells are unchanged |
| Aggregate.AggregationOutcome | 02_aggregate.py:7-37 | no files gives the empty-concat error; an unparsable year gives the error of the first one in path order; distinct parsable years always give both pivots |

## Left out

- File and console I/O is not modelled: `params.json`, the surname CSV, the summaries' `to_csv`, the dictionary's JSON dump, `glob`, the pickles, `makedirs` and `print`. Parameters, tables and file contents are passed in as values.
- The distribution of `DataFrame.sample` and `np.random.rand` is not modelled. The draws are inputs, and the model only requires what a draw can be: a position of a candidate row with positive count, and a uniform number in [0, 1).
- YearStep.NextYear: a year on which `next_year` raises is a precondition violation (`ValidDraws`), not an error path. This covers a year with no baby, whatever the pools hold, and a candidate pool with a negative head count. A pool whose weights sum to zero cannot meet `ValidDraws` either: every drawn row must have a positive count.
- YearStep.NextYear: a cohort whose (age, sex) pair has no survival rate is a precondition violation (`Survivable`). The code would give it a NaN count.
- `02_visualize.py` is not part of this model. It is plotting only.
- `main`'s `gc.collect()` is not modelled. The unbounded `while True` loop is modelled as one pass (`Advance`) and as any finite number of passes (`Run`), not as a non-terminating loop.
- GenerationZero.PyramidRates requires a non-zero pyramid total. The code would divide by zero and produce NaN or infinite rates.
- GenerationZero.PyramidRates lists the male cells in order, then the female cells. When the two sexes list different ages, pandas' column-union order can differ; only the row order of generation zero is affected.
- GenerationZero.GenerationZeroRows ages are unbounded naturals. The `uint8` cast of ages (and its wrap at 256 when a 255-year-old ages) is not modelled.
- Numeric.ToUint32 wraps values of 2^32 or more modulo 2^32. numpy's cast of an out-of-range float is platform-defined.
- Aggregate.CastAgeIndex does not model the failure pandas reports when two age levels collide after the 16-bit wrap.
- Rates.InitConsts reads the mortality table as one list of ages per sex. The `int32` cast of the JSON keys is not modelled, and neither is the record threshold, whose only use discards its result.
- Decimal.ParseInt accepts an optional sign and ASCII digits. `int()`'s surrounding whitespace, underscores and non-ASCII digits are not modelled.
- Head counts are exact rationals. Floating-point rounding of the products and quotients is not modelled.
