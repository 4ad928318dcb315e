# Descriptive statistics and test statistics of `homework-2`

This project models the statistics layer of `src/homework-2/main.py` in Dafny, over exact reals:

- `calculate_mean`, in its arithmetic and harmonic forms;
- `harmonic_mean` over a list of datasets;
- the population standard deviation `std_dev`;
- `pooled_std_dev` over `(sigma, n)` pairings;
- the two-sample `t_test`, up to t and its degrees of freedom;
- the one-way `anova` and the repeated-measures `rmanova`, up to the F statistic and its degrees of freedom.

Each Python exception or error string becomes a `Failure` inside a `Result`:

| source | `Failure` |
|---|---|
| `ZeroDivisionError` | `DivisionByZero` |
| `IndexError` | `IndexOutOfRange` |
| `"error: need at least two pairings to pool"` | `TooFewPairings` |
| `"error: anova requires at least 3 datasets"` | `TooFewDatasets` |
| `** 0.5` of a negative number, where Python yields a complex number | `ComplexRoot` |

There is one module per concern:

- `Outcome`: failures, `Result`, `Option`.
- `Sums`: sums, reciprocal sums, squared deviations and the real-arithmetic helpers.
- `Means`: `calculate_mean` and `harmonic_mean`.
- `Dispersion`: `std_dev` and `pooled_std_dev`.
- `TwoSample`: `t_test`.
- `Groups`: flattening and the within/between split.
- `OneWay`: `anova`.
- `Repeated`: `rmanova`.
- `Residuals`: the error part of `rmanova` on rectangular matrices.

The loops of the source are methods: `HarmonicMeans`, `PooledStdDev`, `TTest`/`PooledT`, `Anova`, and `RmAnova` with its row and column loops. Each method is proved equal to a function that states what the source computes (`HarmonicMeans` entry by entry to `EntryFor`, `PooledStdDev` to `Pooled`, `TTest` to `TStatistic`, `PooledT` to `Statistic`, `Anova` to `OneWayAnova`, `RmAnova` to `RepeatedMeasuresAnova`, `MeanSquares` to `Analysis`), and the properties are proved about those functions.

The square root `** 0.5` is a parameter `sqrt` of every member that needs it. The predicate `IsSqrt(sqrt)` requires that `sqrt` returns, for every non-negative argument, a non-negative number whose square is that argument. Dafny cannot construct such a function on `real`. This is why the standard deviation, the pooled deviation and the standard error are stated through their squares.

## Model

| member | source | states |
|---|---|---|
| `Means.ArithmeticMean` | src/homework-2/main.py:82-83 | fails with a division by zero exactly on an empty list; otherwise n times the mean is the sum |
| `Means.HarmonicMean` | src/homework-2/main.py:77-80 | fails exactly when the reciprocal sum over the non-zero elements is 0; otherwise the mean times that sum is n, with zeros counted in n |
| `Sums.ReciprocalSum` | src/homework-2/main.py:79 | over non-negative elements the reciprocal sum is non-negative, and 0 exactly when every element is 0 |
| `Means.CalculateMean` | src/homework-2/main.py:71-83 | the arithmetic form fails only on an empty list and otherwise n times the result is the sum; the harmonic form fails only on a zero reciprocal sum and otherwise the result times that sum is n; both failures are a division by zero |
| `Means.AverageBounds` | src/homework-2/main.py:82-83 | the mean lies between every lower and every upper bound of the elements |
| `Means.AverageConstant` | src/homework-2/main.py:82-83 | the mean of a list whose elements are all c is c |
| `Means.HarmonicMeanAppendZero` | src/homework-2/main.py:78-80 | appending a 0 leaves the reciprocal sum and the failure case unchanged, and the mean becomes (n + 1) / reciprocal sum |
| `Means.HarmonicMeanAllZeros` | src/homework-2/main.py:80 | a list of zeros (the empty list included) is a division by zero |
| `Means.EntryFor` | src/homework-2/main.py:18-29 | an empty dataset gives 0, a dataset with zero reciprocal sum gives the divided-by-zero marker, any other gives n / reciprocal sum |
| `Means.HarmonicEntryExample` | src/homework-2/main.py:18-29 | the entry for [1, 2, 4] is 12/7 |
| `Means.HarmonicMeans` | src/homework-2/main.py:13-29 | one entry per dataset, in order, each the entry for that dataset |
| `Means.HarmonicMeanAsWritten` | src/homework-2/main.py:8-29 | the function as written returns `None` whatever its input |
| `Dispersion.VarianceNonNegative` | src/homework-2/main.py:41-44 | Σ(x − mean)² / n is non-negative, so the root exists |
| `Dispersion.StdDev` | src/homework-2/main.py:37-44 | 0 for an empty list; otherwise a non-negative number whose square is Σ(x − mean)² / n |
| `Dispersion.StdDevZeroIff` | src/homework-2/main.py:41-44 | a non-empty list has standard deviation 0 exactly when all its elements are equal |
| `Dispersion.StdDevExample` | src/homework-2/main.py:32-44 | the standard deviation of [2, 4, 4, 4, 5, 5, 7, 9] is 2 |
| `Dispersion.PoolSumsNonNegative` | src/homework-2/main.py:58-63 | with every n ≥ 1 both pooled sums are non-negative |
| `Dispersion.Pooled` | src/homework-2/main.py:53-68 | a result is non-negative; it is 0 when Σ(n − 1) = 0, and otherwise its square is Σ(n − 1)σ² / Σ(n − 1) |
| `Dispersion.PooledStdDev` | src/homework-2/main.py:53-68 | the loop's numerator and denominator are Σ(n − 1)σ² and Σ(n − 1); ensures r == Pooled(sqrt, pairs) |
| `Dispersion.PooledOutcomes` | src/homework-2/main.py:53-68 | fewer than two pairings is the error, and nothing else is; a zero denominator gives 0; with a non-zero denominator the result is `ComplexRoot` exactly when numerator / denominator < 0, since a negative ratio has no root; otherwise the square of the result is the numerator over the denominator; with every n ≥ 1 the result always exists and is non-negative |
| `Dispersion.PooledIgnoresSingletons` | src/homework-2/main.py:61-63 | a pairing with n = 1 changes neither sum nor the result |
| `Dispersion.PooledCommonSigma` | src/homework-2/main.py:58-68 | when every pairing has the same sigma, the pooled value has the square of that sigma |
| `Dispersion.PooledExample` | src/homework-2/main.py:58-68 | pooling (2, 10) and (3, 12) gives a value whose square is 6.75 |
| `TwoSample.Reduce` | src/homework-2/main.py:94-101 | a raw side becomes its arithmetic mean, its standard deviation and its length; an empty raw side fails with an index error at `d[0]`; a summary side is kept as it is |
| `TwoSample.PairingSums` | src/homework-2/main.py:106 | the two pairings give numerator (n1 − 1)σ1² + (n2 − 1)σ2² and denominator n1 + n2 − 2 |
| `TwoSample.ReduceTupleAsWritten` | src/homework-2/main.py:94-100 | a numeric (mu, sigma, n) tuple takes the raw-data branch: it is reduced to three observations whose mean is (mu + sigma + n) / 3 |
| `TwoSample.SummaryTupleCounterexample` | src/homework-2/main.py:94-100 | the summary (4, 1, 1) is kept as (4, 1, 1) by the tagged model but becomes mean 2 with n = 3 through the type test as written |
| `TwoSample.Statistic` | src/homework-2/main.py:106-113 | any failure is a division by zero; a result has both sizes ≥ 1, df = n1 + n2 − 2, and t times the standard error σp·√(1/n1 + 1/n2) is mu1 − mu2 |
| `TwoSample.TStatistic` | src/homework-2/main.py:91-113 | it is an index error exactly when a raw side is empty, any other failure is a division by zero, and a result has df = n1 + n2 − 2 for the sizes of the reduced sides |
| `TwoSample.TTest` | src/homework-2/main.py:91-113 | reducing both sides in the loop, then pooling: ensures r == TStatistic(sqrt, data1, data2) |
| `TwoSample.PooledT` | src/homework-2/main.py:106-113 | the pooled deviation, standard error, t and degrees of freedom of two triples: ensures r == Statistic(sqrt, p1, p2) |
| `TwoSample.StandardErrorPositive` | src/homework-2/main.py:106-109 | with both sizes ≥ 1 the standard error is non-negative, and 0 exactly when the pooled numerator or denominator is 0 |
| `TwoSample.StatisticOutcomes` | src/homework-2/main.py:106-113 | it fails, by division by zero, exactly when a size is 0 or the standard error is 0; when it exists, df = n1 + n2 − 2 ≥ 1, t = 0 exactly when the means are equal, t > 0 exactly when mu1 > mu2, and t²·σp²·(1/n1 + 1/n2) = (mu1 − mu2)² |
| `TwoSample.SummaryRoundTrip` | src/homework-2/main.py:94-101 | for the tagged input: replacing a non-empty raw side by a `Summary` of its own (mean, sigma, n) changes nothing, on either side; the source's type test does not give this for a numeric tuple (see Findings) |
| `TwoSample.StatisticSwap` | src/homework-2/main.py:106-113 | swapping the two triples negates t and keeps the degrees of freedom and every failure |
| `TwoSample.TStatisticSwap` | src/homework-2/main.py:94-113 | swapping the two sides negates t and keeps the degrees of freedom and every failure |
| `TwoSample.IdenticalSamples` | src/homework-2/main.py:94-113 | for a sample tested against itself: an empty sample is an index error; a constant one is a division by zero; any other gives t = 0 with 2n − 2 degrees of freedom |
| `Groups.Flatten` | src/homework-2/main.py:129 | flattening non-empty groups gives at least as many items as groups |
| `Groups.FlattenLength` | src/homework-2/main.py:129-130 | flattening non-empty groups gives at least one observation per group, and exactly one only when every group is a singleton |
| `Groups.SqDevAtMean` | src/homework-2/main.py:134-141 | Σ(x − g)² = Σ(x − mean)² + n(mean − g)² for any centre g |
| `Groups.Decomposition` | src/homework-2/main.py:134-144 | the squared deviations of all observations about g are the within part plus Σ n_j(mean_j − g)² |
| `Groups.WithinNonNegative` | src/homework-2/main.py:144 | the within part is non-negative |
| `Groups.WithinZeroIff` | src/homework-2/main.py:144 | the within part is 0 exactly when every group is constant |
| `Groups.BetweenNonNegative` | src/homework-2/main.py:137-141 | the between part is non-negative |
| `Groups.BetweenZeroIff` | src/homework-2/main.py:137-141 | the between part is 0 exactly when every group mean equals the centre |
| `OneWay.Anova` | src/homework-2/main.py:119-153 | the guard, the flattening, the between-groups loop and the mean squares: ensures r == OneWayAnova(datasets) |
| `OneWay.OneWayAnova` | src/homework-2/main.py:124-153 | fewer than three datasets is the error `TooFewDatasets`, and nothing else is; a table has non-empty datasets, SS_total = SS_between + SS_within, df_between = m − 1, df_within = N − m ≠ 0, SS_within ≠ 0, and F times the within mean square is the between mean square |
| `OneWay.AnovaOutcomes` | src/homework-2/main.py:129-153 | when F exists: df_between = m − 1, df_within = N − m ≥ 1, SS_between ≥ 0, SS_within is the positive within-group sum, SS_total = SS_between + SS_within, and F ≥ 0; otherwise, with m ≥ 3, it fails by division by zero exactly when a dataset is empty, all are singletons, or all are constant |
| `OneWay.FZeroIff` | src/homework-2/main.py:141-153 | F = 0 exactly when SS_between = 0, and SS_between is Σ n_j(mean_j − grand)² |
| `OneWay.AnovaZeroEffect` | src/homework-2/main.py:134-153 | F = 0 exactly when every group mean equals the grand mean |
| `Repeated.RepeatedMeasuresAnova` | src/homework-2/main.py:165-193 | any failure is an index error or a division by zero; it is an index error exactly when the matrix is empty or, with every row non-empty, some row is shorter than the first; a table has non-empty rows that cover the first row's columns, df_conditions = C − 1 and df_error = (C − 1)(R − 1) |
| `Repeated.Analysis` | src/homework-2/main.py:182-193 | any failure is a division by zero; a table keeps the three sums given, SS_total = SS_subjects + SS_conditions + SS_error, both degrees of freedom and SS_error are non-zero, and F times the error mean square is the conditions mean square |
| `Repeated.RmAnova` | src/homework-2/main.py:165-193 | the first row, the grand mean, the subject and condition loops and the mean squares: ensures r == RepeatedMeasuresAnova(datasets) |
| `Repeated.SubjectsSum` | src/homework-2/main.py:171-174 | the loop fails exactly when some row is empty; otherwise its sum is the subjects part C·Σ(rowMean − grand)² |
| `Repeated.ConditionsSum` | src/homework-2/main.py:176-180 | the loop fails exactly when some row is shorter than the first; otherwise its sum is the conditions part R·Σ(colMean − grand)² |
| `Repeated.Column` | src/homework-2/main.py:178 | the column has one entry per row, the entry of that row at the column index |
| `Repeated.GatherColumn` | src/homework-2/main.py:178 | fails exactly when some row is too short for the column; otherwise gives that column |
| `Repeated.MeanSquares` | src/homework-2/main.py:182-193 | the error part, the degrees of freedom, the mean squares and F: ensures r == Analysis(...) of its arguments |
| `Repeated.SubjectsNonNegative` | src/homework-2/main.py:171-174 | the subjects part is non-negative |
| `Repeated.ConditionsZeroIff` | src/homework-2/main.py:176-180 | the conditions part is non-negative, and 0 exactly when every column mean equals the grand mean |
| `Repeated.RmDegrees` | src/homework-2/main.py:187-193 | when F exists: R ≥ 2, C ≥ 2, df_conditions = C − 1, df_error = (C − 1)(R − 1) ≥ 1, and the subjects and conditions parts are non-negative |
| `Repeated.RmGuards` | src/homework-2/main.py:165-191 | an empty matrix or a short row is an index error; an empty row, one subject or one condition is a division by zero |
| `Repeated.RmZeroEffect` | src/homework-2/main.py:176-193 | when F exists, F = 0 exactly when the conditions part is 0, exactly when every column mean equals the grand mean |
| `Residuals.WithinIsCentred` | src/homework-2/main.py:171-174 | the within-subject part is the squared size of the matrix with each row's mean taken off |
| `Residuals.ColumnsInterchange` | src/homework-2/main.py:168-182 | for a matrix whose rows all have c entries, summing squared deviations row by row or column by column gives the same total |
| `Residuals.FlattenShaped` | src/homework-2/main.py:168 | a matrix of R rows of c entries flattens to R·c values, and their sum is c times the sum of the row means |
| `Residuals.GrandMeanOfRows` | src/homework-2/main.py:168-169 | in a rectangular matrix the grand mean is the mean of the row means |
| `Residuals.CentredColumnMean` | src/homework-2/main.py:176-180 | a column of the row-centred matrix averages to its column mean less the mean of the row means |
| `Residuals.SubjectsIsBetween` | src/homework-2/main.py:171-174 | with c entries in every row, the subjects part is the between-rows part |
| `Residuals.ErrorIsInteraction` | src/homework-2/main.py:182-185 | on a rectangular matrix, SS_total − SS_subjects is the within-subject part, and SS_error is the interaction sum Σ(x − rowMean − colMean + grand)², so SS_error ≥ 0 |
| `Residuals.RmRectangularOutcomes` | src/homework-2/main.py:182-193 | when F exists for a rectangular matrix, SS_error is the interaction sum and positive, SS_total = SS_subjects + SS_conditions + SS_error, and F ≥ 0 |
| `Residuals.RmConstantRows` | src/homework-2/main.py:176-193 | when every subject's row is constant, SS_conditions = 0 and SS_error = 0, so the mean-square division fails |

## Left out

- The CSV load at main.py:4-5 and all of `main()` (main.py:199-234) are left out: they are pandas I/O, date parsing, grouping and printing.
- The p-values at main.py:114, 155 and 194 are left out. They are calls into `scipy.stats`, whose source is not part of this model. `t_test` stops at t and df, `anova` and `rmanova` at F and their degrees of freedom.
- Floating point is not modelled: rounding, NaN, infinities, and Python's `float` against `int`. Arithmetic is over exact `real` and sizes are `nat`.
- `** 0.5` is the parameter `sqrt` constrained by `IsSqrt`, not a computed root. A negative radicand cannot arise in `std_dev`. In `pooled_std_dev` it is the `ComplexRoot` failure, whereas Python returns a complex number there.
- TwoSample.Reduce: the runtime type test at main.py:95 is replaced by the `Side` tag, `Raw(data)` or `Summary(mean, sigma, n)`. As written, the test sends a tuple whose first element is a number down the raw-data branch. So a numeric `(mean, sigma, n)` summary is averaged as three data points. `Summary` stands for the branch the test takes when the first element is not a number. `TwoSample.ReduceTupleAsWritten` models that numeric-tuple case (see Findings); other Python types are not modelled.
- TwoSample.Reduce: the size of a `Summary` side is a `nat`; negative sizes are not modelled.
- `Means.CalculateMean` raises on an empty list in the arithmetic form, as the code does (main.py:83). No zero result is invented for it.
- Residuals.RmConstantRows: with every row constant, the code computes F = 0/0 and raises a division by zero (main.py:191-193). The model and the lemma follow the code, not an F of 0.
- Repeated.RmAnova: the row and column loops are separate methods (`SubjectsSum`, `ConditionsSum`, `GatherColumn`, `MeanSquares`) called in the source's order. The model keeps the source's first-failure order: empty matrix, empty grand list, empty row, short row, one condition, one subject, zero mean square error.
- Repeated.RmAnova: rows longer than the first keep their extra entries in the row means and the total, as in the code. The identity between SS_error and the interaction sum is proved only for rectangular matrices.

## Findings

| source | as written | input that shows it | evidently intended | confidence | as-written member | corrected member |
|---|---|---|---|---|---|---|
| src/homework-2/main.py:8-29 | `harmonic_mean` builds `results` in its loop but has no `return`, so every call returns `None` | `harmonic_mean([[1.0, 2.0, 4.0]])` gives `None`, not `[12/7]` (`Means.HarmonicEntryExample`) | return `results`, one entry per dataset | not executed | `Means.HarmonicMeanAsWritten` | `Means.HarmonicMeans` |
| src/homework-2/main.py:94-100 | the type test sends every list or tuple whose first element is a number down the raw-data branch, so a numeric `(mu, sigma, n)` summary is averaged as three observations and the summary round trip fails | the summary `(4.0, 1.0, 1)` is reduced to mean 2 and n = 3 (`TwoSample.SummaryTupleCounterexample`) | a summary triple is taken as it is | not executed | `TwoSample.ReduceTupleAsWritten` | `TwoSample.Reduce` |
