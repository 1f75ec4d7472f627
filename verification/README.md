# Verified model of the dashboard's data shaping

The dashboard presents Catalan municipal-waste and demographic statistics,
one row per comarca and year (`any`). Each row carries a province, a
population, a surface, tonnages, per-inhabitant rates and population counts
by age band and sex. Every chart takes that table and shapes it before
drawing: it filters by year and province, groups the rows, takes weighted
means or percentages, sorts and ranks, picks axis domains and formats
numbers. This project models that shaping in Dafny and proves what each
chart relies on.

Numbers are `real`. Every value that JavaScript could hold as `NaN`,
`undefined` or `±Infinity` is the single alternative `NonFinite`
(`Values.Num`). `x || d` replaces `NonFinite` and `0` by `d`, and the d3
reducers (`d3.max`, `d3.min`, `d3.sum`, `d3.quantile`) skip every
`NonFinite` value. d3 itself skips `NaN`, `undefined` and `null` but keeps
`±Infinity`; the first line under "## Left out" says what that lumping
changes. A JavaScript `Map` or object in insertion order is a
key sequence in first-seen order (`Seqs.Dedup`) together with a Dafny `map`.
`Array.prototype.sort` is a stable insertion sort (`Sorting`).

Modules, one per chart file plus shared ones:

- `Values`, `Text`, `Seqs`, `Sorting`, `Records`: numbers and d3 reducers,
  digit strings and string order, filter/map/dedup, the two stable sorts,
  and the record with its year/province filter.
- `LineSeries`: regrouping (province, year) buckets into year-sorted series,
  series selection, y domain and year list, shared by the line charts.
- `RebuigLine`: `groupByProvYear`, the population-weighted means.
- `PercentLine`: `percentSeriesByProv` and its copy in the province
  percentage chart.
- `ProvinciesBars`: `aggProvAvg`, the merged bar rows and their y bound.
- `Boxplot`: grouping, type-7 quantiles, whiskers, outliers, log and linear
  domains.
- `Ranking`, `TopSelectiva`, `ComarquesRanking`: filter-finite, sort
  descending and truncate; the top-10, top-15 and top-1 selections.
- `TopImprovement`: the comarca object, the 2006→2021 improvement ranking
  and the line points.
- `AgePatterns`: the population pyramid, the age-share scatter, its labelled
  point and the comarca list.
- `MapChart`: the map's metric, years, province filter and scale domains.
- `NumberFormat`: the two `formatNumber` helpers.
- `OverviewPie`: the pie's slices, percentages and labels.
- `Demographic`: the nested province → comarca → year population index and
  the population series.
- `Densitat`: density, the global scatter domains and the plotted rows.

Methods with loops (`RebuigLine.Accumulate`, `PercentLine.TallyAll`,
`ProvinciesBars.AccumulateProvinces`, `LineSeries.GroupByProvince`,
`TopImprovement.BuildComarques`, `Demographic.BuildIndex`,
`Demographic.CatalunyaValues`, `Densitat.GlobalYDomains`,
`AgePatterns.LabelIndex`, …) are where the source fills a `Map` or object in
a `forEach` or a `for` loop. Each is proved equal to a function that states
the result for the whole input, and the properties are lemmas about that
function.

## Model

| member | source | states |
|---|---|---|
| Values.D3Max | src/scripts/charts/slide2-rebuig-line.js:55 | `d3.max` is `undefined` exactly when no value is finite; otherwise it is one of the finite values and at least every finite value |
| Values.D3Min | src/scripts/charts/slide4-densitat-vs-total.js:117 | `d3.min` is `undefined` exactly when no value is finite; otherwise it is one of the finite values and at most every finite value |
| Values.SumNonNegative | src/scripts/charts/overview-pie.js:70-71 | a sum of non-negative values, as `d3.sum` forms it, is non-negative |
| Seqs.Dedup | src/scripts/charts/slide5-provincies-bars.js:26 | the iteration order of a `Set` or `Map` filled along `s`: each element of `s` once, nothing else |
| Seqs.DedupFirstSeen | src/scripts/charts/slide2-rebuig-line.js:14 | in that order an element comes before another exactly when its first occurrence in `s` does |
| Sorting.SortDesc | src/scripts/charts/overview-pie.js:48 | `sort((a, b) => key(b) - key(a))` returns the same elements, ordered by non-increasing key |
| Sorting.SortDescMultiset | src/scripts/charts/overview-pie.js:48 | the sort is a permutation of its input (same multiset) |
| Sorting.SortDescStable | src/scripts/charts/slide5-top-improvement-lines.js:27 | `Array.prototype.sort` is stable: for every key, the elements with that key keep their input order |
| Sorting.SortDescStrict | src/scripts/charts/slide2-rebuig-line.js:25 | elements with pairwise different keys come out strictly ordered |
| Sorting.SortLex | src/scripts/charts/slide3.js:373 | `sort()` without comparator returns the same elements in ascending code-point order of their strings (the same as JavaScript's code-unit order below U+10000) |
| Sorting.SortLexDistinct | src/scripts/charts/slide3.js:373 | sorting a duplicate-free list leaves it duplicate-free |
| Sorting.SortedSet | src/scripts/charts/slide3.js:373-375 | `Array.from(new Set(s)).sort()` on strings holds each value of `s` once and nothing else, in code-point order (the same as code-unit order below U+10000) |
| Sorting.SortedNumbers | src/scripts/charts/slide1-map-chart.js:48 | `Array.from(new Set(ys)).sort()` on numbers holds each value once, ordered by its decimal string |
| Sorting.SortedNumbersAscending | src/scripts/charts/slide1-map-chart.js:48 | for four-digit years that string order is strictly ascending numeric order |
| Text.FourDigitYearsOrder | src/scripts/charts/slide5-provincies-percent-series.js:32 | two four-digit years compare as strings exactly as they compare as numbers |
| Text.NatDigitsValue | src/scripts/charts/overview-pie.js:12 | the decimal digits of a whole number read back to that number |
| Text.Lower | src/scripts/charts/slide1-map-chart.js:57 | `toLowerCase` on Latin-1 text lowers each capital letter (A–Z, À–Ö, Ø–Þ) in place, keeps every other character and the length, and leaves no A–Z capital |
| Records.ProvinceOrTotes | src/scripts/charts/slide5-comarques-ranking.js:40 | an empty province selection means 'Totes', any other selection is kept |
| Records.SelectRows | src/scripts/charts/slide5-comarques-ranking.js:42 | the rows kept are exactly the rows of the year and, unless 'Totes', of the province |
| Records.Field | src/scripts/charts/slide5-comarques-ranking.js:43 | `d[m]` reads the named numeric column (the year, populations, surface, tonnages, rates, share and age bands); a text column or a name that is no column reads a value `Number.isFinite` rejects |
| Records.PercentSelectiva | src/scripts/charts/slide3.js:130-133 | a total (selective + non-selective, missing as 0) that is not positive gives 0, not NaN; otherwise the share is selective tonnes × 100 / total |
| Records.PercentSelectivaBounds | src/scripts/charts/slide1-map-chart.js:30-33 | with non-negative tonnages the share lies in [0, 100] |
| Ranking.Finites | src/scripts/charts/slide5-comarques-ranking.js:6 | `filter(d => Number.isFinite(value(d)))` keeps exactly the rows with a finite value |
| Ranking.FinitesMultiset | src/scripts/charts/slide5-comarques-ranking.js:6 | the filter keeps every finite row as often as it occurs and no other row |
| Ranking.Ranked | src/scripts/charts/slide5-comarques-ranking.js:6 | the sorted rows are a permutation of the finite rows, in non-increasing order of value |
| Ranking.TopN | src/scripts/charts/slide5-comarques-ranking.js:6 | `slice(0, n)` of the ranking: min(n, number of finite rows) finite rows of the input, in non-increasing order |
| Ranking.TopNOmitted | src/scripts/charts/slide4-top-selectiva.js:7-9 | kept and dropped rows together are the finite rows; rows are dropped only when all n places are taken; every dropped row is at most every kept one |
| Ranking.TopNStable | src/scripts/charts/slide5-comarques-ranking.js:6 | among rows of equal value the kept ones are the first of them, in input order |
| Ranking.TopOne | src/scripts/charts/slide1-map-chart.js:204-211 | the top-1 selection is empty exactly when no value is finite, and otherwise holds the earliest row with the largest finite value |
| Ranking.TopOneMax | src/scripts/charts/slide1-map-chart.js:204-211 | the selected row's value is at least every finite value |
| Ranking.TopOneFirst | src/scripts/charts/slide1-map-chart.js:204-211 | no earlier finite row has the selected row's value (ties go to the earliest) |
| Ranking.EarliestMaxUnique | src/scripts/charts/slide1-map-chart.js:204-211 | at most one row is the earliest maximum |
| Ranking.FirstFiniteWithKey | src/scripts/charts/slide5-comarques-ranking.js:6 | the first finite row with a given value is the earliest such row of the input |
| Ranking.AxisMax | src/scripts/charts/slide5-comarques-ranking.js:17 | `d3.max(sorted, value) \|\| 1` on a ranking is its first value, or 1 when there is none or it is 0, and bounds every bar |
| Ranking.FirstIsMax | src/scripts/charts/slide4-top-selectiva.js:24 | on a descending ranking `d3.max` is the first value |
| ComarquesRanking.MetricName | src/scripts/charts/slide5-comarques-ranking.js:41 | an empty metric selection means `kg_selectiva_per_hab_dia` |
| ComarquesRanking.Title | src/scripts/charts/slide5-comarques-ranking.js:44 | the selective title exactly for the selective metric, the rebuig title exactly for the non-selective one, the total title for anything else |
| ComarquesRanking.Ranked15 | src/scripts/charts/slide5-comarques-ranking.js:6 | at most fifteen rows, each an input row with a finite metric (it is `Ranking.TopN` with n = 15, so ordering, stability and the omitted-rows bound come from the `Ranking` lemmas) |
| ComarquesRanking.Render | src/scripts/charts/slide5-comarques-ranking.js:40-45 | every bar is a record of the chosen year and, unless 'Totes', province, with a finite value of the chosen metric |
| ComarquesRanking.XDomain | src/scripts/charts/slide5-comarques-ranking.js:17 | the x domain starts at 0 and ends at the largest kept value, or 1 when none or 0; every bar fits |
| ComarquesRanking.UnknownMetricEmpty | src/scripts/charts/slide5-comarques-ranking.js:43 | a metric name that is no numeric column of the records ranks nothing |
| TopSelectiva.Top | src/scripts/charts/slide4-top-selectiva.js:6-9 | at most ten rows, each an input row with a finite selective rate; non-finite rows never reach the comparator (it is `Ranking.TopN` with n = 10) |
| TopSelectiva.Render | src/scripts/charts/slide4-top-selectiva.js:50-54 | every bar is a record of the chosen year and, unless 'Totes', province |
| TopSelectiva.XDomain | src/scripts/charts/slide4-top-selectiva.js:24 | the x domain is [0, best value], or [0, 1] when there is no bar or the best is 0; every bar fits |
| RebuigLine.Keys | src/scripts/charts/slide2-rebuig-line.js:13-14 | a (province, year) bucket exists exactly when some record of it passes the skip check (finite value, weight `poblacio \|\| 0` above 0); buckets are in creation order, each once |
| RebuigLine.Means | src/scripts/charts/slide2-rebuig-line.js:20-21 | one mean per bucket and no other key |
| RebuigLine.BucketSnoc | src/scripts/charts/slide2-rebuig-line.js:13-17 | a further record adds its w and v·w to its own bucket when it passes the skip check, and changes no other bucket |
| RebuigLine.Accumulate | src/scripts/charts/slide2-rebuig-line.js:8-18 | the `forEach` leaves one entry per bucket, in creation order, each holding Σw and Σv·w over the bucket's counted records |
| RebuigLine.AccumulateSkip | src/scripts/charts/slide2-rebuig-line.js:13 | a skipped record changes nothing |
| RebuigLine.AccumulateAdd | src/scripts/charts/slide2-rebuig-line.js:14-17 | a counted record creates its bucket on first use and adds w and v·w to it |
| RebuigLine.GroupByProvYear | src/scripts/charts/slide2-rebuig-line.js:7-27 | `groupByProvYear` returns the buckets' means regrouped by province with year-sorted points |
| RebuigLine.BucketEmpty | src/scripts/charts/slide2-rebuig-line.js:14 | a bucket no counted record falls into holds Σw = Σv·w = 0 |
| RebuigLine.WSumPositive | src/scripts/charts/slide2-rebuig-line.js:13-21 | every bucket that exists has Σw > 0, so the NaN branch of `wsum > 0 ? … : NaN` never runs |
| RebuigLine.WSumNonNegative | src/scripts/charts/slide2-rebuig-line.js:16 | Σw is never negative |
| RebuigLine.ValuesBetweenIndex | src/scripts/charts/slide2-rebuig-line.js:12-13 | bounds on the counted values of a bucket, record by record, bound them as the running sums see them |
| RebuigLine.WValBounds | src/scripts/charts/slide2-rebuig-line.js:16-17 | values within [lo, hi] give lo·Σw ≤ Σv·w ≤ hi·Σw |
| RebuigLine.MeanBetween | src/scripts/charts/slide2-rebuig-line.js:16-21 | every bucket's mean is finite and lies between the smallest and the largest contributing value |
| RebuigLine.SingleRecordMean | src/scripts/charts/slide2-rebuig-line.js:16-21 | a bucket fed by one counted record has that record's value as its mean |
| RebuigLine.HasCountedIndex | src/scripts/charts/slide2-rebuig-line.js:13-14 | a bucket has a counted record exactly when some index holds a counted record of that province and year |
| RebuigLine.GroupedUniqueProvinces | src/scripts/charts/slide2-rebuig-line.js:22 | no province has two series |
| RebuigLine.GroupedSeriesHaveRecords | src/scripts/charts/slide2-rebuig-line.js:13-22 | every series belongs to a province with a counted record |
| RebuigLine.GroupedRecordsHaveSeries | src/scripts/charts/slide2-rebuig-line.js:13-22 | every province with a counted record has a series |
| RebuigLine.GroupedPoints | src/scripts/charts/slide2-rebuig-line.js:13-25 | a series has a point for year y exactly when some counted record has that province and year; the point carries the bucket's finite mean; every series is non-empty with one point per year, ascending |
| RebuigLine.GroupedRegroupedShape | src/scripts/charts/slide2-rebuig-line.js:19-25 | the same, stated on the buckets: a point exists exactly for a bucket of the province, with its mean |
| LineSeries.Provinces | src/scripts/charts/slide2-rebuig-line.js:22 | the provinces of the buckets, each once, in the order of their first bucket |
| LineSeries.PointsOf | src/scripts/charts/slide2-rebuig-line.js:23 | a province's array holds a point (y, v) exactly for its bucket of year y with value v; it is empty exactly when the province has no bucket |
| LineSeries.SeriesOf | src/scripts/charts/slide2-rebuig-line.js:25 | one series per listed province, holding that province's points sorted by year |
| LineSeries.GroupByProvince | src/scripts/charts/slide2-rebuig-line.js:19-24 | the loop that pushes every bucket onto its province's array leaves the provinces in first-seen order, each with exactly its buckets' points in bucket order |
| LineSeries.GroupStateProvinces | src/scripts/charts/slide2-rebuig-line.js:22 | after any prefix of the buckets the province list is their first-seen order and the map has exactly those arrays |
| LineSeries.GroupStatePoints | src/scripts/charts/slide2-rebuig-line.js:23 | after any prefix each province's array holds its buckets' points; a province without an array has no bucket yet |
| LineSeries.Regroup | src/scripts/charts/slide2-rebuig-line.js:19-26 | grouping then sorting gives the province → sorted points map |
| LineSeries.ProvincesDedup | src/scripts/charts/slide2-rebuig-line.js:14-22 | deduplicating the buckets first does not change the province order |
| LineSeries.PointsOfDistinctYears | src/scripts/charts/slide2-rebuig-line.js:10-23 | distinct buckets of one province have distinct years |
| LineSeries.RegroupedShape | src/scripts/charts/slide2-rebuig-line.js:19-25 | one series per bucket province, in first-seen order; each non-empty, holding exactly its province's buckets, strictly ascending by year |
| LineSeries.RegroupedHas | src/scripts/charts/slide2-rebuig-line.js:23 | every bucket appears as a point of its province's series |
| LineSeries.RegroupedPoint | src/scripts/charts/slide2-rebuig-line.js:23 | every point is one of the buckets and carries its value |
| LineSeries.Lookup | src/scripts/charts/slide2-rebuig-line.js:44 | `seriesMap.get(p) \|\| []` is empty for a province without a series and otherwise that series' points |
| LineSeries.LookupUnique | src/scripts/charts/slide2-rebuig-line.js:44 | with one series per province the lookup finds that series' points |
| LineSeries.NonEmpty | src/scripts/charts/slide2-rebuig-line.js:45 | `filter(s => s.values.length)` keeps exactly the series with points |
| LineSeries.NonEmptyAll | src/scripts/charts/slide2-rebuig-line.js:45 | when every series has points the filter keeps them all |
| LineSeries.Select | src/scripts/charts/slide2-rebuig-line.js:43-45 | every shown series is a non-empty series of the map; under 'Totes' every non-empty series is shown; otherwise at most one, of the chosen province |
| LineSeries.NoDataExactly | src/scripts/charts/slide2-rebuig-line.js:48 | "no data" is shown exactly when no selected series has points |
| LineSeries.SelectTotesRegrouped | src/scripts/charts/slide2-rebuig-line.js:43-45 | under 'Totes' the regrouped map is drawn whole, in its own order |
| LineSeries.YUpper | src/scripts/charts/slide2-rebuig-line.js:55 | the y upper bound is the largest finite plotted value when there is one and it is not 0, and 1 otherwise; it bounds every finite plotted value |
| LineSeries.PlottedMaxIsD3Max | src/scripts/charts/slide2-rebuig-line.js:55 | `d3.max` over the series maxima is the largest finite plotted value, and no other value is |
| LineSeries.SeriesMaxesBound | src/scripts/charts/slide2-rebuig-line.js:55 | the maximum over the series' maxima bounds every finite point and is attained by one |
| LineSeries.PointBelowSeriesMax | src/scripts/charts/slide2-rebuig-line.js:55 | a finite point is at most its series' maximum |
| LineSeries.SeriesMaxAttained | src/scripts/charts/slide2-rebuig-line.js:55 | a finite series maximum is the value of one of its points |
| LineSeries.AllYearsRaw | src/scripts/charts/slide2-rebuig-line.js:47 | `flatMap` of the years holds exactly the years of the points |
| LineSeries.AllYears | src/scripts/charts/slide2-rebuig-line.js:47 | the year list holds each year of a drawn point once and nothing else |
| LineSeries.YearWitness | src/scripts/charts/slide2-rebuig-line.js:47 | every listed year is the year of some drawn point |
| LineSeries.AllYearsAscending | src/scripts/charts/slide2-percent-selectiva-line.js:39 | for four-digit years the default string sort lists them in ascending numeric order |
| PercentLine.Keys | src/scripts/charts/slide2-percent-selectiva-line.js:6-7 | a bucket exists for every (province, year) of a record, with no skip rule, each once, in creation order |
| PercentLine.Percents | src/scripts/charts/slide2-percent-selectiva-line.js:13-15 | one percentage per bucket and no other key |
| PercentLine.TallySnoc | src/scripts/charts/slide2-percent-selectiva-line.js:8-10 | a further record adds `sel \|\| 0` to its bucket's `sel` and `(sel \|\| 0) + (no \|\| 0)` to its `tot`, and changes no other bucket |
| PercentLine.TallyEmpty | src/scripts/charts/slide2-percent-selectiva-line.js:7 | a bucket no record falls into holds sel = tot = 0 |
| PercentLine.TallyStep | src/scripts/charts/slide2-percent-selectiva-line.js:7-10 | one record creates its bucket on first use and adds its tonnes to it |
| PercentLine.TallyAll | src/scripts/charts/slide2-percent-selectiva-line.js:4-11 | the `forEach` leaves one entry per bucket, in creation order, holding the bucket's summed tonnes |
| PercentLine.PercentSeriesByProv | src/scripts/charts/slide2-percent-selectiva-line.js:3-19 | `percentSeriesByProv` returns the buckets' percentages regrouped by province with year-sorted points |
| PercentLine.SelWithinTot | src/scripts/charts/slide2-percent-selectiva-line.js:9-10 | with non-negative tonnages 0 ≤ sel ≤ tot for every bucket |
| PercentLine.PercentBounds | src/scripts/charts/slide2-percent-selectiva-line.js:15 | a finite bucket value lies in [0, 100] when 0 ≤ sel ≤ tot |
| PercentLine.PercentInRange | src/scripts/charts/slide2-percent-selectiva-line.js:9-15 | with non-negative tonnages every finite plotted value lies in [0, 100] |
| PercentLine.PercentNaNExactly | src/scripts/charts/slide2-percent-selectiva-line.js:15 | with non-negative tonnages a bucket's value is NaN exactly when all its records have no tonnes (where the per-record share would read 0) |
| PercentLine.TotZeroExactly | src/scripts/charts/slide2-percent-selectiva-line.js:10 | with non-negative tonnages tot ≥ 0, and tot = 0 exactly when every record of the bucket has total 0 |
| PercentLine.EveryRecordPlotted | src/scripts/charts/slide2-percent-selectiva-line.js:5-16 | every record's province has a series with a point for the record's year, carrying the bucket's percentage |
| PercentLine.PercentSeriesShape | src/scripts/charts/slide5-provincies-percent-series.js:6-17 | one series per province; each non-empty, one point per year, ascending |
| PercentLine.PointsFromRecords | src/scripts/charts/slide5-provincies-percent-series.js:13-15 | every point stands for a (province, year) some record has |
| PercentLine.LegendOrder | src/scripts/charts/slide5-provincies-percent-series.js:43-48 | lines and legend entries follow the provinces' first occurrence among the records, one per province |
| PercentLine.YearListExactly | src/scripts/charts/slide5-provincies-percent-series.js:32 | the year list holds exactly the years of the records |
| PercentLine.YearFromRecord | src/scripts/charts/slide5-provincies-percent-series.js:32 | every listed year is some record's year |
| PercentLine.KeyFromRecord | src/scripts/charts/slide5-provincies-percent-series.js:6-7 | every bucket comes from a record |
| PercentLine.RecordYearListed | src/scripts/charts/slide5-provincies-percent-series.js:32 | every record's year is listed |
| PercentLine.FixedDomainCovers | src/scripts/charts/slide2-percent-selectiva-line.js:35-46 | with non-negative tonnages the fixed y domain [0, 100] holds every finite value of every selected series |
| ProvinciesBars.CountedProvinces | src/scripts/charts/slide5-provincies-bars.js:7-10 | a province is listed exactly when it has a record of the year that passes the skip check |
| ProvinciesBars.YearProvinces | src/scripts/charts/slide5-provincies-bars.js:10 | the map's provinces: each province with a counted record of the year once, in first-seen order |
| ProvinciesBars.ProvAverages | src/scripts/charts/slide5-provincies-bars.js:13 | one entry per province of the map |
| ProvinciesBars.CountedProvincesSnoc | src/scripts/charts/slide5-provincies-bars.js:7-10 | a further record adds its province exactly when it is of the year and counted |
| ProvinciesBars.ProvSkip | src/scripts/charts/slide5-provincies-bars.js:7-9 | a record of another year, or one the skip check drops, changes nothing |
| ProvinciesBars.ProvAddKeys | src/scripts/charts/slide5-provincies-bars.js:10 | a counted record of the year creates its province's entry on first use |
| ProvinciesBars.ProvAdd | src/scripts/charts/slide5-provincies-bars.js:10-11 | a counted record of the year adds w and v·w to its province and keeps the loop's facts |
| ProvinciesBars.StoredIsBucket | src/scripts/charts/slide5-provincies-bars.js:10 | a province not in the map yet has nothing summed |
| ProvinciesBars.ProvBucketsAfterAdd | src/scripts/charts/slide5-provincies-bars.js:11 | after the addition every entry holds its province's sums over the records so far |
| ProvinciesBars.AccumulateProvinces | src/scripts/charts/slide5-provincies-bars.js:6-12 | the filtered `forEach` leaves one entry per province with a counted record of the year, in first-seen order, holding Σw and Σv·w |
| ProvinciesBars.AggProvAvg | src/scripts/charts/slide5-provincies-bars.js:5-14 | `aggProvAvg` returns each such province with its weighted mean |
| ProvinciesBars.AveragesProvinces | src/scripts/charts/slide5-provincies-bars.js:10-13 | each province appears once, and exactly the provinces with a counted record of the year appear |
| ProvinciesBars.AverageBetween | src/scripts/charts/slide5-provincies-bars.js:11-13 | each entry's value is finite and lies between the smallest and largest counted value of its province and year |
| ProvinciesBars.BucketOtherYears | src/scripts/charts/slide5-provincies-bars.js:7 | records of other years leave the year's sums unchanged |
| ProvinciesBars.ProvincesOtherYears | src/scripts/charts/slide5-provincies-bars.js:7 | records of other years add no province |
| ProvinciesBars.OnlyYearMatters | src/scripts/charts/slide5-provincies-bars.js:7 | filtering to the year first gives the same result: only the requested year is considered |
| ProvinciesBars.Find | src/scripts/charts/slide5-provincies-bars.js:27 | `(find(...) \|\| {}).value` is `undefined` for a province without an entry |
| ProvinciesBars.FindFirst | src/scripts/charts/slide5-provincies-bars.js:27 | for a present province it is the value of its first entry |
| ProvinciesBars.RowProvinces | src/scripts/charts/slide5-provincies-bars.js:26 | the union of both aggregates' provinces, each once, in string order |
| ProvinciesBars.MergeRows | src/scripts/charts/slide5-provincies-bars.js:27 | one row per province of the union, holding that province's two looked-up values |
| ProvinciesBars.MergeRowsShape | src/scripts/charts/slide5-provincies-bars.js:26-27 | rows run in strictly increasing string order and hold exactly the provinces of either aggregate; a province missing from one aggregate reads `undefined` there, not 0; a present one reads its entry |
| ProvinciesBars.Peaks | src/scripts/charts/slide5-provincies-bars.js:39 | `Math.max(d.sel \|\| 0, d.no \|\| 0)` for every row |
| ProvinciesBars.BarsYUpper | src/scripts/charts/slide5-provincies-bars.js:39 | the y upper bound is the height of the tallest bar (missing as 0) when there is a row and that height is not 0, and 1 otherwise; every bar fits below it |
| ProvinciesBars.TallestBarIsD3Max | src/scripts/charts/slide5-provincies-bars.js:39 | `d3.max` of the row peaks exists exactly when there is a row, and is then the tallest bar and no other value |
| ProvinciesBars.PeaksBound | src/scripts/charts/slide5-provincies-bars.js:39 | the maximum of the row peaks bounds both bars of every row and is attained |
| Boxplot.ChosenYear | src/scripts/charts/slide5-provincies-boxplot.js:60 | the surface metric always uses 2021; the others use the slider's year |
| Boxplot.Included | src/scripts/charts/slide5-provincies-boxplot.js:61 | exactly the records of the year whose metric is a number above 0 |
| Boxplot.GroupValues | src/scripts/charts/slide5-provincies-boxplot.js:67-70 | a group's values are exactly the finite metric values of its province's included records, each value as often as records of the province carry it |
| Boxplot.ProvinceValueCount | src/scripts/charts/slide5-provincies-boxplot.js:67-69 | after the province filter and the accessor map, a value occurs once per record of the province that has it |
| Boxplot.IncludedCount | src/scripts/charts/slide5-provincies-boxplot.js:61 | among the included records, those of a province with value v are the records of the year and province with that value, when v > 0, and none otherwise |
| Boxplot.Groups | src/scripts/charts/slide5-provincies-boxplot.js:64-71 | four groups, Barcelona, Girona, Lleida, Tarragona in that order; each holds a value exactly as often as records of the chosen year and that province carry it, when it is positive, and never otherwise |
| Boxplot.GroupValuesPositive | src/scripts/charts/slide5-provincies-boxplot.js:61-70 | every plotted value is positive |
| Boxplot.SortedCopy | src/scripts/charts/slide5-provincies-boxplot.js:132 | the sorted copy has the same values (as a multiset) in ascending order; the group itself is not changed |
| Boxplot.RankFloor | src/scripts/charts/slide5-provincies-boxplot.js:133-135 | the integer part of the type-7 rank (n−1)·p, which has a successor for 0 < p < 1 |
| Boxplot.RankMonotone | src/scripts/charts/slide5-provincies-boxplot.js:133-135 | a larger p gives a larger rank |
| Boxplot.LerpBetween | src/scripts/charts/slide5-provincies-boxplot.js:133-135 | linear interpolation stays between its two ends |
| Boxplot.LerpMonotone | src/scripts/charts/slide5-provincies-boxplot.js:133-135 | interpolation grows with the fraction |
| Boxplot.QuantileNeighbours | src/scripts/charts/slide5-provincies-boxplot.js:133-135 | an interpolated quantile lies between the two values around its rank |
| Boxplot.AscendingMin | src/scripts/charts/slide5-provincies-boxplot.js:139-140 | on the sorted copy `d3.min` is the first value and `d3.max` the last |
| Boxplot.QuantileInRange | src/scripts/charts/slide5-provincies-boxplot.js:133-135 | every quantile lies between the smallest and the largest value |
| Boxplot.QuantileMonotone | src/scripts/charts/slide5-provincies-boxplot.js:133-135 | a larger probability never gives a smaller quantile |
| Boxplot.InteriorQuantileMonotone | src/scripts/charts/slide5-provincies-boxplot.js:133-135 | the same between two interpolated quantiles |
| Boxplot.QuantileSingle | src/scripts/charts/slide5-provincies-boxplot.js:133-135 | a one-value sample has that value as every quantile |
| Boxplot.BoxOf | src/scripts/charts/slide5-provincies-boxplot.js:132-143 | a group's box carries its province |
| Boxplot.BoxQuartiles | src/scripts/charts/slide5-provincies-boxplot.js:133-136 | q1 ≤ median ≤ q3 and iqr = q3 − q1 ≥ 0 |
| Boxplot.BoxWhiskers | src/scripts/charts/slide5-provincies-boxplot.js:139-140 | min ≤ lowerWhisker = max(min, q1 − 1.5·iqr) ≤ q1 and q3 ≤ upperWhisker = min(max, q3 + 1.5·iqr) ≤ max |
| Boxplot.Clamped | src/scripts/charts/slide5-provincies-boxplot.js:139-140 | fences 1.5 ranges beyond [q1, q3], clamped to [min, max], stay between the box and the clamp |
| Boxplot.OutliersExactly | src/scripts/charts/slide5-provincies-boxplot.js:143 | the outliers are exactly the values strictly below the lower or above the upper whisker, as often as they occur, in ascending order |
| Boxplot.FilterAscending | src/scripts/charts/slide5-provincies-boxplot.js:143 | filtering an ascending list keeps it ascending |
| Boxplot.SingleValueBox | src/scripts/charts/slide5-provincies-boxplot.js:133-143 | a one-value group has q1 = median = q3 = that value, iqr = 0, both whiskers at the value and no outliers |
| Boxplot.Boxes | src/scripts/charts/slide5-provincies-boxplot.js:124-125 | every non-empty group gets its box and an empty group gets none |
| Boxplot.Pow10 | src/scripts/charts/slide5-provincies-boxplot.js:103-104 | `Math.pow(10, e)` is positive |
| Boxplot.Pow10Step | src/scripts/charts/slide5-provincies-boxplot.js:105 | one decade up multiplies by 10 |
| Boxplot.Pow10Monotone | src/scripts/charts/slide5-provincies-boxplot.js:103-105 | powers of ten grow with the exponent |
| Boxplot.Pow10Strict | src/scripts/charts/slide5-provincies-boxplot.js:105 | strictly, for a strictly larger exponent |
| Boxplot.Pow10Reflects | src/scripts/charts/slide5-provincies-boxplot.js:105 | a smaller power of ten has a smaller exponent |
| Boxplot.Pow10Neg | src/scripts/charts/slide5-provincies-boxplot.js:103 | 10^−e = 1 / 10^e |
| Boxplot.FloorLog10 | src/scripts/charts/slide5-provincies-boxplot.js:103 | `Math.floor(Math.log10(v))` is the e with 10^e ≤ v < 10^(e+1) |
| Boxplot.CeilLog10 | src/scripts/charts/slide5-provincies-boxplot.js:104 | `Math.ceil(Math.log10(v))` is the e with 10^(e−1) < v ≤ 10^e |
| Boxplot.LogYDomain | src/scripts/charts/slide5-provincies-boxplot.js:101-105 | lowerPow is 10^floor(log10 of the smallest value), 1 without one; upperPow is 10^ceil(log10 of the largest value), 10 without one, pushed to one decade above lowerPow when it is not above it; so upperPow is always above lowerPow and at or above the largest value |
| Boxplot.LogDomainEnds | src/scripts/charts/slide5-provincies-boxplot.js:107 | the domain's lower end is below its upper end |
| Boxplot.LogDomainCovers | src/scripts/charts/slide5-provincies-boxplot.js:101-107 | every plotted value lies within the log domain |
| Boxplot.LogTicks | src/scripts/charts/slide5-provincies-boxplot.js:232-235 | the ticks are the consecutive powers of ten from lowerPow to upperPow inclusive, each ten times the previous |
| Boxplot.LinearYDomain | src/scripts/charts/slide5-provincies-boxplot.js:110-113 | [y0·0.95, y1·1.05] with y0 falling back to 0 and y1 to 100 when there is no value |
| Boxplot.LinearDomainCovers | src/scripts/charts/slide5-provincies-boxplot.js:110-113 | with positive values the padded domain holds all of them |
| Boxplot.AllValues | src/scripts/charts/slide5-provincies-boxplot.js:93 | the values of all groups together |
| Boxplot.YScaleOf | src/scripts/charts/slide5-provincies-boxplot.js:98-114 | the y scale is the log domain exactly for `poblacio` and `densitat`, and the linear domain for every other metric; a log domain spans at least one decade |
| Boxplot.YScaleCovers | src/scripts/charts/slide5-provincies-boxplot.js:90-114 | every value of every box lies inside the domain of the scale its metric gets, log or linear |
| TopImprovement.Entries | src/scripts/charts/slide5-top-improvement-lines.js:11-20 | one entry per comarca, in the order the records first name it, no comarca twice, each holding that comarca's years |
| TopImprovement.BuildComarques | src/scripts/charts/slide5-top-improvement-lines.js:11-20 | the `forEach` over the records followed by `Object.values` yields exactly those entries |
| TopImprovement.BuiltEmpty | src/scripts/charts/slide5-top-improvement-lines.js:11 | the empty object describes no records |
| TopImprovement.BuiltAll | src/scripts/charts/slide5-top-improvement-lines.js:20 | once every record is seen, the object's values are the entries |
| TopImprovement.BuiltStep | src/scripts/charts/slide5-top-improvement-lines.js:12-16 | one record creates its comarca's entry on first sight and writes its share under its year |
| TopImprovement.BuiltSnoc | src/scripts/charts/slide5-top-improvement-lines.js:13-16 | the same step, stated over the records seen so far plus one |
| TopImprovement.YearsSoFar | src/scripts/charts/slide5-top-improvement-lines.js:13-14 | the entry a record writes into, or a fresh empty one, holds its comarca's years so far |
| TopImprovement.YearsAfterWrite | src/scripts/charts/slide5-top-improvement-lines.js:16 | after the write every entry holds its comarca's years over one more record |
| TopImprovement.ComarquesSnoc | src/scripts/charts/slide5-top-improvement-lines.js:13-14 | a record adds its comarca to the key order only when it is new |
| TopImprovement.YearsOfSnoc | src/scripts/charts/slide5-top-improvement-lines.js:16 | a record changes only its own comarca's years, and only at its year |
| TopImprovement.YearsOfAbsent | src/scripts/charts/slide5-top-improvement-lines.js:13-16 | a comarca no record names has no years |
| TopImprovement.LastWriteWins | src/scripts/charts/slide5-top-improvement-lines.js:16 | the share stored for a year is that of the last record of the comarca and year |
| TopImprovement.StoredYears | src/scripts/charts/slide5-top-improvement-lines.js:16 | a year is stored exactly when some record of the comarca has it |
| TopImprovement.Improvement | src/scripts/charts/slide5-top-improvement-lines.js:23 | always finite; a missing, NaN or zero endpoint counts as 0, so a comarca without a 2006 share improves by its whole 2021 share |
| TopImprovement.FinitesAll | src/scripts/charts/slide5-top-improvement-lines.js:26 | the `Number.isFinite` filter drops nothing |
| TopImprovement.Improvements | src/scripts/charts/slide5-top-improvement-lines.js:20-28 | min(topN, number of comarques) entries, each one of the comarques' entries |
| TopImprovement.ImprovementsDescending | src/scripts/charts/slide5-top-improvement-lines.js:27 | the chosen comarques come in decreasing order of improvement |
| TopImprovement.LineYearsRange | src/scripts/charts/slide5-top-improvement-lines.js:37 | the x axis years are exactly 2006 to 2021, ascending |
| TopImprovement.PointsOver | src/scripts/charts/slide5-top-improvement-lines.js:59-64 | the points are exactly the listed years with a finite share, carrying that share, in year order |
| TopImprovement.TailAbove | src/scripts/charts/slide5-top-improvement-lines.js:59 | in an ascending year list the later years are above the first |
| TopImprovement.AscendingCons | src/scripts/charts/slide5-top-improvement-lines.js:59-64 | a point before later-year points keeps the line in year order |
| TopImprovement.LineData | src/scripts/charts/slide5-top-improvement-lines.js:59-64 | a comarca's line has one point per year 2006-2021 with a finite share, in year order |
| TopImprovement.HasLineExactly | src/scripts/charts/slide5-top-improvement-lines.js:66 | a line is drawn exactly when some year 2006-2021 has a finite share |
| AgePatterns.AgeRanges | src/scripts/charts/slide3.js:143-151 | five distinct bands, each at its own index, from 0-15 first to 64+ last |
| AgePatterns.SumOrAppend | src/scripts/charts/slide3.js:163-164 | the `reduce` with a missing figure as 0 adds up over two batches of records |
| AgePatterns.SumOrSingle | src/scripts/charts/slide3.js:163-164 | over one record it is that record's figure, or 0 |
| AgePatterns.SumOrNonNegative | src/scripts/charts/slide3.js:163-164 | non-negative figures give a non-negative sum |
| AgePatterns.Pyramid | src/scripts/charts/slide3.js:153-168 | one bar pair per band, in band order, labelled with the band |
| AgePatterns.PyramidAt | src/scripts/charts/slide3.js:154-165 | each band's bars sum that band's male and female figures over the records of the year, province ('Totes' for all) and comarca ('Totes' for all) |
| AgePatterns.PyramidEmpty | src/scripts/charts/slide3.js:154-165 | with no matching record every bar is 0 |
| AgePatterns.PyramidSingle | src/scripts/charts/slide3.js:154-165 | one record contributes its own figures (missing as 0) to every band when it matches, and nothing otherwise |
| AgePatterns.PyramidAppend | src/scripts/charts/slide3.js:154-165 | the bars of two batches of records add up, which with the single-record case fixes every bar |
| AgePatterns.PyramidNonNegative | src/scripts/charts/slide3.js:163-164 | non-negative population figures give non-negative bars |
| AgePatterns.BarValues | src/scripts/charts/slide3.js:185 | `flatMap` lists each band's male then female value, in band order |
| AgePatterns.PyramidMax | src/scripts/charts/slide3.js:185 | the half-width of the axis is at least every bar and equals one of them |
| AgePatterns.PatternMetricOf | src/scripts/charts/slide3.js:126-134 | an empty selection means 'selectiva'; exactly the four keys of `metricAccessors` have a metric |
| AgePatterns.PctAge | src/scripts/charts/slide3.js:343 | finite exactly when the population is a number above 0 and both band figures are numbers; then it is the band's share of the population in percent |
| AgePatterns.PctAgeBounds | src/scripts/charts/slide3.js:343 | a band no larger than the population gives a share between 0 and 100 |
| AgePatterns.PlotRowsWithinDomain | src/scripts/charts/slide3.js:339-348 | the plotted rows are exactly the domain rows of the chosen year |
| AgePatterns.NoDataExactly | src/scripts/charts/slide3.js:22-27 | "no data" is shown exactly when no row has a finite x or no row has a finite y |
| AgePatterns.NoFinite | src/scripts/charts/slide3.js:22-23 | the `filter(Number.isFinite)` is empty exactly when every value is non-finite |
| AgePatterns.XDomain | src/scripts/charts/slide3.js:30-33 | when present, the extent's lower end is not above its upper end |
| AgePatterns.PointsInsideDomains | src/scripts/charts/slide3.js:339-351 | the axes come from every year of the province, so each drawn point with a finite x lies inside the x extent, and a positive y lies below the top of the y axis |
| AgePatterns.LabelIndex | src/scripts/charts/slide3.js:84-92 | -1 exactly when no x is finite; otherwise the first row holding the largest finite x, the row a descending sort's first element would be |
| AgePatterns.SameAsTopOne | src/scripts/charts/slide3.js:84-92 | that row is the one a stable descending `sort().slice(0, 1)` picks |
| AgePatterns.ComarcaOptions | src/scripts/charts/slide3.js:368-376 | the comarques of the selected province (all for 'Totes' or no selection), each once, in string order |
| MapChart.MapMetricOf | src/scripts/charts/slide1-map-chart.js:120-122 | an empty selection means 'percentatge_selectiva'; exactly the four keys of `metricOptions` have a metric |
| MapChart.Years | src/scripts/charts/slide1-map-chart.js:48 | each year of the data once, and no other |
| MapChart.FirstAndLastYear | src/scripts/charts/slide1-map-chart.js:48-50 | with four-digit years the string sort is numeric: `firstYear` and `lastYear` exist exactly when there is data, occur in it, and bound every record's year |
| MapChart.SelectedYear | src/scripts/charts/slide1-map-chart.js:118-119 | 'first' or no selection picks the first year; any other value the last |
| MapChart.ProvinceFilter | src/scripts/charts/slide1-map-chart.js:121 | never empty: no selection becomes 'totes', any other selection its lower-cased value |
| MapChart.Filtered | src/scripts/charts/slide1-map-chart.js:124-127 | exactly the records of the selected year whose lower-cased province matches the lower-cased filter, or all of them under 'totes' |
| MapChart.ProvinceIgnoresCase | src/scripts/charts/slide1-map-chart.js:121-126 | a selection and a province that lower-case alike match, whatever their capitals |
| MapChart.NoProvinceOnlyUnderTotes | src/scripts/charts/slide1-map-chart.js:124-127 | a record without a province (its lower-cased name is '') is shown only when every province is |
| MapChart.ColourValues | src/scripts/charts/slide1-map-chart.js:130 | exactly the populations above 0 of the shown records |
| MapChart.SizeValues | src/scripts/charts/slide1-map-chart.js:129 | exactly the finite metric values of the shown records |
| MapChart.ScaleDomain | src/scripts/charts/slide1-map-chart.js:132-138 | [0, 1] for no values; otherwise it starts at the smallest value and never runs backwards |
| MapChart.ScaleDomainCovers | src/scripts/charts/slide1-map-chart.js:132-138 | non-negative values all lie within the domain |
| MapChart.ColourDomainIsExtent | src/scripts/charts/slide1-map-chart.js:132-134 | populations are positive, so the colour domain is exactly their extent |
| MapChart.Leader | src/scripts/charts/slide1-map-chart.js:204-211 | no labelled bubble when no metric value is finite; otherwise the earliest shown record with the largest value |
| NumberFormat.Scale | src/scripts/charts/overview-pie.js:12 | 10^f is at least 1 |
| NumberFormat.Shifted | src/scripts/charts/overview-pie.js:12 | the quantity `toFixed(f)` rounds, \|x\|·10^f, is non-negative |
| NumberFormat.RoundHalfUp | src/scripts/charts/overview-pie.js:12 | the nearest integer, the larger one on a tie |
| NumberFormat.Zeros | src/scripts/charts/overview-pie.js:12 | k '0' digits |
| NumberFormat.ToFixed | src/scripts/charts/overview-pie.js:12 | below 10^21 in magnitude: a '-' exactly for negative values, at least one integer digit, exactly f fraction digits, together denoting \|x\|·10^f rounded half up |
| NumberFormat.Padded | src/scripts/charts/overview-pie.js:12 | leading zeros up to f + 1 digits keep the value |
| NumberFormat.SplitValue | src/scripts/charts/overview-pie.js:12-13 | splitting the digits at the '.' keeps their joint value |
| NumberFormat.DigitsValueAppend | src/scripts/charts/overview-pie.js:12-13 | the value of joined digit strings |
| NumberFormat.DigitsSnoc | src/scripts/charts/overview-pie.js:12 | one more digit multiplies by ten and adds it |
| NumberFormat.ZerosValue | src/scripts/charts/overview-pie.js:12 | zeros are worth 0 |
| NumberFormat.GroupShape | src/scripts/charts/overview-pie.js:14 | the `\B(?=(\d{3})+(?!\d))` replacement puts '.' before every group of three digits from the right and nowhere else |
| NumberFormat.GroupedExtend | src/scripts/charts/overview-pie.js:14 | a grouped string stays grouped with '.' and three more digits |
| NumberFormat.RemoveDotsAppend | src/scripts/charts/overview-pie.js:14 | removing separators distributes over joining |
| NumberFormat.RemoveDotsDigits | src/scripts/charts/overview-pie.js:14 | plain digits have no separator to remove |
| NumberFormat.UngroupGroup | src/scripts/charts/overview-pie.js:14 | removing the separators gives back the digits: grouping loses nothing |
| NumberFormat.GroupedNoComma | src/scripts/charts/overview-pie.js:14-15 | a grouped string holds no ',' so the decimal comma is unambiguous |
| NumberFormat.PieFormatReadsBack | src/scripts/charts/overview-pie.js:11-16 | with decimals the pie's text is a sign for negative values, digits grouped by three, ',' and exactly `decimals` digits, reading back as \|x\|·10^decimals rounded |
| NumberFormat.ToFixedWhole | src/scripts/charts/demographic-chart.js:10 | `toFixed(0)` has no fraction digits and its digits denote \|x\| rounded |
| NumberFormat.DemographicFormatReadsBack | src/scripts/charts/demographic-chart.js:9-14 | without decimals the text has no ',' and reads back as \|x\| rounded to an integer |
| NumberFormat.FormattersAgree | src/scripts/charts/demographic-chart.js:13 | with decimals the demographic formatter writes what the pie's does |
| OverviewPie.PieMetricOf | src/scripts/charts/overview-pie.js:42-77 | exactly the four values the `if` chain tests select a metric; any other value draws an empty pie |
| OverviewPie.PieRows | src/scripts/charts/overview-pie.js:26-29 | exactly the records of the year, and of the province unless it is 'Totes' |
| OverviewPie.Candidates | src/scripts/charts/overview-pie.js:43-46 | one candidate per record, in record order: its comarca, the metric's tonnes and the colour of its index |
| OverviewPie.ComarcaSlices | src/scripts/charts/overview-pie.js:43-48 | the candidates with a value above 0, each as often as it occurs and no other, largest value first |
| OverviewPie.ComarcaSliceOf | src/scripts/charts/overview-pie.js:47 | a record gets its slice exactly when its value is a number above 0 |
| OverviewPie.ComarcaSlicesDescending | src/scripts/charts/overview-pie.js:48 | each slice's value is at least that of every later slice |
| OverviewPie.ComarcaSlicesStable | src/scripts/charts/overview-pie.js:48 | slices of equal value keep the order of their records |
| OverviewPie.ComparativaSlices | src/scripts/charts/overview-pie.js:70-75 | exactly two slices, named as the source names them, holding the `d3.sum` (missing and NaN skipped) of the selective and of the non-selective tonnes |
| OverviewPie.PieDataFinite | src/scripts/charts/overview-pie.js:36-77 | every slice of the pie has a finite value |
| OverviewPie.Percent | src/scripts/charts/overview-pie.js:122 | the slice's share of the total in percent; not a number when the total is 0 |
| OverviewPie.SliceValues | src/scripts/charts/overview-pie.js:122 | one value per slice |
| OverviewPie.PieValuesFinite | src/scripts/charts/overview-pie.js:122 | with finite values `d3.sum` adds exactly the slice values |
| OverviewPie.PercentSumScales | src/scripts/charts/overview-pie.js:122 | the percentages add up to the values' sum over the total, times 100 |
| OverviewPie.WholeIsHundred | src/scripts/charts/overview-pie.js:122 | the whole over itself is 100 % |
| OverviewPie.PercentagesSumTo100 | src/scripts/charts/overview-pie.js:122 | the slices' percentages add up to exactly 100 whenever the total is not 0 |
| OverviewPie.InnerLabelExactly | src/scripts/charts/overview-pie.js:127-137 | with a positive total, a slice gets an inner percentage label exactly when the pie has at most ten slices and the slice is more than 3 % of the total |
| OverviewPie.OuterLabelsTopThree | src/scripts/charts/overview-pie.js:163-166 | with distinct comarca names, a slice gets an outer label exactly when it is among the first three and the metric is not the comparison |
| Demographic.Put | src/scripts/charts/demographic-chart.js:19-30 | `obj[k] = v` maps k to v and keeps every key listed once with an entry |
| Demographic.BuildIndex | src/scripts/charts/demographic-chart.js:17-30 | the `forEach` leaves exactly the nested dictionary the records describe |
| Demographic.LookupStore | src/scripts/charts/demographic-chart.js:20-29 | storing one record changes only its own province, comarca and year, and only while that year's value is falsy |
| Demographic.Resolve | src/scripts/charts/demographic-chart.js:27-28 | a write only while the stored value is falsy leaves the first truthy value, or the last value when none is truthy; nothing without a write |
| Demographic.IndexValue | src/scripts/charts/demographic-chart.js:19-30 | the stored population of a province, comarca and year is what the matching records leave in data order, by that rule |
| Demographic.IndexWellFormed | src/scripts/charts/demographic-chart.js:20-21 | every province key is listed once and has an entry |
| Demographic.StoreKeys | src/scripts/charts/demographic-chart.js:20-21 | a record adds its province to the key order only when it is new |
| Demographic.ProvinceKeys | src/scripts/charts/demographic-chart.js:19-21 | the provinces of the dictionary are those of the records, in first-seen order |
| Demographic.StoreComarcaKeys | src/scripts/charts/demographic-chart.js:23-24 | a record adds its comarca under its own province only when it is new there |
| Demographic.ComarquesWellFormed | src/scripts/charts/demographic-chart.js:23-24 | under every province, each comarca key is listed once and has an entry |
| Demographic.ComarcaKeys | src/scripts/charts/demographic-chart.js:19-25 | the comarques under a province are those of its records, in first-seen order |
| Demographic.GetComarques | src/scripts/charts/demographic-chart.js:33-35 | the province's comarques, each once, in string order; none for an unknown province |
| Demographic.GetComarquesOfData | src/scripts/charts/demographic-chart.js:19-35 | read against the data: exactly the comarques some record places in the province |
| Demographic.ChartYears | src/scripts/charts/demographic-chart.js:76 | sixteen axis years |
| Demographic.ChartYearsConsecutive | src/scripts/charts/demographic-chart.js:76 | consecutive, from 2006 to 2021 |
| Demographic.CatalunyaPoints | src/scripts/charts/demographic-chart.js:80-91 | one point per axis year holding the Catalonia total of that year |
| Demographic.CatalunyaValues | src/scripts/charts/demographic-chart.js:80-91 | the nested loops adding `obj[p][c][y] \|\| 0` over every province and comarca give exactly those points |
| Demographic.IndexNonNegative | src/scripts/charts/demographic-chart.js:28 | with no negative population in the data, none is stored |
| Demographic.ComarcaSumNonNegative | src/scripts/charts/demographic-chart.js:85-87 | a province's partial sum is never negative then |
| Demographic.ProvinceSumNonNegative | src/scripts/charts/demographic-chart.js:84-88 | nor is the partial sum over provinces |
| Demographic.TotalNonNegative | src/scripts/charts/demographic-chart.js:80-90 | the Catalonia total of a year is never negative when no population is |
| Demographic.ComarcaSeries | src/scripts/charts/demographic-chart.js:106-111 | a comarca's series has one point per axis year, holding its stored population or 0 when missing or falsy |
| Demographic.SelectedComarques | src/scripts/charts/demographic-chart.js:96-103 | the ticked comarques, or all the province's comarques when none is ticked |
| Demographic.ChartData | src/scripts/charts/demographic-chart.js:79-113 | one 'Catalunya' series under 'Totes'; otherwise one series per selected comarca, in selection order |
| Demographic.ChartDataOnAxis | src/scripts/charts/demographic-chart.js:76-113 | every series has one point per axis year, in year order |
| Demographic.NoneTickedNames | src/scripts/charts/demographic-chart.js:101-106 | with none ticked the series are named by the sorted comarques of the province |
| Demographic.NoneTickedDrawsAll | src/scripts/charts/demographic-chart.js:101-112 | with none ticked, a comarca has a series exactly when some record places it in the province |
| Densitat.Density | src/scripts/charts/slide4-densitat-vs-total.js:113-115 | population over surface with a missing, NaN or zero population as 0 and such a surface as 1: never a division by zero, and 0 without a population |
| Densitat.DensMetricOf | src/scripts/charts/slide4-densitat-vs-total.js:99-108 | an empty selection means 'kg_per_hab_dia'; exactly the two keys of `metrics` have a metric |
| Densitat.LogDomain | src/scripts/charts/slide4-densitat-vs-total.js:117 | both ends non-finite exactly when there is no value; otherwise the lower end is 0.1 exactly when some value is at most 0.1 and else the smallest value, and the upper end is the largest value |
| Densitat.GlobalXDomain | src/scripts/charts/slide4-densitat-vs-total.js:112-117 | over all records; empty data gives non-finite ends; otherwise the upper end is the largest density, and the lower end is 0.1 exactly when some density is at most 0.1 and else the smallest density |
| Densitat.DensityDomainEnds | src/scripts/charts/slide4-densitat-vs-total.js:112-117 | the same ends, stated over the records: each end is some record's density (or 0.1), bounding every density |
| Densitat.YDomainOf | src/scripts/charts/slide4-densitat-vs-total.js:120-124 | starts at 0; the upper end is finite exactly when some value is, and then it is the largest value and is attained |
| Densitat.GlobalYDomains | src/scripts/charts/slide4-densitat-vs-total.js:120-124 | the `forEach` over the metric keys gives every metric its domain over all records |
| Densitat.Rows | src/scripts/charts/slide4-densitat-vs-total.js:126-133 | exactly the records of the year, and of the province unless it is 'Totes' or not selected |
| Densitat.ValidRows | src/scripts/charts/slide4-densitat-vs-total.js:22-26 | exactly the rows with a finite metric and a positive density |
| Densitat.NoPopulationNotDrawn | src/scripts/charts/slide4-densitat-vs-total.js:22-26 | a comarca without a population (missing, NaN or 0) is never drawn |
| Densitat.NoDataExactly | src/scripts/charts/slide4-densitat-vs-total.js:28-30 | "no data" is shown exactly when no row has a finite metric and a positive density |
| Densitat.ScatterXDomain | src/scripts/charts/slide4-densitat-vs-total.js:37 | a supplied domain wins; otherwise the log domain of the drawn densities |
| Densitat.ScatterYDomain | src/scripts/charts/slide4-densitat-vs-total.js:40 | a supplied domain wins; otherwise [0, largest drawn metric value] |
| Densitat.RenderDomains | src/scripts/charts/slide4-densitat-vs-total.js:140 | the scatter draws with the global domains |
| Densitat.AxesIgnoreFilters | src/scripts/charts/slide4-densitat-vs-total.js:112-140 | the axes stay the same whatever year or province is selected |
| Densitat.DrawnPointsInsideAxes | src/scripts/charts/slide4-densitat-vs-total.js:112-124 | every drawn point lies below the tops of both global domains |

## Left out

- JavaScript's `NaN`, `undefined`, `null` and `±Infinity` are one value, `NonFinite`. So `Infinity || 0` reads 0 in the model where JavaScript keeps `Infinity`, and `d3.max`, `d3.min` and `d3.sum` skip an infinite value in the model where d3 keeps it. A record with an infinite figure is therefore treated like one with a missing figure.
- IEEE floating point: numbers are exact reals. Rounding in sums and divisions, `Math.log10`/`Math.pow` inaccuracy and d3's `.nice()` widening of domains are not modelled. Logarithms are integer exponents e with 10^e ≤ v.
- Everything drawn: SVG elements, scales, axes, colours beyond the slice palette index, tooltips, legends, titles, transitions, zoom and resize handlers, and DOM controls. Control values enter as plain parameters.
- `toLocaleString('ca-ES')` output, used by several tooltips, is locale-library formatting. Only the two hand-written `formatNumber` helpers are modelled.
- NumberFormat.ToFixed: only magnitudes below 10^21, because `toFixed` switches to exponent notation there.
- `Object.keys` lists integer-like keys in numeric order before the other keys. The models of the year objects in `TopImprovement` and `Demographic` only look keys up, and the province and comarca keys are names, so insertion order is used for key order.
- The box plot's `metrics[selectedMetric]` for a key with no metric: the source then fails on `metricInfo.yearDependent`. The model takes the metric as a value of `Boxplot.Metric`.
- A ticked comarca that the selected province does not hold: `dataByProvinciaComarca[provincia][comarca][year]` then throws. `Demographic.ChartData` reads such a comarca's values as 0.
- The demographic y bound `d3.max` over the series (src/scripts/charts/demographic-chart.js:136) and the `d3.extent(years)` x domains of the line charts, which are d3 calls with no shaping of their own.
- The pie's arc angles (`d3.pie`): only the slice values, their order and their percentages are modelled.
- The map tooltip, whose metric falls back to 'recollida_selectiva_t' where `update` falls back to 'percentatge_selectiva', and the other hover texts.
- OverviewPie.PieMetricOf: states which values select a metric, not which metric each selects. The mapping is the plain case split of its body.
- NumberFormat.PieFormat: with `decimals = 0` the pie's formatter would end in ",undefined". No caller passes 0, so `PieFormatReadsBack` assumes `decimals > 0`.
- Densitat.LogDomain: does not promise that its lower end is at most its upper end. When every density is below 0.1 the source's domain runs from 0.1 down to the largest density.
- MapChart.ScaleDomainCovers: proved for non-negative values only. With only negative values and a maximum of exactly 0, `colorDomain[1] || colorDomain[0] + 1` gives an upper end below the maximum. Populations and the map metrics are never negative.
- MapChart.ScaleDomain: gives the lower end and the fallback. Its upper end is stated by `ScaleDomainCovers` and `ColourDomainIsExtent`.
- TopImprovement.Improvements: states the length and membership. The order is `ImprovementsDescending`, and the stable tie order is `Ranking.TopNStable`, which it instantiates.
- Boxplot.BoxOf: states only the province. The statistics are stated by `BoxQuartiles`, `BoxWhiskers`, `OutliersExactly` and `SingleValueBox`.
- AgePatterns.XDomain: states only that the extent is ordered. That it covers the points is `PointsInsideDomains`.
- The CSV loading and record mapping (`src/scripts/main.js`), the slide switching, the scraper and the static server are outside the data shaping. `Records.Record` carries the columns the charts read, under the names each chart reads them by. The mapping in `src/scripts/main.js:21-29` produces only `any`, `comarca`, `kg_per_hab_dia`, `provincia` and the three `tones_recollida_*` columns, and hands the rows only to the pie. Under that mapping the pie's `total_recollida_t` and `recollida_*_t` read `undefined`. The model keeps this possible by making them separate `Num` fields, which may be `NonFinite`. `tones_recollida_total` is read by no chart, so it is not a field.
- Sorting.SortLex: compares strings by code point. JavaScript's default sort compares UTF-16 code units, which orders characters above U+FFFF differently against U+E000–U+FFFF. The names sorted here are Latin-1 text.
- Text.Lower: lowers only the Latin-1 capitals. JavaScript's `toLowerCase` also lowers capitals of other scripts, and it can lengthen a string ('İ' becomes two code units). Province names and the selector's values are Latin-1 text.
- Per-inhabitant daily rates are read as given (`kg_per_hab_dia` and the like). The dashboard does not compute them.
