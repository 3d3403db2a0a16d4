# Wine statistics: a verified model

The program reads a wine dataset and groups its rows by their `Alcohol` class. It then reports three rounded statistics for each class: the mean, the median and the mode.
- The first table reports them for the `Flavanoids` measurement.
- The second reports them for a derived measurement, `Gamma = Ash * Hue / Magnesium`. Gamma is written into every grouped row before the statistics are computed.

This project models that statistics core in Dafny and proves what each step computes.

| module | file | models |
|---|---|---|
| `Records` | `records.dfy` | Dataset rows (`Record`: an Alcohol class plus named real measurements), the outcomes a JavaScript statistic can have (`Num`, `NaN`, a thrown `TypeError`), `roundToThree` as intended and as written |
| `Sorting` | `sorting.dfy` | Ascending sort of a group's values (the median's `(a, b) => a - b` comparator), uniqueness of sorted arrangements, counting |
| `Statistics` | `statistics.dfy` | `calculateMean` and `calculateMedian` |
| `Mode` | `mode.dfy` | `calculateMode`. The frequency table is built by a loop (`FrequencyTable`). The `for...in` visiting order is modelled (array-index keys ascending, then other keys in insertion order). The strict-`>` selection scan is a loop (`SelectMode`) |
| `Grouping` | `grouping.dfy` | The `distributedDataset` reduce exactly as written (`GroupByAlcohol`, a loop over the data writing into the accumulator map), and the grouping it evidently intends |
| `Aggregation` | `aggregation.dfy` | `structuredDataObject`, over whichever grouping it is given |
| `Gamma` | `gamma.dfy` | `calculateGamma`, and the enrichment loop of `GammaStatsTable` as a class whose methods rewrite the shared groups in place |

Three behaviours of the code shape the model:
- **Grouping.** The code stores `[]` for the first record of each class and appends only the later ones, so every group loses its first record (Finding 1). `Grouping.GroupByAlcohol` models this.
- **Empty-group median.** The code reads a field of `sortedData[-1]`, which is `undefined`, so it throws a `TypeError`. That is why `Aggregation.Summarize` yields `None` when any group is empty.
- **Rounding.** The code appends `"e+3"` to the decimal string of a number, so a number that prints in exponential notation becomes NaN (Finding 2).

The statistics are computed on the intended rounding (`Records.RoundToThree`). The as-written variant is kept beside it, with a proof of where the two agree; "## Left out" lists what this means for each statistic.

`structuredDataObject`, `calculateMean`, `calculateMedian` and `calculateGamma` are functions of their inputs, so calling them twice on the same groups gives the same result and leaves the groups unchanged. The median sorts a copy (`Sorting.SortAscending` returns a new sequence).

## Model

| member | source | states |
|---|---|---|
| Records.RoundToThree | src/App.js:9-11 | The result is a whole number of thousandths. It lies in the window (x - 1/2000, x + 1/2000], so halves round toward +infinity as `Math.round` does |
| Records.RoundToThreeIdempotent | src/App.js:9-11 | Rounding an already rounded value changes nothing |
| Records.RoundToThreeAsWritten | src/App.js:9-11 | The string-based rounding never throws. Whenever it yields a number, that number is the exact three-place rounding |
| Records.TinyValueRoundsToNaN | src/App.js:10 | 1e-7 prints as "1e-7", so "1e-7e+3" is not a number: the code yields NaN where exact rounding yields 0 |
| Records.AsWrittenAgreesInPlainRange | src/App.js:10 | On 0, and on magnitudes from 1e-6 up to 1e17, the string-based rounding equals exact rounding |
| Statistics.ExactMean | src/App.js:14-16 | The unrounded mean times the group length is the sum of the group's values |
| Statistics.CalculateMean | src/App.js:14-17 | An empty group's mean is NaN (0 / 0), and under exact rounding no other group's is; otherwise the value is the exact mean rounded |
| Statistics.MeanWithinBounds | src/App.js:14-17 | The mean of values in [lo, hi] lies in [lo, hi]; the reported mean lies within half a thousandth of that range |
| Statistics.CalculateMedian | src/App.js:20-31 | An empty group throws a TypeError and no other group does; otherwise the value is the middle of the sorted copy under exact rounding |
| Statistics.MedianOfAnySortedCopy | src/App.js:21-30 | For every ascending arrangement of the group's values: the median is the element at n/2 for odd n, and the average of the elements at n/2 - 1 and n/2 for even n |
| Statistics.MedianSplitsGroup | src/App.js:20-31 | At least half of the values (rounded up) are at most the median, and at least half are at least the median |
| Statistics.MedianWithinBounds | src/App.js:20-31 | The median of values in [lo, hi] lies in [lo, hi] |
| Sorting.SortAscending | src/App.js:21 | The sorted copy is ascending, has the same length and holds the same values with the same multiplicities |
| Sorting.SortedPermutationUnique | src/App.js:21 | Two ascending arrangements of the same values are equal, so the median does not depend on the sorting algorithm |
| Mode.FirstOccurrences | src/App.js:37-43 | The frequency map's keys in insertion order: each distinct value once, and exactly the values of the group |
| Mode.FrequencyTable | src/App.js:35-43 | After the `forEach`, every value of the group is a key with its number of occurrences as count, and there are no other keys. The keys are in first-occurrence order, every count is at least 1, and the counts add up to the group length |
| Mode.ForInOrder | src/App.js:48 | The `for...in` order visits every key exactly once. The array-index keys come first, ascending. The other keys follow them in insertion order, so with no array-index key the order is the insertion order |
| Mode.ScanOrder | src/App.js:48 | The scan visits exactly the values of the group, each once |
| Mode.ScanOrderIsFirstOccurrences | src/App.js:37-48 | When no value is an array index (every non-integral value), the scan visits the values in order of first occurrence |
| Mode.FirstMaxIndex | src/App.js:45-53 | The chosen position holds a count no other key exceeds, and every earlier key has a strictly smaller count |
| Mode.SelectMode | src/App.js:45-53 | The strict-`>` loop leaves `mode` null exactly when there are no keys; otherwise it picks the first key in scan order with the largest count |
| Mode.ModeOf | src/App.js:34-56 | There is no mode exactly when the group is empty |
| Mode.ModeIsMostFrequent | src/App.js:45-55 | The mode occurs in the group, and no value occurs more often than it does |
| Mode.ModeWinsTiesInScanOrder | src/App.js:48-53 | Every value occurring at least as often as the mode is visited at or after the mode, so ties go to the first maximal key in scan order |
| Mode.ModeWinsTiesByFirstOccurrence | src/App.js:37-53 | When no value is an array index, every value occurring at least as often as the mode first occurs at or after the mode, so ties go to the value seen first |
| Mode.CalculateMode | src/App.js:34-56 | An empty group gives NaN (`roundToThree(null)`); otherwise the result is the most-frequent, first-in-scan-order value under exact rounding |
| Grouping.Members | src/App.js:4-7 | Every record collected for class k has Alcohol k |
| Grouping.MembersNonEmptyIffClass | src/App.js:4-7 | A class has records exactly when it occurs in the data |
| Grouping.MembersCount | src/App.js:4-7 | A class has as many records as it has occurrences |
| Grouping.MembersInDatasetOrder | src/App.js:4-7 | The records of a class are exactly those at the positions holding that class, at strictly increasing positions, so dataset order is kept |
| Grouping.GroupedAsWritten | src/App.js:4-7 | The keys are exactly the classes in the data. Group k holds (occurrences of k) - 1 records, all of class k |
| Grouping.GroupByAlcohol | src/App.js:4-7 | The reduce loop yields one key per class. Each group is that class's records in dataset order without the first |
| Grouping.AsWrittenCharacterized | src/App.js:4-7 | Any map with the classes as keys and each class's records but the first as its group is the as-written grouping |
| Grouping.GroupedIntended | src/App.js:5 | The corrected grouping has the classes as keys. Group k is non-empty and holds all occurrences of k, all of class k |
| Grouping.IntendedGroupingKeepsEveryRecord | src/App.js:5 | The corrected grouping is a partition: every record is in the group of its own class |
| Grouping.AsWrittenDropsFirstRecord | src/App.js:5 | As written, each group is the corrected group without its first record |
| Grouping.SingleRecordClassGetsEmptyGroup | src/App.js:5 | A one-record dataset gives an empty group as written and the one record when corrected |
| Aggregation.Summarize | src/App.js:58-68 | It fails (the median throws) exactly when some group is empty. Otherwise there is one entry per group key and no other, each computed from that group's values of the field |
| Aggregation.SummarizeReadsOnlyColumns | src/App.js:58-68 | Two groupings with the same keys and the same values of the field, group by group, get the same statistics |
| Aggregation.GroupsHaveField | src/App.js:58-68 | A field present in every dataset row is present in every group of either grouping |
| Aggregation.AsWrittenSummaryFailsIffClassSeenOnce | src/App.js:58-68 | With the grouping as written, computing the statistics throws exactly when some Alcohol class occurs only once |
| Aggregation.IntendedSummaryNeverFails | src/App.js:58-68 | With the corrected grouping the statistics never throw, and there is one entry per class |
| Gamma.CalculateGamma | src/App.js:97-99 | Gamma times Magnesium equals Ash times Hue |
| Gamma.WithGamma | src/App.js:105 | The record keeps its class and every other measurement. It gains (or overwrites) Gamma, which satisfies the Gamma equation |
| Gamma.EnrichGroups | src/App.js:103-107 | The same keys and group sizes. Each record keeps its class and other measurements and carries a Gamma satisfying the Gamma equation. Gamma is the only field added |
| Gamma.WithGammaIdempotent | src/App.js:105 | Recomputing Gamma on a record that already has it changes nothing |
| Gamma.EnrichIsIdempotent | src/App.js:103-107 | Running the enrichment again on enriched groups, as a second render does, leaves them unchanged |
| Gamma.EnrichKeepsColumn | src/App.js:103-107 | A group's values of any field other than Gamma are unchanged by the enrichment |
| Gamma.EnrichmentKeepsOtherStatistics | src/App.js:103-108 | The enrichment changes no statistic of any other field, so the Flavanoids table is the same before and after it |
| Gamma.GroupedDataset.constructor | src/App.js:101 | The object holds the groups it is given |
| Gamma.GroupedDataset.AddGammaToGroup | src/App.js:104-106 | The inner loop enriches every record of one group, one record at a time, and changes no other group |
| Gamma.GroupedDataset.AddGamma | src/App.js:103-107 | After the nested loops, the groups are the enriched groups of the old state |
| Gamma.GroupedDataset.GammaStatistics | src/App.js:101-108 | The groups are enriched in place. The result is the Gamma statistics of the enriched groups, and it fails exactly when some group is empty |

## Left out

- Records.RoundToThree: exact real arithmetic replaces binary floating point. It models the intended decimal rounding, not the float-to-string conversion digit by digit. Only the switch to exponential notation is modelled, in `RoundToThreeAsWritten`.
- Records.AsWrittenAgreesInPlainRange: proved only up to magnitude 1e17, not up to the 1e21 threshold. The weaker bound avoids the boundary where the shifted, rounded integer itself reaches 1e21.
- Statistics.CalculateMean: rounds exactly (`RoundToThree`). It reports a number where the code reports NaN when the mean's magnitude is below 1e-6 or its shifted rounding reaches 1e21 (`RoundToThreeAsWritten`, Finding 2).
- Statistics.CalculateMedian: rounds exactly (`RoundToThree`). It reports a number where the code reports NaN when the median's magnitude is below 1e-6 or its shifted rounding reaches 1e21.
- Mode.CalculateMode: rounds exactly (`RoundToThree`). It reports a number where the code reports NaN when the mode's magnitude is below 1e-6 or its shifted rounding reaches 1e21.
- Statistics.CalculateMean: the sum is exact. Floating-point accumulation error and the `+entry[type]` string-to-number coercion are not modelled.
- Statistics.CalculateMedian: fields are numbers. Line 26 adds the two middle values without coercion, so string-valued fields would be concatenated; this is not modelled. The sort comparator on NaN values is not modelled.
- Mode.FrequencyTable: keys are the values themselves. The number-to-string key coercion would merge `0` and `-0`, and the model has no `-0`. The round trip through `parseFloat` is taken to be exact.
- Records.Column: every record must carry the field (`HasField`). A missing field reads as `undefined` in JavaScript and turns the statistics into NaN; that is not modelled.
- Gamma.CalculateGamma: requires Ash, Hue and Magnesium to be present and Magnesium to be non-zero. The JavaScript Infinity/NaN results for a zero divisor are not modelled.
- Grouping.GroupByAlcohol: the Alcohol class is an integer. A row without an `Alcohol` field, which would be grouped under the key "undefined", is not modelled.
- Aggregation.Summarize: the result is a map, so the order of its entries (and of the table rows rendered from it) is not modelled.
- Aliasing is not modelled. Records are values inside `GroupedDataset`. In JavaScript the grouped rows are the same objects as the rows of the imported dataset, so the Gamma assignment is also visible through the dataset. The model captures that visibility only through the shared groups, and only for the Flavanoids table (`EnrichmentKeepsOtherStatistics`).
- Not modelled, because they are presentation and input:
  - the React components and their table markup (src/App.js:70-95, 110-146);
  - the `data.json` import and `data.slice()`.

## Findings

| source | as written | input that shows it | evidently intended | confidence | as-written member | corrected member |
|---|---|---|---|---|---|---|
| src/App.js:5 | `acc[k] ? [...acc[k], ele] : []` stores an empty list for the first record of a class, so every group loses its first record. A class seen once gets an empty group, on which `calculateMedian` throws | a dataset holding a single record of class 1 (`SingleRecordClassGetsEmptyGroup`) | `[...(acc[k] or []), ele]`: every record in the group of its class | not executed | Grouping.GroupByAlcohol, Grouping.SingleRecordClassGetsEmptyGroup, Aggregation.AsWrittenSummaryFailsIffClassSeenOnce | Grouping.GroupedIntended, Grouping.IntendedGroupingKeepsEveryRecord, Aggregation.IntendedSummaryNeverFails |
| src/App.js:10 | `num + "e+3"` appends to the decimal string of the number. For magnitudes below 1e-6 that string is already exponential ("1e-7"), so the result is NaN | 1e-7 (`TinyValueRoundsToNaN`) | rounding to three places: 1e-7 rounds to 0 | not executed | Records.RoundToThreeAsWritten, Records.TinyValueRoundsToNaN | Records.RoundToThree, Records.RoundToThreeIdempotent |
