# hk: a verified model of the gauge store, the sparkline, the hourly table and the hub parser

hk is a home sensor service. It reads temperature and humidity, publishes them to HomeKit, keeps them in memory, and shows them on a small web page. This project models four sequential pieces of it in Dafny and proves what they compute.

- **The in-memory gauge store** (`metrics.dfy`, module `Metrics`). The class `InMem` holds a map from metric key to its series of samples.
  - `Collect` is the collector's handling of one message: it appends the sample.
  - `Clean` is one sweep of the cleaner: it prunes every series against the retention cutoff.
  - `Avg` is the hourly trimmed average. It:
    - keeps the samples strictly inside the window (now - dur, now);
    - groups them by the hour they fall in;
    - trims each hour's readings (`Normalize`, an in-place insertion sort followed by dropping the two smallest and three largest);
    - averages what is left;
    - returns the hours oldest first.
  - Readings are reals, and instants are whole seconds.
  - A mean of no readings is Go's 0/0, modelled as the `NaN` of `float64.dfy`.
- **The Braille-pattern sparkline** (`plot.dfy`, module `Plot`):
  - the 5 x 5 glyph table, and what each glyph shows;
  - `Pairs`, which chunks readings into two-reading columns;
  - `MinMax`, with its unusual starting maximum;
  - `Render`, which fills a `size` x columns grid of glyphs in place and joins its rows;
  - the framing done by `SimplePlot`.
- **The hourly table** (`table.dfy`, module `Table`). `RenderHourlyAvgTable`:
  - merges the temperature and humidity averages by hour stamp;
  - sorts the stamps as `sort.Strings` does;
  - emits one row per stamp, with the trend mark against the row above.
- **The uhubctl output parser** (`hub.dfy`, module `Hub`).
  - `DetectHubLocation` scans the matches of `Current status for hub ([0-9-]+)`.
  - It returns the first hub whose line has `ppps`, else the first hub found.
  - It returns an error when no hub is listed.

The code and its comments disagree in two places. The model follows the code:
- `normalize` removes the two smallest and the THREE largest readings (internal/metrics/inmem.go:162-168). Its comment says two and two.
- `Avg` returns the hours oldest first (internal/metrics/inmem.go:154-157). Its comment says newest first.

## Model

| member | source | states |
|---|---|---|
| Metrics.Truncate | internal/metrics/inmem.go:140 | the hour of an instant is a whole multiple of 3600 s at or before it and less than an hour before it |
| Metrics.TruncateUnique | internal/metrics/inmem.go:140 | that hour start is the only whole hour within the hour before the instant |
| Metrics.KeptMembers | internal/metrics/inmem.go:213-221 | the cleaner keeps a sample exactly when its time is strictly after the cutoff |
| Metrics.Kept | internal/metrics/inmem.go:216-221 | the filtered series of the cleaner is never longer than the series it replaces |
| Metrics.KeptConcat | internal/metrics/inmem.go:216-221 | pruning keeps the surviving samples in their original order (it distributes over concatenation) |
| Metrics.KeptIdempotent | internal/metrics/inmem.go:213-224 | a second sweep with the same cutoff removes nothing more |
| Metrics.WindowMembers | internal/metrics/inmem.go:124-131 | a sample is in Avg's window exactly when start < t < end; both bounds are exclusive |
| Metrics.Window | internal/metrics/inmem.go:124-131 | Avg's window of a series is never longer than the series |
| Metrics.HoursMembers | internal/metrics/inmem.go:138-142 | an hour gets a bucket exactly when some window sample truncates to it |
| Metrics.Bucket | internal/metrics/inmem.go:138-142 | an hour's bucket is non-empty exactly when the hour is present, and empty otherwise |
| Metrics.Mean | internal/metrics/inmem.go:147-151 | sum / len is NaN exactly for an empty slice |
| Metrics.SumPermutation | internal/metrics/inmem.go:147-150 | the sum of a bucket does not depend on the order of its readings |
| Metrics.MeanBounds | internal/metrics/inmem.go:147-151 | a mean lies between any lower and upper bound of its readings |
| Metrics.SortSeq | internal/metrics/inmem.go:167 | sort.Float64s yields a sorted permutation of its input |
| Metrics.SortedPermutationUnique | internal/metrics/inmem.go:167 | two sorted permutations of the same readings are equal, so any correct sort gives SortSeq |
| Metrics.NormalizedTrim | internal/metrics/inmem.go:162-168 | for five or more readings, normalize keeps n - 5 of them: two readings no greater than any kept one go below, three no smaller go above |
| Metrics.Normalized | internal/metrics/inmem.go:163-169 | normalize returns all n readings when there are fewer than five, and n - 5 of them otherwise |
| Metrics.FiveTrimToNaN | internal/metrics/inmem.go:151-168 | a bucket of exactly five readings trims to nothing, so its mean is 0/0 |
| Metrics.TrimmedMeanIgnoresOrder | internal/metrics/inmem.go:146-151 | an hour's trimmed mean depends only on the multiset of its readings |
| Metrics.Normalize | internal/metrics/inmem.go:163-169 | in place: fewer than five readings are left unchanged and fully kept; otherwise the array is sorted and the kept range is [2, n - 3) |
| Metrics.SortInPlace | internal/metrics/inmem.go:167 | the array ends sorted and is a permutation of what it held |
| Metrics.BucketPermutation | internal/metrics/inmem.go:134-142 | reordering the window's samples only reorders each hour's bucket |
| Metrics.WindowOrderIrrelevant | internal/metrics/inmem.go:134-136 | the hourly average of a window is the hourly average of any reordering of it, so the sort of the window by time changes nothing |
| Metrics.HourlyAverageLength | internal/metrics/inmem.go:138-152 | Avg returns exactly one entry per distinct hour in the window |
| Metrics.IsHourlyAverage | internal/metrics/inmem.go:138-157 | the definition of Avg's result: rows in ascending hour order, one per hour of the window, each holding the trimmed mean of its hour's readings |
| Metrics.HourlyAverageUnique | internal/metrics/inmem.go:144-157 | ascending order, one entry per present hour and trimmed means admit only one output |
| Metrics.EmptyWindowNoHours | internal/metrics/inmem.go:144 | a present key with nothing in the window averages to the empty sequence |
| Metrics.SortByTime | internal/metrics/inmem.go:155-157 | the averages, whose hours differ, come out strictly ascending by hour, same entries, same count |
| Metrics.PruneSeries | internal/metrics/inmem.go:216-221 | the inner loop of the cleaner accumulates exactly the kept samples |
| Metrics.WindowOf | internal/metrics/inmem.go:124-131 | the first loop of Avg accumulates exactly the window |
| Metrics.GroupByHour | internal/metrics/inmem.go:138-142 | the grouping map has the window's hours as keys, each holding its hour's readings in window order |
| Metrics.TrimmedMean | internal/metrics/inmem.go:146-151 | normalize, sum and divide give the mean of the trimmed bucket (NaN when trimming left nothing) |
| Metrics.SumOf | internal/metrics/inmem.go:147-150 | the summing loop computes the sum |
| Metrics.MeansByHour | internal/metrics/inmem.go:144-152 | one entry per map key, each the trimmed mean of its bucket, no hour twice |
| Metrics.SortedMeansAreHourlyAverage | internal/metrics/inmem.go:144-157 | sorting the per-hour means by hour yields the window's hourly average |
| Metrics.InMem.constructor | internal/metrics/inmem.go:62-67 | a new store has an empty timeline |
| Metrics.InMem.Collect | internal/metrics/inmem.go:191 | the key's series gets the sample appended (an absent key starts from the empty series); every other key is unchanged |
| Metrics.InMem.Clean | internal/metrics/inmem.go:196-227 | retention 0 never prunes; otherwise the key set is unchanged, every series keeps exactly its samples after now - retention in order, and totalVs - totalNewVs is the number of samples removed |
| Metrics.InMem.Sweep | internal/metrics/inmem.go:215-227 | every series is replaced by its samples strictly after the cutoff, keys unchanged, and totalVs - totalNewVs equals the drop in the total number of samples |
| Metrics.InMem.Avg | internal/metrics/inmem.go:114-160 | None (nil) exactly for an absent key; otherwise the hourly average of the window (now - dur, now): ascending, one entry per present hour, each the trimmed mean of its bucket |
| Plot.Glyph | utils/bp/plot.go:23-61 | bps[a][b] is the Braille cell (U+2800..U+28FF) with the lowest a dots of its left column and the lowest b dots of its right column raised |
| Plot.GlyphInjective | utils/bp/plot.go:55-61 | different fills give different glyphs |
| Plot.GlyphNotNewline | utils/bp/plot.go:55-61 | no glyph is a newline, so the rendered grid has exactly `size` lines |
| Plot.Level | utils/bp/plot.go:109-112 | every clamped fill is a valid index 0..4 into the glyph table |
| Plot.LevelMonotone | utils/bp/plot.go:109-112 | within a column the fill never grows from the bottom row up, and a cell above a partly filled one is empty |
| Plot.ColumnDotsClamped | utils/bp/plot.go:108-114 | a column of `size` cells shows its height in dots, clamped to [0, 4 * size] |
| Plot.LinesLength | utils/bp/plot.go:103-120 | the first k rows of the grid take k * (columns + 1) characters |
| Plot.LinesAt | utils/bp/plot.go:108-120 | row r, column c of the grid is the glyph for (clamp(fst - 4i, 0, 4), clamp(snd - 4i, 0, 4)) with i = size - 1 - r, and each row ends in a newline |
| Plot.Cell | utils/bp/plot.go:108-113 | every cell of the grid is a braille glyph (U+2800 to U+28FF), never a newline |
| Plot.Grid | utils/bp/plot.go:102-123 | the rendered grid has size lines of one glyph per pair plus a newline |
| Plot.Render | utils/bp/plot.go:102-123 | the string built from the filled grid is exactly Grid(size, ps) |
| Plot.FillColumn | utils/bp/plot.go:108-115 | the inner loop, walking up from the bottom row while taking four dots off per row, fills column c with its cells and leaves the other columns alone |
| Plot.JoinRow | utils/bp/plot.go:118-120 | joining a row of the grid gives its glyphs followed by a newline |
| Plot.Pairs | utils/bp/plot.go:133-143 | pairs never returns an empty list (the empty input gives one empty chunk) |
| Plot.PairsChunks | utils/bp/plot.go:133-143 | for non-empty input: ceil(n / 2) chunks of exactly two readings that together give back the input, followed by a single 0 when n is odd |
| Plot.MinFrom | utils/bp/plot.go:145-158 | the minimum is at most MaxFloat64 and at most every reading, and is MaxFloat64 or a reading |
| Plot.MaxFrom | utils/bp/plot.go:145-158 | the maximum is at least SmallestNonzeroFloat64 and at least every reading, and is that start or a reading |
| Plot.MinIsReading | utils/bp/plot.go:146-151 | for finite double data the minimum is one of the readings |
| Plot.NonPositiveMaxIsStart | utils/bp/plot.go:147-154 | with no positive reading the maximum is SmallestNonzeroFloat64, which is not a reading |
| Plot.MinMax | utils/bp/plot.go:145-158 | the loop returns MinFrom and MaxFrom of the data |
| Plot.SimplePlot | utils/bp/plot.go:63-100 | no data gives ""; otherwise the formatted maximum, a newline, the rendered grid and the formatted minimum |
| Table.LexIrreflexive | srv/srv.go:198 | no stamp sorts before itself |
| Table.LexLess | srv/srv.go:198 | the order sort.Strings puts the stamps in: character by character, a proper prefix first |
| Table.LexTransitive | srv/srv.go:198 | the sort.Strings order is transitive |
| Table.LexTotal | srv/srv.go:198 | any two different stamps are ordered one way or the other |
| Table.LastOrAbsent | srv/srv.go:174-192 | a slot with no reading for its stamp stays 0 |
| Table.LastOr | srv/srv.go:174-192 | a merged slot is 0 or the value of a reading carrying that stamp |
| Table.MergeReadings | srv/srv.go:174-192 | every stamp of either list gets an entry; slot 0 holds the last temperature with that stamp and slot 1 the last humidity, 0 when missing |
| Table.SortedKeys | srv/srv.go:194-198 | the keys come out strictly in sort.Strings order, each merge key exactly once |
| Table.InsertKey | srv/srv.go:198 | a new key inserted into sorted keys keeps them strictly sorted and adds exactly that key |
| Table.TrendOf | srv/srv.go:211-217 | "^" exactly when T is greater than the previous T and "v" exactly when it is less, as Go compares float64 (NaN compares false) |
| Table.TrendSelf | srv/srv.go:203-217 | a temperature compared with itself is "~", NaN included, so the first row is always "~" |
| Table.BuildRows | srv/srv.go:203-221 | one row per sorted key with its merged slots and current-hour mark; the first mark is "~" and each later mark compares with the row above |
| Table.KeysPresent | srv/srv.go:194-203 | with any reading at all there is a first key to index |
| Table.TableRows | srv/srv.go:194-221 | the rows built from the merge and the sorted keys form the table body |
| Table.RenderHourlyAvgTable | srv/srv.go:168-225 | for non-empty input: three heading lines, one row per distinct stamp in sort.Strings order with merged slots, trend marks and " <--" only on the current hour, then a closing border |
| Hub.IndexFrom | internal/light/garland_linux_arm64.go:69-70 | strings.Index returns the first position where the text occurs, or -1 exactly when it occurs nowhere |
| Hub.ContainsOccurs | internal/light/garland_linux_arm64.go:76 | strings.Contains holds exactly when the text occurs somewhere |
| Hub.LineFrom | internal/light/garland_linux_arm64.go:69-74 | the examined line runs from its start to just before the next newline, or to the end of the output |
| Hub.Run | internal/light/garland_linux_arm64.go:56 | the greedy group consumes the longest run of location characters |
| Hub.MatchFoundWellFormed | internal/light/garland_linux_arm64.go:56-57 | a match found at a position is the prefix plus a non-empty, maximal location found there |
| Hub.MatchesWellFormed | internal/light/garland_linux_arm64.go:56-57 | every match is the prefix followed by a non-empty location of digits and '-' that no further location character follows |
| Hub.MatchesInOrder | internal/light/garland_linux_arm64.go:57-65 | matches come in output order and do not overlap |
| Hub.NoMatchesIff | internal/light/garland_linux_arm64.go:56-61 | there are no matches exactly when the prefix followed by a location character occurs nowhere |
| Hub.MatchesFrom | internal/light/garland_linux_arm64.go:56-57 | the first match found from i starts at or after i at a position where the pattern matches |
| Hub.Matches | internal/light/garland_linux_arm64.go:56-57 | the match list is empty exactly when the pattern matches nowhere in the output |
| Hub.MatchesComplete | internal/light/garland_linux_arm64.go:56-57 | every position where the pattern matches, outside an earlier match, starts a match of the list |
| Hub.FirstIsLeftmost | internal/light/garland_linux_arm64.go:56-57 | the first match is the leftmost position where the pattern matches, so the fallback hub is the first one listed |
| Hub.FirstPpps | internal/light/garland_linux_arm64.go:65-81 | a location found by the loop is the location of one of the matches |
| Hub.WrittenLine | internal/light/garland_linux_arm64.go:69-74 | the examined line starts at the first occurrence of the matched text, holds no newline, and stops at a newline or the end of the output |
| Hub.FirstPppsIsFirst | internal/light/garland_linux_arm64.go:65-81 | the loop finds nothing exactly when no examined line has "ppps"; otherwise it returns the first match in order whose line has it |
| Hub.DetectHubLocation | internal/light/garland_linux_arm64.go:56-90 | the parsing half of detectHubLocation computes HubLocation of the output |
| Hub.HubLocation | internal/light/garland_linux_arm64.go:56-90 | detectHubLocation's result: an error exactly when nothing matches, otherwise the location of one of the matches |
| Hub.LineOf | internal/light/garland_linux_arm64.go:69-74 | the examined line runs from the first occurrence of the match's text to the next newline, or to the end of the output when none follows |
| Hub.HubLocationError | internal/light/garland_linux_arm64.go:56-61 | the result is an error exactly when no "Current status for hub " plus a digit or '-' occurs, and the error is "no USB hubs found in uhubctl output" |
| Hub.HubLocationWellFormed | internal/light/garland_linux_arm64.go:56-88 | a returned location belongs to a match, so it is non-empty and has only digits and '-' |
| Hub.HubLocationChoice | internal/light/garland_linux_arm64.go:65-88 | when some examined line has "ppps" the result is the first such match's location; otherwise it is the first match's location |
| Hub.NoDevicesError | internal/light/garland_linux_arm64_test.go:55-60 | "No compatible devices found" yields the no-hubs error |
| Hub.NestedLocationAsWritten | internal/light/garland_linux_arm64.go:56 | for "Current status for hub 1-1.2 [ppps]" the parser as written returns "1-1" |
| Hub.SharedPrefixAsWritten | internal/light/garland_linux_arm64.go:69-74 | for hub "1-1" (ganged) listed before hub "1" (ppps) the parser as written returns "1-1" |
| Hub.FirstOwnPpps | internal/light/garland_linux_arm64.go:65-81 | the intended loop returns a match whose own line has "ppps", and none exactly when no hub's own line has it |
| Hub.IntendedHubLocation | internal/light/garland_linux_arm64.go:56-90 | the corrected parser: an error exactly when no hub is listed, otherwise the location of one of the listed hubs |
| Hub.IntendedHubLocationError | internal/light/garland_linux_arm64.go:56-61 | the intended parser fails exactly when no hub is listed |
| Hub.IntendedHubLocationWellFormed | internal/light/garland_linux_arm64.go:56 | the intended parser returns the whole location of a listed hub: digits, '-' and '.' |
| Hub.IntendedHubLocationOwnLine | internal/light/garland_linux_arm64.go:65-80 | whenever some hub's own line has "ppps", the intended parser picks a hub whose own line has it |
| Hub.NestedLocationIntended | internal/light/garland_linux_arm64_test.go:61-67 | the intended parser returns "1-1.2" for the nested hub |
| Hub.SharedPrefixIntended | internal/light/garland_linux_arm64.go:68-76 | the intended parser returns "1" when hub "1"'s own line has "ppps" |

## Left out

- Concurrency: the per-call goroutine of `Gauge`, the channel, the RWMutex, the collector's `range` loop, the sleep loops of the cleaner and the autosaver, and the closing of the channel. The collector and cleaner bodies are modelled as atomic steps, because the order in which goroutines deliver samples is not determined by the code.
- `Dump` and `Restore`. They are a gob encoding plus file I/O, with nothing of this code's own to prove.
- Time:
  - instants are whole seconds; sub-second precision, monotonic readings and time zones are not modelled;
  - the hour is `t - t % 3600`, which is Go's `Truncate(time.Hour)` for instants counted from the Unix epoch.
- Metrics.InMem.Avg: the two readings of the clock that give the window's start and end are taken as one `now` parameter.
- Metrics.InMem.Avg: the sort of the window by time is not performed. Metrics.WindowOrderIrrelevant shows that the result does not depend on it.
- Metrics.InMem.Clean: the sweep is a method called with `now`. The sleep between sweeps and the debug log of the removed count are not modelled.
- Floating point:
  - readings are reals, so rounding in sums and divisions is not modelled;
  - NaN appears only as the 0/0 mean of an empty trimmed bucket;
  - infinities are not modelled.
- `Plot.MinMax`, `Plot.Pairs` and `Plot.SimplePlot` take real data, so NaN readings in the plotted data are not modelled.
- Plot.SimplePlot: the readings are a value, so the model does not show that `pairs` returns chunks sharing the backing array of `data` (utils/bp/plot.go:139, utils/bp/plot.go:142), through which the shift, scaling and rounding (utils/bp/plot.go:80-93, utils/bp/plot.go:125-131) overwrite the caller's slice with dot counts for every even length and for an odd length with spare capacity. `size` is a `nat`, so the panic of `make` for a negative size (utils/bp/plot.go:103) is not modelled.
- Plot.SimplePlot: the floating-point steps are the parameter `quantize`. These are the shift, the scaling (utils/bp/plot.go:69-93), the rounding in `dots` (utils/bp/plot.go:125-131) and the `int` conversion in `render` (utils/bp/plot.go:109). `%.2f` is the parameter `format`. The debug logging is dropped.
- Table.RenderHourlyAvgTable:
  - the text layout is not modelled: the `%-4s`, `%12.2f` and `%14.2f` formatting and the border and heading text. Lines are structured values;
  - hour stamps are given as strings, and `Time.String` is not modelled;
  - the current hour's stamp is one parameter, where the source reads the clock once per row.
- Table.RenderHourlyAvgTable requires at least one reading. With both lists empty the source indexes the first of no keys and panics.
- Hub.DetectHubLocation:
  - running `sudo uhubctl`, its error path and the logging are not modelled. The function starts from the command output;
  - the `len(match) > 1` checks always hold for a pattern with one group, so the final "no suitable USB hub found" error cannot be reached and is not modelled;
  - it models the parser as written. `Hub.IntendedHubLocation` beside it is the corrected parser from the findings below; nothing else in the model consumes a hub location.
- The regexp engine matches over characters here and over UTF-8 bytes in Go. Every character the pattern inspects is ASCII, so the matches found are the same.
- The rest of srv/srv.go (the servers, sensor polling, pushes to HomeKit), HomeKit wrappers, sensor drivers, notifiers, command-line wiring and the logger are not part of this model.

## Findings

| source | as written | input that shows it | evidently intended | confidence | as-written member | corrected member |
|---|---|---|---|---|---|---|
| internal/light/garland_linux_arm64.go:56 | the location group `[0-9-]+` stops at '.', so a nested hub's location is cut back to its parent's | "Current status for hub 1-1.2 [ppps]" gives "1-1" | the whole location "1-1.2", as the nested case at internal/light/garland_linux_arm64_test.go:61-67 documents | not executed; uhubctl writes nested ports with '.' | Hub.NestedLocationAsWritten | Hub.NestedLocationIntended |
| internal/light/garland_linux_arm64.go:69-74 | a match's line is found by the first occurrence of its matched text, so hub "1" listed after hub "1-1" is judged by hub "1-1"'s line | "Current status for hub 1-1 [ganged]\nCurrent status for hub 1 [ppps]" gives "1-1" | each hub judged by its own line, which picks "1" | not executed; needs a hub whose location extends an earlier-listed one | Hub.SharedPrefixAsWritten | Hub.SharedPrefixIntended |
