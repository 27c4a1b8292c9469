# Interactive climate analysis, modelled in Dafny

`analise_climatica_interativa.py` reads a table of daily weather records
(date text, precipitation, maximum and minimum temperature, humidity, wind) and
answers questions about them. This project models the computing core of that
program and proves what it promises:

- `MESES`, the table of Portuguese month names (module `Months`);
- `parse_date`, which reads `dd/mm/yyyy` and falls back to `yyyy-mm-dd`, with
  no range check on the month or day (`Dates`, on top of `Text`, which holds
  `str.split`, `int` and `str` on integers, and `str.replace(x, "")`);
- the record selection of `visualizar_intervalo`: the month-range check, then
  the records whose `ano * 100 + mes` lies between the two bounds, inclusive
  (`RangeFilter`);
- `mes_mais_chuvoso`: precipitation summed into a dict keyed
  `f"{mes:02d}/{ano}"`, then `max(d, key=d.get)` (`Rainfall`, on top of the
  generic bucket summing in `Buckets`);
- `calcular_media_temp_min_mes`: for each year 2006 to 2016, the mean minimum
  temperature of the records of the chosen month, stored under
  `mes_nome + str(ano)`, with a warning for each year without data; and the
  overall mean that `main` takes of those yearly means (`MonthlyMeans`);
- the computing part of `plot_media_temp_min_texto`: the years read back from
  the keys, the sort by year, and the bar of `int(abs(media) * 5)` characters
  (`BarChart`).

Python dicts are modelled by `Dicts.Dict`, a map plus the list of its keys in
insertion order. That order is what `max` and the chart's loop iterate in.
Floating-point values are modelled as `real`. The loops of the source are
methods with loop invariants. Each method is proved equal to a function
(`Filtered`, `Grouped`, `MonthMeans`, `Extracted`, `Chart`), and the lemmas
state what those functions mean for the records.

## Model

| member | source | states |
|---|---|---|
| Months.MonthOf | analise_climatica_interativa.py:4-8 | a name has a month number exactly when it is in `MESES`, and that number lies between 1 and 12 |
| Months.NumberToNameToNumber | analise_climatica_interativa.py:4-8 | each month number 1 to 12 has a name in the table, and that name maps back to the number |
| Months.NameToNumberToName | analise_climatica_interativa.py:4-8 | each name in the table is the name of the month it maps to, so no two names share a number |
| Months.MonthNameStartsWithLetter | analise_climatica_interativa.py:4-8 | no month name is empty or starts with a digit or a minus sign |
| Text.SplitPieces | analise_climatica_interativa.py:16 | `str.split` with a one-character separator gives one piece more than the separator occurs, and no piece contains the separator |
| Text.SplitJoin | analise_climatica_interativa.py:16 | splitting pieces joined by a separator gives back the pieces, when no piece holds the separator |
| Text.JoinSplit | analise_climatica_interativa.py:16 | joining the pieces of a split gives back the text |
| Text.ParseInt | analise_climatica_interativa.py:16 | `int(s)` succeeds exactly on an optional sign followed by at least one digit, and only a leading `-` gives a negative value |
| Text.ParseDec | analise_climatica_interativa.py:136 | `int(str(n)) == n` for every integer `n` |
| Text.ParsePad2 | analise_climatica_interativa.py:136 | `int(f"{n:02d}") == n` for every integer `n` |
| Text.DecInjective | analise_climatica_interativa.py:163 | two integers have the same decimal text exactly when they are equal |
| Text.RemoveAllPrefix | analise_climatica_interativa.py:182 | `replace(pat, "")` deletes a leading `pat` and goes on with the rest of the text |
| Text.RemoveAllAbsent | analise_climatica_interativa.py:182 | `replace(pat, "")` leaves alone a text that does not contain the first character of `pat` |
| Dates.ParseDateSteps | analise_climatica_interativa.py:10-23 | `parse_date` returns the `dd/mm/yyyy` reading when there is one and otherwise the `yyyy-mm-dd` reading |
| Dates.SlashLayout | analise_climatica_interativa.py:15-17 | any `f"{d:02d}/{m:02d}/{y}"` text reads back as (y, m, d) |
| Dates.DashLayout | analise_climatica_interativa.py:18-21 | any `f"{y}-{m:02d}-{d:02d}"` text with non-negative numbers reads back as (y, m, d) |
| Dates.LayoutsAgree | analise_climatica_interativa.py:10-23 | the two layouts of the same calendar day read as the same (year, month, day) |
| Dates.AugustFirst2006 | analise_climatica_interativa.py:10-23 | "01/08/2006" and "2006-08-01" both read as 1 August 2006 |
| Dates.MonthThirteenAccepted | analise_climatica_interativa.py:16-17 | no range check is made: "31/13/2020" reads as day 31 of month 13 |
| Dates.ReadableDateHasTwoSeparators | analise_climatica_interativa.py:10-23 | a date only reads from a text with exactly two slashes or exactly two hyphens |
| Dates.LayoutsExclusive | analise_climatica_interativa.py:16-20 | no text splits into three integers at both separators, so the order in which the layouts are tried never changes the date read |
| Dates.ForeignCharacterFails | analise_climatica_interativa.py:22-23 | with `int` as modelled (sign and ASCII digits only), a text with a character that is neither a digit, a sign nor a separator raises `ValueError` |
| Dates.NoSeparatorFails | analise_climatica_interativa.py:22-23 | a text with neither separator raises `ValueError` |
| Dates.DashLayoutNonNegative | analise_climatica_interativa.py:18-21 | a date read from a text without slashes has no negative field, since a minus sign would split off an extra piece |
| RangeFilter.SelectInterval | analise_climatica_interativa.py:76-102 | a start or end month outside 1 to 12 gives the "Mês inválido!" answer; otherwise the loop keeps exactly `Filtered` over the keys `ano * 100 + mes` of the two bounds |
| RangeFilter.FilteredMembers | analise_climatica_interativa.py:95-102 | a record is selected exactly when it is an input record whose date reads and whose month key lies between the bounds |
| RangeFilter.FilteredIsSubsequence | analise_climatica_interativa.py:95-102 | the selection keeps the input order |
| RangeFilter.WideningKeepsSelection | analise_climatica_interativa.py:92-101 | widening the bounds never drops a record |
| RangeFilter.EmptyWhenStartAfterEnd | analise_climatica_interativa.py:101 | a start after the end selects nothing |
| RangeFilter.MonthKeyIsChronological | analise_climatica_interativa.py:92-93 | for months 1 to 12, `ano * 100 + mes` orders months as the calendar does and is one-to-one |
| RangeFilter.InRangeIsCalendarInterval | analise_climatica_interativa.py:100-101 | for months 1 to 12, the key test is the calendar interval test on (year, month), both ends included |
| Dicts.Dict.Put | analise_climatica_interativa.py:137 | `d[k] = v` maps `k` to `v`, keeps every other entry, and appends `k` to the key order only when it is new |
| Dicts.Dict.Values | analise_climatica_interativa.py:228 | `d.values()` lists one value per key, in key order |
| MonthlyMeans.YearLabelsDistinct | analise_climatica_interativa.py:163 | the eleven keys `f"{mes_nome}{ano}"` of the window are pairwise different, so no year overwrites another |
| Buckets.AddSum | analise_climatica_interativa.py:132-137 | one pass of the loop adds the entry's amount to the sum of the buckets, or nothing for a skipped entry |
| Buckets.GroupedTotals | analise_climatica_interativa.py:130-137 | a bucket exists exactly for the keys some entry falls in, and holds the sum of their amounts |
| Buckets.GroupedConserves | analise_climatica_interativa.py:130-137 | the buckets add up to the amounts of all entries that are not skipped |
| Buckets.PutSum | analise_climatica_interativa.py:137 | `d[k] = d.get(k, 0) + x` adds `x` to the sum of the values, for an old or a new key |
| Buckets.KeysInOrderOfFirstEntry | analise_climatica_interativa.py:137 | the dict lists its keys in the order of the first entry of each bucket |
| Rainfall.BucketKeyReadsBack | analise_climatica_interativa.py:136 | the key `f"{mes:02d}/{ano}"` splits into texts that read back as the month and the year |
| Rainfall.BucketKeyInjective | analise_climatica_interativa.py:136 | two months share a key only when they are the same month of the same year |
| Rainfall.AccumulatePrecipitation | analise_climatica_interativa.py:130-137 | the loop builds exactly `Grouped(Entries(records))` |
| Rainfall.BucketsAreTotals | analise_climatica_interativa.py:130-137 | a bucket exists exactly for the keys some readable record falls in, and holds their total precipitation |
| Rainfall.KeyTotalIsMonthTotal | analise_climatica_interativa.py:133-137 | the total under a key is the precipitation of the records dated in that calendar month |
| Rainfall.BucketOfMonth | analise_climatica_interativa.py:130-137 | the bucket of a month exists exactly when some record is dated in it, and holds those records' precipitation |
| Rainfall.TotalsConserved | analise_climatica_interativa.py:130-137 | the buckets add up to the precipitation of all readable records |
| Rainfall.KeysInOrderOfFirstRecord | analise_climatica_interativa.py:130-137 | the dict lists the keys in the order of their first records |
| Rainfall.NoBuckets | analise_climatica_interativa.py:139 | the dict is empty exactly when no record's date reads |
| Rainfall.MaxByValue | analise_climatica_interativa.py:140 | `max(d, key=d.get)` returns a key with the greatest value, and every key before it has a strictly smaller value |
| Rainfall.RainiestBeatsAll | analise_climatica_interativa.py:140 | the chosen bucket's total is at least that of every month met in the records |
| Rainfall.RainiestTieBreak | analise_climatica_interativa.py:140 | of two buckets with the same total, the chosen one had a record earlier in the data |
| Rainfall.RainiestMonth | analise_climatica_interativa.py:130-143 | "no data" exactly when no date reads; otherwise a month met in the data with its total, at least every other month's total, and first in the data among ties |
| MonthlyMeans.YearKeyInjective | analise_climatica_interativa.py:163 | for one month name, `f"{mes_nome}{ano}"` differs for different years |
| MonthlyMeans.MatchingRecords | analise_climatica_interativa.py:153-160 | the inner loop keeps exactly the records whose date reads with the year and month asked for, in order |
| MonthlyMeans.MatchingMembers | analise_climatica_interativa.py:155-160 | a record is kept exactly when it is an input record dated in that month of that year |
| MonthlyMeans.MatchingNonEmpty | analise_climatica_interativa.py:161 | `if registros` holds exactly when some record is dated in that month of that year |
| MonthlyMeans.MonthlyMinTempMeans | analise_climatica_interativa.py:151-167 | the function returns `MonthMeans` and warns about the years of `MonthWarnings` |
| MonthlyMeans.YearStep | analise_climatica_interativa.py:161-166 | one pass of the outer loop stores the mean under the year's key when the year has records, and otherwise adds a warning |
| MonthlyMeans.YearHasEntry | analise_climatica_interativa.py:151-167 | the dict has an entry for year `y` exactly when `y` lies in 2006 to 2016 and a record is dated in the month of `y` |
| MonthlyMeans.KeysAreYearKeys | analise_climatica_interativa.py:163-164 | every key of the dict is the key of a window year with data |
| MonthlyMeans.YearEntryValue | analise_climatica_interativa.py:162-164 | the entry of a year with data is the mean minimum temperature of its records |
| MonthlyMeans.YearMeanBetweenRecords | analise_climatica_interativa.py:162 | a year's mean lies between the least and the greatest minimum temperature of its records |
| MonthlyMeans.KeysInYearOrder | analise_climatica_interativa.py:152-164 | the dict lists the keys of the years with data in increasing year order |
| MonthlyMeans.YearsWithDataMembers | analise_climatica_interativa.py:152-161 | the years with data are exactly the window years with a record in the month, in increasing order |
| MonthlyMeans.WarningsAreMissingYears | analise_climatica_interativa.py:165-166 | a warning is given exactly for the window years without data, in increasing order |
| MonthlyMeans.WarningsComplementMeans | analise_climatica_interativa.py:161-166 | a window year gets a warning exactly when the dict has no entry for it |
| MonthlyMeans.MeansKeys | analise_climatica_interativa.py:152-164 | the keys of the dict after `n` years are the keys of those years with data, in order |
| MonthlyMeans.MeansEntry | analise_climatica_interativa.py:161-164 | the key of a year with data holds the mean of that year's list |
| MonthlyMeans.MeansEmpty | analise_climatica_interativa.py:152-164 | the dict is empty exactly when every year's list is empty |
| MonthlyMeans.MeansWithin | analise_climatica_interativa.py:162 | bounds on every temperature are bounds on every yearly mean |
| MonthlyMeans.MonthMeansEmpty | analise_climatica_interativa.py:151-166 | the dict is empty exactly when no year from 2006 to 2016 has a record dated in the month |
| MonthlyMeans.MonthMeansWithin | analise_climatica_interativa.py:161-164 | bounds on the records' minimum temperatures are bounds on every yearly mean |
| MonthlyMeans.OverallMean | analise_climatica_interativa.py:227-231 | there is an overall mean exactly when the dict is non-empty, and it lies between the least and the greatest yearly mean |
| MonthlyMeans.OverallMeanOfMonth | analise_climatica_interativa.py:227-231 | the overall mean exists exactly when some window year has data, and bounds on the records' minimum temperatures bound it |
| RealSeqs.MeanBetweenMinAndMax | analise_climatica_interativa.py:162 | `sum(s) / len(s)` lies between `min(s)` and `max(s)` |
| BarChart.YearKeyRoundTrip | analise_climatica_interativa.py:182 | deleting the month name from `mes_nome + str(ano)` and reading the rest with `int` gives back `ano` |
| BarChart.ExtractRows | analise_climatica_interativa.py:179-184 | the loop builds exactly `Extracted` of the dict's keys, in the dict's order |
| BarChart.ExtractedMembers | analise_climatica_interativa.py:180-184 | a row is kept exactly for a key whose rest reads as its year, with that key's value |
| BarChart.ExtractedAllYears | analise_climatica_interativa.py:180-184 | when every key reads back as a year, each key gives one row with its year and value, in order |
| BarChart.SortSorted | analise_climatica_interativa.py:191 | the sorted rows are in year order |
| BarChart.SortPermutes | analise_climatica_interativa.py:191 | sorting neither loses nor adds a row |
| BarChart.SortStable | analise_climatica_interativa.py:191 | the sort is stable: the rows of one year keep their order |
| BarChart.SortKeepsSorted | analise_climatica_interativa.py:191 | rows already in year order are left as they are |
| BarChart.BarLength | analise_climatica_interativa.py:195-199 | `int(abs(media) * 5)` is the whole part of five times the magnitude |
| BarChart.Bar | analise_climatica_interativa.py:199-200 | the bar has `BarLength` characters, all `*` when the mean is not negative and all `-` otherwise |
| BarChart.EmptyBar | analise_climatica_interativa.py:199-200 | the bar is empty exactly when the mean lies strictly between -0.2 and 0.2, so a zero mean has no bar |
| BarChart.BarMonotone | analise_climatica_interativa.py:199 | a mean of greater magnitude never gets a shorter bar |
| BarChart.NegativeBar | analise_climatica_interativa.py:199-200 | a negative mean gets the bar of its magnitude drawn with `-` |
| BarChart.PlotChart | analise_climatica_interativa.py:178-201 | the function prints `Chart`: nothing when no row was read back, else one line per row after the sort |
| BarChart.ChartRows | analise_climatica_interativa.py:186-201 | any chart lists the rows read back from the keys, in year order, each with the bar of its own mean; rows of one year keep the dict's order |
| BarChart.MonthRowsIncrease | analise_climatica_interativa.py:179-184 | the rows read back from the yearly means come in strictly increasing year order, so the sort has nothing to reorder |
| BarChart.MonthChartShape | analise_climatica_interativa.py:178-201 | the chart meant for a month is absent exactly when no window year has data, and its years strictly increase |
| BarChart.RowsOfMonthMeans | analise_climatica_interativa.py:179-184 | the rows read back from the yearly means are the years with data and their means, in increasing year order |
| BarChart.ChartOfMonthMeans | analise_climatica_interativa.py:178-201 | the chart drawn from the yearly means of a month in `MESES` is the chart meant for that month |

## Left out

- `carregar_dados` (file reading and CSV conversion): the records are a given sequence of `Records.Record` values.
- All `input()` prompting, the choice of columns in `visualizar_intervalo`, and all `print` formatting (`:.2f`, `°C`, table headers, `capitalize()`). Printed answers become return values: `None` for the "no data" and "Mês inválido!" messages, the list of warned years, and `BarChart.ChartLine` for each chart line.
- The `try`/`except ValueError` around the four `int(input(...))` calls: `RangeFilter.SelectInterval` takes the four integers.
- The `strip().lower()` of the month name typed by the user, and the `main` orchestration; the unused `os` import.
- Floating-point rounding and special values: measurements, sums and means are `real`, so IEEE rounding is not modelled, nor the `nan` and `inf` that `float()` accepts when loading; with those, `max(..., key=d.get)` no longer picks a greatest total and `int(abs(media) * 5)` raises an error the program does not catch.
- Text.ParseInt: accepts an optional sign and then ASCII digits only; Python's `int` also accepts surrounding whitespace, `_` between digits and non-ASCII digits.
- Dates.ForeignCharacterFails: holds for the modelled `int` only; since Python's `int` strips blanks and accepts `_` between digits, `parse_date(" 01/08/2006")` and `parse_date("01/08/2_006")` succeed in the program.
- BarChart.SortByYear: `list.sort` sorts `dados_plot` in place; the model sorts a value with a stable insertion sort, and proves the result sorted, a permutation and stable, which is what `list.sort` with a key promises.
