/**
 * `plot_media_temp_min_texto`: the lines of the text bar chart of the yearly
 * means. The year is read back from each key of the dict by deleting the month
 * name, the rows are sorted by year, and each mean gets a bar of
 * `int(abs(media) * 5)` characters, `*` for a mean that is not negative and `-`
 * for a negative one.
 */
module BarChart {
  import opened Wrappers
  import opened Text
  import opened Dates
  import opened Records
  import opened Dicts
  import opened Months
  import opened MonthlyMeans

  /** One entry of `dados_plot`: a year and its mean. */
  type Row = (int, real)

  // ---------------------------------------------------------------------------
  // Reading the years back from the keys (lines 179-184)
  // ---------------------------------------------------------------------------

  /** `int(chave.replace(mes_nome, ""))`, with `None` where `int` raises. */
  function YearOfKey(key: string, name: string): Option<int>
  {
    ParseInt(RemoveAll(key, name))
  }

  /**
   * Deleting the month name from the key `mes_nome + str(ano)` gives back the
   * year, as long as the name starts with neither a digit nor a minus sign.
   */
  lemma {:induction false} YearKeyRoundTrip(name: string, y: int)
    requires |name| > 0 && !IsDigit(name[0]) && name[0] != '-'
    ensures YearOfKey(YearKey(name, y), name) == Some(y)
  {
    RemoveAllPrefix(name, Dec(y));
    DecWithout(y, name[0]);
    RemoveAllAbsent(Dec(y), name);
    ParseDec(y);
  }

  /** `dados_plot` once the loop has seen the keys `keys`: a row per key whose remainder reads as an integer, in order. */
  function Extracted(keys: seq<string>, items: map<string, real>, name: string): seq<Row>
    requires forall i :: 0 <= i < |keys| ==> keys[i] in items
  {
    if |keys| == 0 then []
    else
      var key := keys[|keys| - 1];
      Extracted(keys[..|keys| - 1], items, name) +
        match YearOfKey(key, name)
        case None => []
        case Some(y) => [(y, items[key])]
  }

  /** Lines 179-184: the rows read back from `media_dict`, in the dict's order. */
  method ExtractRows(means: Dict<string, real>, name: string) returns (rows: seq<Row>)
    requires means.Valid()
    ensures rows == Extracted(means.keys, means.items, name)
  {
    rows := [];
    for i := 0 to |means.keys|
      invariant rows == Extracted(means.keys[..i], means.items, name)
    {
      assert means.keys[..i + 1][..i] == means.keys[..i];
      var key := means.keys[i];
      var mean := means.items[key];
      match YearOfKey(key, name) {
        case None =>
        case Some(y) =>
          rows := rows + [(y, mean)];
      }
    }
    assert means.keys[..|means.keys|] == means.keys;
  }

  /** A row is kept exactly for a key whose remainder reads as its year, and it carries that key's value. */
  lemma {:induction false} ExtractedMembers(keys: seq<string>, items: map<string, real>, name: string, row: Row)
    requires forall i :: 0 <= i < |keys| ==> keys[i] in items
    ensures row in Extracted(keys, items, name) <==>
      exists i :: 0 <= i < |keys| && YearOfKey(keys[i], name) == Some(row.0) && items[keys[i]] == row.1
  {
    if |keys| > 0 {
      var front := keys[..|keys| - 1];
      ExtractedMembers(front, items, name, row);
      if exists i :: 0 <= i < |front| && YearOfKey(front[i], name) == Some(row.0) && items[front[i]] == row.1 {
        var i :| 0 <= i < |front| && YearOfKey(front[i], name) == Some(row.0) && items[front[i]] == row.1;
        assert keys[i] == front[i];
      }
      if exists i :: 0 <= i < |keys| && YearOfKey(keys[i], name) == Some(row.0) && items[keys[i]] == row.1 {
        var i :| 0 <= i < |keys| && YearOfKey(keys[i], name) == Some(row.0) && items[keys[i]] == row.1;
        if i < |front| {
          assert front[i] == keys[i];
        }
      }
    }
  }

  /** When every key reads back as a year, each key gives one row: that year and the key's value, in the keys' order. */
  lemma {:induction false} ExtractedAllYears(keys: seq<string>, items: map<string, real>, name: string, years: seq<int>)
    requires forall i :: 0 <= i < |keys| ==> keys[i] in items
    requires |keys| == |years|
    requires forall i :: 0 <= i < |keys| ==> YearOfKey(keys[i], name) == Some(years[i])
    ensures |Extracted(keys, items, name)| == |years|
    ensures forall i :: 0 <= i < |years| ==> Extracted(keys, items, name)[i] == (years[i], items[keys[i]])
  {
    if |keys| > 0 {
      var n := |keys| - 1;
      var front := Extracted(keys[..n], items, name);
      assert forall i :: 0 <= i < n ==> YearOfKey(keys[..n][i], name) == Some(years[..n][i]);
      ExtractedAllYears(keys[..n], items, name, years[..n]);
      var rows := front + [(years[n], items[keys[n]])];
      assert Extracted(keys, items, name) == rows;
      forall i | 0 <= i < |years| ensures rows[i] == (years[i], items[keys[i]]) {
        if i < n {
          assert rows[i] == front[i] == (years[..n][i], items[keys[..n][i]]);
        }
      }
    }
  }

  // ---------------------------------------------------------------------------
  // Sorting by year (line 191)
  // ---------------------------------------------------------------------------

  /** The rows are in non-decreasing year order. */
  ghost predicate SortedByYear(rows: seq<Row>)
  {
    forall i, j :: 0 <= i < j < |rows| ==> rows[i].0 <= rows[j].0
  }

  /** The rows of year `y`, in their order in `rows`. */
  function OfYear(rows: seq<Row>, y: int): seq<Row>
  {
    if |rows| == 0 then []
    else OfYear(rows[..|rows| - 1], y) + (if rows[|rows| - 1].0 == y then [rows[|rows| - 1]] else [])
  }

  /** `r` put into sorted rows after every row whose year is not later than its own. */
  function Insert(r: Row, sorted: seq<Row>): (t: seq<Row>)
    ensures |t| == |sorted| + 1
  {
    if |sorted| == 0 || sorted[|sorted| - 1].0 <= r.0 then sorted + [r]
    else Insert(r, sorted[..|sorted| - 1]) + [sorted[|sorted| - 1]]
  }

  /** `dados_plot.sort(key=lambda x: x[0])`: a stable sort by year. */
  function SortByYear(rows: seq<Row>): (sorted: seq<Row>)
    ensures |sorted| == |rows|
  {
    if |rows| == 0 then [] else Insert(rows[|rows| - 1], SortByYear(rows[..|rows| - 1]))
  }

  lemma {:induction false} InsertSorted(r: Row, sorted: seq<Row>)
    requires SortedByYear(sorted)
    ensures SortedByYear(Insert(r, sorted))
    ensures forall i :: 0 <= i < |Insert(r, sorted)| ==>
      Insert(r, sorted)[i] == r || exists j :: 0 <= j < |sorted| && Insert(r, sorted)[i] == sorted[j]
  {
    if |sorted| > 0 && sorted[|sorted| - 1].0 > r.0 {
      var front := sorted[..|sorted| - 1];
      var last := sorted[|sorted| - 1];
      InsertSorted(r, front);
      var t := Insert(r, front);
      forall i | 0 <= i < |t| ensures t[i].0 <= last.0 {
        if t[i] != r {
          var j :| 0 <= j < |front| && t[i] == front[j];
          assert front[j] == sorted[j];
        }
      }
      forall i | 0 <= i < |t| + 1 && (t + [last])[i] != r
        ensures exists j :: 0 <= j < |sorted| && (t + [last])[i] == sorted[j]
      {
        if i < |t| {
          var j :| 0 <= j < |front| && t[i] == front[j];
          assert front[j] == sorted[j];
        } else {
          assert (t + [last])[i] == sorted[|sorted| - 1];
        }
      }
    } else {
      forall i | 0 <= i < |sorted| ensures (sorted + [r])[i] == sorted[i] {
      }
    }
  }

  /** Inserting adds `r` and keeps every row. */
  lemma {:induction false} InsertPermutes(r: Row, sorted: seq<Row>)
    ensures multiset(Insert(r, sorted)) == multiset(sorted) + multiset{r}
  {
    if |sorted| > 0 && sorted[|sorted| - 1].0 > r.0 {
      var front := sorted[..|sorted| - 1];
      InsertPermutes(r, front);
      assert sorted == front + [sorted[|sorted| - 1]];
    }
  }

  /** Inserting `r` puts it after every row of its own year. */
  lemma {:induction false} InsertOfYear(r: Row, sorted: seq<Row>, y: int)
    ensures OfYear(Insert(r, sorted), y) == OfYear(sorted, y) + (if r.0 == y then [r] else [])
  {
    if |sorted| > 0 && sorted[|sorted| - 1].0 > r.0 {
      var front := sorted[..|sorted| - 1];
      var last := sorted[|sorted| - 1];
      var t := Insert(r, front);
      InsertOfYear(r, front, y);
      assert (t + [last])[..|t|] == t;
      assert OfYear(t + [last], y) == OfYear(t, y) + (if last.0 == y then [last] else []);
    } else {
      assert (sorted + [r])[..|sorted|] == sorted;
    }
  }

  /** Inserting into sorted rows that all come no later than `r` appends it. */
  lemma {:induction false} InsertAtEnd(r: Row, sorted: seq<Row>)
    requires forall i :: 0 <= i < |sorted| ==> sorted[i].0 <= r.0
    ensures Insert(r, sorted) == sorted + [r]
  {
  }

  /** The sorted rows are in year order. */
  lemma {:induction false} SortSorted(rows: seq<Row>)
    ensures SortedByYear(SortByYear(rows))
  {
    if |rows| > 0 {
      SortSorted(rows[..|rows| - 1]);
      InsertSorted(rows[|rows| - 1], SortByYear(rows[..|rows| - 1]));
    }
  }

  /** Sorting loses and adds no row. */
  lemma {:induction false} SortPermutes(rows: seq<Row>)
    ensures multiset(SortByYear(rows)) == multiset(rows)
  {
    if |rows| > 0 {
      var front := rows[..|rows| - 1];
      SortPermutes(front);
      InsertPermutes(rows[|rows| - 1], SortByYear(front));
      assert rows == front + [rows[|rows| - 1]];
    }
  }

  /** The sort is stable: the rows of each year keep their order. */
  lemma {:induction false} SortStable(rows: seq<Row>, y: int)
    ensures OfYear(SortByYear(rows), y) == OfYear(rows, y)
  {
    if |rows| > 0 {
      var front := rows[..|rows| - 1];
      SortStable(front, y);
      InsertOfYear(rows[|rows| - 1], SortByYear(front), y);
    }
  }

  /** Rows already in year order are left as they are. */
  lemma {:induction false} SortKeepsSorted(rows: seq<Row>)
    requires SortedByYear(rows)
    ensures SortByYear(rows) == rows
  {
    if |rows| > 0 {
      var front := rows[..|rows| - 1];
      assert SortedByYear(front) by {
        forall i, j | 0 <= i < j < |front| ensures front[i].0 <= front[j].0 {
          assert front[i] == rows[i] && front[j] == rows[j];
        }
      }
      SortKeepsSorted(front);
      forall i | 0 <= i < |front| ensures front[i].0 <= rows[|rows| - 1].0 {
        assert front[i] == rows[i];
      }
      InsertAtEnd(rows[|rows| - 1], front);
      assert front + [rows[|rows| - 1]] == rows;
    }
  }

  // ---------------------------------------------------------------------------
  // Bars (lines 193-200)
  // ---------------------------------------------------------------------------

  /** `scale = 5`. */
  const Scale: real := 5.0

  function Abs(x: real): (a: real)
    ensures a >= 0.0 && (a == x || a == -x)
  {
    if x < 0.0 then -x else x
  }

  /** `int(abs(media) * scale)`: the whole part of the scaled magnitude. */
  function BarLength(mean: real): (n: nat)
    ensures n as real <= Abs(mean) * Scale < n as real + 1.0
  {
    (Abs(mean) * Scale).Floor
  }

  /** `c * n`: the text of `n` copies of `c`. */
  function Repeat(c: char, n: nat): (s: string)
    ensures |s| == n
    ensures forall i :: 0 <= i < n ==> s[i] == c
  {
    if n == 0 then "" else Repeat(c, n - 1) + [c]
  }

  /** The bar of a mean: `"*" * length` when the mean is not negative and `"-" * length` otherwise. */
  function Bar(mean: real): (bar: string)
    ensures |bar| == BarLength(mean)
    ensures forall i :: 0 <= i < |bar| ==> bar[i] == (if mean >= 0.0 then '*' else '-')
  {
    Repeat(if mean >= 0.0 then '*' else '-', BarLength(mean))
  }

  /** The bar is empty exactly when the mean is closer to zero than a fifth; in particular a zero mean has no bar. */
  lemma {:induction false} EmptyBar(mean: real)
    ensures Bar(mean) == "" <==> -0.2 < mean < 0.2
  {
    if -0.2 < mean < 0.2 {
      assert Abs(mean) * Scale < 1.0;
    } else {
      assert Abs(mean) * Scale >= 1.0;
    }
  }

  /** A mean of greater magnitude never gets a shorter bar. */
  lemma {:induction false} BarMonotone(a: real, b: real)
    requires Abs(a) <= Abs(b)
    ensures |Bar(a)| <= |Bar(b)|
  {
    var m, n := BarLength(a), BarLength(b);
    assert m as real <= Abs(a) * Scale <= Abs(b) * Scale < n as real + 1.0;
  }

  /** A negative mean gets the bar of its magnitude drawn with `-`. */
  lemma {:induction false} NegativeBar(mean: real)
    requires mean < 0.0
    ensures Bar(mean) == Repeat('-', |Bar(-mean)|)
  {
    assert Abs(mean) == Abs(-mean);
  }

  // ---------------------------------------------------------------------------
  // The chart
  // ---------------------------------------------------------------------------

  /** One printed line `f"{ano}: {media:.2f}°C | {bar}"`, before it is formatted. */
  datatype ChartLine = ChartLine(year: int, mean: real, bar: string)

  function LineOf(row: Row): ChartLine
  {
    ChartLine(row.0, row.1, Bar(row.1))
  }

  /** The lines printed for the rows, one per row, in order. */
  function Lines(rows: seq<Row>): (lines: seq<ChartLine>)
    ensures |lines| == |rows|
    ensures forall i :: 0 <= i < |rows| ==> lines[i] == LineOf(rows[i])
  {
    if |rows| == 0 then [] else Lines(rows[..|rows| - 1]) + [LineOf(rows[|rows| - 1])]
  }

  /** What the function prints for `media_dict`: `None` for the "not enough data" message, otherwise the lines in year order. */
  function Chart(means: Dict<string, real>, name: string): Option<seq<ChartLine>>
    requires means.Valid()
  {
    var rows := Extracted(means.keys, means.items, name);
    if |rows| == 0 then None else Some(Lines(SortByYear(rows)))
  }

  /** Lines 179-200: the rows, the early return when there are none, the sort, and one line per row. */
  method PlotChart(means: Dict<string, real>, name: string) returns (chart: Option<seq<ChartLine>>)
    requires means.Valid()
    ensures chart == Chart(means, name)
  {
    var rows := ExtractRows(means, name);
    if |rows| == 0 {
      return None;
    }
    rows := SortByYear(rows);
    var lines := [];
    for i := 0 to |rows|
      invariant lines == Lines(rows[..i])
    {
      assert rows[..i + 1][..i] == rows[..i];
      lines := lines + [LineOf(rows[i])];
    }
    assert rows[..|rows|] == rows;
    return Some(lines);
  }

  /** The lines of sorted rows are in year order, list exactly the rows, and each carries the bar of its own mean. */
  lemma {:induction false} SortedLines(rows: seq<Row>)
    ensures var lines := Lines(SortByYear(rows));
      && (forall i, j :: 0 <= i < j < |lines| ==> lines[i].year <= lines[j].year)
      && multiset(seq(|lines|, i requires 0 <= i < |lines| => (lines[i].year, lines[i].mean))) == multiset(rows)
      && (forall i :: 0 <= i < |lines| ==> lines[i].bar == Bar(lines[i].mean))
  {
    var sorted := SortByYear(rows);
    var lines := Lines(sorted);
    SortSorted(rows);
    SortPermutes(rows);
    assert seq(|lines|, i requires 0 <= i < |lines| => (lines[i].year, lines[i].mean)) == sorted;
  }

  /**
   * Any chart lists the rows read back from the keys, sorted by year and each
   * with its own bar; the rows of one year keep the dict's order.
   */
  lemma {:induction false} ChartRows(means: Dict<string, real>, name: string, y: int)
    requires means.Valid() && Chart(means, name).Some?
    ensures var lines := Chart(means, name).value;
      forall i, j :: 0 <= i < j < |lines| ==> lines[i].year <= lines[j].year
    ensures var lines, rows := Chart(means, name).value, Extracted(means.keys, means.items, name);
      multiset(seq(|lines|, i requires 0 <= i < |lines| => (lines[i].year, lines[i].mean))) == multiset(rows)
    ensures var lines := Chart(means, name).value;
      forall i :: 0 <= i < |lines| ==> lines[i].bar == Bar(lines[i].mean)
    ensures var sorted := SortByYear(Extracted(means.keys, means.items, name));
      OfYear(sorted, y) == OfYear(Extracted(means.keys, means.items, name), y)
  {
    var rows := Extracted(means.keys, means.items, name);
    assert Chart(means, name).value == Lines(SortByYear(rows));
    SortedLines(rows);
    SortStable(rows, y);
  }

  /**
   * The rows read back from the yearly means of a month named in the table:
   * one per year of the window with data, in increasing year order, each
   * with that year's mean minimum temperature.
   */
  lemma {:induction false} RowsOfMonthMeans(records: seq<Record>, month: int, name: string)
    requires name in MonthNumber
    ensures var means, years := MonthMeans(records, month, name), YearsWithData(records, month);
      var rows := Extracted(means.keys, means.items, name);
      && |rows| == |years|
      && forall i :: 0 <= i < |years| ==>
           FirstYear <= years[i] <= LastYear && HasData(records, years[i], month) &&
           rows[i] == (years[i], YearMean(records, years[i], month))
  {
    var means := MonthMeans(records, month, name);
    var years := YearsWithData(records, month);
    MonthNameStartsWithLetter(name);
    KeysInYearOrder(records, month, name);
    forall i | 0 <= i < |years| ensures YearOfKey(means.keys[i], name) == Some(years[i]) {
      YearKeyRoundTrip(name, years[i]);
    }
    ExtractedAllYears(means.keys, means.items, name, years);
    forall i | 0 <= i < |years| ensures FirstYear <= years[i] <= LastYear && HasData(records, years[i], month) {
      YearsWithDataMembers(records, month, years[i]);
    }
    forall i | 0 <= i < |years|
      ensures means.items[means.keys[i]] == YearMean(records, years[i], month)
    {
      YearEntryValue(records, month, name, years[i]);
    }
  }

  /** The rows read back from the yearly means of a month named in the table come in strictly increasing year order. */
  lemma {:induction false} MonthRowsIncrease(records: seq<Record>, month: int, name: string)
    requires name in MonthNumber
    ensures var means := MonthMeans(records, month, name);
      YearsIncrease(Extracted(means.keys, means.items, name))
  {
    var means := MonthMeans(records, month, name);
    var years := YearsWithData(records, month);
    MonthNameStartsWithLetter(name);
    KeysInYearOrder(records, month, name);
    forall i | 0 <= i < |years| ensures YearOfKey(means.keys[i], name) == Some(years[i]) {
      YearKeyRoundTrip(name, years[i]);
    }
    ExtractedAllYears(means.keys, means.items, name, years);
    YearsWithDataMembers(records, month, 0);
    RowsOfIncreasingYears(Extracted(means.keys, means.items, name), years);
  }

  /** The years of the rows strictly increase. */
  ghost predicate YearsIncrease(rows: seq<Row>)
  {
    forall i, j :: 0 <= i < j < |rows| ==> rows[i].0 < rows[j].0
  }

  /** When the rows come out of the dict in strictly increasing year order, the sort leaves them alone and each gets its line. */
  lemma {:induction false} ChartOfAscendingRows(means: Dict<string, real>, name: string)
    requires means.Valid()
    requires YearsIncrease(Extracted(means.keys, means.items, name))
    ensures var rows := Extracted(means.keys, means.items, name);
      Chart(means, name) == if |rows| == 0 then None else Some(Lines(rows))
  {
    var rows := Extracted(means.keys, means.items, name);
    forall i, j | 0 <= i < j < |rows| ensures rows[i].0 <= rows[j].0 {
    }
    SortKeepsSorted(rows);
  }

  /** The line of a year with data: its mean minimum temperature and the bar of that mean. */
  function YearLine(records: seq<Record>, month: int, y: int): ChartLine
    requires HasData(records, y, month)
  {
    var mean := YearMean(records, y, month);
    ChartLine(y, mean, Bar(mean))
  }

  /** Every year listed as having data has data and lies in the window. */
  lemma {:induction false} YearsWithDataHaveData(records: seq<Record>, month: int)
    ensures forall i :: 0 <= i < |YearsWithData(records, month)| ==>
      FirstYear <= YearsWithData(records, month)[i] <= LastYear && HasData(records, YearsWithData(records, month)[i], month)
  {
    var years := YearsWithData(records, month);
    forall i | 0 <= i < |years| ensures FirstYear <= years[i] <= LastYear && HasData(records, years[i], month) {
      YearsWithDataMembers(records, month, years[i]);
    }
  }

  /** The chart the function is meant to print for a month: no chart without data, else a line per year with data, in year order. */
  function MonthChart(records: seq<Record>, month: int): Option<seq<ChartLine>>
  {
    var years := YearsWithData(records, month);
    YearsWithDataHaveData(records, month);
    if |years| == 0 then None
    else Some(seq(|years|, i requires 0 <= i < |years| => YearLine(records, month, years[i])))
  }

  /** There is no chart exactly when no year of the window has data, and the lines' years strictly increase. */
  lemma {:induction false} MonthChartShape(records: seq<Record>, month: int)
    ensures MonthChart(records, month).None? <==> forall y :: FirstYear <= y <= LastYear ==> !HasData(records, y, month)
    ensures MonthChart(records, month).Some? ==>
      var lines := MonthChart(records, month).value;
      forall i, j :: 0 <= i < j < |lines| ==> lines[i].year < lines[j].year
  {
    var years := YearsWithData(records, month);
    YearsWithDataMembers(records, month, 0);
    if |years| == 0 {
      forall y | FirstYear <= y <= LastYear ensures !HasData(records, y, month) {
        YearsWithDataMembers(records, month, y);
      }
    } else {
      YearsWithDataMembers(records, month, years[0]);
    }
  }

  /** Rows whose years are strictly increasing years are in strictly increasing year order. */
  lemma {:induction false} RowsOfIncreasingYears(rows: seq<Row>, years: seq<int>)
    requires |rows| == |years|
    requires forall i :: 0 <= i < |rows| ==> rows[i].0 == years[i]
    requires forall i, j :: 0 <= i < j < |years| ==> years[i] < years[j]
    ensures YearsIncrease(rows)
  {
    forall i, j | 0 <= i < j < |rows| ensures rows[i].0 < rows[j].0 {
      assert rows[i].0 == years[i] && rows[j].0 == years[j];
    }
  }

  /** Rows that are the years with data and their means give the lines of the chart meant for the month. */
  lemma {:induction false} LinesOfYearRows(records: seq<Record>, month: int, rows: seq<Row>)
    requires |rows| == |YearsWithData(records, month)| > 0
    requires forall i :: 0 <= i < |rows| ==>
      HasData(records, YearsWithData(records, month)[i], month) &&
      rows[i] == (YearsWithData(records, month)[i], YearMean(records, YearsWithData(records, month)[i], month))
    ensures MonthChart(records, month) == Some(Lines(rows))
  {
    var years := YearsWithData(records, month);
    var lines := Lines(rows);
    var expected := MonthChart(records, month).value;
    forall i | 0 <= i < |years| ensures lines[i] == expected[i] {
      assert lines[i] == LineOf(rows[i]);
      assert expected[i] == YearLine(records, month, years[i]);
    }
    assert lines == expected;
  }

  /** The chart drawn from the yearly means of a month named in the table is the chart meant for that month. */
  lemma {:induction false} ChartOfMonthMeans(records: seq<Record>, month: int, name: string)
    requires name in MonthNumber
    ensures Chart(MonthMeans(records, month, name), name) == MonthChart(records, month)
  {
    var means := MonthMeans(records, month, name);
    var rows := Extracted(means.keys, means.items, name);
    RowsOfMonthMeans(records, month, name);
    MonthRowsIncrease(records, month, name);
    ChartOfAscendingRows(means, name);
    if |rows| > 0 {
      LinesOfYearRows(records, month, rows);
    }
  }
}
