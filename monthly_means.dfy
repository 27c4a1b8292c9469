/**
 * `calcular_media_temp_min_mes`: for each year of the window 2006 to 2016, the
 * mean minimum temperature of the records dated in the chosen month, stored
 * under the key `mes_nome + str(ano)`, with a warning for every year that has
 * no such record; and the overall mean of those yearly means taken in `main`.
 */
module MonthlyMeans {
  import opened Wrappers
  import opened Text
  import opened Dates
  import opened Records
  import opened Dicts
  import opened RealSeqs

  /** The window `range(2006, 2017)`. */
  const FirstYear: int := 2006
  const LastYear: int := 2016

  /** `f"{mes_nome}{ano}"`, the key of a year's mean. */
  function YearKey(name: string, year: int): string
  {
    name + Dec(year)
  }

  /** For a fixed month name, different years have different keys. */
  lemma {:induction false} YearKeyInjective(name: string, y1: int, y2: int)
    ensures YearKey(name, y1) == YearKey(name, y2) <==> y1 == y2
  {
    if YearKey(name, y1) == YearKey(name, y2) {
      assert Dec(y1) == YearKey(name, y1)[|name|..];
      assert Dec(y2) == YearKey(name, y2)[|name|..];
      DecInjective(y1, y2);
    }
  }

  // ---------------------------------------------------------------------------
  // The inner loop: the records of one month of one year
  // ---------------------------------------------------------------------------

  /** The test at line 159: the date reads, and its year and month are the ones asked for. */
  predicate Matches(r: Record, year: int, month: int)
  {
    match ParseDate(r.date)
    case None => false
    case Some(d) => d.year == year && d.month == month
  }

  /** `registros` once the inner loop has seen `records`: the matching records, in order. */
  function Matching(records: seq<Record>, year: int, month: int): seq<Record>
  {
    if |records| == 0 then []
    else
      var r := records[|records| - 1];
      Matching(records[..|records| - 1], year, month) + (if Matches(r, year, month) then [r] else [])
  }

  /** Some record is dated in month `month` of year `year`. */
  ghost predicate HasData(records: seq<Record>, year: int, month: int)
  {
    exists i :: 0 <= i < |records| && Matches(records[i], year, month)
  }

  /** The records kept for a year are exactly the input records dated in that month of that year. */
  lemma {:induction false} MatchingMembers(records: seq<Record>, year: int, month: int, r: Record)
    ensures r in Matching(records, year, month) <==> r in records && Matches(r, year, month)
  {
    if |records| > 0 {
      var front := records[..|records| - 1];
      MatchingMembers(front, year, month, r);
      assert records == front + [records[|records| - 1]];
    }
  }

  /** Some record is kept for a year exactly when the year has data. */
  lemma {:induction false} MatchingNonEmpty(records: seq<Record>, year: int, month: int)
    ensures |Matching(records, year, month)| > 0 <==> HasData(records, year, month)
  {
    var m := Matching(records, year, month);
    if |m| > 0 {
      MatchingMembers(records, year, month, m[0]);
      var i :| 0 <= i < |records| && records[i] == m[0];
    }
    if HasData(records, year, month) {
      var i :| 0 <= i < |records| && Matches(records[i], year, month);
      MatchingMembers(records, year, month, records[i]);
    }
  }

  /** Lines 153-160: the records dated in month `month` of year `year`, in order. */
  method MatchingRecords(records: seq<Record>, year: int, month: int) returns (matching: seq<Record>)
    ensures matching == Matching(records, year, month)
  {
    matching := [];
    for i := 0 to |records|
      invariant matching == Matching(records[..i], year, month)
    {
      assert records[..i + 1][..i] == records[..i];
      match ParseDate(records[i].date) {
        case None =>
        case Some(d) =>
          if d.year == year && d.month == month {
            matching := matching + [records[i]];
          }
      }
    }
    assert records[..|records|] == records;
  }

  /** The minimum temperatures of the records, in order (the generator in line 162). */
  function MinTemps(rs: seq<Record>): (ts: seq<real>)
    ensures |ts| == |rs|
    ensures forall i :: 0 <= i < |rs| ==> ts[i] == rs[i].tempMin
  {
    if |rs| == 0 then [] else MinTemps(rs[..|rs| - 1]) + [rs[|rs| - 1].tempMin]
  }

  /** The minimum temperatures of the chosen month, one list per year of the window. */
  function YearTemps(records: seq<Record>, month: int): (groups: seq<seq<real>>)
    ensures |groups| == LastYear - FirstYear + 1
  {
    seq(LastYear - FirstYear + 1, k => MinTemps(Matching(records, FirstYear + k, month)))
  }

  /** The temperatures of a window year are there exactly when the year has data. */
  lemma {:induction false} YearTempsNonEmpty(records: seq<Record>, month: int, y: int)
    requires FirstYear <= y <= LastYear
    ensures YearTemps(records, month)[y - FirstYear] == MinTemps(Matching(records, y, month))
    ensures |YearTemps(records, month)[y - FirstYear]| > 0 <==> HasData(records, y, month)
  {
    MatchingNonEmpty(records, y, month);
  }

  // ---------------------------------------------------------------------------
  // The outer loop, year by year, over the temperatures and key of each year
  // ---------------------------------------------------------------------------

  /** The keys of the years of the window, in order. */
  function YearLabels(name: string): (labels: seq<string>)
    ensures |labels| == LastYear - FirstYear + 1
  {
    seq(LastYear - FirstYear + 1, k => YearKey(name, FirstYear + k))
  }

  /** The key listed for a year of the window is that year's key. */
  lemma {:induction false} YearLabelAt(name: string, y: int)
    requires FirstYear <= y <= LastYear
    ensures YearLabels(name)[y - FirstYear] == YearKey(name, y)
  {
  }

  /**
   * The keys at positions `i` and `j` differ. A predicate of its own so that
   * `Distinct` is only unfolded for the pairs a proof names.
   */
  ghost predicate KeysDiffer<K>(labels: seq<K>, i: int, j: int)
    requires 0 <= i < |labels| && 0 <= j < |labels|
  {
    labels[i] != labels[j]
  }

  /** No key is listed twice. */
  ghost predicate Distinct<K>(labels: seq<K>)
  {
    forall i, j :: 0 <= i < j < |labels| ==> KeysDiffer(labels, i, j)
  }

  /** Two positions of a list without repeats hold different keys. */
  lemma {:induction false} DistinctAt<K>(labels: seq<K>, i: int, j: int)
    requires Distinct(labels) && 0 <= i < j < |labels|
    ensures labels[i] != labels[j]
  {
    assert KeysDiffer(labels, i, j);
  }

  lemma {:induction false} YearLabelsDistinct(name: string)
    ensures Distinct(YearLabels(name))
  {
    var labels := YearLabels(name);
    forall i, j | 0 <= i < j < |labels| ensures KeysDiffer(labels, i, j) {
      YearKeyInjective(name, FirstYear + i, FirstYear + j);
    }
  }

  /** The years of the first `n` of the window whose list of temperatures is not empty, in increasing order. */
  function WithData(groups: seq<seq<real>>, n: nat): (years: seq<int>)
    requires n <= |groups|
    ensures forall i :: 0 <= i < |years| ==> FirstYear <= years[i] < FirstYear + n
  {
    if n == 0 then []
    else WithData(groups, n - 1) + (if |groups[n - 1]| > 0 then [FirstYear + n - 1] else [])
  }

  /** The years of the first `n` whose list is empty, in increasing order: the warnings of line 166. */
  function Missing(groups: seq<seq<real>>, n: nat): (years: seq<int>)
    requires n <= |groups|
    ensures forall i :: 0 <= i < |years| ==> FirstYear <= years[i] < FirstYear + n
  {
    if n == 0 then []
    else Missing(groups, n - 1) + (if |groups[n - 1]| == 0 then [FirstYear + n - 1] else [])
  }

  /** `media_dict` once the outer loop has seen the first `n` years. */
  function MeansBefore<K(==)>(groups: seq<seq<real>>, labels: seq<K>, n: nat): (d: Dict<K, real>)
    requires n <= |groups| && n <= |labels|
    ensures d.Valid()
  {
    if n == 0 then Empty()
    else
      var d := MeansBefore(groups, labels, n - 1);
      if |groups[n - 1]| > 0 then d.Put(labels[n - 1], Mean(groups[n - 1])) else d
  }

  /** `media_dict` once the function is done: the yearly means of the chosen month over the whole window. */
  function MonthMeans(records: seq<Record>, month: int, name: string): Dict<string, real>
  {
    var groups := YearTemps(records, month);
    MeansBefore(groups, YearLabels(name), |groups|)
  }

  /** The years the function warns about, in the order of the warnings. */
  function MonthWarnings(records: seq<Record>, month: int): seq<int>
  {
    var groups := YearTemps(records, month);
    Missing(groups, |groups|)
  }

  /** Lines 151-167: the yearly means and the years warned about. */
  method MonthlyMinTempMeans(records: seq<Record>, month: int, name: string)
    returns (means: Dict<string, real>, warnings: seq<int>)
    ensures means == MonthMeans(records, month, name)
    ensures warnings == MonthWarnings(records, month)
  {
    ghost var groups := YearTemps(records, month);
    ghost var labels := YearLabels(name);
    means := Empty();
    warnings := [];
    for year := FirstYear to LastYear + 1
      invariant means == MeansBefore(groups, labels, year - FirstYear)
      invariant warnings == Missing(groups, year - FirstYear)
    {
      var matching := MatchingRecords(records, year, month);
      YearStep(records, month, name, year);
      if |matching| > 0 {
        var mean := Sum(MinTemps(matching)) / (|matching| as real);
        means := means.Put(YearKey(name, year), mean);
      } else {
        warnings := warnings + [year];
      }
    }
    assert |groups| == LastYear + 1 - FirstYear;
  }

  /** One pass of the outer loop, in terms of the records of that year. */
  lemma {:induction false} YearStep(records: seq<Record>, month: int, name: string, year: int)
    requires FirstYear <= year <= LastYear
    ensures var groups, labels, k, matching := YearTemps(records, month), YearLabels(name), year - FirstYear, Matching(records, year, month);
      && MeansBefore(groups, labels, k + 1) ==
        (if |matching| > 0
         then MeansBefore(groups, labels, k).Put(YearKey(name, year), Sum(MinTemps(matching)) / (|matching| as real))
         else MeansBefore(groups, labels, k))
      && Missing(groups, k + 1) == Missing(groups, k) + (if |matching| > 0 then [] else [year])
  {
    var groups, labels, k := YearTemps(records, month), YearLabels(name), year - FirstYear;
    assert groups[k] == MinTemps(Matching(records, year, month));
    YearLabelAt(name, year);
    MeansStep(groups, labels, k);
  }

  // ---------------------------------------------------------------------------
  // What the outer loop promises, for any lists of temperatures and keys
  // ---------------------------------------------------------------------------

  /** One more year: its mean goes under its key when its list is not empty, and otherwise it is warned about. */
  lemma {:induction false} MeansStep<K>(groups: seq<seq<real>>, labels: seq<K>, n: nat)
    requires n < |groups| && n < |labels|
    ensures MeansBefore(groups, labels, n + 1) ==
      if |groups[n]| > 0 then MeansBefore(groups, labels, n).Put(labels[n], Mean(groups[n])) else MeansBefore(groups, labels, n)
    ensures Missing(groups, n + 1) == Missing(groups, n) + (if |groups[n]| == 0 then [FirstYear + n] else [])
  {
  }

  /** The years with data are exactly the years among the first `n` whose list is not empty. */
  lemma {:induction false} WithDataMembers(groups: seq<seq<real>>, n: nat, y: int)
    requires n <= |groups|
    ensures y in WithData(groups, n) <==> FirstYear <= y < FirstYear + n && |groups[y - FirstYear]| > 0
  {
    if n > 0 {
      WithDataMembers(groups, n - 1, y);
    }
  }

  /** The warnings name exactly the years among the first `n` whose list is empty. */
  lemma {:induction false} MissingMembers(groups: seq<seq<real>>, n: nat, y: int)
    requires n <= |groups|
    ensures y in Missing(groups, n) <==> FirstYear <= y < FirstYear + n && |groups[y - FirstYear]| == 0
  {
    if n > 0 {
      MissingMembers(groups, n - 1, y);
    }
  }

  /** Both lists of years are strictly increasing and lie among the first `n`, and between them they cover those years. */
  lemma {:induction false} YearsAscending(groups: seq<seq<real>>, n: nat)
    requires n <= |groups|
    ensures forall i, j :: 0 <= i < j < |WithData(groups, n)| ==> WithData(groups, n)[i] < WithData(groups, n)[j]
    ensures forall i, j :: 0 <= i < j < |Missing(groups, n)| ==> Missing(groups, n)[i] < Missing(groups, n)[j]
    ensures forall i :: 0 <= i < |WithData(groups, n)| ==> FirstYear <= WithData(groups, n)[i] < FirstYear + n
    ensures forall i :: 0 <= i < |Missing(groups, n)| ==> FirstYear <= Missing(groups, n)[i] < FirstYear + n
    ensures |WithData(groups, n)| + |Missing(groups, n)| == n
  {
    if n > 0 {
      YearsAscending(groups, n - 1);
    }
  }

  /** The keys of the years not yet seen are not in the dict. */
  lemma {:induction false} MeansLaterAbsent<K>(groups: seq<seq<real>>, labels: seq<K>, n: nat, m: nat)
    requires n <= |groups| && n <= m < |labels| && Distinct(labels)
    ensures labels[m] !in MeansBefore(groups, labels, n).items
  {
    if n > 0 {
      var before := MeansBefore(groups, labels, n - 1);
      MeansLaterAbsent(groups, labels, n - 1, m);
      if |groups[n - 1]| > 0 {
        DistinctAt(labels, n - 1, m);
        assert MeansBefore(groups, labels, n).items == before.items[labels[n - 1] := Mean(groups[n - 1])];
      }
    }
  }

  /** The keys of the years among the first `n` whose list is not empty, in increasing year order. */
  function LabelsWithData<K>(groups: seq<seq<real>>, labels: seq<K>, n: nat): seq<K>
    requires n <= |groups| && n <= |labels|
  {
    if n == 0 then []
    else LabelsWithData(groups, labels, n - 1) + (if |groups[n - 1]| > 0 then [labels[n - 1]] else [])
  }

  /** The dict lists the key of each year with data, in increasing year order. */
  lemma {:induction false} MeansKeys<K>(groups: seq<seq<real>>, labels: seq<K>, n: nat)
    requires n <= |groups| && n <= |labels| && Distinct(labels)
    ensures MeansBefore(groups, labels, n).keys == LabelsWithData(groups, labels, n)
  {
    if n > 0 {
      var before := MeansBefore(groups, labels, n - 1);
      var ks := LabelsWithData(groups, labels, n - 1);
      MeansKeys(groups, labels, n - 1);
      if |groups[n - 1]| > 0 {
        MeansLaterAbsent(groups, labels, n - 1, n - 1);
        var after := before.Put(labels[n - 1], Mean(groups[n - 1]));
        assert MeansBefore(groups, labels, n) == after;
        assert after.keys == before.keys + [labels[n - 1]];
        assert before.keys == ks;
        assert LabelsWithData(groups, labels, n) == ks + [labels[n - 1]];
      } else {
        assert MeansBefore(groups, labels, n) == before;
        assert LabelsWithData(groups, labels, n) == ks + [];
        assert ks + [] == ks;
      }
    }
  }

  /** The `i`-th of those keys is the key of the `i`-th year with data. */
  lemma {:induction false} LabelsOfYears<K>(groups: seq<seq<real>>, labels: seq<K>, n: nat)
    requires n <= |groups| && n <= |labels|
    ensures |LabelsWithData(groups, labels, n)| == |WithData(groups, n)|
    ensures forall i :: 0 <= i < |WithData(groups, n)| ==>
      LabelsWithData(groups, labels, n)[i] == labels[WithData(groups, n)[i] - FirstYear]
  {
    if n > 0 {
      LabelsOfYears(groups, labels, n - 1);
      var ks := LabelsWithData(groups, labels, n - 1);
      var years := WithData(groups, n - 1);
      if |groups[n - 1]| > 0 {
        assert LabelsWithData(groups, labels, n) == ks + [labels[n - 1]];
        assert WithData(groups, n) == years + [FirstYear + n - 1];
      } else {
        assert LabelsWithData(groups, labels, n) == ks + [];
        assert WithData(groups, n) == years + [];
        assert ks + [] == ks && years + [] == years;
      }
    }
  }

  /** The key of a year whose list is not empty holds the mean of that list. */
  lemma {:induction false} MeansEntry<K>(groups: seq<seq<real>>, labels: seq<K>, n: nat, k: nat)
    requires n <= |groups| && n <= |labels| && Distinct(labels)
    requires k < n && |groups[k]| > 0
    ensures labels[k] in MeansBefore(groups, labels, n).items
    ensures MeansBefore(groups, labels, n).items[labels[k]] == Mean(groups[k])
  {
    var before := MeansBefore(groups, labels, n - 1);
    if k < n - 1 {
      MeansEntry(groups, labels, n - 1, k);
      if |groups[n - 1]| > 0 {
        DistinctAt(labels, k, n - 1);
        assert MeansBefore(groups, labels, n).items == before.items[labels[n - 1] := Mean(groups[n - 1])];
      } else {
        assert MeansBefore(groups, labels, n) == before;
      }
    } else {
      assert MeansBefore(groups, labels, n).items == before.items[labels[k] := Mean(groups[k])];
    }
  }

  /** Every key of the dict is the key of a year whose list is not empty. */
  lemma {:induction false} KeysAreLabels<K>(groups: seq<seq<real>>, labels: seq<K>, n: nat, key: K)
    requires n <= |groups| && n <= |labels| && Distinct(labels)
    requires key in MeansBefore(groups, labels, n).items
    ensures exists k :: 0 <= k < n && labels[k] == key && |groups[k]| > 0
  {
    MeansKeys(groups, labels, n);
    LabelsOfYears(groups, labels, n);
    var d := MeansBefore(groups, labels, n);
    var i :| 0 <= i < |d.keys| && d.keys[i] == key;
    var k := WithData(groups, n)[i] - FirstYear;
    WithDataMembers(groups, n, k + FirstYear);
    assert labels[k] == key;
  }

  /** No year has data exactly when every list is empty. */
  lemma {:induction false} NoYearsWithData(groups: seq<seq<real>>, n: nat)
    requires n <= |groups|
    ensures |WithData(groups, n)| == 0 <==> forall k :: 0 <= k < n ==> |groups[k]| == 0
  {
    if n > 0 {
      NoYearsWithData(groups, n - 1);
    }
  }

  /** The dict is empty exactly when every list is empty. */
  lemma {:induction false} MeansEmpty<K>(groups: seq<seq<real>>, labels: seq<K>, n: nat)
    requires n <= |groups| && n <= |labels| && Distinct(labels)
    ensures |MeansBefore(groups, labels, n).keys| == 0 <==> forall k :: 0 <= k < n ==> |groups[k]| == 0
  {
    MeansKeys(groups, labels, n);
    LabelsOfYears(groups, labels, n);
    NoYearsWithData(groups, n);
  }

  /** The `i`-th value of the dict is the mean of a list that is not empty. */
  lemma {:induction false} MeansValueAt<K>(groups: seq<seq<real>>, labels: seq<K>, n: nat, i: nat) returns (k: nat)
    requires n <= |groups| && n <= |labels| && Distinct(labels)
    requires i < |MeansBefore(groups, labels, n).keys|
    ensures k < n && |groups[k]| > 0
    ensures MeansBefore(groups, labels, n).Values()[i] == Mean(groups[k])
  {
    var d := MeansBefore(groups, labels, n);
    var ks := LabelsWithData(groups, labels, n);
    var years := WithData(groups, n);
    MeansKeys(groups, labels, n);
    assert d.keys == ks;
    LabelsOfYears(groups, labels, n);
    assert i < |years|;
    k := years[i] - FirstYear;
    assert ks[i] == labels[k];
    WithDataMembers(groups, n, years[i]);
    MeansEntry(groups, labels, n, k);
    assert d.Values()[i] == d.items[d.keys[i]];
  }

  /** Bounds on every temperature are bounds on every yearly mean in the dict. */
  lemma {:induction false} MeansWithin<K>(groups: seq<seq<real>>, labels: seq<K>, n: nat, lo: real, hi: real)
    requires n <= |groups| && n <= |labels| && Distinct(labels)
    requires forall k, j :: 0 <= k < n && 0 <= j < |groups[k]| ==> lo <= groups[k][j] <= hi
    ensures forall i :: 0 <= i < |MeansBefore(groups, labels, n).Values()| ==>
      lo <= MeansBefore(groups, labels, n).Values()[i] <= hi
  {
    var vs := MeansBefore(groups, labels, n).Values();
    forall i | 0 <= i < |vs| ensures lo <= vs[i] <= hi {
      var k := MeansValueAt(groups, labels, n, i);
      MeanBounds(groups[k], lo, hi);
    }
  }

  // ---------------------------------------------------------------------------
  // What the function promises about the records
  // ---------------------------------------------------------------------------

  /** Line 162: the mean minimum temperature of the records dated in that month of that year. */
  function YearMean(records: seq<Record>, year: int, month: int): real
    requires HasData(records, year, month)
  {
    MatchingNonEmpty(records, year, month);
    Mean(MinTemps(Matching(records, year, month)))
  }

  /**
   * A year's mean lies between the least and the greatest minimum temperature
   * of the records dated in that month of that year.
   */
  lemma {:induction false} YearMeanBetweenRecords(records: seq<Record>, year: int, month: int)
    requires HasData(records, year, month)
    ensures exists i :: 0 <= i < |records| && Matches(records[i], year, month) && records[i].tempMin <= YearMean(records, year, month)
    ensures exists i :: 0 <= i < |records| && Matches(records[i], year, month) && YearMean(records, year, month) <= records[i].tempMin
  {
    var rs := Matching(records, year, month);
    MatchingNonEmpty(records, year, month);
    var ts := MinTemps(rs);
    MeanBetweenMinAndMax(ts);
    var lo :| 0 <= lo < |ts| && ts[lo] == Min(ts);
    var hi :| 0 <= hi < |ts| && ts[hi] == Max(ts);
    MatchingMembers(records, year, month, rs[lo]);
    MatchingMembers(records, year, month, rs[hi]);
    var i :| 0 <= i < |records| && records[i] == rs[lo];
    var j :| 0 <= j < |records| && records[j] == rs[hi];
    assert Matches(records[i], year, month) && records[i].tempMin <= YearMean(records, year, month);
    assert Matches(records[j], year, month) && YearMean(records, year, month) <= records[j].tempMin;
  }

  /** The years of the window that have data, in increasing order. */
  function YearsWithData(records: seq<Record>, month: int): seq<int>
  {
    var groups := YearTemps(records, month);
    WithData(groups, |groups|)
  }

  /** The years with data are exactly the window years with a record dated in the month, in increasing order. */
  lemma {:induction false} YearsWithDataMembers(records: seq<Record>, month: int, y: int)
    ensures y in YearsWithData(records, month) <==> FirstYear <= y <= LastYear && HasData(records, y, month)
    ensures forall i, j :: 0 <= i < j < |YearsWithData(records, month)| ==>
      YearsWithData(records, month)[i] < YearsWithData(records, month)[j]
  {
    var groups := YearTemps(records, month);
    WithDataMembers(groups, |groups|, y);
    YearsAscending(groups, |groups|);
    if FirstYear <= y <= LastYear {
      YearTempsNonEmpty(records, month, y);
    }
  }

  /** The dict lists the key of each year with data, in increasing year order. */
  lemma {:induction false} KeysInYearOrder(records: seq<Record>, month: int, name: string)
    ensures |MonthMeans(records, month, name).keys| == |YearsWithData(records, month)|
    ensures forall i :: 0 <= i < |YearsWithData(records, month)| ==>
      MonthMeans(records, month, name).keys[i] == YearKey(name, YearsWithData(records, month)[i])
  {
    var groups := YearTemps(records, month);
    var labels := YearLabels(name);
    var ks := LabelsWithData(groups, labels, |groups|);
    YearLabelsDistinct(name);
    MeansKeys(groups, labels, |groups|);
    LabelsOfYears(groups, labels, |groups|);
    LabelsAreYearKeys(name, ks, WithData(groups, |groups|));
  }

  /** Labels picked out by window years are those years' keys. */
  lemma {:induction false} LabelsAreYearKeys(name: string, ks: seq<string>, years: seq<int>)
    requires |ks| == |years|
    requires forall i :: 0 <= i < |years| ==> FirstYear <= years[i] <= LastYear
    requires forall i :: 0 <= i < |years| ==> ks[i] == YearLabels(name)[years[i] - FirstYear]
    ensures forall i :: 0 <= i < |years| ==> ks[i] == YearKey(name, years[i])
  {
    forall i | 0 <= i < |years| ensures ks[i] == YearKey(name, years[i]) {
      YearLabelAt(name, years[i]);
    }
  }

  /** The dict has a key only for the years of the window with data. */
  lemma {:induction false} KeysAreYearKeys(records: seq<Record>, month: int, name: string, key: string)
    requires key in MonthMeans(records, month, name).items
    ensures exists y :: FirstYear <= y <= LastYear && HasData(records, y, month) && key == YearKey(name, y)
  {
    var groups := YearTemps(records, month);
    YearLabelsDistinct(name);
    KeysAreLabels(groups, YearLabels(name), |groups|, key);
    var k :| 0 <= k < |groups| && YearLabels(name)[k] == key && |groups[k]| > 0;
    var y := FirstYear + k;
    YearTempsNonEmpty(records, month, y);
    YearLabelAt(name, y);
    assert HasData(records, y, month) && key == YearKey(name, y);
  }

  /** The entry of a window year with data is the mean minimum temperature of its records. */
  lemma {:induction false} YearEntryValue(records: seq<Record>, month: int, name: string, y: int)
    requires FirstYear <= y <= LastYear && HasData(records, y, month)
    ensures YearKey(name, y) in MonthMeans(records, month, name).items
    ensures MonthMeans(records, month, name).items[YearKey(name, y)] == YearMean(records, y, month)
  {
    var groups := YearTemps(records, month);
    var labels := YearLabels(name);
    YearLabelsDistinct(name);
    YearTempsNonEmpty(records, month, y);
    MeansEntry(groups, labels, |groups|, y - FirstYear);
    YearLabelAt(name, y);
  }

  /** A year has an entry exactly when it lies in the window and some record is dated in the month of that year. */
  lemma {:induction false} YearHasEntry(records: seq<Record>, month: int, name: string, y: int)
    ensures YearKey(name, y) in MonthMeans(records, month, name).items <==>
      FirstYear <= y <= LastYear && HasData(records, y, month)
  {
    if YearKey(name, y) in MonthMeans(records, month, name).items {
      KeysAreYearKeys(records, month, name, YearKey(name, y));
      var y' :| FirstYear <= y' <= LastYear && HasData(records, y', month) && YearKey(name, y) == YearKey(name, y');
      YearKeyInjective(name, y, y');
    }
    if FirstYear <= y <= LastYear && HasData(records, y, month) {
      YearEntryValue(records, month, name, y);
    }
  }

  /** The warnings name exactly the years of the window without data, in increasing order. */
  lemma {:induction false} WarningsAreMissingYears(records: seq<Record>, month: int, y: int)
    ensures y in MonthWarnings(records, month) <==> FirstYear <= y <= LastYear && !HasData(records, y, month)
    ensures forall i, j :: 0 <= i < j < |MonthWarnings(records, month)| ==>
      MonthWarnings(records, month)[i] < MonthWarnings(records, month)[j]
  {
    var groups := YearTemps(records, month);
    MissingMembers(groups, |groups|, y);
    YearsAscending(groups, |groups|);
    if FirstYear <= y <= LastYear {
      YearTempsNonEmpty(records, month, y);
    }
  }

  /** A warning is given for a year of the window exactly when the dict has no entry for it. */
  lemma {:induction false} WarningsComplementMeans(records: seq<Record>, month: int, name: string, y: int)
    requires FirstYear <= y <= LastYear
    ensures y in MonthWarnings(records, month) <==> YearKey(name, y) !in MonthMeans(records, month, name).items
  {
    WarningsAreMissingYears(records, month, y);
    YearHasEntry(records, month, name, y);
  }

  // ---------------------------------------------------------------------------
  // The overall mean (main, lines 227-231)
  // ---------------------------------------------------------------------------

  /**
   * `sum(media_dict.values()) / len(media_dict)` when the dict is non-empty,
   * `None` (the "not enough data" message) otherwise; the mean lies between the
   * least and the greatest yearly mean.
   */
  function OverallMean(means: Dict<string, real>): (r: Option<real>)
    requires means.Valid()
    ensures r.None? <==> |means.keys| == 0
    ensures r.Some? ==> Min(means.Values()) <= r.value <= Max(means.Values())
  {
    if |means.keys| == 0 then None
    else
      MeanBetweenMinAndMax(means.Values());
      Some(Sum(means.Values()) / (|means.keys| as real))
  }

  /** The dict is empty exactly when no year of the window has data. */
  lemma {:induction false} MonthMeansEmpty(records: seq<Record>, month: int, name: string)
    ensures |MonthMeans(records, month, name).keys| == 0 <==>
      forall y :: FirstYear <= y <= LastYear ==> !HasData(records, y, month)
  {
    var groups := YearTemps(records, month);
    YearLabelsDistinct(name);
    MeansEmpty(groups, YearLabels(name), |groups|);
    if |MonthMeans(records, month, name).keys| > 0 {
      var k :| 0 <= k < |groups| && |groups[k]| > 0;
      YearTempsNonEmpty(records, month, FirstYear + k);
    } else {
      forall y | FirstYear <= y <= LastYear ensures !HasData(records, y, month) {
        YearTempsNonEmpty(records, month, y);
      }
    }
  }

  /** Bounds on the minimum temperatures of the records are bounds on every yearly mean. */
  lemma {:induction false} MonthMeansWithin(records: seq<Record>, month: int, name: string, lo: real, hi: real)
    requires forall i :: 0 <= i < |records| ==> lo <= records[i].tempMin <= hi
    ensures forall i :: 0 <= i < |MonthMeans(records, month, name).Values()| ==>
      lo <= MonthMeans(records, month, name).Values()[i] <= hi
  {
    var groups := YearTemps(records, month);
    YearLabelsDistinct(name);
    forall k, j | 0 <= k < |groups| && 0 <= j < |groups[k]| ensures lo <= groups[k][j] <= hi {
      var rs := Matching(records, FirstYear + k, month);
      assert groups[k] == MinTemps(rs);
      MatchingMembers(records, FirstYear + k, month, rs[j]);
    }
    MeansWithin(groups, YearLabels(name), |groups|, lo, hi);
  }

  /**
   * The overall mean exists exactly when some year of the window has data, and
   * bounds on the minimum temperatures of the records are bounds on it.
   */
  lemma {:induction false} OverallMeanOfMonth(records: seq<Record>, month: int, name: string, lo: real, hi: real)
    requires forall i :: 0 <= i < |records| ==> lo <= records[i].tempMin <= hi
    ensures OverallMean(MonthMeans(records, month, name)).None? <==>
      forall y :: FirstYear <= y <= LastYear ==> !HasData(records, y, month)
    ensures OverallMean(MonthMeans(records, month, name)).Some? ==>
      lo <= OverallMean(MonthMeans(records, month, name)).value <= hi
  {
    var d := MonthMeans(records, month, name);
    MonthMeansEmpty(records, month, name);
    if |d.keys| > 0 {
      MonthMeansWithin(records, month, name, lo, hi);
      MeanBounds(d.Values(), lo, hi);
    }
  }
}
