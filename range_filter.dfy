/**
 * The record selection of `visualizar_intervalo`: keep, in input order, the
 * records whose month lies between a start month/year and an end month/year,
 * both inclusive, comparing the integers `ano * 100 + mes`. Records whose date
 * cannot be read are skipped.
 */
module RangeFilter {
  import opened Wrappers
  import opened Dates
  import opened Records

  /** `ano * 100 + mes`: one integer per month, ordered like the calendar for months 1 to 12. */
  function MonthKey(year: int, month: int): int
  {
    year * 100 + month
  }

  /**
   * For real months the integer key orders months exactly as the calendar does,
   * and two months share a key only when they are the same month.
   */
  lemma {:induction false} MonthKeyIsChronological(y1: int, m1: int, y2: int, m2: int)
    requires 1 <= m1 <= 12 && 1 <= m2 <= 12
    ensures MonthKey(y1, m1) <= MonthKey(y2, m2) <==> y1 < y2 || (y1 == y2 && m1 <= m2)
    ensures MonthKey(y1, m1) == MonthKey(y2, m2) <==> y1 == y2 && m1 == m2
  {
    if y1 < y2 {
      assert MonthKey(y1, m1) <= MonthKey(y2 - 1, 12) < MonthKey(y2, 1);
    } else if y1 > y2 {
      assert MonthKey(y2, m2) <= MonthKey(y1 - 1, 12) < MonthKey(y1, 1);
    }
  }

  /** The test at line 101: the date reads, and its month key lies in `[start, end]`. */
  predicate InRange(r: Record, start: int, end: int)
  {
    match ParseDate(r.date)
    case None => false
    case Some(d) => start <= MonthKey(d.year, d.month) <= end
  }

  /** `registros_filtrados` once the loop has seen `records`. */
  function Filtered(records: seq<Record>, start: int, end: int): seq<Record>
  {
    if |records| == 0 then []
    else
      var last := records[|records| - 1];
      Filtered(records[..|records| - 1], start, end) + (if InRange(last, start, end) then [last] else [])
  }

  /**
   * Lines 76-78 and 90-102: `None` is the "Mês inválido!" answer to a start or
   * end month outside 1 to 12; otherwise the selected records.
   */
  method SelectInterval(records: seq<Record>, startMonth: int, startYear: int, endMonth: int, endYear: int)
    returns (selected: Option<seq<Record>>)
    ensures selected.None? <==> !(1 <= startMonth <= 12 && 1 <= endMonth <= 12)
    ensures selected.Some? ==>
      selected.value == Filtered(records, MonthKey(startYear, startMonth), MonthKey(endYear, endMonth))
  {
    if !(1 <= startMonth <= 12 && 1 <= endMonth <= 12) {
      return None;
    }
    var start := startYear * 100 + startMonth;
    var end := endYear * 100 + endMonth;
    var kept: seq<Record> := [];
    for i := 0 to |records|
      invariant kept == Filtered(records[..i], start, end)
    {
      assert records[..i + 1][..i] == records[..i];
      var r := records[i];
      match ParseDate(r.date) {
        case None =>
        case Some(d) =>
          var dateKey := d.year * 100 + d.month;
          if start <= dateKey <= end {
            kept := kept + [r];
          }
      }
    }
    assert records[..|records|] == records;
    return Some(kept);
  }

  /** A record is selected exactly when it is one of the input records and passes the test. */
  lemma {:induction false} FilteredMembers(records: seq<Record>, start: int, end: int, r: Record)
    ensures r in Filtered(records, start, end) <==> r in records && InRange(r, start, end)
  {
    if |records| > 0 {
      var front := records[..|records| - 1];
      FilteredMembers(front, start, end, r);
      assert records == front + [records[|records| - 1]];
    }
  }

  /** `a` is obtained from `b` by deleting elements, without reordering the rest. */
  ghost predicate IsSubsequence<T>(a: seq<T>, b: seq<T>)
    decreases |b|
  {
    if |a| == 0 then true
    else if |b| == 0 then false
    else
      || (a[|a| - 1] == b[|b| - 1] && IsSubsequence(a[..|a| - 1], b[..|b| - 1]))
      || IsSubsequence(a, b[..|b| - 1])
  }

  /** The selection keeps the input order: it is a subsequence of the input. */
  lemma {:induction false} FilteredIsSubsequence(records: seq<Record>, start: int, end: int)
    ensures IsSubsequence(Filtered(records, start, end), records)
  {
    if |records| > 0 {
      var front := records[..|records| - 1];
      FilteredIsSubsequence(front, start, end);
      var f := Filtered(records, start, end);
      if InRange(records[|records| - 1], start, end) {
        assert f[..|f| - 1] == Filtered(front, start, end);
      } else {
        assert f == Filtered(front, start, end);
      }
    }
  }

  /** Widening the interval never drops a record: the narrow selection is a subsequence of the wide one. */
  lemma {:induction false} WideningKeepsSelection(records: seq<Record>, start: int, end: int, wideStart: int, wideEnd: int)
    requires wideStart <= start && end <= wideEnd
    ensures IsSubsequence(Filtered(records, start, end), Filtered(records, wideStart, wideEnd))
  {
    if |records| > 0 {
      var front := records[..|records| - 1];
      var last := records[|records| - 1];
      WideningKeepsSelection(front, start, end, wideStart, wideEnd);
      var narrow := Filtered(records, start, end);
      var wide := Filtered(records, wideStart, wideEnd);
      if InRange(last, start, end) {
        assert narrow[..|narrow| - 1] == Filtered(front, start, end);
        assert wide[..|wide| - 1] == Filtered(front, wideStart, wideEnd);
      } else if InRange(last, wideStart, wideEnd) {
        assert narrow == Filtered(front, start, end);
        assert wide[..|wide| - 1] == Filtered(front, wideStart, wideEnd);
        assert IsSubsequence(narrow, wide[..|wide| - 1]);
      } else {
        assert narrow == Filtered(front, start, end);
        assert wide == Filtered(front, wideStart, wideEnd);
      }
    }
  }

  /** A start after the end selects nothing (it is not an error). */
  lemma {:induction false} EmptyWhenStartAfterEnd(records: seq<Record>, start: int, end: int)
    requires start > end
    ensures Filtered(records, start, end) == []
  {
    if |records| > 0 {
      EmptyWhenStartAfterEnd(records[..|records| - 1], start, end);
    }
  }

  /**
   * With months 1 to 12 on both bounds and in the record, selection is the
   * calendar comparison of (year, month) pairs, both ends included.
   */
  lemma {:induction false} InRangeIsCalendarInterval(r: Record, startMonth: int, startYear: int, endMonth: int, endYear: int)
    requires 1 <= startMonth <= 12 && 1 <= endMonth <= 12
    requires ParseDate(r.date).Some? && 1 <= ParseDate(r.date).value.month <= 12
    ensures
      var d := ParseDate(r.date).value;
      InRange(r, MonthKey(startYear, startMonth), MonthKey(endYear, endMonth)) <==>
        && (startYear < d.year || (startYear == d.year && startMonth <= d.month))
        && (d.year < endYear || (d.year == endYear && d.month <= endMonth))
  {
    var d := ParseDate(r.date).value;
    MonthKeyIsChronological(startYear, startMonth, d.year, d.month);
    MonthKeyIsChronological(d.year, d.month, endYear, endMonth);
  }
}
