/**
 * `mes_mais_chuvoso`: sums daily precipitation per month/year in a dict keyed
 * `f"{mes:02d}/{ano}"`, skipping records whose date does not read, and picks the
 * bucket with the greatest total with `max(d, key=d.get)`.
 */
module Rainfall {
  import opened Wrappers
  import opened Text
  import opened Dates
  import opened Records
  import opened Dicts
  import opened RealSeqs
  import opened Buckets

  /** `f"{mes:02d}/{ano}"`, the key of a month's bucket. */
  function BucketKey(month: int, year: int): string
  {
    Pad2(month) + "/" + Dec(year)
  }

  /** A bucket key splits at its slash into two pieces that read back as the month and the year. */
  lemma {:induction false} BucketKeyReadsBack(month: int, year: int)
    ensures Split(BucketKey(month, year), '/') == [Pad2(month), Dec(year)]
    ensures ParseInt(Pad2(month)) == Some(month) && ParseInt(Dec(year)) == Some(year)
  {
    DecWithout(month, '/');
    DecWithout(year, '/');
    assert [Pad2(month), Dec(year)][1..] == [Dec(year)];
    assert Join([Pad2(month), Dec(year)], '/') == BucketKey(month, year);
    SplitJoin([Pad2(month), Dec(year)], '/');
    ParsePad2(month);
    ParseDec(year);
  }

  /** Two months share a bucket only when they are the same month of the same year. */
  lemma {:induction false} BucketKeyInjective(m1: int, y1: int, m2: int, y2: int)
    ensures BucketKey(m1, y1) == BucketKey(m2, y2) <==> m1 == m2 && y1 == y2
  {
    BucketKeyReadsBack(m1, y1);
    BucketKeyReadsBack(m2, y2);
  }

  /** The bucket a record adds to, or `None` when its date does not read. */
  function KeyOf(r: Record): Option<string>
  {
    match ParseDate(r.date)
    case None => None
    case Some(d) => Some(BucketKey(d.month, d.year))
  }

  /** What the loop makes of each record: its bucket (`None` when skipped) and its precipitation. */
  function Entries(records: seq<Record>): (entries: seq<Entry<string>>)
    ensures |entries| == |records|
  {
    if |records| == 0 then []
    else
      var r := records[|records| - 1];
      Entries(records[..|records| - 1]) + [(KeyOf(r), r.precipitation)]
  }

  lemma {:induction false} EntriesAt(records: seq<Record>, i: nat)
    requires i < |records|
    ensures Entries(records)[i] == (KeyOf(records[i]), records[i].precipitation)
  {
    if i < |records| - 1 {
      EntriesAt(records[..|records| - 1], i);
    }
  }

  /** One more record adds its entry to the dict of the records before it. */
  lemma {:induction false} GroupedStep(records: seq<Record>, i: nat)
    requires i < |records|
    ensures Grouped(Entries(records[..i + 1])) ==
      Add(Grouped(Entries(records[..i])), (KeyOf(records[i]), records[i].precipitation))
  {
    assert records[..i + 1][..i] == records[..i];
    var entries := Entries(records[..i + 1]);
    assert entries == Entries(records[..i]) + [(KeyOf(records[i]), records[i].precipitation)];
    assert entries[..i] == Entries(records[..i]);
  }

  /** Lines 130-137: the loop that fills `precip_por_mes`, one bucket per month/year met. */
  method AccumulatePrecipitation(records: seq<Record>) returns (totals: Dict<string, real>)
    ensures totals == Grouped(Entries(records))
  {
    totals := Empty();
    for i := 0 to |records|
      invariant totals == Grouped(Entries(records[..i]))
    {
      GroupedStep(records, i);
      totals := Add(totals, (KeyOf(records[i]), records[i].precipitation));
    }
    assert records[..|records|] == records;
  }

  // ---------------------------------------------------------------------------
  // Reference definitions, record by record
  // ---------------------------------------------------------------------------

  /** Some record falls in the bucket `key`. */
  ghost predicate Seen(records: seq<Record>, key: string)
  {
    exists i :: 0 <= i < |records| && KeyOf(records[i]) == Some(key)
  }

  /** Total precipitation of the records that fall in the bucket `key`. */
  function KeyTotal(records: seq<Record>, key: string): real
  {
    if |records| == 0 then 0.0
    else
      var r := records[|records| - 1];
      KeyTotal(records[..|records| - 1], key) + (if KeyOf(r) == Some(key) then r.precipitation else 0.0)
  }

  /** Total precipitation of the records dated in month `month` of year `year`. */
  function MonthTotal(records: seq<Record>, month: int, year: int): real
  {
    if |records| == 0 then 0.0
    else
      var r := records[|records| - 1];
      MonthTotal(records[..|records| - 1], month, year) +
        (match ParseDate(r.date)
         case Some(d) => if d.month == month && d.year == year then r.precipitation else 0.0
         case None => 0.0)
  }

  /** Total precipitation of all records whose date reads. */
  function ReadableTotal(records: seq<Record>): real
  {
    if |records| == 0 then 0.0
    else
      var r := records[|records| - 1];
      ReadableTotal(records[..|records| - 1]) + (if ParseDate(r.date).Some? then r.precipitation else 0.0)
  }

  lemma {:induction false} SeenIsSeenEntry(records: seq<Record>, key: string)
    ensures Seen(records, key) <==> Buckets.Seen(Entries(records), key)
  {
    if Seen(records, key) {
      var i :| 0 <= i < |records| && KeyOf(records[i]) == Some(key);
      EntriesAt(records, i);
    }
    if Buckets.Seen(Entries(records), key) {
      var i :| 0 <= i < |records| && Entries(records)[i].0 == Some(key);
      EntriesAt(records, i);
    }
  }

  lemma {:induction false} KeyTotalIsTotal(records: seq<Record>, key: string)
    ensures KeyTotal(records, key) == Total(Entries(records), key)
  {
    if |records| > 0 {
      KeyTotalIsTotal(records[..|records| - 1], key);
      assert Entries(records)[..|records| - 1] == Entries(records[..|records| - 1]);
    }
  }

  lemma {:induction false} ReadableTotalIsKeptTotal(records: seq<Record>)
    ensures ReadableTotal(records) == KeptTotal(Entries(records))
  {
    if |records| > 0 {
      ReadableTotalIsKeptTotal(records[..|records| - 1]);
      assert Entries(records)[..|records| - 1] == Entries(records[..|records| - 1]);
    }
  }

  // ---------------------------------------------------------------------------
  // What the buckets hold
  // ---------------------------------------------------------------------------

  /**
   * A bucket exists exactly for the keys some record falls in, and holds the
   * total precipitation of those records; records whose date does not read
   * fall in no bucket.
   */
  lemma {:induction false} BucketsAreTotals(records: seq<Record>, key: string)
    ensures key in Grouped(Entries(records)).items <==> Seen(records, key)
    ensures key in Grouped(Entries(records)).items ==> Grouped(Entries(records)).items[key] == KeyTotal(records, key)
    ensures key !in Grouped(Entries(records)).items ==> KeyTotal(records, key) == 0.0
  {
    GroupedTotals(Entries(records), key);
    SeenIsSeenEntry(records, key);
    KeyTotalIsTotal(records, key);
  }

  /** Bucket keys and (month, year) pairs correspond one to one, so each bucket is one calendar month's total. */
  lemma {:induction false} KeyTotalIsMonthTotal(records: seq<Record>, month: int, year: int)
    ensures KeyTotal(records, BucketKey(month, year)) == MonthTotal(records, month, year)
  {
    if |records| > 0 {
      KeyTotalIsMonthTotal(records[..|records| - 1], month, year);
      var r := records[|records| - 1];
      match ParseDate(r.date) {
        case None =>
        case Some(d) => BucketKeyInjective(d.month, d.year, month, year);
      }
    }
  }

  /**
   * The bucket of month `month` of year `year` exists exactly when some record
   * is dated in that month, and holds the precipitation of exactly those records.
   */
  lemma {:induction false} BucketOfMonth(records: seq<Record>, month: int, year: int)
    ensures BucketKey(month, year) in Grouped(Entries(records)).items <==>
      exists i :: 0 <= i < |records| && ParseDate(records[i].date).Some? &&
        ParseDate(records[i].date).value.month == month && ParseDate(records[i].date).value.year == year
    ensures BucketKey(month, year) in Grouped(Entries(records)).items ==>
      Grouped(Entries(records)).items[BucketKey(month, year)] == MonthTotal(records, month, year)
  {
    var key := BucketKey(month, year);
    BucketsAreTotals(records, key);
    KeyTotalIsMonthTotal(records, month, year);
    if Seen(records, key) {
      var i :| 0 <= i < |records| && KeyOf(records[i]) == Some(key);
      var d := ParseDate(records[i].date).value;
      BucketKeyInjective(d.month, d.year, month, year);
    }
    if exists i :: 0 <= i < |records| && ParseDate(records[i].date).Some? &&
        ParseDate(records[i].date).value.month == month && ParseDate(records[i].date).value.year == year {
      var i :| 0 <= i < |records| && ParseDate(records[i].date).Some? &&
        ParseDate(records[i].date).value.month == month && ParseDate(records[i].date).value.year == year;
      assert KeyOf(records[i]) == Some(key);
    }
  }

  /** Nothing is lost or counted twice: the buckets add up to the precipitation of all readable records. */
  lemma {:induction false} TotalsConserved(records: seq<Record>)
    ensures Sum(Grouped(Entries(records)).Values()) == ReadableTotal(records)
  {
    GroupedConserves(Entries(records));
    ReadableTotalIsKeptTotal(records);
  }

  /** The dict lists bucket keys in the order of their first records. */
  lemma {:induction false} KeysInOrderOfFirstRecord(records: seq<Record>, i: nat, j: nat, q: nat)
    requires i < j < |Grouped(Entries(records)).keys|
    requires q < |records| && KeyOf(records[q]) == Some(Grouped(Entries(records)).keys[j])
    ensures exists p :: 0 <= p < q && KeyOf(records[p]) == Some(Grouped(Entries(records)).keys[i])
  {
    var entries := Entries(records);
    EntriesAt(records, q);
    KeysInOrderOfFirstEntry(entries, i, j, q);
    var p :| 0 <= p < q && entries[p].0 == Some(Grouped(entries).keys[i]);
    EntriesAt(records, p);
  }

  /** When the chosen key only loses to earlier keys, another key with the same value comes after it. */
  lemma {:induction false} TieGoesToEarlier<K>(d: Dict<K, real>, best: K, k: K) returns (i: nat, j: nat)
    requires d.Valid() && best in d.items && k in d.items && k != best && d.items[k] == d.items[best]
    requires forall i, j :: 0 <= j < i < |d.keys| && d.keys[i] == best ==> d.items[d.keys[j]] < d.items[best]
    ensures i < j < |d.keys| && d.keys[i] == best && d.keys[j] == k
  {
    i :| 0 <= i < |d.keys| && d.keys[i] == best;
    j :| 0 <= j < |d.keys| && d.keys[j] == k;
  }

  /** The dict has no bucket exactly when no record's date reads. */
  lemma {:induction false} NoBuckets(records: seq<Record>)
    ensures |Grouped(Entries(records)).keys| == 0 <==> forall i :: 0 <= i < |records| ==> ParseDate(records[i].date).None?
  {
    var totals := Grouped(Entries(records));
    if |totals.keys| == 0 {
      forall i | 0 <= i < |records| ensures ParseDate(records[i].date).None? {
        if ParseDate(records[i].date).Some? {
          BucketsAreTotals(records, KeyOf(records[i]).value);
          assert false;
        }
      }
    } else {
      assert totals.keys[0] in totals.items;
      BucketsAreTotals(records, totals.keys[0]);
      var i :| 0 <= i < |records| && KeyOf(records[i]) == Some(totals.keys[0]);
      assert ParseDate(records[i].date).Some?;
    }
  }

  /** A bucket with the greatest value holds at least the total of every month met in the records. */
  lemma {:induction false} RainiestBeatsAll(records: seq<Record>, best: string)
    requires best in Grouped(Entries(records)).items
    requires forall k :: k in Grouped(Entries(records)).items ==>
      Grouped(Entries(records)).items[k] <= Grouped(Entries(records)).items[best]
    ensures forall k :: Seen(records, k) ==> KeyTotal(records, k) <= KeyTotal(records, best)
  {
    BucketsAreTotals(records, best);
    forall k | Seen(records, k) ensures KeyTotal(records, k) <= KeyTotal(records, best) {
      BucketsAreTotals(records, k);
    }
  }

  /**
   * A bucket chosen as `max` chooses, one that only loses to earlier keys, had
   * a record before the first record of any other bucket with the same total.
   */
  lemma {:induction false} RainiestTieBreak(records: seq<Record>, best: string)
    requires best in Grouped(Entries(records)).items
    requires forall i, j :: 0 <= j < i < |Grouped(Entries(records)).keys| && Grouped(Entries(records)).keys[i] == best ==>
      Grouped(Entries(records)).items[Grouped(Entries(records)).keys[j]] < Grouped(Entries(records)).items[best]
    ensures forall k, q ::
      (0 <= q < |records| && KeyOf(records[q]) == Some(k) && k != best && KeyTotal(records, k) == KeyTotal(records, best)) ==>
      exists p :: 0 <= p < q && KeyOf(records[p]) == Some(best)
  {
    var totals := Grouped(Entries(records));
    BucketsAreTotals(records, best);
    forall k, q | 0 <= q < |records| && KeyOf(records[q]) == Some(k) && k != best &&
        KeyTotal(records, k) == KeyTotal(records, best)
      ensures exists p :: 0 <= p < q && KeyOf(records[p]) == Some(best)
    {
      BucketsAreTotals(records, k);
      var i, j := TieGoesToEarlier(totals, best, k);
      KeysInOrderOfFirstRecord(records, i, j, q);
    }
  }

  // ---------------------------------------------------------------------------
  // max(d, key=d.get)
  // ---------------------------------------------------------------------------

  /**
   * Line 140, `max(d, key=d.get)`: a key with the greatest value; among equal
   * values the one met first in iteration order, since `max` replaces its
   * current choice only by a strictly greater one.
   */
  method MaxByValue(d: Dict<string, real>) returns (best: string)
    requires d.Valid() && |d.keys| > 0
    ensures best in d.items
    ensures forall k :: k in d.items ==> d.items[k] <= d.items[best]
    ensures forall i, j :: 0 <= j < i < |d.keys| && d.keys[i] == best ==> d.items[d.keys[j]] < d.items[best]
  {
    ghost var pos := 0;
    best := d.keys[0];
    for i := 1 to |d.keys|
      invariant 0 <= pos < i
      invariant best == d.keys[pos]
      invariant forall j :: 0 <= j < i ==> d.items[d.keys[j]] <= d.items[best]
      invariant forall j :: 0 <= j < pos ==> d.items[d.keys[j]] < d.items[best]
    {
      if d.items[d.keys[i]] > d.items[best] {
        best := d.keys[i];
        pos := i;
      }
    }
  }

  /**
   * Lines 130-143. `None` is the "no data" branch, taken exactly when no
   * record's date reads; otherwise the rainiest bucket's key and total. Its
   * total is at least every other bucket's, and a bucket with the same total
   * loses to it only if the chosen one had a record earlier in the data.
   */
  method RainiestMonth(records: seq<Record>) returns (result: Option<(string, real)>)
    ensures result.None? <==> forall i :: 0 <= i < |records| ==> ParseDate(records[i].date).None?
    ensures result.Some? ==> Seen(records, result.value.0) && result.value.1 == KeyTotal(records, result.value.0)
    ensures result.Some? ==> forall k :: Seen(records, k) ==> KeyTotal(records, k) <= result.value.1
    ensures result.Some? ==>
      forall k, q ::
        (0 <= q < |records| && KeyOf(records[q]) == Some(k) && k != result.value.0 &&
         KeyTotal(records, k) == result.value.1) ==>
        exists p :: 0 <= p < q && KeyOf(records[p]) == Some(result.value.0)
  {
    var totals := AccumulatePrecipitation(records);
    NoBuckets(records);
    if |totals.keys| == 0 {
      return None;
    }
    var best := MaxByValue(totals);
    BucketsAreTotals(records, best);
    RainiestBeatsAll(records, best);
    RainiestTieBreak(records, best);
    return Some((best, totals.items[best]));
  }
}
