/**
 * `parse_date`: reads a record's date text in one of two layouts, `dd/mm/yyyy`
 * first and `yyyy-mm-dd` second, and yields (year, month, day). No range check
 * is made on the month or the day.
 */
module Dates {
  import opened Wrappers
  import opened Text

  datatype Date = Date(year: int, month: int, day: int)

  /** The three integers of a split, or `None` when there are not exactly three pieces or one is not an integer. */
  function ThreeInts(fields: seq<string>): Option<(int, int, int)>
  {
    if |fields| != 3 then None
    else
      var a := ParseInt(fields[0]);
      var b := ParseInt(fields[1]);
      var c := ParseInt(fields[2]);
      if a.Some? && b.Some? && c.Some? then Some((a.value, b.value, c.value)) else None
  }

  /** The two layouts `parse_date` tries, in the order it tries them. */
  datatype Layout = DayMonthYear | YearMonthDay

  const Layouts: seq<Layout> := [DayMonthYear, YearMonthDay]

  /** The character a layout splits at. */
  function Separator(layout: Layout): char
  {
    match layout
    case DayMonthYear => '/'
    case YearMonthDay => '-'
  }

  /** Reading `s` in one layout: split at its separator, three integers in its order. */
  function Read(s: string, layout: Layout): Option<Date>
  {
    match ThreeInts(Split(s, Separator(layout)))
    case None => None
    case Some(t) =>
      match layout
      case DayMonthYear => Some(Date(t.2, t.1, t.0))
      case YearMonthDay => Some(Date(t.0, t.1, t.2))
  }

  /** The first of `layouts` that reads `s`, or `None` when none does. */
  function ReadAny(s: string, layouts: seq<Layout>): Option<Date>
    decreases |layouts|, 1
  {
    if |layouts| == 0 then None else ReadFirst(s, layouts)
  }

  /**
   * Try the first layout; only when it fails, go on with the others. The
   * recursion over the list keeps `ParseDate` from being unfolded into every
   * proof that mentions a date; `ParseDateSteps` gives its two-step form.
   */
  function ReadFirst(s: string, layouts: seq<Layout>): Option<Date>
    requires |layouts| > 0
    decreases |layouts|, 0
  {
    match Read(s, layouts[0])
    case Some(d) => Some(d)
    case None => ReadAny(s, layouts[1..])
  }

  /**
   * `parse_date(s)`: `None` stands for the `ValueError` raised when neither
   * layout fits.
   */
  function ParseDate(s: string): Option<Date>
  {
    ReadAny(s, Layouts)
  }

  /** `parse_date` tries `dd/mm/yyyy` and falls back to `yyyy-mm-dd` only when that fails. */
  lemma {:induction false} ParseDateSteps(s: string)
    ensures ParseDate(s) == match Read(s, DayMonthYear)
      case Some(d) => Some(d)
      case None => Read(s, YearMonthDay)
  {
    assert Layouts[1..] == [YearMonthDay];
    assert [YearMonthDay][1..] == [];
    assert ReadAny(s, []) == None;
    assert ReadFirst(s, [YearMonthDay]) == (match Read(s, YearMonthDay) case Some(d) => Some(d) case None => None);
    assert ReadAny(s, [YearMonthDay]) == ReadFirst(s, [YearMonthDay]);
    assert ReadAny(s, Layouts) == ReadFirst(s, Layouts);
  }

  /** A date can only be read from a text with exactly two slashes or exactly two hyphens. */
  lemma {:induction false} ReadableDateHasTwoSeparators(s: string)
    requires ParseDate(s).Some?
    ensures Count(s, '/') == 2 || Count(s, '-') == 2
  {
    ParseDateSteps(s);
    SplitPieces(s, '/');
    SplitPieces(s, '-');
  }

  /** The text of `d/m/y` written as the data files write it: `f"{d:02d}/{m:02d}/{y}"`. */
  function SlashText(day: int, month: int, year: int): string
  {
    Pad2(day) + "/" + Pad2(month) + "/" + Dec(year)
  }

  /** The text of `y-m-d` written as the data files write it: `f"{y}-{m:02d}-{d:02d}"`. */
  function DashText(year: int, month: int, day: int): string
  {
    Dec(year) + "-" + Pad2(month) + "-" + Pad2(day)
  }

  lemma {:induction false} DecWithout(n: int, c: char)
    requires c != '-' && !IsDigit(c)
    ensures c !in Dec(n) && c !in Pad2(n)
  {
    forall k | 0 <= k < |Dec(n)| ensures Dec(n)[k] != c {
      DecCharacters(n, k);
    }
  }

  lemma {:induction false} DecNatWithoutMinus(n: int)
    requires n >= 0
    ensures '-' !in Dec(n) && '-' !in Pad2(n)
  {
  }

  /** Any `dd/mm/yyyy` text reads back as (year, month, day), whatever the signs of the numbers. */
  lemma {:induction false} SlashLayout(day: int, month: int, year: int)
    ensures ParseDate(SlashText(day, month, year)) == Some(Date(year, month, day))
  {
    ParseDateSteps(SlashText(day, month, year));
    var fields := [Pad2(day), Pad2(month), Dec(year)];
    DecWithout(day, '/');
    DecWithout(month, '/');
    DecWithout(year, '/');
    Join3(Pad2(day), Pad2(month), Dec(year), '/');
    SplitJoin(fields, '/');
    ParsePad2(day);
    ParsePad2(month);
    ParseDec(year);
  }

  /** Any `yyyy-mm-dd` text of non-negative numbers reads back as (year, month, day). */
  lemma {:induction false} DashLayout(year: int, month: int, day: int)
    requires year >= 0 && month >= 0 && day >= 0
    ensures ParseDate(DashText(year, month, day)) == Some(Date(year, month, day))
  {
    ParseDateSteps(DashText(year, month, day));
    var s := DashText(year, month, day);
    var fields := [Dec(year), Pad2(month), Pad2(day)];
    DecWithout(year, '/');
    DecWithout(month, '/');
    DecWithout(day, '/');
    assert '/' !in s;
    SplitWithoutSeparator(s, '/');
    DecNatWithoutMinus(year);
    DecNatWithoutMinus(month);
    DecNatWithoutMinus(day);
    Join3(Dec(year), Pad2(month), Pad2(day), '-');
    SplitJoin(fields, '-');
    ParseDec(year);
    ParsePad2(month);
    ParsePad2(day);
  }

  /** The two layouts of the same calendar day give the same (year, month, day). */
  lemma {:induction false} LayoutsAgree(year: int, month: int, day: int)
    requires year >= 0 && month >= 0 && day >= 0
    ensures ParseDate(SlashText(day, month, year)) == ParseDate(DashText(year, month, day)) == Some(Date(year, month, day))
  {
    SlashLayout(day, month, year);
    DashLayout(year, month, day);
  }

  /** `str(y)` for the two years of the examples below. */
  lemma {:induction false} YearTexts()
    ensures Dec(2006) == "2006" && Dec(2020) == "2020"
  {
    assert DecNat(20) == "20";
    assert DecNat(200) == "200";
    assert DecNat(202) == "202";
  }

  /** "01/08/2006" and "2006-08-01" both read as 1 August 2006. */
  lemma {:induction false} AugustFirst2006()
    ensures ParseDate("01/08/2006") == ParseDate("2006-08-01") == Some(Date(2006, 8, 1))
  {
    SlashLayout(1, 8, 2006);
    DashLayout(2006, 8, 1);
    YearTexts();
    assert Pad2(1) == "01" && Pad2(8) == "08";
    assert SlashText(1, 8, 2006) == "01/08/2006";
    assert DashText(2006, 8, 1) == "2006-08-01";
  }

  /** No range check: "31/13/2020" reads as day 31 of month 13 of 2020. */
  lemma {:induction false} MonthThirteenAccepted()
    ensures ParseDate("31/13/2020") == Some(Date(2020, 13, 31))
  {
    SlashLayout(31, 13, 2020);
    YearTexts();
    assert SlashText(31, 13, 2020) == "31/13/2020";
  }

  lemma {:induction false} CountPositive(s: string, c: char)
    requires Count(s, c) > 0
    ensures exists k :: 0 <= k < |s| && s[k] == c
  {
    if s[0] != c {
      CountPositive(s[1..], c);
      var k :| 0 <= k < |s[1..]| && s[1..][k] == c;
      assert s[k + 1] == c;
    }
  }

  /** A character that can appear in no integer makes the split it lands in unreadable. */
  lemma {:induction false} NoThreeIntsWith(s: string, sep: char, k: nat)
    requires k < |s| && s[k] != sep
    requires !IsDigit(s[k]) && s[k] != '+' && s[k] != '-'
    ensures ThreeInts(Split(s, sep)) == None
  {
    SplitKeepsCharacters(s, sep, k);
    var fields := Split(s, sep);
    var i :| 0 <= i < |fields| && s[k] in fields[i];
    assert !IsIntLiteral(fields[i]);
  }

  /** A slash as such cannot be part of an integer either. */
  lemma {:induction false} NoThreeIntsWithSlash(s: string, k: nat)
    requires k < |s| && s[k] == '/'
    ensures ThreeInts(Split(s, '-')) == None
  {
    SplitKeepsCharacters(s, '-', k);
    var fields := Split(s, '-');
    var i :| 0 <= i < |fields| && '/' in fields[i];
    assert !IsIntLiteral(fields[i]);
  }

  /**
   * The two layouts never both fit: once the slash layout reads three integers
   * the text holds a slash, and the hyphen layout would see it inside a field.
   */
  lemma {:induction false} LayoutsExclusive(s: string)
    ensures ThreeInts(Split(s, '/')) == None || ThreeInts(Split(s, '-')) == None
  {
    if ThreeInts(Split(s, '/')).Some? {
      SplitPieces(s, '/');
      CountPositive(s, '/');
      var k :| 0 <= k < |s| && s[k] == '/';
      NoThreeIntsWithSlash(s, k);
    }
  }

  /**
   * With `int` as modelled (a sign and ASCII digits only), a character other
   * than a digit, a sign or a separator makes parsing fail.
   */
  lemma {:induction false} ForeignCharacterFails(s: string, k: nat)
    requires k < |s|
    requires !IsDigit(s[k]) && s[k] !in "+-/"
    ensures ParseDate(s) == None
  {
    ParseDateSteps(s);
    NoThreeIntsWith(s, '/', k);
    NoThreeIntsWith(s, '-', k);
  }

  /** A text with neither separator (such as "20060801") is never a date. */
  lemma {:induction false} NoSeparatorFails(s: string)
    requires '/' !in s && '-' !in s
    ensures ParseDate(s) == None
  {
    ParseDateSteps(s);
    SplitWithoutSeparator(s, '/');
    SplitWithoutSeparator(s, '-');
  }

  /** What the hyphen layout reads is never negative: a minus sign would have been taken as a separator. */
  lemma {:induction false} DashLayoutNonNegative(s: string)
    requires '/' !in s && ParseDate(s).Some?
    ensures ParseDate(s).value.year >= 0 && ParseDate(s).value.month >= 0 && ParseDate(s).value.day >= 0
  {
    ParseDateSteps(s);
    SplitWithoutSeparator(s, '/');
    SplitPieces(s, '-');
    var fields := Split(s, '-');
    assert '-' !in fields[0] && '-' !in fields[1] && '-' !in fields[2];
  }
}
