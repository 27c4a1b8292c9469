/** The fixed table of Portuguese month names (`MESES`). */
module Months {
  import opened Wrappers
  import opened Text

  const MonthNumber: map<string, int> := map[
    "janeiro" := 1, "fevereiro" := 2, "março" := 3, "abril" := 4,
    "maio" := 5, "junho" := 6, "julho" := 7, "agosto" := 8,
    "setembro" := 9, "outubro" := 10, "novembro" := 11, "dezembro" := 12
  ]

  /** `MESES[name]` when the name is in the table, `None` (the "Mês inválido!" branch) otherwise. */
  function MonthOf(name: string): (r: Option<int>)
    ensures r.Some? <==> name in MonthNumber
    ensures r.Some? ==> 1 <= r.value <= 12
  {
    if name in MonthNumber then Some(MonthNumber[name]) else None
  }

  /** The month names in calendar order: `MonthNames[n - 1]` is the name of month `n`. */
  const MonthNames: seq<string> := [
    "janeiro", "fevereiro", "março", "abril", "maio", "junho",
    "julho", "agosto", "setembro", "outubro", "novembro", "dezembro"
  ]

  /** Every month number 1 to 12 has a name in the table, and that name maps back to it. */
  lemma {:induction false} NumberToNameToNumber(n: int)
    requires 1 <= n <= 12
    ensures MonthNames[n - 1] in MonthNumber && MonthNumber[MonthNames[n - 1]] == n
  {
  }

  /** Every name in the table is the name of the month it maps to, so no two names share a number. */
  lemma {:induction false} NameToNumberToName(name: string)
    requires name in MonthNumber
    ensures MonthNames[MonthNumber[name] - 1] == name
  {
  }

  /** No month name starts with a digit or a minus sign, so it cannot run into the digits of a year. */
  lemma {:induction false} MonthNameStartsWithLetter(name: string)
    requires name in MonthNumber
    ensures |name| > 0 && !IsDigit(name[0]) && name[0] != '-'
  {
  }
}
