/** The climate record as the loader hands it over: the raw date text and five measurements. */
module Records {

  /**
   * One line of the data file (`data`, `precipitacao`, `temp_max`, `temp_min`,
   * `umidade`, `vento`). The date is kept as text and parsed on demand; the
   * measurements are reals, rounding of Python floats being abstracted away.
   */
  datatype Record = Record(
    date: string,
    precipitation: real,
    tempMax: real,
    tempMin: real,
    humidity: real,
    wind: real)
}
