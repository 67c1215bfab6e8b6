/** The column layouts of the observation and forecast files: which column
    holds the time stamp and which the value, the separator, the unit, and
    for forecasts the lead time of the first row. */
module MetaData {
  datatype ObservationMetaData = ObservationMetaData(
    ObservationTimeIndex: int,
    ObservationValueIndex: int,
    ObservationSep: char,
    ObservationUnitType: string,
    NormalizationValue: real)

  datatype ForecastMetaData = ForecastMetaData(
    ForecastTimeIndex: int,
    ForecastValueIndex: int,
    OffsetHoursAhead: int,
    ForecastSep: char,
    ForecastUnitType: string)
}
