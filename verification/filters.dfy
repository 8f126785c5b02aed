/** The frame filters of the plotting helpers: `filter_field_data` and
    `filter_weather_data`. */
module Filters {
  import opened Wrappers
  import opened Cells
  import opened Frames

  /** `df[df[column] == filter]`: the rows whose `column` equals `filter`, in
      their original order, under the same columns; `KeyError` without the column. */
  function FilterFieldData(df: Table, column: string, filter: Cell): (r: Result<Table, Error>)
    ensures r.Failure? <==> column !in df.columns
    ensures r.Failure? ==> r.error == MissingColumn(column)
    ensures r.Success? ==> r.value.columns == df.columns
    ensures r.Success? ==> r.value.rows == Select(df.rows, ColumnIs(column, filter))
    ensures r.Success? ==> forall x :: x in r.value.rows <==> x in df.rows && Matches(Get(x, column), filter)
    ensures r.Success? ==> forall x :: multiset(r.value.rows)[x] ==
                                      if Matches(Get(x, column), filter) then multiset(df.rows)[x] else 0
  {
    Where(df, ColumnIs(column, filter))
  }

  /** The mask of the weather filter: this station's rows measured as `Temperature`. */
  function TemperatureAt(stationId: Cell): (c: Cond)
    ensures forall row :: Holds(row, c) <==>
              Matches(Get(row, "Weather_station_ID"), stationId) && Get(row, "Measurement") == Text("Temperature")
  {
    Both(ColumnIs("Weather_station_ID", stationId), ColumnIs("Measurement", Text("Temperature")))
  }

  /** The `Value` of every `Temperature` reading of the station, in row order.
      The `measurement` argument is accepted and never read. */
  function FilterWeatherData(df: Table, stationId: Cell, measurement: string): (r: Result<seq<Cell>, Error>)
    ensures r.Failure? <==> !({"Weather_station_ID", "Measurement", "Value"} <= df.columns)
    ensures r.Failure? ==> r.error.name in {"Weather_station_ID", "Measurement", "Value"} - df.columns
    ensures "Weather_station_ID" !in df.columns ==> r == Failure(MissingColumn("Weather_station_ID"))
    ensures "Weather_station_ID" in df.columns && "Measurement" !in df.columns ==>
              r == Failure(MissingColumn("Measurement"))
    ensures r.Success? ==> r.value == Column(Select(df.rows, TemperatureAt(stationId)), "Value")
  {
    var mask := TemperatureAt(stationId);
    match Where(df, mask)
    case Failure(e) => Failure(e)
    case Success(selected) =>
      if "Value" !in df.columns then Failure(MissingColumn("Value"))
      else Success(Column(selected.rows, "Value"))
  }

  /** The field filter keeps row order: filtering two runs of rows gives the
      kept rows of the first run followed by those of the second. */
  lemma FieldFilterKeepsOrder(columns: set<string>, a: seq<Row>, b: seq<Row>, column: string, filter: Cell)
    requires column in columns
    ensures FilterFieldData(Table(columns, a + b), column, filter).value.rows ==
            FilterFieldData(Table(columns, a), column, filter).value.rows
            + FilterFieldData(Table(columns, b), column, filter).value.rows
  {
    SelectConcat(a, b, ColumnIs(column, filter));
  }

  /** The weather sample keeps row order: the sample of two runs of rows is the
      sample of the first run followed by the sample of the second. */
  lemma WeatherSampleKeepsOrder(columns: set<string>, a: seq<Row>, b: seq<Row>, stationId: Cell, measurement: string)
    requires {"Weather_station_ID", "Measurement", "Value"} <= columns
    ensures FilterWeatherData(Table(columns, a + b), stationId, measurement).value ==
            FilterWeatherData(Table(columns, a), stationId, measurement).value
            + FilterWeatherData(Table(columns, b), stationId, measurement).value
  {
    var mask := TemperatureAt(stationId);
    SelectConcat(a, b, mask);
    ColumnConcat(Select(a, mask), Select(b, mask), "Value");
  }

  /** The weather sample has one value per matching row, and its values are
      exactly the `Value` cells of this station's `Temperature` rows. */
  lemma WeatherSampleValues(df: Table, stationId: Cell, measurement: string)
    requires FilterWeatherData(df, stationId, measurement).Success?
    ensures |FilterWeatherData(df, stationId, measurement).value| == |Select(df.rows, TemperatureAt(stationId))|
    ensures forall v :: v in FilterWeatherData(df, stationId, measurement).value <==>
              exists row :: row in df.rows && Holds(row, TemperatureAt(stationId)) && Get(row, "Value") == v
  {
    ColumnOfSelect(df.rows, TemperatureAt(stationId), "Value");
  }

  /** Whatever measurement is asked for, the weather sample is the same. */
  lemma WeatherFilterIgnoresMeasurement(df: Table, stationId: Cell, m1: string, m2: string)
    ensures FilterWeatherData(df, stationId, m1) == FilterWeatherData(df, stationId, m2)
  {
  }
}
