/** The hypothesis comparator of the analysis script: its own field filter,
    the verdict rule, and the loop over stations and measurements. */
module Hypothesis {
  import opened Wrappers
  import opened Cells
  import opened Frames
  import Filters

  /** The field sample of a station: the `measurement` column of its rows,
      in row order; a `KeyError` names the first absent column. */
  function FilterFieldData(df: Table, stationId: Cell, measurement: string): (r: Result<seq<Cell>, Error>)
    ensures r.Failure? <==> "Weather_station" !in df.columns || measurement !in df.columns
    ensures r.Failure? ==>
              r.error == MissingColumn(if "Weather_station" !in df.columns then "Weather_station" else measurement)
    ensures r.Success? ==> r.value == Column(Select(df.rows, ColumnIs("Weather_station", stationId)), measurement)
  {
    var mask := ColumnIs("Weather_station", stationId);
    match Where(df, mask)
    case Failure(e) => Failure(e)
    case Success(selected) =>
      if measurement !in selected.columns then Failure(MissingColumn(measurement))
      else Success(Column(selected.rows, measurement))
  }

  /** The field sample has one value per row of the station, and its values are
      exactly the measurement cells of those rows. */
  lemma FieldSampleValues(df: Table, stationId: Cell, measurement: string)
    requires FilterFieldData(df, stationId, measurement).Success?
    ensures |FilterFieldData(df, stationId, measurement).value| == |Select(df.rows, ColumnIs("Weather_station", stationId))|
    ensures forall v :: v in FilterFieldData(df, stationId, measurement).value <==>
              exists row :: row in df.rows && Matches(Get(row, "Weather_station"), stationId)
                && Get(row, measurement) == v
  {
    ColumnOfSelect(df.rows, ColumnIs("Weather_station", stationId), measurement);
  }

  /** The field sample keeps row order: the sample of two runs of rows is the
      sample of the first run followed by the sample of the second. */
  lemma FieldSampleKeepsOrder(columns: set<string>, a: seq<Row>, b: seq<Row>, stationId: Cell, measurement: string)
    requires "Weather_station" in columns && measurement in columns
    ensures FilterFieldData(Table(columns, a + b), stationId, measurement).value ==
            FilterFieldData(Table(columns, a), stationId, measurement).value
            + FilterFieldData(Table(columns, b), stationId, measurement).value
  {
    var mask := ColumnIs("Weather_station", stationId);
    SelectConcat(a, b, mask);
    ColumnConcat(Select(a, mask), Select(b, mask), measurement);
  }

  /** The weather sample the script compares against is the station's
      `Temperature` readings, whichever measurement is being compared. */
  lemma WeatherSampleIsTemperature(df: Table, stationId: Cell, measurement: string)
    requires Filters.FilterWeatherData(df, stationId, measurement).Success?
    ensures Filters.FilterWeatherData(df, stationId, measurement)
            == Filters.FilterWeatherData(df, stationId, "Temperature")
    ensures forall v :: v in Filters.FilterWeatherData(df, stationId, measurement).value ==>
              exists row :: row in df.rows && Get(row, "Measurement") == Text("Temperature")
                && Matches(Get(row, "Weather_station_ID"), stationId) && Get(row, "Value") == v
  {
    Filters.WeatherFilterIgnoresMeasurement(df, stationId, measurement, "Temperature");
    Filters.WeatherSampleValues(df, stationId, measurement);
    var sample := Filters.FilterWeatherData(df, stationId, measurement).value;
    forall v | v in sample
      ensures exists row :: row in df.rows && Get(row, "Measurement") == Text("Temperature")
                && Matches(Get(row, "Weather_station_ID"), stationId) && Get(row, "Value") == v
    {
      var row :| row in df.rows && Holds(row, Filters.TemperatureAt(stationId)) && Get(row, "Value") == v;
    }
  }

  /** The p-value the test returns; a test on unusable samples returns NaN. */
  datatype PValue = Finite(p: real) | NaN

  datatype Decision = Rejected | NotRejected

  /** The threshold the comparator uses when none is given. */
  const DefaultAlpha: real := 0.05

  /** At the default threshold a p-value of exactly 0.05 is not rejected, and
      any smaller number is. */
  lemma DefaultAlphaBoundary(p: real)
    ensures Decide(Finite(0.05), DefaultAlpha) == NotRejected
    ensures p < 0.05 ==> Decide(Finite(p), DefaultAlpha) == Rejected
  {
  }

  /** The verdict rule: the null hypothesis is rejected exactly when the
      p-value is strictly below the threshold; NaN compares false. */
  function Decide(p: PValue, alpha: real): (d: Decision)
    ensures d == Rejected <==> p.Finite? && p.p < alpha
  {
    match p
    case Finite(x) => if x < alpha then Rejected else NotRejected
    case NaN => NotRejected
  }

  /** A rejection at one threshold is a rejection at every larger threshold. */
  lemma DecideMonotone(p: PValue, alpha: real, beta: real)
    requires alpha <= beta
    requires Decide(p, alpha) == Rejected
    ensures Decide(p, beta) == Rejected
  {
  }

  /** One line of the report: the station, the measurement, its p-value and the decision. */
  datatype Verdict = Verdict(station: Cell, measurement: string, pValue: PValue, decision: Decision)

  /** The block printed under one station header. */
  datatype StationBlock = StationBlock(station: Cell, verdicts: seq<Verdict>)

  /** The two-sample test, weather sample first; a parameter of the model. */
  type TTest = (seq<Cell>, seq<Cell>) -> PValue

  /** The weather frame has the three columns its filter reads. */
  predicate WeatherReady(weather: Table) {
    {"Weather_station_ID", "Measurement", "Value"} <= weather.columns
  }

  /** Comparing `measurement` at any station raises: the failure does not depend on the station. */
  predicate PairFails(field: Table, weather: Table, measurement: string) {
    !WeatherReady(weather) || "Weather_station" !in field.columns || measurement !in field.columns
  }

  /** One station and one measurement: weather sample, field sample, test, verdict. */
  function Compare(field: Table, weather: Table, station: Cell, measurement: string, alpha: real, test: TTest)
    : (r: Result<Verdict, Error>)
    ensures r.Failure? <==> PairFails(field, weather, measurement)
  {
    var w :- Filters.FilterWeatherData(weather, station, measurement);
    var f :- FilterFieldData(field, station, measurement);
    var p := test(w, f);
    Success(Verdict(station, measurement, p, Decide(p, alpha)))
  }

  /** A verdict carries the test's p-value on the weather sample and the field
      sample of the pair, and rejects exactly when that p-value is below `alpha`. */
  lemma CompareVerdict(field: Table, weather: Table, station: Cell, measurement: string, alpha: real, test: TTest)
    requires !PairFails(field, weather, measurement)
    ensures
      var w := Filters.FilterWeatherData(weather, station, measurement);
      var f := FilterFieldData(field, station, measurement);
      var r := Compare(field, weather, station, measurement, alpha, test);
      && w.Success? && f.Success? && r.Success?
      && r.value.station == station && r.value.measurement == measurement
      && r.value.pValue == test(w.value, f.value)
      && (r.value.decision == Rejected <==> test(w.value, f.value).Finite? && test(w.value, f.value).p < alpha)
  {
  }

  /** The inner loop: one verdict per requested measurement, in list order. */
  function StationVerdicts(field: Table, weather: Table, station: Cell, measurements: seq<string>,
                           alpha: real, test: TTest): (r: Result<seq<Verdict>, Error>)
    ensures r.Failure? <==> exists j :: 0 <= j < |measurements| && PairFails(field, weather, measurements[j])
    ensures r.Success? ==> |r.value| == |measurements|
    ensures r.Success? ==> forall j :: 0 <= j < |measurements| ==>
              Compare(field, weather, station, measurements[j], alpha, test) == Success(r.value[j])
  {
    if measurements == [] then Success([])
    else
      var tail := measurements[1..];
      var first := Compare(field, weather, station, measurements[0], alpha, test);
      var rest := StationVerdicts(field, weather, station, tail, alpha, test);
      SomePairFailsSplit(field, weather, measurements);
      if first.Failure? then Failure(first.error)
      else if rest.Failure? then Failure(rest.error)
      else
        ConsVerdicts(field, weather, station, measurements, alpha, test, first.value, rest.value);
        Success([first.value] + rest.value)
  }

  /** The verdict for the first measurement followed by those for the rest
      are, position by position, the verdicts for the whole list. */
  lemma ConsVerdicts(field: Table, weather: Table, station: Cell, measurements: seq<string>, alpha: real,
                     test: TTest, first: Verdict, rest: seq<Verdict>)
    requires |measurements| > 0 && |rest| == |measurements| - 1
    requires Compare(field, weather, station, measurements[0], alpha, test) == Success(first)
    requires forall j :: 0 <= j < |rest| ==>
               Compare(field, weather, station, measurements[1..][j], alpha, test) == Success(rest[j])
    ensures forall j :: 0 <= j < |measurements| ==>
              Compare(field, weather, station, measurements[j], alpha, test) == Success(([first] + rest)[j])
  {
    forall j | 0 <= j < |measurements|
      ensures Compare(field, weather, station, measurements[j], alpha, test) == Success(([first] + rest)[j])
    {
      if j > 0 {
        assert measurements[j] == measurements[1..][j - 1];
      }
    }
  }

  /** Some measurement of a non-empty list fails exactly when the first one
      does or some later one does. */
  lemma SomePairFailsSplit(field: Table, weather: Table, measurements: seq<string>)
    requires |measurements| > 0
    ensures (exists j :: 0 <= j < |measurements| && PairFails(field, weather, measurements[j]))
            <==> PairFails(field, weather, measurements[0])
                 || exists j :: 0 <= j < |measurements[1..]| && PairFails(field, weather, measurements[1..][j])
  {
    var tail := measurements[1..];
    if exists j :: 0 <= j < |tail| && PairFails(field, weather, tail[j]) {
      var j :| 0 <= j < |tail| && PairFails(field, weather, tail[j]);
      assert measurements[j + 1] == tail[j];
    }
    if exists j :: 0 <= j < |measurements| && PairFails(field, weather, measurements[j]) {
      var j :| 0 <= j < |measurements| && PairFails(field, weather, measurements[j]);
      if j > 0 {
        assert tail[j - 1] == measurements[j];
      }
    }
  }

  /** The outer loop: one block per station, in the order given. */
  function Blocks(field: Table, weather: Table, stations: seq<Cell>, measurements: seq<string>,
                  alpha: real, test: TTest): (r: Result<seq<StationBlock>, Error>)
    ensures r.Failure? <==>
              |stations| > 0 && exists j :: 0 <= j < |measurements| && PairFails(field, weather, measurements[j])
    ensures r.Success? ==> |r.value| == |stations|
    ensures r.Success? ==> forall i :: 0 <= i < |stations| ==>
              && r.value[i].station == stations[i]
              && StationVerdicts(field, weather, stations[i], measurements, alpha, test) == Success(r.value[i].verdicts)
  {
    if stations == [] then Success([])
    else
      var vs :- StationVerdicts(field, weather, stations[0], measurements, alpha, test);
      match Blocks(field, weather, stations[1..], measurements, alpha, test)
      case Failure(e) => Failure(e)
      case Success(rest) =>
        assert forall i :: 1 <= i < |stations| ==> stations[i] == stations[1..][i - 1];
        Success([StationBlock(stations[0], vs)] + rest)
  }

  /** The distinct stations of the field frame, in order of first appearance. */
  function Stations(field: Table): (r: seq<Cell>)
    ensures forall x :: x in r <==> x in Column(field.rows, "Weather_station")
    ensures forall x :: x in r <==> exists row :: row in field.rows && Get(row, "Weather_station") == x
    ensures forall i, j :: 0 <= i < j < |r| ==> r[i] != r[j]
    ensures forall i, j :: 0 <= i < j < |r| ==>
              FirstIndex(Column(field.rows, "Weather_station"), r[i])
              < FirstIndex(Column(field.rows, "Weather_station"), r[j])
  {
    var column := Column(field.rows, "Weather_station");
    assert forall x :: x in column <==> exists row :: row in field.rows && Get(row, "Weather_station") == x by {
      forall x
        ensures x in column <==> exists row :: row in field.rows && Get(row, "Weather_station") == x
      {
        if exists row :: row in field.rows && Get(row, "Weather_station") == x {
          var row :| row in field.rows && Get(row, "Weather_station") == x;
          var i :| 0 <= i < |field.rows| && field.rows[i] == row;
          assert column[i] == x;
        }
      }
    }
    Unique(column)
  }

  /** `hypothesis_results`: for every distinct station, one verdict per
      requested measurement. Without a `Weather_station` column the script
      raises before any output; with no stations nothing else is read. */
  function HypothesisResults(field: Table, weather: Table, measurements: seq<string>,
                             alpha: real, test: TTest): (r: Result<seq<StationBlock>, Error>)
    ensures r.Failure? <==>
              || "Weather_station" !in field.columns
              || (|Stations(field)| > 0 && !WeatherReady(weather) && |measurements| > 0)
              || (|Stations(field)| > 0 && exists j :: 0 <= j < |measurements| && measurements[j] !in field.columns)
    ensures "Weather_station" !in field.columns ==> r == Failure(MissingColumn("Weather_station"))
    ensures r.Success? ==> |r.value| == |Stations(field)|
    ensures r.Success? ==> forall i :: 0 <= i < |r.value| ==>
              && r.value[i].station == Stations(field)[i]
              && |r.value[i].verdicts| == |measurements|
              && forall j :: 0 <= j < |measurements| ==>
                   && r.value[i].verdicts[j].station == Stations(field)[i]
                   && r.value[i].verdicts[j].measurement == measurements[j]
                   && Compare(field, weather, Stations(field)[i], measurements[j], alpha, test)
                      == Success(r.value[i].verdicts[j])
                   && (r.value[i].verdicts[j].decision == Rejected <==>
                         r.value[i].verdicts[j].pValue.Finite? && r.value[i].verdicts[j].pValue.p < alpha)
  {
    if "Weather_station" !in field.columns then Failure(MissingColumn("Weather_station"))
    else
      var r := Blocks(field, weather, Stations(field), measurements, alpha, test);
      assert |measurements| > 0 ==> PairFails(field, weather, measurements[0]) || WeatherReady(weather);
      r
  }

  /** Every p-value in a completed run is the test applied to that station's
      weather sample and field sample for that measurement. */
  lemma VerdictPValues(field: Table, weather: Table, measurements: seq<string>, alpha: real, test: TTest,
                       i: nat, j: nat)
    requires HypothesisResults(field, weather, measurements, alpha, test).Success?
    requires i < |Stations(field)| && j < |measurements|
    ensures
      var v := HypothesisResults(field, weather, measurements, alpha, test).value[i].verdicts[j];
      var w := Filters.FilterWeatherData(weather, Stations(field)[i], measurements[j]);
      var f := FilterFieldData(field, Stations(field)[i], measurements[j]);
      && w.Success? && f.Success?
      && v.pValue == test(w.value, f.value)
      && (v.decision == Rejected <==> test(w.value, f.value).Finite? && test(w.value, f.value).p < alpha)
  {
    var r := HypothesisResults(field, weather, measurements, alpha, test);
    assert Compare(field, weather, Stations(field)[i], measurements[j], alpha, test) == Success(r.value[i].verdicts[j]);
    CompareVerdict(field, weather, Stations(field)[i], measurements[j], alpha, test);
  }

  /** The total number of verdicts in a report. */
  function VerdictCount(blocks: seq<StationBlock>): nat {
    if blocks == [] then 0 else |blocks[0].verdicts| + VerdictCount(blocks[1..])
  }

  /** Blocks of equal width hold `width` verdicts each. */
  lemma {:induction false} VerdictCountUniform(blocks: seq<StationBlock>, width: nat)
    requires forall i :: 0 <= i < |blocks| ==> |blocks[i].verdicts| == width
    ensures VerdictCount(blocks) == |blocks| * width
  {
    if blocks != [] {
      VerdictCountUniform(blocks[1..], width);
    }
  }

  /** A completed run reports exactly stations times measurements verdicts. */
  lemma VerdictTotal(field: Table, weather: Table, measurements: seq<string>, alpha: real, test: TTest)
    requires HypothesisResults(field, weather, measurements, alpha, test).Success?
    ensures VerdictCount(HypothesisResults(field, weather, measurements, alpha, test).value)
            == |Stations(field)| * |measurements|
  {
    VerdictCountUniform(HypothesisResults(field, weather, measurements, alpha, test).value, |measurements|);
  }
}
