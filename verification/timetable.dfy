/** The raw records of a train's timetable, as delivered by the train-log feed. */
module Timetable {
  import opened Wrappers

  /** Values of a row's `type` column. */
  const ARRIVAL: string := "ARRIVAL"
  const DEPARTURE: string := "DEPARTURE"

  /** One timetable row: a train's arrival at, or departure from, one station.
      Timestamps are abstracted to integers (minutes since a fixed epoch). */
  datatype Row = Row(
    stationShortCode: string,
    countryCode: string,
    eventType: string,
    trainStopping: bool,
    commercialStop: Option<bool>,
    cancelled: bool,
    scheduledTime: int,
    actualTime: Option<int>)

  /** One train run: its ordered timetable rows. */
  datatype Train = Train(timeTableRows: seq<Row>)

  /** The station code column of a list of rows, in order. */
  function StationCodes(rows: seq<Row>): seq<string>
  {
    seq(|rows|, i requires 0 <= i < |rows| => rows[i].stationShortCode)
  }

  /** The row's train stops at its station. */
  predicate IsStopping(r: Row) { r.trainStopping }

  /** Number of rows satisfying `p`. */
  function CountWhere(rows: seq<Row>, p: Row -> bool): (k: nat)
    ensures k <= |rows|
    ensures k == 0 <==> forall i :: 0 <= i < |rows| ==> !p(rows[i])
    ensures k == |rows| <==> forall i :: 0 <= i < |rows| ==> p(rows[i])
  {
    if |rows| == 0 then 0
    else CountWhere(rows[..|rows| - 1], p) + (if p(rows[|rows| - 1]) then 1 else 0)
  }

  /** The rows of all trains, one train after another (pandas `explode`). */
  function Flatten(tables: seq<seq<Row>>): seq<Row>
  {
    if |tables| == 0 then []
    else Flatten(tables[..|tables| - 1]) + tables[|tables| - 1]
  }

  /** Every row of every train occurs in the flattened rows. */
  lemma {:induction false} FlattenContains(tables: seq<seq<Row>>, t: nat, k: nat)
    requires t < |tables| && k < |tables[t]|
    ensures tables[t][k] in Flatten(tables)
    decreases |tables|
  {
    var last := |tables| - 1;
    if t < last {
      FlattenContains(tables[..last], t, k);
      assert tables[..last][t] == tables[t];
    } else {
      var f := Flatten(tables);
      assert f[|Flatten(tables[..last])| + k] == tables[t][k];
    }
  }
}
