/** Network nodes: timetable rows grouped by station, with per-station statistics. */
module Nodes {
  import opened Wrappers
  import opened Timetable

  /** An exact proportion `num / den` of a station's rows. */
  datatype Ratio = Ratio(num: nat, den: nat) {
    /** The proportion as a real number. */
    function Value(): real
      requires den > 0
    {
      num as real / den as real
    }
  }

  /** The attributes of one station node (`avgDiff` and the station metadata are not modelled). */
  datatype Node = Node(
    countryCode: string,
    counts: nat,
    stopFreq: Ratio,
    commercialFreq: Ratio,
    cancelledFreq: Ratio,
    typeArrivalFreq: Ratio,
    typeDepartureFreq: Ratio)

  /** A missing `commercialStop` compares unequal to `True`. */
  predicate IsCommercial(r: Row) { r.commercialStop == Some(true) }
  predicate IsCancelled(r: Row) { r.cancelled }
  predicate IsArrival(r: Row) { r.eventType == ARRIVAL }
  predicate IsDeparture(r: Row) { r.eventType == DEPARTURE }

  /** A proportion of a subset lies in [0, 1], and is 0 or 1 exactly at the ends. */
  lemma ProportionBounds(q: Ratio)
    requires 0 < q.den && q.num <= q.den
    ensures 0.0 <= q.Value() <= 1.0
    ensures q.Value() == 0.0 <==> q.num == 0
    ensures q.Value() == 1.0 <==> q.num == q.den
  {
    var v := q.Value();
    assert v * q.den as real == q.num as real;
    if v == 1.0 {
      assert q.num as real == q.den as real;
    }
  }

  /** The rows of one station, in their original order. */
  function Group(rows: seq<Row>, code: string): (g: seq<Row>)
    ensures forall r :: r in g <==> r in rows && r.stationShortCode == code
    ensures |g| <= |rows|
  {
    if |rows| == 0 then []
    else
      var last := rows[|rows| - 1];
      assert forall r :: r in rows <==> r in rows[..|rows| - 1] || r == last by {
        assert rows == rows[..|rows| - 1] + [last];
      }
      Group(rows[..|rows| - 1], code) + (if last.stationShortCode == code then [last] else [])
  }

  /** The distinct country codes of a group (`unique()`). */
  function Countries(group: seq<Row>): set<string>
  {
    set r | r in group :: r.countryCode
  }

  /** All rows of a group share one country code. */
  predicate SingleCountry(group: seq<Row>)
  {
    forall x, y :: x in group && y in group ==> x.countryCode == y.countryCode
  }

  /** A non-empty group has exactly one distinct country code when all its rows agree. */
  lemma CountriesSingleton(group: seq<Row>)
    requires |group| > 0
    ensures |Countries(group)| == 1 <==> SingleCountry(group)
  {
    var c := group[0].countryCode;
    if SingleCountry(group) {
      assert Countries(group) == {c};
    } else {
      var x, y :| x in group && y in group && x.countryCode != y.countryCode;
      var other := if x.countryCode != c then x.countryCode else y.countryCode;
      assert {c, other} <= Countries(group);
      assert |{c, other}| == 2;
      SubsetCardinality({c, other}, Countries(group));
    }
  }

  lemma SubsetCardinality(a: set<string>, b: set<string>)
    requires a <= b
    ensures |a| <= |b|
  {
    assert b == a + (b - a);
  }

  /** A frequency of a station: a proportion of its rows. */
  predicate IsFrequency(q: Ratio, n: nat)
  {
    q.den == n && q.num <= n
  }
  /** The statistics of one station's rows (`final_dict`). Each frequency is the
      number of matching rows over the number of rows, so a proportion in
      [0, 1] (see `ProportionBounds`): it is 0 exactly when no row matches and
      1 exactly when every row does. The country is the first row's, the first
      of the distinct codes, and so the country of every row when they agree. */
  function Statistics(group: seq<Row>): (node: Node)
    requires |group| > 0
    ensures node.counts == |group|
    ensures node.countryCode in Countries(group)
    ensures SingleCountry(group) ==> forall x :: x in group ==> x.countryCode == node.countryCode
    ensures node.stopFreq == Ratio(CountWhere(group, IsStopping), |group|)
    ensures node.commercialFreq == Ratio(CountWhere(group, IsCommercial), |group|)
    ensures node.cancelledFreq == Ratio(CountWhere(group, IsCancelled), |group|)
    ensures node.typeArrivalFreq == Ratio(CountWhere(group, IsArrival), |group|)
    ensures node.typeDepartureFreq == Ratio(CountWhere(group, IsDeparture), |group|)
    ensures && IsFrequency(node.stopFreq, |group|)
            && IsFrequency(node.commercialFreq, |group|)
            && IsFrequency(node.cancelledFreq, |group|)
            && IsFrequency(node.typeArrivalFreq, |group|)
            && IsFrequency(node.typeDepartureFreq, |group|)
    ensures node.stopFreq.num == 0 <==> forall i :: 0 <= i < |group| ==> !group[i].trainStopping
    ensures node.stopFreq.num == |group| <==> forall i :: 0 <= i < |group| ==> group[i].trainStopping
    ensures node.commercialFreq.num == 0 <==> forall i :: 0 <= i < |group| ==> group[i].commercialStop != Some(true)
    ensures node.commercialFreq.num == |group| <==> forall i :: 0 <= i < |group| ==> group[i].commercialStop == Some(true)
    ensures node.cancelledFreq.num == 0 <==> forall i :: 0 <= i < |group| ==> !group[i].cancelled
    ensures node.cancelledFreq.num == |group| <==> forall i :: 0 <= i < |group| ==> group[i].cancelled
    ensures node.typeArrivalFreq.num == 0 <==> forall i :: 0 <= i < |group| ==> group[i].eventType != ARRIVAL
    ensures node.typeArrivalFreq.num == |group| <==> forall i :: 0 <= i < |group| ==> group[i].eventType == ARRIVAL
    ensures node.typeDepartureFreq.num == 0 <==> forall i :: 0 <= i < |group| ==> group[i].eventType != DEPARTURE
    ensures node.typeDepartureFreq.num == |group| <==> forall i :: 0 <= i < |group| ==> group[i].eventType == DEPARTURE
  {
    var n := |group|;
    Node(
      group[0].countryCode,
      n,
      Ratio(CountWhere(group, IsStopping), n),
      Ratio(CountWhere(group, IsCommercial), n),
      Ratio(CountWhere(group, IsCancelled), n),
      Ratio(CountWhere(group, IsArrival), n),
      Ratio(CountWhere(group, IsDeparture), n))
  }

  /** `_group_nodes`: the statistics of one station's rows, failing when the rows
      disagree on the country. */
  function AggregateGroup(group: seq<Row>): (r: Result<Node, string>)
    requires |group| > 0
    ensures r.Failure? <==> !SingleCountry(group)
    ensures r.Success? ==> forall x :: x in group ==> x.countryCode == r.value.countryCode
    ensures r.Success? ==> r.value.counts == |group|
  {
    CountriesSingleton(group);
    if |Countries(group)| != 1 then Failure("station exists in multiple countries")
    else Success(Statistics(group))
  }


  /** Rows that are all arrivals or departures split into the two counts. */
  lemma {:induction false} ArrivalsPlusDepartures(rows: seq<Row>)
    requires forall i :: 0 <= i < |rows| ==> rows[i].eventType == ARRIVAL || rows[i].eventType == DEPARTURE
    ensures CountWhere(rows, IsArrival) + CountWhere(rows, IsDeparture) == |rows|
    decreases |rows|
  {
    if |rows| > 0 {
      ArrivalsPlusDepartures(rows[..|rows| - 1]);
    }
  }

  /** When every row is an arrival or a departure the two type frequencies sum to 1. */
  lemma TypeFrequenciesSumToOne(group: seq<Row>)
    requires |group| > 0
    requires forall i :: 0 <= i < |group| ==> group[i].eventType == ARRIVAL || group[i].eventType == DEPARTURE
    ensures Statistics(group).typeArrivalFreq.num + Statistics(group).typeDepartureFreq.num == |group|
  {
    ArrivalsPlusDepartures(group);
  }

  /** A group whose rows agree on the country aggregates to its statistics. */
  lemma AggregateSingleCountry(group: seq<Row>)
    requires |group| > 0 && SingleCountry(group)
    ensures AggregateGroup(group) == Success(Statistics(group))
  {
  }

  /** The station codes that occur in the rows. */
  function Stations(rows: seq<Row>): set<string>
  {
    set r | r in rows :: r.stationShortCode
  }

  /** Two rows of the same station that disagree on the country. */
  predicate CountryConflict(rows: seq<Row>)
  {
    exists x, y :: x in rows && y in rows && x.stationShortCode == y.stationShortCode && x.countryCode != y.countryCode
  }

  /** A station that occurs in the rows has a non-empty group. */
  lemma GroupNonEmpty(rows: seq<Row>, c: string)
    requires c in Stations(rows)
    ensures |Group(rows, c)| > 0
  {
    var x :| x in rows && x.stationShortCode == c;
    assert x in Group(rows, c);
  }

  /** The rows conflict on a country exactly when some station's group does. */
  lemma ConflictInSomeGroup(rows: seq<Row>)
    ensures CountryConflict(rows) <==> exists c :: c in Stations(rows) && !SingleCountry(Group(rows, c))
  {
    if CountryConflict(rows) {
      var x, y :| x in rows && y in rows && x.stationShortCode == y.stationShortCode && x.countryCode != y.countryCode;
      var c := x.stationShortCode;
      assert x in Group(rows, c) && y in Group(rows, c);
      assert c in Stations(rows);
    }
  }

  /** `create_nodes` (without the metadata join): group the flattened rows by
      station and aggregate each group. An empty table has no columns to drop,
      and a station in two countries trips the assertion. */
  function CreateNodes(rows: seq<Row>): (r: Result<map<string, Node>, string>)
    ensures r.Failure? <==> |rows| == 0 || CountryConflict(rows)
    ensures r.Success? ==> r.value.Keys == Stations(rows)
    ensures r.Success? ==> forall c :: c in r.value ==>
      && |Group(rows, c)| > 0
      && r.value[c] == AggregateGroup(Group(rows, c)).value
  {
    ConflictInSomeGroup(rows);
    if |rows| == 0 then Failure("columns not found in axis")
    else if exists c :: c in Stations(rows) && !SingleCountry(Group(rows, c)) then
      Failure("station exists in multiple countries")
    else
      assert forall c :: c in Stations(rows) ==> |Group(rows, c)| > 0 by {
        forall c | c in Stations(rows) {
          GroupNonEmpty(rows, c);
        }
      }
      Success(map c | c in Stations(rows) :: AggregateGroup(Group(rows, c)).value)
  }

  /** Each node holds the statistics of its station's rows: it counts them and
      carries the one country all of them share. */
  lemma NodeDescribesStation(rows: seq<Row>, c: string)
    requires !CountryConflict(rows) && c in Stations(rows)
    ensures CreateNodes(rows).Success? && c in CreateNodes(rows).value
    ensures |Group(rows, c)| > 0 && CreateNodes(rows).value[c] == Statistics(Group(rows, c))
    ensures CreateNodes(rows).value[c].counts == |Group(rows, c)|
    ensures forall x :: x in rows && x.stationShortCode == c ==>
      x.countryCode == CreateNodes(rows).value[c].countryCode
  {
    ConflictInSomeGroup(rows);
    GroupNonEmpty(rows, c);
    AggregateSingleCountry(Group(rows, c));
  }

  /** Some element of a non-empty set. */
  ghost function Pick(s: set<string>): string
    requires s != {}
  {
    var x :| x in s; x
  }

  /** The sum of `counts` over the nodes of `keys`. */
  ghost function SumCounts(nodes: map<string, Node>, keys: set<string>): int
    requires keys <= nodes.Keys
    decreases keys
  {
    if keys == {} then 0
    else
      var k := Pick(keys);
      nodes[k].counts + SumCounts(nodes, keys - {k})
  }

  /** Number of rows whose station is one of `keys`. */
  function CountIn(rows: seq<Row>, keys: set<string>): nat
  {
    if |rows| == 0 then 0
    else CountIn(rows[..|rows| - 1], keys) + (if rows[|rows| - 1].stationShortCode in keys then 1 else 0)
  }

  /** No station, no rows. */
  lemma {:induction false} CountInNone(rows: seq<Row>)
    ensures CountIn(rows, {}) == 0
    decreases |rows|
  {
    if |rows| > 0 {
      CountInNone(rows[..|rows| - 1]);
    }
  }

  /** Taking one station out of `keys` takes its group's rows out of the count. */
  lemma {:induction false} CountInRemove(rows: seq<Row>, keys: set<string>, k: string)
    requires k in keys
    ensures CountIn(rows, keys) == |Group(rows, k)| + CountIn(rows, keys - {k})
    decreases |rows|
  {
    if |rows| > 0 {
      CountInRemove(rows[..|rows| - 1], keys, k);
    }
  }

  /** Counting over every station that occurs counts every row. */
  lemma {:induction false} CountInAll(rows: seq<Row>, keys: set<string>)
    requires Stations(rows) <= keys
    ensures CountIn(rows, keys) == |rows|
    decreases |rows|
  {
    if |rows| > 0 {
      var init := rows[..|rows| - 1];
      assert Stations(init) <= Stations(rows) by {
        forall c | c in Stations(init) ensures c in Stations(rows) {
          var x :| x in init && x.stationShortCode == c;
          assert x in rows;
        }
      }
      CountInAll(init, keys);
      assert rows[|rows| - 1] in rows;
    }
  }

  /** Summing node counts over `keys` counts the rows of those stations. */
  lemma {:induction false} SumCountsIsCountIn(rows: seq<Row>, nodes: map<string, Node>, keys: set<string>)
    requires keys <= nodes.Keys
    requires forall c :: c in keys ==> nodes[c].counts == |Group(rows, c)|
    ensures SumCounts(nodes, keys) == CountIn(rows, keys)
    decreases keys
  {
    if keys == {} {
      CountInNone(rows);
    } else {
      var k := Pick(keys);
      assert SumCounts(nodes, keys) == nodes[k].counts + SumCounts(nodes, keys - {k});
      assert nodes[k].counts == |Group(rows, k)|;
      SumCountsIsCountIn(rows, nodes, keys - {k});
      assert SumCounts(nodes, keys - {k}) == CountIn(rows, keys - {k});
      CountInRemove(rows, keys, k);
    }
  }

  /** The node counts add up to the number of flattened rows. */
  lemma CountsSumToRows(rows: seq<Row>)
    requires CreateNodes(rows).Success?
    ensures SumCounts(CreateNodes(rows).value, CreateNodes(rows).value.Keys) == |rows|
  {
    var nodes := CreateNodes(rows).value;
    SumCountsIsCountIn(rows, nodes, nodes.Keys);
    CountInAll(rows, nodes.Keys);
  }
}
