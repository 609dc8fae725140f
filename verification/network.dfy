/** `create_network`: the nodes and edges of the rail network, built from prepared trains. */
module Network {
  import opened Wrappers
  import opened Timetable
  import RouteString
  import Features
  import Edges
  import Nodes

  /** The graph's contents: attributed station nodes and ordered station pairs. */
  datatype Network = Network(nodes: map<string, Nodes.Node>, edges: seq<Edges.Edge>)

  /** The timetable of every prepared train, in order. */
  function Tables(trains: seq<Features.PreparedTrain>): seq<seq<Row>>
  {
    seq(|trains|, i requires 0 <= i < |trains| => trains[i].timeTableRows)
  }

  /** The route embedding of every prepared train, in order. */
  function Embeddings(trains: seq<Features.PreparedTrain>): seq<string>
  {
    seq(|trains|, i requires 0 <= i < |trains| => trains[i].routeEmbedding)
  }

  /** Nodes first, then edges; either step can raise. */
  function CreateNetwork(trains: seq<Features.PreparedTrain>): (r: Result<Network, string>)
    ensures r.Failure? <==> |Flatten(Tables(trains))| == 0 || Nodes.CountryConflict(Flatten(Tables(trains)))
    ensures r.Success? ==> r.value.nodes.Keys == Nodes.Stations(Flatten(Tables(trains)))
    ensures r.Success? ==> r.value.nodes == Nodes.CreateNodes(Flatten(Tables(trains))).value
    ensures r.Success? ==> Edges.NoDuplicates(r.value.edges)
    ensures r.Success? ==> forall e :: e in r.value.edges <==>
      exists t :: 0 <= t < |trains| && e in Edges.TrainEdges(trains[t].routeEmbedding)
  {
    var rows := Flatten(Tables(trains));
    var nodes := Nodes.CreateNodes(rows);
    var edges := Edges.EdgeTable(Embeddings(trains));
    assert forall t :: 0 <= t < |trains| ==> Embeddings(trains)[t] == trains[t].routeEmbedding;
    if nodes.Failure? then Failure(nodes.error)
    else
      if edges.Failure? then Failure("No objects to concatenate")
      else Success(Network(nodes.value, edges.value))
  }

  /** Without a country conflict the network is built, and the node of every
      occurring station holds the statistics of that station's rows. */
  lemma NetworkNodesDescribeStations(trains: seq<Features.PreparedTrain>, c: string)
    requires !Nodes.CountryConflict(Flatten(Tables(trains))) && c in Nodes.Stations(Flatten(Tables(trains)))
    ensures CreateNetwork(trains).Success? && c in CreateNetwork(trains).value.nodes
    ensures var group := Nodes.Group(Flatten(Tables(trains)), c);
      |group| > 0 && CreateNetwork(trains).value.nodes[c] == Nodes.Statistics(group)
  {
    Nodes.NodeDescribesStation(Flatten(Tables(trains)), c);
  }

  /** A station code of some train's timetable is a node of the network. */
  lemma VisitedStationIsNode(trains: seq<Features.PreparedTrain>, t: nat, code: string)
    requires t < |trains| && code in StationCodes(trains[t].timeTableRows)
    ensures code in Nodes.Stations(Flatten(Tables(trains)))
  {
    var rows := trains[t].timeTableRows;
    var k :| 0 <= k < |rows| && StationCodes(rows)[k] == code;
    assert Tables(trains)[t] == rows;
    FlattenContains(Tables(trains), t, k);
  }

  /** Trains as `PrepareTrains` leaves them, with station codes free of `-`. */
  predicate WellPrepared(trains: seq<Features.PreparedTrain>)
  {
    forall t :: 0 <= t < |trains| ==>
      && RouteString.NoSeparator(StationCodes(trains[t].timeTableRows))
      && trains[t].routeEmbedding == Features.RouteEmbedding(trains[t].timeTableRows)
  }

  /** Prepared trains with `-`-free station codes are well prepared. */
  lemma PreparedTrainsAreWellPrepared(raw: seq<Train>)
    requires forall t :: 0 <= t < |raw| ==> RouteString.NoSeparator(StationCodes(raw[t].timeTableRows))
    ensures Features.PrepareTrains(raw).Success? ==> WellPrepared(Features.PrepareTrains(raw).value)
  {
  }

  /** In a network built from well-prepared trains every edge joins two
      distinct stations that are both nodes: the graph gets no endpoint
      without attributes and no self-loop. */
  lemma EdgesJoinNodes(trains: seq<Features.PreparedTrain>)
    requires WellPrepared(trains)
    ensures CreateNetwork(trains).Success? ==>
      var net := CreateNetwork(trains).value;
      forall e :: e in net.edges ==> e.source != e.target && e.source in net.nodes && e.target in net.nodes
  {
    if CreateNetwork(trains).Success? {
      var net := CreateNetwork(trains).value;
      var embeddings := Embeddings(trains);
      forall e | e in net.edges
        ensures e.source != e.target && e.source in net.nodes && e.target in net.nodes
      {
        Edges.AllEdgesMembership(embeddings, e);
        var t :| 0 <= t < |embeddings| && e in Edges.TrainEdges(embeddings[t]);
        var rows := trains[t].timeTableRows;
        Edges.EmbeddingEdges(rows);
        VisitedStationIsNode(trains, t, e.source);
        VisitedStationIsNode(trains, t, e.target);
      }
    }
  }
}
