/** Network edges: consecutive station pairs of every route, de-duplicated. */
module Edges {
  import opened Wrappers
  import opened Timetable
  import RouteString
  import Features

  /** An ordered pair of station codes, as one row of the edge table. */
  datatype Edge = Edge(source: string, target: string)

  /** The pairs (route[i], route[i + 1]) of a route, in order. */
  function ExtractEdges(route: seq<string>): (r: seq<Edge>)
    ensures |r| == if |route| == 0 then 0 else |route| - 1
    ensures forall i :: 0 <= i < |r| ==> r[i] == Edge(route[i], route[i + 1])
  {
    if |route| <= 1 then []
    else ExtractEdges(route[..|route| - 1]) + [Edge(route[|route| - 2], route[|route| - 1])]
  }

  /** The edges of one train, read off its route embedding. */
  function TrainEdges(embedding: string): (r: seq<Edge>)
    ensures |r| == |RouteString.Split(embedding)| - 1
    ensures forall i :: 0 <= i < |r| ==>
      r[i] == Edge(RouteString.Split(embedding)[i], RouteString.Split(embedding)[i + 1])
  {
    ExtractEdges(RouteString.Split(embedding))
  }

  /** A route embedding without `-` (one station, or none) yields no edge. */
  lemma SingleStationNoEdges(embedding: string)
    requires RouteString.SEPARATOR !in embedding
    ensures TrainEdges(embedding) == []
  {
  }

  /** A route without adjacent repeats yields no self-loop. */
  lemma NoSelfLoops(route: seq<string>)
    requires Features.NoAdjacentRepeats(route)
    ensures forall e :: e in ExtractEdges(route) ==> e.source != e.target
  {
  }

  /** The edges read off a train's route embedding are the consecutive pairs of
      its collapsed station codes: never a self-loop, and always between
      stations the train visits. */
  lemma EmbeddingEdges(rows: seq<Row>)
    requires RouteString.NoSeparator(StationCodes(rows))
    ensures TrainEdges(Features.RouteEmbedding(rows)) == ExtractEdges(Features.Collapse(StationCodes(rows)))
    ensures forall e :: e in TrainEdges(Features.RouteEmbedding(rows)) ==>
      e.source != e.target && e.source in StationCodes(rows) && e.target in StationCodes(rows)
  {
    var codes := StationCodes(rows);
    if |rows| > 0 {
      Features.EmbeddingSplits(rows);
    } else {
      assert RouteString.Split("") == [""];
    }
    var route := Features.Collapse(codes);
    Features.CollapseSameCodes(codes);
    NoSelfLoops(route);
    var edges := ExtractEdges(route);
    forall e | e in edges
      ensures e.source in codes && e.target in codes
    {
      var i :| 0 <= i < |edges| && edges[i] == e;
      assert route[i] in route && route[i + 1] in route;
    }
  }

  /** All train edges, one train after another (`pd.concat`). */
  function AllEdges(embeddings: seq<string>): seq<Edge>
  {
    if |embeddings| == 0 then []
    else AllEdges(embeddings[..|embeddings| - 1]) + TrainEdges(embeddings[|embeddings| - 1])
  }

  /** An edge is in the concatenation exactly when some train yields it. */
  lemma {:induction false} AllEdgesMembership(embeddings: seq<string>, e: Edge)
    ensures e in AllEdges(embeddings) <==>
      exists t :: 0 <= t < |embeddings| && e in TrainEdges(embeddings[t])
    decreases |embeddings|
  {
    if |embeddings| > 0 {
      var init := embeddings[..|embeddings| - 1];
      AllEdgesMembership(init, e);
      assert forall t :: 0 <= t < |init| ==> init[t] == embeddings[t];
    }
  }

  /** No row occurs twice. */
  predicate NoDuplicates(s: seq<Edge>)
  {
    forall i, j :: 0 <= i < j < |s| ==> s[i] != s[j]
  }

  /** `drop_duplicates`: the first occurrence of every edge, in order. */
  function DropDuplicates(s: seq<Edge>): (r: seq<Edge>)
    ensures NoDuplicates(r)
    ensures forall e :: e in r <==> e in s
    ensures |r| <= |s|
    ensures |s| > 0 ==> |r| > 0 && r[0] == s[0]
  {
    if |s| == 0 then []
    else
      var prev := DropDuplicates(s[..|s| - 1]);
      assert forall e :: e in s <==> e in s[..|s| - 1] || e == s[|s| - 1] by {
        assert s == s[..|s| - 1] + [s[|s| - 1]];
      }
      if s[|s| - 1] in prev then prev else prev + [s[|s| - 1]]
  }

  /** De-duplicating one more row keeps it only when it is new. */
  lemma DropDuplicatesSnoc(s: seq<Edge>, e: Edge)
    ensures DropDuplicates(s + [e]) ==
      if e in DropDuplicates(s) then DropDuplicates(s) else DropDuplicates(s) + [e]
  {
    assert (s + [e])[..|s|] == s;
  }

  /** The position of the first occurrence of `e` in `s`. */
  function FirstIndex(s: seq<Edge>, e: Edge): (k: nat)
    requires e in s
    ensures k < |s| && s[k] == e
    ensures forall m :: 0 <= m < k ==> s[m] != e
  {
    var init := s[..|s| - 1];
    if e in init then FirstIndex(init, e)
    else
      assert forall m :: 0 <= m < |s| - 1 ==> s[m] == init[m];
      |s| - 1
  }

  /** `DropDuplicates` lists the kept rows in the order of their first
      occurrence in the input. */
  lemma {:induction false} DropDuplicatesOrder(s: seq<Edge>)
    ensures forall i, j :: 0 <= i < j < |DropDuplicates(s)| ==>
      FirstIndex(s, DropDuplicates(s)[i]) < FirstIndex(s, DropDuplicates(s)[j])
    decreases |s|
  {
    if |s| > 0 {
      var init := s[..|s| - 1];
      var last := s[|s| - 1];
      DropDuplicatesOrder(init);
      var prev := DropDuplicates(init);
      var r := DropDuplicates(s);
      assert forall x :: x in init ==> FirstIndex(s, x) == FirstIndex(init, x);
      forall i, j | 0 <= i < j < |r|
        ensures FirstIndex(s, r[i]) < FirstIndex(s, r[j])
      {
        assert r[i] in prev;
        if j < |prev| {
          assert r[j] == prev[j];
        } else {
          assert r[j] == last && last !in init;
        }
      }
    }
  }

  /** A duplicate-free list is left unchanged. */
  lemma {:induction false} DropDuplicatesFixpoint(s: seq<Edge>)
    requires NoDuplicates(s)
    ensures DropDuplicates(s) == s
    decreases |s|
  {
    if |s| > 0 {
      var init := s[..|s| - 1];
      DropDuplicatesFixpoint(init);
      assert s == init + [s[|s| - 1]];
    }
  }

  /** Appending the rows of one more train to an already de-duplicated table. */
  method AppendNewEdges(edges: seq<Edge>, ghost done: seq<Edge>, pairs: seq<Edge>) returns (out: seq<Edge>)
    requires edges == DropDuplicates(done)
    ensures out == DropDuplicates(done + pairs)
  {
    out := edges;
    var j := 0;
    assert done + pairs[..0] == done;
    while j < |pairs|
      invariant 0 <= j <= |pairs|
      invariant out == DropDuplicates(done + pairs[..j])
    {
      assert done + pairs[..j + 1] == (done + pairs[..j]) + [pairs[j]];
      DropDuplicatesSnoc(done + pairs[..j], pairs[j]);
      if pairs[j] !in out {
        out := out + [pairs[j]];
      }
      j := j + 1;
    }
    assert pairs[..j] == pairs;
  }

  /** `create_edges`: concatenate the edges of every train and drop repeated
      rows. Concatenating no frames at all raises. */
  function EdgeTable(embeddings: seq<string>): (r: Result<seq<Edge>, string>)
    ensures r.Failure? <==> |embeddings| == 0
    ensures r.Success? ==> NoDuplicates(r.value)
    ensures r.Success? ==> forall e :: e in r.value <==>
      exists t :: 0 <= t < |embeddings| && e in TrainEdges(embeddings[t])
    ensures r.Success? ==> forall e :: e in r.value ==> e in AllEdges(embeddings)
    ensures r.Success? ==> forall i, j :: 0 <= i < j < |r.value| ==>
      FirstIndex(AllEdges(embeddings), r.value[i]) < FirstIndex(AllEdges(embeddings), r.value[j])
  {
    if |embeddings| == 0 then Failure("No objects to concatenate")
    else
      var all := AllEdges(embeddings);
      assert forall e :: e in all <==> exists t :: 0 <= t < |embeddings| && e in TrainEdges(embeddings[t]) by {
        forall e {
          AllEdgesMembership(embeddings, e);
        }
      }
      DropDuplicatesOrder(all);
      Success(DropDuplicates(all))
  }

  /** The edge table computed train by train, each train's new rows appended
      to the rows kept so far. */
  method CreateEdges(embeddings: seq<string>) returns (r: Result<seq<Edge>, string>)
    ensures r == EdgeTable(embeddings)
  {
    if |embeddings| == 0 {
      r := Failure("No objects to concatenate");
    } else {
      var edges: seq<Edge> := [];
      var t := 0;
      while t < |embeddings|
        invariant 0 <= t <= |embeddings|
        invariant edges == DropDuplicates(AllEdges(embeddings[..t]))
      {
        edges := AppendNewEdges(edges, AllEdges(embeddings[..t]), TrainEdges(embeddings[t]));
        assert embeddings[..t + 1][..t] == embeddings[..t];
        t := t + 1;
      }
      assert embeddings[..t] == embeddings;
      r := Success(edges);
    }
  }
}
