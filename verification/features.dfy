/** Per-train feature engineering: route embedding, duration and stop count. */
module Features {
  import opened Wrappers
  import opened Timetable
  import RouteString

  // ---------------------------------------------------------------------------
  // Route embedding
  // ---------------------------------------------------------------------------

  /** No two neighbouring codes are equal. */
  predicate NoAdjacentRepeats(s: seq<string>)
  {
    forall i :: 0 < i < |s| ==> s[i - 1] != s[i]
  }

  /** Whether the code at position `i` survives: it is the first one, or it
      differs from the code just before it. */
  predicate Kept(s: seq<string>, i: nat)
    requires i < |s|
  {
    i == 0 || s[i] != s[i - 1]
  }

  /** The codes of `s` that survive, in order: consecutive repeats collapse into one. */
  function Collapse(s: seq<string>): (r: seq<string>)
    ensures |r| <= |s|
    ensures |s| > 0 ==> |r| > 0 && r[0] == s[0] && r[|r| - 1] == s[|s| - 1]
    ensures NoAdjacentRepeats(r)
  {
    if |s| == 0 then []
    else Collapse(s[..|s| - 1]) + (if Kept(s, |s| - 1) then [s[|s| - 1]] else [])
  }

  /** `idx` picks, in strictly increasing order, positions of `b` that spell `a`. */
  ghost predicate Selects(idx: seq<nat>, a: seq<string>, b: seq<string>)
  {
    && |idx| == |a|
    && (forall k :: 0 <= k < |idx| ==> idx[k] < |b| && a[k] == b[idx[k]])
    && (forall k :: 0 < k < |idx| ==> idx[k - 1] < idx[k])
  }

  /** `a` is a subsequence of `b`. */
  ghost predicate IsSubsequence(a: seq<string>, b: seq<string>)
  {
    exists idx :: Selects(idx, a, b)
  }

  /** A selection from a prefix is a selection from the whole sequence. */
  lemma SelectsWiden(idx: seq<nat>, a: seq<string>, s: seq<string>)
    requires |s| > 0 && Selects(idx, a, s[..|s| - 1])
    ensures Selects(idx, a, s)
  {
    forall k | 0 <= k < |idx|
      ensures idx[k] < |s| && a[k] == s[idx[k]]
    {
      assert s[..|s| - 1][idx[k]] == s[idx[k]];
    }
  }

  /** Selecting the last position as well extends the selection by the last element. */
  lemma SelectsSnoc(idx: seq<nat>, a: seq<string>, s: seq<string>)
    requires |s| > 0 && Selects(idx, a, s[..|s| - 1])
    ensures Selects(idx + [|s| - 1], a + [s[|s| - 1]], s)
  {
    SelectsWiden(idx, a, s);
  }

  /** The positions that `Collapse` keeps are exactly those of the first code
      and of every code that differs from its predecessor: they spell the
      collapsed route in order, so only adjacent repeats are dropped. */
  lemma {:induction false} CollapseIndices(s: seq<string>) returns (idx: seq<nat>)
    ensures Selects(idx, Collapse(s), s)
    ensures forall i :: 0 <= i < |s| ==> (i in idx <==> Kept(s, i))
    decreases |s|
  {
    if |s| == 0 {
      idx := [];
    } else {
      var init := s[..|s| - 1];
      var prev := CollapseIndices(init);
      assert forall i :: 0 <= i < |s| - 1 ==> (Kept(init, i) <==> Kept(s, i));
      assert forall k :: 0 <= k < |prev| ==> prev[k] < |s| - 1;
      if Kept(s, |s| - 1) {
        SelectsSnoc(prev, Collapse(init), s);
        idx := prev + [|s| - 1];
      } else {
        SelectsWiden(prev, Collapse(init), s);
        idx := prev;
      }
    }
  }

  /** The collapsed route is a subsequence of the rows' station codes. */
  lemma CollapseIsSubsequence(s: seq<string>)
    ensures IsSubsequence(Collapse(s), s)
  {
    var idx := CollapseIndices(s);
  }

  /** Collapsing drops only repeats: the same codes occur before and after. */
  lemma {:induction false} CollapseSameCodes(s: seq<string>)
    ensures forall x :: x in Collapse(s) <==> x in s
    decreases |s|
  {
    if |s| > 0 {
      var init := s[..|s| - 1];
      CollapseSameCodes(init);
      assert s == init + [s[|s| - 1]];
    }
  }

  /** A sequence is left unchanged by collapsing exactly when it has no adjacent repeats. */
  lemma {:induction false} CollapseFixpoint(s: seq<string>)
    ensures Collapse(s) == s <==> NoAdjacentRepeats(s)
    decreases |s|
  {
    if |s| > 0 && NoAdjacentRepeats(s) {
      var init := s[..|s| - 1];
      assert NoAdjacentRepeats(init);
      CollapseFixpoint(init);
      assert Kept(s, |s| - 1);
      assert s == init + [s[|s| - 1]];
    }
  }

  /** Collapsing twice is the same as collapsing once. */
  lemma CollapseIdempotent(s: seq<string>)
    ensures Collapse(Collapse(s)) == Collapse(s)
  {
    CollapseFixpoint(Collapse(s));
  }

  /** The route embedding of a train: its station codes with consecutive
      repeats collapsed, joined with `-`. */
  function RouteEmbedding(rows: seq<Row>): (e: string)
    ensures |rows| == 0 ==> e == ""
    ensures |rows| > 0 ==> rows[0].stationShortCode <= e
  {
    RouteString.Join(Collapse(StationCodes(rows)))
  }

  /** Splitting a non-empty train's embedding gives back its collapsed codes. */
  lemma EmbeddingSplits(rows: seq<Row>)
    requires |rows| > 0 && RouteString.NoSeparator(StationCodes(rows))
    ensures RouteString.Split(RouteEmbedding(rows)) == Collapse(StationCodes(rows))
  {
    var codes := StationCodes(rows);
    CollapseSameCodes(codes);
    var c := Collapse(codes);
    forall i | 0 <= i < |c|
      ensures RouteString.SEPARATOR !in c[i]
    {
      assert c[i] in codes;
    }
    RouteString.SplitJoin(c);
  }

  // ---------------------------------------------------------------------------
  // Duration
  // ---------------------------------------------------------------------------

  /** Both the first and the last row carry an actual time. */
  predicate HasActualEnds(rows: seq<Row>)
    requires |rows| > 0
  {
    rows[0].actualTime.Some? && rows[|rows| - 1].actualTime.Some?
  }

  /** The train's duration: last minus first actual time when both exist,
      otherwise last minus first scheduled time. No rows: the lookup fails. */
  function Duration(rows: seq<Row>): (d: Option<int>)
    ensures d.None? <==> |rows| == 0
    ensures |rows| > 0 && HasActualEnds(rows) ==>
      d.value == rows[|rows| - 1].actualTime.value - rows[0].actualTime.value
    ensures |rows| > 0 && !HasActualEnds(rows) ==>
      d.value == rows[|rows| - 1].scheduledTime - rows[0].scheduledTime
  {
    if |rows| == 0 then None
    else
      var first := rows[0];
      var last := rows[|rows| - 1];
      if first.actualTime.Some? && last.actualTime.Some? then
        Some(last.actualTime.value - first.actualTime.value)
      else
        Some(last.scheduledTime - first.scheduledTime)
  }

  /** Only the first and the last row matter: rows in between are ignored. */
  lemma DurationIgnoresMiddle(rows: seq<Row>, middle: seq<Row>)
    requires |rows| >= 2
    ensures Duration(rows[..1] + middle + rows[|rows| - 1..]) == Duration(rows)
  {
  }

  /** A timetable whose scheduled times, and present actual times, never go backwards. */
  predicate Chronological(rows: seq<Row>)
  {
    && (forall i, j :: 0 <= i < j < |rows| ==> rows[i].scheduledTime <= rows[j].scheduledTime)
    && (forall i, j :: 0 <= i < j < |rows| && rows[i].actualTime.Some? && rows[j].actualTime.Some? ==>
          rows[i].actualTime.value <= rows[j].actualTime.value)
  }

  /** The duration is non-negative when the timetable is chronological. */
  lemma DurationNonNegative(rows: seq<Row>)
    requires |rows| > 0 && Chronological(rows)
    ensures Duration(rows).value >= 0
  {
  }

  // ---------------------------------------------------------------------------
  // Number of stopped stations
  // ---------------------------------------------------------------------------

  /** Python's `int()` on a float: truncation toward zero. */
  function Truncate(x: real): (n: int)
    ensures x >= 0.0 ==> n as real <= x < n as real + 1.0
    ensures x < 0.0 ==> n as real - 1.0 < x <= n as real
  {
    if x >= 0.0 then x.Floor else -((-x).Floor)
  }

  /** `int((k - 2) / 2 + 2)` with true (real) division: the number of stopped
      stations for `k` stopping rows, the origin and terminus having one row each. */
  function StoppedStations(k: nat): (n: int)
    ensures n == k / 2 + 1
    ensures n >= 1
  {
    var x := (k - 2) as real / 2.0 + 2.0;
    assert x == (k / 2) as real + 1.0 + (k % 2) as real / 2.0;
    Truncate(x)
  }

  /** More stopping rows never give fewer stopped stations, and each row adds at most one. */
  lemma StoppedStationsMonotone(k1: nat, k2: nat)
    requires k1 <= k2
    ensures StoppedStations(k1) <= StoppedStations(k2) <= StoppedStations(k1) + (k2 - k1)
  {
  }

  /** A run stopping at `n` stations has one stopping row at each end and two at
      every intermediate station; the formula recovers `n`. */
  lemma StoppedStationsCountsStations(n: nat)
    requires n >= 1
    ensures StoppedStations(2 * n - 2) == n
  {
  }

  /** `numberStopedStations` of a train. */
  function StopCount(rows: seq<Row>): (n: int)
    ensures n == CountWhere(rows, IsStopping) / 2 + 1
    ensures 1 <= n <= |rows| / 2 + 1
  {
    StoppedStations(CountWhere(rows, IsStopping))
  }

  // ---------------------------------------------------------------------------
  // A prepared train
  // ---------------------------------------------------------------------------

  /** A train with its derived columns. */
  datatype PreparedTrain = PreparedTrain(
    timeTableRows: seq<Row>,
    numberStopedStations: int,
    trainDuration: int,
    routeEmbedding: string)

  /** Derive the three feature columns for every train; a train without rows
      makes the duration lookup fail, and the whole preparation with it. */
  function PrepareTrains(trains: seq<Train>): (r: Result<seq<PreparedTrain>, string>)
    ensures r.Failure? <==> exists t :: 0 <= t < |trains| && |trains[t].timeTableRows| == 0
    ensures r.Success? ==> |r.value| == |trains|
    ensures r.Success? ==> forall t :: 0 <= t < |trains| ==>
      && r.value[t].timeTableRows == trains[t].timeTableRows
      && |r.value[t].timeTableRows| > 0
      && r.value[t].numberStopedStations == CountWhere(trains[t].timeTableRows, IsStopping) / 2 + 1
      && Some(r.value[t].trainDuration) == Duration(trains[t].timeTableRows)
      && r.value[t].routeEmbedding == RouteEmbedding(trains[t].timeTableRows)
  {
    if |trains| == 0 then Success([])
    else
      var rest := PrepareTrains(trains[..|trains| - 1]);
      var rows := trains[|trains| - 1].timeTableRows;
      if rest.Failure? then rest
      else if |rows| == 0 then Failure("list index out of range")
      else Success(rest.value + [PreparedTrain(rows, StopCount(rows), Duration(rows).value, RouteEmbedding(rows))])
  }
}
