# Railway traffic network: a Dafny model of the feature and network core

This project models the part of the Finnish railway-traffic pipeline that turns
per-train timetable logs into a network: the feature engineering done for every
train (route embedding, trip duration, number of stopped stations) and the
assembly of the network's station nodes and station-pair edges. Every timetable
row is a `Timetable.Row` record, a train is its ordered sequence of rows, and
timestamps are plain integers (minutes). Places where the Python code raises
(an index into an empty row list, concatenating no frames, a station seen in
two countries) are `Wrappers.Result` failures.

Modules, following the source files:

- `Wrappers`: `Option` and `Result`.
- `Timetable`: the row and train records, the station-code column, counting
  the rows that satisfy a condition, and the flattening of all trains' rows
  (`explode`).
- `RouteString`: `"-".join` and `str.split("-")` with their round trips.
- `Features` (`src/data.py`): consecutive-repeat collapsing and the route
  embedding, duration selection, the stopped-stations formula, and the
  preparation of every train.
- `Edges` (`src/network.py`, `create_edges`): consecutive station pairs of a
  route and their de-duplication across trains.
- `Nodes` (`src/network.py`, `create_nodes`): grouping rows by station and the
  per-station statistics.
- `Network` (`src/network.py`, `create_network`): nodes and edges together.

## Model

| member | source | states |
|---|---|---|
| Features.Collapse | src/data.py:48-52 | the first code is always kept, the last code survives, the result is never longer than the input and has no two equal neighbours |
| Features.CollapseIsSubsequence | src/data.py:48-52 | the collapsed codes are a subsequence of the rows' station codes (a strictly increasing selection of positions) |
| Features.CollapseIndices | src/data.py:48-52 | a position is kept exactly when it is the first or its code differs from the one before it, and the kept positions, in increasing order, spell the collapsed route; so only adjacent repeats are dropped |
| Features.CollapseSameCodes | src/data.py:48-52 | a code occurs in the collapsed route exactly when it occurs among the rows' codes |
| Features.CollapseFixpoint | src/data.py:48-52 | collapsing leaves a sequence unchanged exactly when it has no adjacent repeats |
| Features.CollapseIdempotent | src/data.py:48-52 | collapsing an already collapsed route changes nothing |
| Features.RouteEmbedding | src/data.py:47-53 | no rows give the empty string; otherwise the embedding starts with the first row's station code |
| Features.EmbeddingSplits | src/data.py:47-53 | for `-`-free codes, splitting a non-empty train's embedding on `-` gives back exactly its collapsed station codes |
| RouteString.Join | src/data.py:53 | joining no codes gives the empty string; the first code is a prefix of the joined string |
| RouteString.Split | src/network.py:66 | splitting always yields at least one piece, no piece contains `-`, and there is a single piece exactly when the string has no `-` |
| RouteString.SplitJoin | src/network.py:66 | splitting a join of a non-empty list of `-`-free codes returns the list |
| RouteString.JoinSplit | src/network.py:66 | joining the pieces of any split returns the original string |
| RouteString.SplitAppend | src/network.py:66 | a `-` followed by a `-`-free tail adds exactly that tail as one more piece |
| Features.Duration | src/data.py:38-45 | no rows fail; actual times are used for both ends exactly when the first and the last row both have one, otherwise scheduled times for both ends, never a mix |
| Features.DurationIgnoresMiddle | src/data.py:43-45 | replacing every row between the first and the last does not change the duration |
| Features.DurationNonNegative | src/data.py:38-45 | on a chronological timetable the duration is non-negative |
| Features.Truncate | src/data.py:61 | the result is the integer next to the value on the side of zero (truncation, as `astype(int)` does) |
| Features.StoppedStations | src/data.py:59-61 | `int((k - 2) / 2 + 2)` with true division equals `k div 2 + 1`, so it is always at least 1 |
| Features.StoppedStationsMonotone | src/data.py:59-61 | more stopping rows never give fewer stopped stations, and each extra row adds at most one |
| Features.StoppedStationsCountsStations | src/data.py:59-61 | a run stopping at n stations (one stopping row at each end, two in between) is counted as n |
| Features.StopCount | src/data.py:56-62 | a train's `numberStopedStations` is half its stopping rows, rounded down, plus one: at least 1 and at most half its rows plus one |
| Features.PrepareTrains | src/data.py:55-65 | preparation fails exactly when some train has no rows; otherwise every train keeps its rows and gains its stop count, duration and route embedding |
| Edges.TrainEdges | src/network.py:65-73 | a train's pairs are the consecutive pieces of its embedding split on `-`: one fewer than the pieces, the i-th being (piece i, piece i + 1) |
| Edges.ExtractEdges | src/network.py:65-73 | a route of n > 0 stations yields n - 1 pairs, the i-th being (route[i], route[i + 1]); the empty route yields none |
| Edges.SingleStationNoEdges | src/network.py:66-71 | an embedding without `-` yields no pair |
| Edges.NoSelfLoops | src/network.py:69-71 | a route without adjacent repeats yields no pair of a station with itself |
| Edges.EmbeddingEdges | src/network.py:65-73 | the pairs read off a train's embedding are the consecutive pairs of its collapsed codes, never self-loops, and both ends are stations of the train |
| Edges.AllEdgesMembership | src/network.py:77 | a pair is in the concatenated table exactly when some train yields it |
| Edges.DropDuplicates | src/network.py:78 | the result holds every row of the input and no other, no row twice, and starts with the input's first row |
| Edges.DropDuplicatesOrder | src/network.py:78 | the kept rows appear in the order of their first occurrence in the input |
| Edges.DropDuplicatesFixpoint | src/network.py:78 | a table without repeated rows is unchanged |
| Edges.EdgeTable | src/network.py:62-81 | no trains fail (nothing to concatenate); otherwise the table holds each pair some train yields exactly once, no other row, in the order of first occurrence across the trains, with (A,B) and (B,A) as distinct rows |
| Edges.CreateEdges | src/network.py:75-81 | scanning the trains one by one and appending each train's unseen pairs gives exactly the edge table above |
| Timetable.CountWhere | src/network.py:16-18 | a count of matching rows is at most the number of rows, zero exactly when no row matches and full exactly when every row matches |
| Nodes.ProportionBounds | src/network.py:16-18 | a proportion of a subset, as a real number, lies in [0, 1], is 0 exactly for an empty subset and 1 exactly for the whole |
| Nodes.Group | src/network.py:48 | a station's group holds exactly the rows with that station code |
| Nodes.CountriesSingleton | src/network.py:11-13 | a group has exactly one distinct country code exactly when all its rows agree on the country |
| Nodes.Statistics | src/network.py:14-28 | each frequency is the number of matching rows over the number of rows, a proportion that is 0 exactly when no row matches and full exactly when every row does; `counts` is the number of rows; the country is one of the rows' countries, and every row's country when they agree |
| Nodes.AggregateGroup | src/network.py:10-30 | aggregation fails exactly when the rows disagree on the country; otherwise the node's country is every row's country and `counts` is the number of rows |
| Nodes.TypeFrequenciesSumToOne | src/network.py:15-28 | when every row is an ARRIVAL or a DEPARTURE the numerators of the two type frequencies add up to the group size, so the frequencies sum to 1 |
| Nodes.ArrivalsPlusDepartures | src/network.py:15 | rows that are all arrivals or departures split into the two counts |
| Nodes.ConflictInSomeGroup | src/network.py:11-13 | the rows have a station in two countries exactly when some station's group fails the single-country check |
| Nodes.CreateNodes | src/network.py:33-48 | node creation fails exactly when there are no rows or a station appears with two country codes; otherwise there is one node per station code that occurs, aggregating exactly that station's rows |
| Nodes.NodeDescribesStation | src/network.py:14-28 | without a country conflict every occurring station gets a node holding the statistics of exactly its rows: its number of rows, the country every such row has, and its frequencies |
| Nodes.CountInRemove | src/network.py:14 | taking one station out of a key set takes exactly its rows out of the count |
| Nodes.CountInAll | src/network.py:48 | counting over every occurring station counts every row |
| Nodes.SumCountsIsCountIn | src/network.py:14 | summing node counts over a key set counts the rows of those stations |
| Nodes.CountsSumToRows | src/network.py:14 | the node counts add up to the total number of flattened rows |
| Timetable.FlattenContains | src/network.py:33-45 | every row of every train appears among the flattened rows |
| Network.CreateNetwork | src/network.py:84-104 | building fails exactly when there are no rows or a station appears in two countries; otherwise the nodes are the ones node creation gives, one per occurring station, and the edges hold each pair some train's embedding yields, exactly once |
| Network.NetworkNodesDescribeStations | src/network.py:93 | without a country conflict the network is built and the node of every occurring station holds the statistics of that station's rows |
| Network.VisitedStationIsNode | src/network.py:93 | every station a train visits is a node of the network |
| Network.PreparedTrainsAreWellPrepared | src/data.py:55-65 | prepared trains carry the route embedding of their own rows |
| Network.EdgesJoinNodes | src/network.py:97-103 | every edge joins two distinct stations that are both nodes, so the graph gets no endpoint without attributes and no self-loop |

## Left out

- HTTP retrieval of station metadata and daily train logs (`src/data.py:13-32`) and the GraphQL helper (`src/utils.py`): network I/O through external libraries.
- The CSV cache and its reload (`src/data.py:68-87`): file I/O and pandas parsing.
- ISO timestamp parsing: timestamps are integers, so duration is an integer number of minutes rather than a `timedelta`.
- `avgDiff` (`src/network.py:19`): a floating-point mean with pandas' NaN skipping; the node record omits it.
- The left join with station metadata (`src/network.py:51-56`) and the `networkx.Graph` construction (`src/network.py:101-103`): foreign library semantics. The model's network holds the node map and the ordered edge rows; the undirected graph would merge (A,B) and (B,A).
- The Dash app and map figures (`src/app/`): presentation only.
- Only the unweighted, route-based `create_edges` (`src/network.py:62-81`) is modelled.
- Floating point: proportions are kept as exact numerator/denominator pairs (`Nodes.Ratio`) whose value is an exact `real` quotient, and the stopped-stations formula is evaluated on exact reals before truncation; the float result agrees for every realistic row count.
- Nodes.CreateNodes: `drop(columns=…)` (`src/network.py:35-45`) and `group["commercialStop"]` (`src/network.py:17`) raise `KeyError` when a column is missing from every row; a row here always has every field, and `Option` does not tell a missing key from a null, so these failures are not modelled and the model's failure cases are only the empty table and the country conflict.
- Nodes.Statistics: `value_counts(normalize=True)` divides by the number of rows whose `type` is present; the model's `type` is always present, so the denominator is the group size.
- Features.DurationNonNegative: the code does not check timestamp order, so non-negativity holds only for chronological timetables.
- Network.CreateNetwork: a train with no rows contributes no rows to node creation, whereas in the source `explode` turns it into a missing value and building the row table from it (`src/network.py:33-34`) raises; the model does not raise there. Trains produced by `Features.PrepareTrains` never have an empty timetable, because preparation fails on one.
