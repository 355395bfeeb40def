# RouteIQ routing core in Dafny

RouteIQ finds the shortest and least congested route through a city's road
network. Its live traffic segments are turned into a weighted directed graph, and it
searches that graph with Dijkstra or A*. It can also steer around congestion
hotspots, refresh edge weights from new traffic data, raise congestion
alerts and average congestion over saved snapshots. This project models
that routing core in Dafny and proves properties of the model:

- `Roads` (roads.dfy) holds the shared values:
  - nodes;
  - positions;
  - adjacency entries `(neighbor, weight)`;
  - traffic segments;
  - a route cost that is either `Fin(n)` or `Inf`, the `inf` of "no route".

  It also defines walks, simple routes, reachability and "no walk is
  cheaper", the terms in which both searches are specified.
- `Graphs` (graph.dfy) models the `Graph` class. It is a class with the
  source's fields:
  - the node set;
  - the adjacency dictionary, as a map plus its key insertion order;
  - the positions dictionary, as a map plus its key order.

  It has the methods `add_node`, `add_edge`, `dijkstra`, `a_star` and
  `nearest_node`. `add_node` and `add_edge` are specified by the functions
  `WithNode` and `WithEdge` on a `GraphState` value.
- `Frontier` (frontier.dfy) holds the invariant of the heap loop that both
  searches share, and the lemmas that carry it through one iteration:
  - a pop of an already-visited node;
  - a pop that expands a node;
  - a pop that reaches the end node;
  - the queue running empty.
- `Congestion` (congestion.dfy) models `find_hotspots` and
  `suggest_alternate_path`. The second works in three steps: it takes the
  hotspot entries out of the live lists in place, runs Dijkstra, then
  appends the removed entries back.
- `Cli` (cli.dfy) models two parts of the command-line tool:
  - one weight-refresh pass of `poll_traffic`;
  - the route selection of `main`: the alternate path first, and the
    chosen algorithm when there is none.
- `TrafficApi` (traffic_api.dfy) models `build_graph_from_traffic`, a loop
  of `add_node`/`add_edge` calls on a fresh graph. It also holds the fixed
  fallback dataset.
- `Scenarios` (scenarios.dfy) proves facts about the fallback dataset:
  - the graph built from it;
  - Dijkstra's route from A to D, and the alternate path, which is the same;
  - its hotspot list.

  It also proves a three-segment example in which the alternate path is a
  detour that costs more than the congested road.
- `Alerts` (alerts.dfy) models the alert list, with `add_alert`,
  `remove_alert`, `list_alerts` and `check_alerts`.
- `History` (history.dfy) models the snapshot history and the per-edge
  averaging.

The alert file and the history file are each modelled as a field of a
store class (`AlertStore.alerts`, `HistoryStore.snapshots`). Loading the
file reads that field and saving it writes the field.

Weights are natural numbers, as in the fallback data. Geometry is
abstracted:
- A position is a pair of integers.
- `math.hypot` of two positions is a distance function `dist` that callers
  pass in.

The heap is a sequence. A pop takes the first item of least key.

Three behaviours of the source are easy to misread. The model follows the
code in each:
- `add_edge` does not add its endpoints to the node set. It only makes both
  of them keys of the adjacency dictionary.
- The refresh pass of `poll_traffic` overwrites every entry of the list that
  leads to the segment's `to`, not only the first such entry.
- The hotspot and alert thresholds are module constants, both 7. They are
  not parameters.

## Model

| member | source | states |
|---|---|---|
| Roads.TrivialRoute | src/graph.py:33-35 | the only simple route from a node to itself is the one-node path, and it costs 0 |
| Roads.ShortestCostUnique | src/graph.py:25-39 | two routes between the same nodes that are both cheapest cost the same |
| Roads.SameEntriesRoutes | src/congestion_map.py:37-38 | reachability, routes and shortest costs depend only on which entries each list holds, not on their order |
| Frontier.MinIndex | src/graph.py:29 | the popped item has the least key in the heap, and no earlier item has that key |
| Frontier.Initial | src/graph.py:26-27 | the queue holding only the start item at cost 0, with nothing visited, satisfies the search invariant |
| Frontier.Skip | src/graph.py:30-31 | popping an already-visited node keeps the invariant |
| Frontier.PushAt | src/graph.py:36-38 | every pushed item comes from a neighbor entry that is not yet visited and costs the popped cost plus that entry's weight |
| Frontier.PushOf | src/graph.py:36-38 | every neighbor entry that is not yet visited is pushed, at the popped cost plus its weight |
| Frontier.MinBound | src/graph.py:29-35 | under a zero heuristic, the least-key item's cost is at most the weight of any walk from the start that leaves the visited set |
| Frontier.Expand | src/graph.py:32-38 | settling a node and pushing its unvisited neighbors keeps the invariant |
| Frontier.Found | src/graph.py:34-35 | reaching `end` yields a simple route of the reported cost; it is the cheapest when the keys are the costs |
| Frontier.Exhausted | src/graph.py:39 | once the queue is empty without reaching `end`, no walk leads from start to end |
| Frontier.Shrinks | src/graph.py:30-32 | each expansion settles a node not settled before, so the loop ends |
| Graphs.WithNodeEffect | src/graph.py:14-19 | add_node adds the node, keeps an existing list, creates an empty one otherwise, and changes positions only when given one |
| Graphs.WithNodeIdempotent | src/graph.py:14-19 | adding the same node twice is adding it once |
| Graphs.WithNodeWellFormed | src/graph.py:14-19 | add_node keeps every key listed once in each key order, and every node and every neighbor a key |
| Graphs.WithNodeCount | src/graph.py:14-19 | add_node adds no adjacency entry |
| Graphs.WithEdgeEffect | src/graph.py:21-23 | add_edge appends (to, weight) last to the list of `from`, makes `to` a key with an empty list if new, and changes no other list, no node and no position |
| Graphs.WithEdgeWellFormed | src/graph.py:21-23 | add_edge keeps the graph well formed |
| Graphs.WithEdgeCount | src/graph.py:21-23 | every add_edge adds exactly one adjacency entry |
| Graphs.Euclidean | src/graph.py:60-65 | the default heuristic is 0 whenever either node has no position |
| Graphs.PushNeighbors | src/graph.py:36-38 | the queue gains one item per unvisited neighbor entry, in list order, with the cost so far plus the entry's weight |
| Graphs.UniverseBound | src/graph.py:29-38 | the nodes a search can ever touch, the start and every key, number at most the keys plus one |
| Graphs.ExpansionBound | src/graph.py:29-32 | a set of settled nodes drawn from those nodes is no larger than them, so no larger than the keys plus one |
| Graphs.Graph.constructor | src/graph.py:9-12 | a new graph is empty and well formed |
| Graphs.Graph.AddNode | src/graph.py:14-19 | the fields become exactly `WithNode` of the old ones, and the graph stays well formed |
| Graphs.Graph.AddEdge | src/graph.py:21-23 | the fields become exactly `WithEdge` of the old ones, and the graph stays well formed |
| Graphs.Graph.Dijkstra | src/graph.py:25-39 | a non-empty path is a simple route whose cost is its weight sum and no walk is cheaper; `([], Inf)` exactly when `end` is unreachable; `([x], 0)` from x to x; the loop expands at most one node per key, plus the start |
| Graphs.Graph.AStar | src/graph.py:41-58 | a non-empty path is a simple route of its cost, for any heuristic; `([], Inf)` exactly when unreachable; the route is cheapest when the heuristic is 0 toward `end`, including the default one when `end` has no position |
| Graphs.Graph.Search | src/graph.py:44-58 | the heap loop of a_star: validity and the unreachable result for every heuristic, and optimality for an exact one; at most one expansion per key, plus the start |
| Graphs.Graph.ZeroHeuristicAgrees | src/graph.py:41-58 | under the constant-zero heuristic, A* and Dijkstra report the same cost |
| Graphs.Graph.NearestNode | src/graph.py:67-79 | None exactly when no node has a position; otherwise a positioned node at least distance, the first such in `positions` order |
| Congestion.FindHotspots | src/congestion_map.py:9-18 | the result is `HotspotsOf` the graph, and the graph is not changed |
| Congestion.HotspotMember | src/congestion_map.py:9-18 | a triple is reported exactly when it is an entry of the graph weighing at least 7 |
| Congestion.ProjHotspots | src/congestion_map.py:13-17 | the hotspots leaving one node are that node's heavy entries, in list order and with their repetitions |
| Congestion.LightHeavyBag | src/congestion_map.py:16 | the entries below and at or above 7 together form the list's bag of entries |
| Congestion.InLight | src/congestion_map.py:16 | an entry is in the light part exactly when it is in the list and weighs less than 7 |
| Congestion.InHeavy | src/congestion_map.py:16 | an entry is in the heavy part exactly when it is in the list and weighs at least 7 |
| Congestion.FirstMatch | src/congestion_map.py:29-33 | the index of the first entry equal to (to, weight), or the length when there is none |
| Congestion.NextPresent | src/congestion_map.py:28-31 | while hotspots are removed in order, the next one still finds its entry |
| Congestion.PopHotspot | src/congestion_map.py:28-33 | popping the first matching entry from the live list extends the removal by one hotspot and changes nothing else |
| Congestion.RemoveHotspots | src/congestion_map.py:26-33 | every hotspot is recorded as removed, and each list is left holding exactly its entries below 7, in order |
| Congestion.RemovedAll | src/congestion_map.py:26-33 | after all hotspots are removed, no entry of weight 7 or more remains |
| Congestion.RestoreEdges | src/congestion_map.py:37-38 | each removed entry is appended back to the end of its list, in removal order |
| Congestion.RestoredLists | src/congestion_map.py:37-38 | appending the hotspots, in the order found, to the light lists makes each list its light part followed by its heavy part |
| Congestion.Restored | src/congestion_map.py:37-38 | a list rebuilt as light part then heavy part holds the same entries as before |
| Congestion.RestoredBag | src/congestion_map.py:37-38 | ...and the same bag of entries, with their repetitions |
| Congestion.RestoreAll | src/congestion_map.py:37-38 | restoring from the hotspot-free graph leaves each list as its light part then its heavy part, with its old bag of entries, and changes no node, key or position |
| Congestion.LightWalk | src/congestion_map.py:25-35 | a walk of the hotspot-free graph is exactly a walk of the graph using only hops weighing less than 7 |
| Congestion.AvoidingRoute | src/congestion_map.py:20-39 | a hotspot-free route is a route of the graph, and it is cheapest among the walks that avoid hotspots |
| Congestion.SuggestAlternatePath | src/congestion_map.py:20-39 | the result is Dijkstra on the graph without hotspot entries; afterwards each list is its light part then its heavy part, so it holds the same bag, in an order that may change: the heavy entries move after the light ones |
| Cli.LastWeightSpec | src/cli.py:21-29 | `LastWeight` is the weight of the last segment of the batch for the hop, and None exactly when no segment is for it |
| Cli.ApplyAllSpec | src/cli.py:21-29 | a refresh pass keeps every key, list length and neighbor; every entry takes the weight of the last matching segment, or keeps its own |
| Cli.LastSegmentWins | src/cli.py:21-29 | after a batch ending with a segment for `from -> to`, every entry of `from` leading to `to` carries that segment's weight |
| Cli.ApplyAllIdempotent | src/cli.py:21-29 | refreshing twice with the same batch is refreshing once |
| Cli.ApplyAllWellFormed | src/cli.py:21-29 | a refreshed graph stays well formed |
| Cli.RefreshWeights | src/cli.py:21-29 | the in-place loop leaves the lists as `ApplyAll` of the batch, and never changes nodes, keys or positions |
| Cli.MethodNamed | src/cli.py:118-120 | of the searches, `getattr(graph, name)` resolves only `dijkstra` and `a_star` |
| Cli.AstarChoiceUnresolved | src/cli.py:48 | the accepted choice `astar` names no search method of the graph |
| Cli.ParseAlgorithm | src/cli.py:48 | each accepted `--algorithm` choice selects its own search, and nothing else is accepted |
| Cli.RunAlgorithm | src/cli.py:118-120 | the chosen search returns a valid route or `Inf` when unreachable, and the cheapest route under Dijkstra, or under A* when `end` has no position |
| Cli.SelectRoute | src/cli.py:114-120 | with avoid-hotspots, a hotspot-free cheapest route whenever one exists, else the chosen search, cheapest under Dijkstra or under A* when `end` has no position; without it, the chosen search on the unchanged graph; with it, each list afterwards is its light part followed by its heavy part; in both cases each list keeps its bag of entries |
| TrafficApi.IngestAdj | src/traffic_api.py:82-84 | one segment adds both endpoints, appends (to, weight) to the list of `from`, and changes no other list |
| TrafficApi.FirstMentionsSpec | src/traffic_api.py:81-84 | `FirstMentions` lists every node a segment mentions, once each |
| TrafficApi.BuiltWellFormed | src/traffic_api.py:81-84 | the built graph is well formed |
| TrafficApi.BuiltKeys | src/traffic_api.py:81-84 | both dictionaries list their keys in the order of first mention |
| TrafficApi.BuiltMentioned | src/traffic_api.py:81-84 | nodes and keys are exactly the endpoints of the segments |
| TrafficApi.BuiltNodes | src/traffic_api.py:82-83 | the node set is exactly the segments' endpoints |
| TrafficApi.BuiltEndpoints | src/traffic_api.py:82-84 | every segment's `from` and `to` are nodes and keys |
| TrafficApi.InEntriesFrom | src/traffic_api.py:84 | an entry is listed for `k` exactly when some segment from `k` carries it |
| TrafficApi.BuiltEntries | src/traffic_api.py:84 | the list of `f` is the (to, weight) list of the segments from `f`, in input order |
| TrafficApi.BuiltPositions | src/traffic_api.py:82-83 | a node's position is from its last mention, with `from_pos` applied before `to_pos` |
| TrafficApi.BuiltCount | src/traffic_api.py:84 | the graph holds exactly one entry per segment |
| TrafficApi.BuildGraphFromTraffic | src/traffic_api.py:76-85 | the loop over segments builds a fresh, well-formed graph whose state is `Built(data)` |
| TrafficApi.FallbackFacts | src/traffic_api.py:63-74 | ten segments over A to F, every weight positive, and each node placed at the same position in every segment |
| Scenarios.FallbackShaped | src/traffic_api.py:63-74 | the fallback list has the endpoints and weights of its ten segments |
| Scenarios.ShapeGraph | src/traffic_api.py:76-85 | any ten segments with those endpoints and weights build the fallback adjacency, keys A to F in order |
| Scenarios.FallbackGraph | src/traffic_api.py:63-85 | the graph built from the fallback data has keys A to F in that order and the listed adjacency |
| Scenarios.WalkFromRoot | src/graph.py:25-39 | on a graph that a distance labelling fits, every walk from the root costs at least its last node's label, and one costing exactly that is the labelling's chain |
| Scenarios.ShortestIsChain | src/graph.py:25-39 | any result meeting Dijkstra's contract on such a graph, where the chain to the target is a walk costing its label, is that chain at that cost |
| Scenarios.LightPotential | src/congestion_map.py:25-35 | taking the hotspot entries out keeps a labelling fitting |
| Scenarios.FallbackChain | src/traffic_api.py:63-74 | the fallback distances from A (A 0, B 5, C 8, D 10, E 12, F 18) lead back to A, and their chain to D is A, B, C, D |
| Scenarios.FallbackPotential | src/traffic_api.py:63-74 | on the fallback graph, every hop respects those distances |
| Scenarios.FallbackShortest | src/graph.py:25-39 | on a graph those distances fit, with the walk A, B, C, D of weights 5, 3, 2, Dijkstra's contract from A to D gives that walk at cost 10 |
| Scenarios.FallbackRoute | src/graph.py:25-39 | on the graph built from the fallback data, Dijkstra from A to D returns `["A","B","C","D"]` at cost 10 |
| Scenarios.LightFallback | src/congestion_map.py:25-35 | the walk A, B, C, D uses no hotspot, so it and the fallback distances survive the removal of the hotspots |
| Scenarios.FallbackAlternate | src/congestion_map.py:20-39 | on the graph built from the fallback data, suggest_alternate_path from A to D returns `["A","B","C","D"]` at cost 10 |
| Scenarios.DetourChains | src/congestion_map.py:20-39 | on the three-segment graph A->D 7, A->B 4, B->D 4, the distances with the road A->D lead to the chain A, D, and those without it to A, B, D |
| Scenarios.DetourEntry | src/traffic_api.py:76-85 | every entry built from those three segments is one of them |
| Scenarios.DetourHopsBuilt | src/traffic_api.py:76-85 | the graph built from them has only those three hops |
| Scenarios.AvoidPotential | src/congestion_map.py:25-35 | without its hotspot A->D, the distances A 0, B 4, D 8 fit that graph |
| Scenarios.DetourEntries | src/traffic_api.py:84 | each of the three segments is an entry of the built graph |
| Scenarios.DetourWalks | src/congestion_map.py:25-35 | A, D is a walk of that graph, and A, B, D one that survives the removal of the hotspots |
| Scenarios.DirectShortest | src/graph.py:25-39 | Dijkstra's contract from A to D there gives the road A, D at cost 7 |
| Scenarios.AvoidShortest | src/congestion_map.py:20-39 | and on its hotspot-free part, the detour A, B, D at cost 8 |
| Scenarios.DetourRoutes | src/congestion_map.py:20-39 | dijkstra takes the congested road at cost 7, while suggest_alternate_path takes the detour at the higher cost 8 |
| Scenarios.ListsHotspots | src/congestion_map.py:9-18 | lists shaped like the fallback ones give the five hotspots, in key then list order |
| Scenarios.FallbackHotspotList | src/congestion_map.py:9-18 | the fallback adjacency has the hotspots (A,C,10), (A,E,15), (B,D,8), (B,E,7), (C,F,12), in that order |
| Scenarios.FallbackHotspots | src/congestion_map.py:9-18 | find_hotspots on the graph built from the fallback data returns those five triples, in that order |
| Alerts.WithAlertSpec | src/alerts.py:18-25 | after adding, the alert is present, nothing else was added, old alerts keep their places, and the length grows only for a new alert |
| Alerts.WithAlertIdempotent | src/alerts.py:21-25 | adding the same alert a second time changes nothing |
| Alerts.WithAlertDistinct | src/alerts.py:21-22 | adding never creates a duplicate |
| Alerts.WithoutMembers | src/alerts.py:29 | after removal the list holds exactly the alerts that do not match the pair |
| Alerts.WithoutAppend | src/alerts.py:29 | the filter works element by element, so it keeps relative order |
| Alerts.WithoutShorter | src/alerts.py:29-31 | the filtered list is never longer, and shorter exactly when some alert matched |
| Alerts.Decimal | src/alerts.py:45 | the weight is printed as a non-empty string of digits |
| Alerts.DecimalRoundTrip | src/alerts.py:45 | reading the printed digits back gives the weight |
| Alerts.MessageReadBack | src/alerts.py:45 | a message is its alert's `ALERT: Congestion on from -> to (weight: ` prefix, then only digits, then `)`, and those digits read back as the hit's weight |
| Alerts.MessageWeights | src/alerts.py:45 | two messages for the same alert are equal exactly when their weights are |
| Alerts.AlertHitsMembers | src/alerts.py:43-45 | the hits of one alert are exactly its segments with equal endpoints and weight at least 7 |
| Alerts.HitsMembers | src/alerts.py:42-45 | a hit is reported exactly for each (alert, segment) pair with equal endpoints and weight at least 7 |
| Alerts.HitsAppend | src/alerts.py:42-45 | hits are grouped by alert, alerts outer, segments inner |
| Alerts.AlertStore.constructor | src/alerts.py:8-10 | with no alert file the list is empty |
| Alerts.AlertStore.AddAlert | src/alerts.py:18-25 | returns true exactly when the pair was not there; the list becomes `WithAlert` of the old list |
| Alerts.AlertStore.RemoveAlert | src/alerts.py:27-31 | the list becomes the filtered one; returns true exactly when some alert matched |
| Alerts.AlertStore.ListAlerts | src/alerts.py:33-34 | returns the stored list |
| Alerts.AlertStore.CheckAlerts | src/alerts.py:36-46 | the nested loop returns the messages of all hits, alerts outer and segments inner |
| History.SumsCountsAt | src/historical_traffic.py:39-40 | a key is in the sums and counts exactly when it occurs; its sum totals its weights and its count, at least 1, numbers its occurrences |
| History.SumsCounts | src/historical_traffic.py:34-40 | the same for every key at once |
| History.CountZero | src/historical_traffic.py:40 | a key's count is 0 exactly when it never occurs |
| History.AveragesKeys | src/historical_traffic.py:36-41 | the result's keys are exactly the `from->to` keys of all segments of all snapshots, and an empty history gives an empty map |
| History.AveragesValue | src/historical_traffic.py:41 | each average is the key's weight total divided by its occurrence count |
| History.OnlyOne | src/historical_traffic.py:38-40 | a key occurring once has count 1 and that segment's weight as its sum |
| History.SeenOnce | src/historical_traffic.py:38-41 | a key seen once averages to that weight |
| History.AverageBetween | src/historical_traffic.py:39-41 | each average lies between bounds on the key's recorded weights |
| History.KeyCollision | src/historical_traffic.py:38 | two different pairs, ("a->b", "c") and ("a", "b->c"), share the key `a->b->c` and are averaged together |
| History.AverageCongestionPerEdge | src/historical_traffic.py:29-42 | the nested accumulation loop returns `Averages` of all segments of all snapshots |
| History.HistoryStore.constructor | src/historical_traffic.py:24-25 | with no history file the history is empty |
| History.HistoryStore.SaveTrafficSnapshot | src/historical_traffic.py:7-18 | the history becomes the old history with the snapshot appended last |
| History.HistoryStore.LoadHistoricalData | src/historical_traffic.py:20-27 | returns the stored history |

## Left out

- Fetching from the HERE traffic API is not modelled. That covers the parsing of the HERE response (its JSON and shape strings) and the exception path that falls back: it is network I/O over floating-point data. The fixed fallback segment list, with its positions, is modelled.
- `fetch_multiple_traffic_data` is not modelled, because it runs a thread pool.
- `poll_traffic`'s endless loop, its `sleep` and its daemon thread are not modelled. Only one refresh pass is.
- The parallel Dijkstra/A* comparison, `timeit`, argparse, the bounding-box arithmetic and all printing in `main` are not modelled. They are threads, clocks and I/O.
- JSON persistence is not modelled. The reading, writing and existence tests on the alert and history files become the fields of `AlertStore` and `HistoryStore`.
- The visualization module is not part of this model. It renders maps to HTML through a library this model cannot see.
- `math.hypot` is not modelled. Positions are integer pairs, and distance is a function `dist` passed in. The model proves nothing about its values.
- Graphs.Graph.AStar: with the default Euclidean heuristic the route is claimed cheapest only when `end` has no position. Straight-line distance is not shown to underestimate the traffic weights, and the source does not promise that it does.
- Frontier.MinIndex: `heapq` breaks ties on cost by comparing node ids and path lists. The model pops the first item of least key instead. The route and cost contracts hold for any tie-breaking, but the exact route among equal-cost ones is not pinned down.
- Weights are natural numbers. The source's float weights, such as jam factors from the live feed, are not modelled, and neither are negative weights.
- History.Averages divides exact reals. Float rounding is not modelled.
- History.Averages is a Dafny map, so it loses the insertion order of the dictionary that src/historical_traffic.py:41 builds.
- Congestion.SuggestAlternatePath: the source has no try/finally around the search. The restore steps run only on a normal return, and the model does not model exceptions.

## Findings

| source | as written | input that shows it | evidently intended | confidence | as-written member | corrected member |
|---|---|---|---|---|---|---|
| src/cli.py:48 | `--algorithm` accepts `astar`. The search then runs as `getattr(graph, args.algorithm)`, but the graph's method is named `a_star` (src/graph.py:41), so the lookup raises `AttributeError`. | `--algorithm astar`, no `--compare-algorithms`, and either no `--avoid-hotspots` or no alternate path | `astar` selects the A* search | not executed | Cli.AstarChoiceUnresolved | Cli.ParseAlgorithm |
