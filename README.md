# Metro route finder: a verified model of the A* core

This project models the route-finding core of a small metro trip planner (`main.py`). It covers:

- **Graph construction.** Building the id-keyed station catalog. Appending mirrored `line` edges for consecutive stations of a line. Appending mirrored `transfer` edges for declared interchange pairs.
- **The edge-weight rule.** Base distance; plus the transfer penalty on transfers; ×1.5 on transfers for reduced mobility; ×1.15 on line edges leaving a line-3 or line-9 station at peak. Also the search-only +0.5 bias per transfer.
- **The A\* search.** A frontier selected by the least `(f_score, transfers_count)` pair. Relaxation of each outgoing arc, which updates `came_from`, `g_score`, `f_score` and `transfers_count`, and reopens the improved node.
- **Path reconstruction.** Walking `came_from` back from the destination, then reversing.
- **Itinerary assembly.** Re-pricing each leg, summing the totals, counting transfers and collecting the lines used.
- **The entry points.** `a_star`, with its station-not-found and no-route errors, and the same-station short cut of `compute_route`.

Layout, one module per component:

- `graph.dfy` (`Graph`): stations, edges, the catalog, the `EdgeList` class that the start-up code appends to, and walks.
- `cost.dfy` (`Cost`): the weight rule, the heuristic, and scores along chains of edges.
- `search.dfy` (`Search`):
  - the neighbour map;
  - the search loop (`Explore`), with its inner relaxation loop (`RelaxArcs`, `RelaxOne`);
  - the invariants and lemmas behind them.
- `itinerary.dfy` (`Itinerary`): reconstruction (`Reconstruct`) and the assembly loop (`Assemble`), each specified by a function.
- `route.dfy` (`Route`): `AStar` and `ComputeRoute`, and the lemmas that join search, reconstruction and assembly.

How the source's concepts are represented:

- **Distance.** `math.hypot` is a parameter `metric`. It is non-negative, symmetric, zero from a point to itself, and obeys the triangle inequality.
- **Infinity.** A station whose score is `math.inf` is a station absent from the score map.
- **Ghost state.** The search carries ghost state that the source does not have: the set of stations already selected, their selection order, and the edge behind each predecessor link. That state is how the following are proved:
  - termination;
  - a predecessor chain with no cycle;
  - the optimality of the route found.

What is proved, in short:

- The edge list stays symmetric.
- Edge weights follow the rule and are never below the distance.
- `g_score` values only fall, and closed stations keep theirs.
- Every predecessor link follows a listed edge whose weight the child's score covers.
- Following `came_from` from any scored station reaches the origin without repeating a station: the predecessor map has no cycle.
- `transfers_count` of a scored station is the number of transfer edges on its predecessor chain.
- A route is returned exactly when the destination is reachable. It runs from origin to destination along listed edges without repeating a station, and no walk has a smaller search score.
- The itinerary is the assembly of that path. The lines used are listed once each, in first-appearance order.
- When no pair of stations is joined by both a line and a transfer edge, the reported total cost plus 0.5 per transfer (when transfers are discouraged) is exactly the score the search minimised.

## Model

| member | source | states |
|---|---|---|
| Graph.CatalogOf | main.py:87 | The catalog has one key per distinct station id, and each entry is a listed station stored under its own id (`Keyed`). |
| Graph.CatalogLastWins | main.py:87 | When ids repeat, the catalog keeps the last station listed with that id, as a dict comprehension does. |
| Graph.LinePairs | main.py:94-97 | The entries for a line are 2·(n−1) edges: for each i, `(ids[i], ids[i+1], line)` followed by its mirror. |
| Graph.LinePairsSymmetric | main.py:94-97 | The edges appended for a line contain the mirror of each of their entries. |
| Graph.TransferPairs | main.py:116-118 | The entries for the transfer list are two per pair: `(a, b, transfer)` followed by `(b, a, transfer)`. |
| Graph.TransferPairsSymmetric | main.py:116-118 | The transfer edges appended contain the mirror of each of their entries. |
| Graph.EdgeList.constructor | main.py:90 | The edge list starts empty, which is symmetric. |
| Graph.EdgeList.ConnectSequence | main.py:94-97 | The list becomes its old contents followed by exactly the mirrored line pairs, and stays symmetric. |
| Graph.EdgeList.AddTransfers | main.py:116-118 | The list becomes its old contents followed by exactly the mirrored transfer pairs, unknown endpoints included, and stays symmetric. |
| Cost.Dist | main.py:124-125 | Distance between catalogued stations is non-negative, symmetric, and zero from a station to itself. |
| Cost.EdgeCost | main.py:164-183 | With a non-negative penalty, an edge never costs less than the distance between its ends. |
| Cost.SearchWeight | main.py:203-206 | The amount a relaxation adds is at least the distance, with the transfer bias on top of the edge cost. |
| Cost.ReducedMobilitySurcharge | main.py:176-177 | Reduced mobility adds exactly half of (distance + penalty) to a transfer and nothing to a line edge. |
| Cost.DefaultWeights | main.py:127-131 | With the request defaults, a line edge costs its distance, a transfer its distance plus 5.0, and the search adds no bias. |
| Cost.PeakSurcharge | main.py:179-181 | At peak, a line edge leaving a line-3 or line-9 station costs exactly 1.15 times its off-peak cost. Every other edge is unchanged. |
| Cost.Consistent | main.py:191-211 | The straight-line heuristic never drops by more than the weight of the edge crossed, so it is consistent. |
| Cost.SearchCostSplits | main.py:203-206 | The score the search accumulates along a chain is its reported cost plus the bias once per transfer. |
| Cost.SearchCostNonNegative | main.py:166-183 | With a non-negative penalty, no chain of edges has a negative score. |
| Cost.SearchCostAppend | main.py:203 | Scores add up over a concatenation of chains. |
| Search.AdjSound | main.py:164-183 | Every arc in the neighbour list of `u` stands for a listed edge from `u`, priced by the weight rule. |
| Search.AdjComplete | main.py:164-183 | Every listed edge from `u` appears in the neighbour list of `u`. |
| Search.BuildNeighbors | main.py:162-183 | The neighbour map built by the loop gives, for every station, its outgoing arcs in edge-list order. |
| Search.LexMinExists | main.py:197 | A nonempty frontier has an element whose `(f_score, transfers_count)` pair is least. |
| Search.InitialInv | main.py:186-194 | The initial state meets the invariant: origin open with score 0 and f = h(origin), no predecessors, no other scores. |
| Search.SelectKeeps | main.py:197-200 | Selecting the least frontier node and removing it from the frontier keeps the invariant. The node joins the closed stations with the next selection number. |
| Search.NoReopen | main.py:208-213 | Relaxing an edge out of the node selected last never improves an already-selected station. |
| Search.RelaxOne | main.py:202-213 | The new state is exactly `Relax`: the target is re-pointed, re-scored, re-counted and reopened when the tentative score is lower, and nothing changes otherwise. The step keeps the invariant and the transfer counts, leaves its edge relaxed, and only adds or lowers scores. Selected stations' scores do not change. |
| Search.ImproveCounted | main.py:209-212 | Re-pointing a station at the current node sets its transfer count to the current node's count, plus one over a transfer edge. Every predecessor link keeps that relation. |
| Search.ImproveTarget | main.py:208-213 | An improved target is never selected already, never the origin, and never the predecessor of another station. |
| Search.AdjExtend | main.py:162-183 | Reading one more edge appends its arc to the neighbour list of its tail and leaves every other list unchanged. |
| Search.ImproveKeeps | main.py:208-213 | An improving update re-points the target at the current node through the edge. The child's score then covers the edge weight, and the invariant holds. |
| Search.ImproveLinks | main.py:209-210 | After re-pointing, every predecessor link still follows a listed edge whose weight the child's score covers. |
| Search.RelaxArcs | main.py:202-213 | The new state is exactly `RelaxFrom`, the arcs of the current node relaxed in list order. It keeps the invariant and the transfer counts, and leaves every edge out of a selected node relaxed. g-scores only fall. |
| Search.WalkBound | main.py:196-213 | Every walk from the origin either ends at a selected station whose score it does not beat, or bounds the f-score of the node being selected. |
| Search.SelectedIsCheapest | main.py:197-199 | When the destination is selected, its g-score is at most the search score of every walk to it. |
| Search.ReachedScored | main.py:196-213 | Once the frontier is empty, every station reachable from the origin has a score. |
| Search.Exhausted | main.py:196-216 | If the frontier empties, the destination has no predecessor, is not the origin, and is unreachable. |
| Search.ForestOf | main.py:186-213 | The final predecessor map is a forest rooted at the origin. g(origin) = 0 and every other scored station has a predecessor. Links follow edges and keep transfer counts. Every predecessor is selected, and ranks fall along links between selected stations, so there is no cycle. |
| Search.Explore | main.py:186-213 | The search terminates. The result is a predecessor forest with no cycle whose transfer counts follow the links. The destination has a predecessor (or is the origin) exactly when it is reachable, and then its score is the least over all walks. |
| Itinerary.Reversed | main.py:225 | Reversal keeps the length and mirrors the indices. |
| Itinerary.ChainTo | main.py:219-225 | The predecessor chain ends at the given station and starts at the origin or at a station without predecessor. Each element is the predecessor of the next, and ranks rise along it. |
| Itinerary.ChainHasNoRepeats | main.py:219-225 | No station occurs twice on a predecessor chain. |
| Itinerary.ChainStep | main.py:220-224 | Following the predecessor of the last station collected keeps the collected list equal to the tail of the chain, reversed. |
| Itinerary.Reconstruct | main.py:219-225 | The loop terminates and returns exactly the predecessor chain from the destination back to the origin, reversed. |
| Itinerary.SegmentKind | main.py:236-240 | Whenever some edge joins the leg's stations in that direction, the leg takes the kind of a listed edge. With both kinds listed, it takes transfer. It is never a transfer that is not listed. |
| Itinerary.TotalsAppend | main.py:244-257 | One more leg adds its distance and cost to the totals, one to the transfer count if it is a transfer, and its line to the lines used if it is a new line leg. |
| Itinerary.SegmentCostIsEdgeCost | main.py:241-251 | The assembler's pricing equals the search's step cost for the same edge, which is the search weight without the bias. |
| Itinerary.Segments | main.py:234 | One leg per consecutive pair of the path, priced from that pair. |
| Itinerary.TotalsAdditive | main.py:244-257 | Total distance, total cost and transfer count each add up over a concatenation of legs. |
| Itinerary.TransferCountCountsLegs | main.py:248 | The transfer count is the number of legs typed transfer. |
| Itinerary.LinesUsedExactly | main.py:252-253 | A line is listed exactly when some line leg rides it. |
| Itinerary.LinesUsedNoDuplicates | main.py:252-253 | No line is listed twice. |
| Itinerary.LinesUsedInFirstAppearanceOrder | main.py:252-253 | If line L[i] is listed before line L[j], every leg riding L[j] is preceded by a leg riding L[i]. |
| Itinerary.Assemble | main.py:228-266 | The loop builds exactly the legs, totals, transfer count and lines used of the path's assembly. |
| Route.ChainWalk | main.py:208-210 | A chain of predecessor links is a walk along listed edges, and its search score is at most the rise in g-score along it. |
| Route.ChainFromForest | main.py:219-225 | The chain rebuilt from a selected station starts at the origin, is linked by predecessors and repeats no station. |
| Route.ReachedChain | main.py:209-225 | From any scored station, selected or not, the predecessor links lead back to the origin without repeating a station. |
| Route.ReachedPath | main.py:209-225 | That chain, built: the ranked chain to the station, or to its predecessor followed by the station. |
| Route.ChainExtend | main.py:219-224 | A linked chain without repeats stays so when a station not on it, whose predecessor is its last element, is added. |
| Route.ChainTransfers | main.py:212 | Along a predecessor chain, the transfer count rises by exactly the number of transfer edges recorded on it. |
| Route.TransfersSnoc | main.py:212 | One more edge adds one transfer exactly when it is a transfer edge. |
| Route.ChainFollows | main.py:219-225 | That chain runs from origin to destination through catalogued stations, one listed edge per step. |
| Route.ChainLeast | main.py:186-216 | The edges along that chain form a walk whose search score no other walk beats. |
| Route.AssembledSingle | main.py:228-266 | A one-station path assembles to no legs, zero totals, no transfers and no lines. |
| Route.LegsFollowWalk | main.py:238-251 | With unambiguous edge kinds, each leg has the kind and the step cost of the edge the search used. |
| Route.TotalsFollowWalk | main.py:244-257 | Legs that match a chain edge for edge total to its reported cost and its transfer count. |
| Route.TotalsMatchSearch | main.py:203-257 | Such legs' total cost plus the bias per transfer equals the chain's search score. |
| Route.ReportedMatchesSearch | main.py:241-257 | With unambiguous edge kinds, the reported total cost plus the bias per transfer equals the search score of the edges used. |
| Route.Answered | main.py:228-266 | A path that follows a cheapest walk yields an answer meeting every guarantee, and the destination is reachable. |
| Route.Found | main.py:218-266 | After a successful search, the rebuilt path answers the request and the destination is reachable. |
| Route.NegativePenaltyNoCheapest | main.py:203-213 | With a penalty below −0.5, two co-located stations joined by mirrored transfers give every walk from one of them a cheaper one. So no cheapest route exists. |
| Route.AStar | main.py:155-266 | Station-not-found exactly when an id is unknown, raised before any search and whatever the edges and the penalty. No-route exactly when the destination is unreachable. Otherwise the path follows listed edges from origin to destination without repeats, the result is its assembly, and no walk has a smaller search score. Equal known ids give `[id]` with no legs and no lines. |
| Route.ComputeRoute | main.py:280-288 | Equal known ids give `[origin]`, no legs, zero totals, no transfers and `[that station's line]`, whatever the edges and the penalty. An unknown id gives station-not-found, whatever the edges and the penalty. Other requests behave as `AStar`. |

## Left out

- The web layer is not modelled: the FastAPI app, CORS, the `/`, `/api/stations` and test endpoints, and the launcher (main.py:8-16, main.py:269-278, main.py:290-308). They are framework I/O. The two `HTTPException`s become `RouteError.StationNotFound` (404) and `RouteError.NoRouteFound` (400).
- Pydantic validation and field metadata (main.py:22-29, main.py:127-152) become plain datatypes. A mobility other than `"reduced"` is `Normal`, and a time of day other than `"peak"` is `OffPeak`, as the string comparisons behave.
- Floating point is not modelled: costs are exact reals, and `round(..., 3)` on the totals (main.py:262-263) is left out. Totals are stated unrounded.
- `math.hypot` is the parameter `metric` with the metric-space laws rather than a square root.
- The literal station table and the concrete line and transfer lists (main.py:33-84, main.py:100-114) are not reproduced. Construction is modelled for arbitrary inputs. Display fields (name, colour, accessibility) play no part in routing and are dropped.
- Tie-breaking among frontier nodes with equal `(f_score, transfers_count)` depends on Python's hash-randomised set order (main.py:197). The model chooses any least element, so routes are not claimed to be reproducible when ties occur.
- The transfer loop appends both edges even when an endpoint is not in the catalog (main.py:116-118); no pair is skipped. The model does the same.
- The reduced-mobility rule multiplies base + penalty by 1.5 (main.py:176-177), so the surcharge is 0.5 × (distance + penalty), not 0.5 × the distance alone. `Cost.ReducedMobilitySurcharge` proves the former.
- Route.ComputeRoute: requires a catalog whose entries sit under their own ids (`Graph.Keyed`). The dict comprehension at main.py:87 always builds one, as `Graph.CatalogOf` proves.
- Route.AStar: when both ids are catalogued, requires every edge endpoint to be catalogued. The source would raise a `KeyError` at main.py:165 on an unknown endpoint, which the model does not reproduce.
- Route.AStar: when both ids are catalogued, requires a non-negative transfer penalty. The source accepts any float. See Findings for what a negative penalty does.
- Route.AStar: states that the reported total cost plus the bias per transfer equals the minimised search score only when no ordered pair of stations is joined by both a line and a transfer edge. That holds for the shipped network. Otherwise the assembler (main.py:238) types a leg as a transfer whatever edge the search took.
- Route.AStar: the ghost out-parameter `used`, the chain of edges behind the path, has no counterpart in the source. The source only promises a path, not which of two parallel edges was taken.
- Search.Explore: the ghost state (selected set, selection order, recorded edges, bound) exists only for the proof. The search itself updates exactly the five structures of the source.

## Findings

| source | as written | input that shows it | evidently intended | confidence | as-written member | corrected member |
|---|---|---|---|---|---|---|
| main.py:203-213 | `transfer_penalty` accepts any float (main.py:128). With a negative value when fewer transfers are not preferred, or any value below −0.5, the mirrored transfer pair between two co-located stations is a cycle of negative score. Relaxation keeps lowering scores around it, so the search loop never ends. | `transfer_penalty = -1.0`, other options default, origin `balderas_l1` (co-located with `balderas_l3` at (70, 40)), destination `cuauhtemoc`. The pair's f-scores stay below the destination's and keep falling, so the destination is never selected. | Penalties are non-negative ("additional cost per transfer"). The search then terminates with a cheapest route. | medium; not executed | Route.NegativePenaltyNoCheapest | Route.AStar |
