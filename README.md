# School-bus route search, modelled in Dafny

The repository solves a one-bus pickup-and-delivery puzzle. A bus starts at a
stop of a directed, weighted transit graph. Passengers wait at stops, each
bound for the stop of a school. The bus may move along an edge (paying the
edge's cost), let a passenger on board (cost 1, no capacity check of its own),
or let one off at its destination (cost 1). The goal is every passenger
delivered and the bus back at its starting stop.

Search runs best-first. The open list is a multimap from total cost (cost so far
plus a distance heuristic) to state. The closed list maps a state id (a hash of
the bus's stop, the passengers aboard and waiting, and the parent's id) to a small
"expanded" record. Because the parent's id is hashed too, the closed list only
recognises a configuration reached again from the same parent; one reached from
another parent is expanded again. The route is recovered
by following parent ids from the goal's record back to the initial one, and is
rendered as text such as `P1 ->P2 (S: 1 C2, 1 C3) ->P3 (B: 1 C2) ...`.

The modules follow the program's files:

- `Types` (types.dfy) holds passengers, stations, schools and the bus (`Types.h`).
- `Ledger` (ledger.dfy) holds the expanded record and the closed list (`OrderedSet.h`, `OrderedSet.cpp`).
- `Transit` (graph.dfy) holds the adjacency-list graph, its edge-cost lookup and the
  Bellman-Ford style shortest-path query (`Graph.h`, `Graph.cpp`). The query is
  proved equal to a rounds-based distance function, which is proved to be the
  least walk cost capped at 127.
- `SearchState` (state.dfy) holds the search state, its three kinds of successor, the goal
  test and the heuristics (`State.h`, `State.cpp`). The hash is a parameter.
- `Text` (text.dfy) holds the line splitter, the number extractor and the school lookups of
  the problem-file reader (`main.cpp`). Splitting a line joined from separator-free pieces
  is proved to give the pieces back when the first piece is non-empty and the line is
  longer than one character, and the examples of `test_string_split` are restated.
- `Search` (solver.dfy) holds the open list as a sorted sequence, the solver class, the
  search loop, parent chasing and route rendering (`Solver.h`, `Solver.cpp`).
  A value-level invariant (`SearchOk`) is kept by every step. It says:
  - the open list is ordered by key;
  - every open entry is well formed; its parent is closed unless it is the
    initial record, which has no closed parent; its key is its total cost,
    except that the initial entry is queued with key 0;
  - every closed record's parent was closed earlier, and the expansion count
    is the number of closed records;
  - once the goal is found, its parent is closed, or the goal is the initial
    record itself. The goal is recorded without being closed, so the
    invariant does not say the goal is in the closed list.
  The heuristics are consistent: no successor has a smaller total cost than its
  father. So the front entry is still the candidate after its successors are
  inserted, and the `erase(begin())` that follows removes the candidate.

## Model

| member | source | states |
|---|---|---|
| Types.DefaultPassenger | src/Types.h:15-18 | the default passenger travels from stop 0 to stop 0 |
| Types.DefaultBus | src/Types.h:138-143 | the default bus is at stop 0, started at 0, has capacity 0 and no one aboard |
| Types.SamePassenger | src/Types.h:51-55 | passenger `==` holds exactly when origin and destination both agree |
| Types.DifferentPassenger | src/Types.h:57-61 | passenger `!=` is exactly the negation of `==` |
| Types.StationLessIsStrictOnIds | src/Types.h:110-113 | station `<` is irreflexive, asymmetric, transitive and total on ids; stations with one id are unordered whatever their passengers |
| Types.AssignStation | src/Types.h:100-108 | station assignment copies the id and appends the source's passengers after the target's; self-assignment changes nothing |
| Types.StationAssignmentCopiesOnlyIntoEmpty | src/Types.h:100-108 | station assignment yields a copy of the source exactly when the target had no passengers, and the result holds both passenger lists |
| Types.AssignBus | src/Types.h:173-183 | bus assignment overwrites origin, current stop and capacity and appends the source's passengers; self-assignment changes nothing |
| Types.BusAssignmentCopiesOnlyIntoEmpty | src/Types.h:173-183 | bus assignment is a copy exactly when the target carried no one; assigning the same bus twice lists its passengers twice |
| Ledger.DefaultExpanded | src/OrderedSet.h:32-39 | the default record has all numbers 0 and neither flag |
| Ledger.RecordComparisons | src/OrderedSet.h:98-116 | record `==`/`!=` look at ids only; `<` and `>` are not strict: a record is both below and above any record with its id |
| Ledger.OrderedSet.constructor | src/OrderedSet.h:127-129 | a new closed list is empty |
| Ledger.OrderedSet.Insert | src/OrderedSet.cpp:6-9 | inserting stores the record under its id only if the id is absent; an existing record is never replaced |
| Ledger.OrderedSet.Lookup | src/OrderedSet.cpp:11-20 | lookup answers true exactly when a record with that id is stored |
| Ledger.OrderedSet.Recover | src/OrderedSet.cpp:22-25 | recover returns the record stored under a present id, whose own id is that id |
| Ledger.InsertThenQuery | src/OrderedSet.cpp:6-25 | after an insert, lookup succeeds for the inserted id and answers as before for others; recover yields the first record inserted under the id |
| Ledger.EmptyLookup | src/OrderedSet.h:127-129 | a fresh closed list finds no record |
| Transit.Graph.constructor | src/Graph.cpp:3-22 | the graph has N adjacency lists, list u holding the transitions of the edges leaving stop u+1 in input order; with in-range destinations it is well formed |
| Transit.AdjacencyMembership | src/Graph.cpp:13-21 | a transition is in list u exactly when some input edge leaves stop u+1 with that destination and cost |
| Transit.AdjacencyStoresEachEdgeOnce | src/Graph.cpp:7-21 | the lists together hold exactly as many transitions as there are edges |
| Transit.AdjacencyIsValid | src/Graph.cpp:3-22 | when every edge's destination is a stop, every transition points at a stop |
| Transit.Graph.Copy | src/Graph.h:47-56 | the copy has the same lists and the same count |
| Transit.Graph.GetVectorCount | src/Graph.cpp:64-67 | the count is the number of adjacency lists |
| Transit.Graph.GetNeighbors | src/Graph.cpp:39-47 | the neighbours of a stop are its transitions with non-zero cost, in order |
| Transit.NonZeroExact | src/Graph.cpp:39-47 | the neighbour filter keeps every non-zero-cost transition with its multiplicity and drops every zero-cost one |
| Transit.NonZeroCount | src/Graph.cpp:39-47 | a transition occurs among the neighbours as often as in the stored list when its cost is non-zero, and never otherwise |
| Transit.FindCost | src/Graph.cpp:56-61 | the cost of the first transition to `dest`, or -1 exactly when there is none |
| Transit.Graph.GetCost | src/Graph.cpp:49-62 | as written: -1 when the graph is empty or `dest` is not below the stop count (so always for the last stop), otherwise the first matching edge cost or -1 when there is none |
| Transit.Graph.GetCostChecked | src/Graph.cpp:49-62 | corrected guard: -1 exactly when either stop is out of range or no edge joins them; otherwise the first matching edge cost |
| Transit.Dist | src/Graph.cpp:71-88 | every distance after k rounds lies between 0 and the cap 127 |
| Transit.ShortestPathIsLeast | src/Graph.cpp:69-91 | the returned distance is at most the cost of every walk from src to dest |
| Transit.ShortestPathIsAttained | src/Graph.cpp:69-91 | a distance below the cap is the cost of some actual walk from src to dest |
| Transit.ShortestPathToSelf | src/Graph.cpp:76 | the distance from a stop to itself is 0 |
| Transit.ShortestPathTriangle | src/Graph.cpp:69-91 | distances obey the triangle inequality |
| Transit.ShortestPathBelowEdge | src/Graph.cpp:84-85 | the distance along an edge is at most the edge's cost |
| Transit.ShortestPathAbovePotential | src/Graph.cpp:69-91 | a feasible potential that is 0 at the source bounds every distance from below |
| Transit.InitialState | src/Graph.cpp:73-76 | the initial array (127 everywhere, 0 at the source) is sound and below the round-0 distances |
| Transit.RelaxKeepsSound | src/Graph.cpp:84-85 | one relaxation keeps every finite entry the cost of a real walk |
| Transit.RelaxKeepsOrder | src/Graph.cpp:82-86 | one relaxation keeps the array below the target row and extends the relaxed prefix by one edge |
| Transit.RoundComplete | src/Graph.cpp:80-87 | after relaxing every edge against round k's distances, the array is below round k+1's |
| Transit.SoundAndBelowIsExact | src/Graph.cpp:78-90 | a sound array below the final round's distances equals them |
| Transit.RelaxEdgeInPlace | src/Graph.cpp:84-85 | the array update relaxes one edge in place |
| Transit.RelaxEachEdge | src/Graph.cpp:80-87 | one pass over every list and edge keeps the array sound and relaxes every edge |
| Transit.RelaxAllEdges | src/Graph.cpp:78-88 | one outer round moves the array from below round k to below round k+1 |
| Transit.NewDistances | src/Graph.cpp:71-76 | a fresh array holding 127 everywhere and 0 at the source |
| Transit.Graph.ShortestPathCost | src/Graph.cpp:69-91 | the in-place loops return exactly the capped least walk cost |
| Transit.TestAdjacencyBuilt | src/main.cpp:488-500 | the ten test edges build the listed four-stop adjacency |
| Transit.TestWalk | src/main.cpp:480-485 | the test graph has a walk from P1 to P4 costing 11 |
| Transit.TestShortestPath | src/main.cpp:507-511 | the shortest path from P1 to P4 in the test graph costs 11 |
| Transit.BuildTestGraph | src/main.cpp:488-500 | the constructed test graph holds the listed adjacency |
| Transit.TestGraphCosts | src/main.cpp:503-505 | costs 1→2, 1→3 and 3→2 are 2, 3 and 1; the as-written lookup of 2→4 gives -1 although the edge costs 9 |
| Transit.TestGraphDistance | src/main.cpp:507-511 | the shortest-path query on the test graph from P1 to P4 returns 11 |
| Transit.TestGraph | src/main.cpp:487-512 | the whole graph self-test: the three costs, the missed 2→4 cost and the distance 11 |
| SearchState.Initial | src/State.h:71-88 | the initial state keeps bus, stops, graph and heuristic, costs 0, and its record has parent 0, the bus's stop and no flags |
| SearchState.FromTransition | src/State.h:142-157 | a move child takes the new bus and cost, keeps the stops, and its record names the father as parent with no flags |
| SearchState.FromDisembark | src/State.h:160-176 | a disembark child costs one more than its father, keeps the stops and sets only the disembark flag |
| SearchState.FromEmbark | src/State.h:179-195 | an embark child costs one more, takes the new stops, sets only the embark flag and records the passenger's destination |
| SearchState.TransitToStation | src/State.cpp:64-76 | a move changes only the bus's stop, adds the edge cost, and keeps every passenger where it was |
| SearchState.FirstIndex | src/State.cpp:137-143 | the index of the first occurrence of the passenger |
| SearchState.RemoveFirst | src/State.cpp:97-104 | removing a passenger drops only its first occurrence; a list without it is unchanged |
| SearchState.FirstIndexInTail | src/State.cpp:97-104 | when the head is not the passenger, its presence, its first index and the list without it are those of the tail shifted by one |
| SearchState.RemoveFirstCount | src/State.cpp:97-104 | removal takes exactly one copy of a present passenger out and adds no one |
| SearchState.DisembarkFacts | src/State.cpp:89-107 | a disembark keeps the bus's stops and capacity, removes one copy of the passenger, costs 1 and removes it from the passengers still to deliver |
| SearchState.DisembarkPassenger | src/State.cpp:89-107 | the copying loop builds exactly the disembark child |
| SearchState.EmbarkFacts | src/State.cpp:120-147 | an embark appends the passenger to the bus, removes one copy from the current stop only, costs 1 and records its destination |
| SearchState.EmbarkConserves | src/State.cpp:120-147 | an embark moves a passenger without creating or losing anyone |
| SearchState.EmbarkHasNoCapacityCheck | src/State.cpp:122-131 | an embark on a full bus yields an over-capacity state |
| SearchState.EmbarkPassenger | src/State.cpp:120-147 | the erase-first loop builds exactly the embark child |
| SearchState.MoveAt | src/State.cpp:154-156 | the k-th move successor is the move along the k-th neighbour |
| SearchState.DisembarkAt | src/State.cpp:159-162 | every disembark successor lets off an aboard passenger whose destination is the current stop |
| SearchState.EmbarkAt | src/State.cpp:166-167 | the k-th embark successor boards the k-th waiting passenger |
| SearchState.MoveIsGood | src/State.cpp:154-156 | a move along a neighbour is a well-formed child |
| SearchState.DisembarkIsGood | src/State.cpp:159-162 | a disembark of an aboard passenger is a well-formed child |
| SearchState.EmbarkIsGood | src/State.cpp:165-168 | an embark below capacity is a well-formed child that stays within capacity |
| SearchState.MovesAreGood | src/State.cpp:154-156 | every move successor is a well-formed child |
| SearchState.DisembarksAreGood | src/State.cpp:158-162 | every disembark successor is a well-formed child |
| SearchState.EmbarksAreGood | src/State.cpp:164-169 | every embark successor is a well-formed child |
| SearchState.RanksInOrder | src/State.cpp:149-172 | moves, then disembarks, then embarks: concatenating the three groups keeps them in that order |
| SearchState.SuccessorsAreGood | src/State.cpp:149-172 | every successor is a well-formed child of the state, and successors come moves first, disembarks next, embarks last |
| SearchState.GetSuccessors | src/State.cpp:149-172 | the three loops build exactly the successor list |
| SearchState.CollectMoves | src/State.cpp:154-156 | the move loop builds one move per neighbour, in order |
| SearchState.CollectDisembarks | src/State.cpp:159-162 | the disembark loop builds one child per aboard passenger whose destination is here |
| SearchState.CollectEmbarks | src/State.cpp:165-169 | the embark loop builds one child per waiting passenger |
| SearchState.GoalMeansAllDelivered | src/State.cpp:174-189 | a state is final exactly when no one is waiting or aboard and the bus is back at its origin |
| SearchState.IsFinal | src/State.cpp:174-189 | the goal test returns exactly the goal predicate |
| SearchState.MaxOf | src/State.cpp:216-225 | the result bounds every element and is 0 or one of them |
| SearchState.Max | src/State.cpp:216-225 | the running-maximum loop returns the maximum |
| SearchState.MinAsWritten | src/State.cpp:228-237 | as written the running minimum starts from 0 and so always returns 0 |
| SearchState.MinOf | src/State.cpp:228-237 | the minimum of a non-empty list is one of its elements and bounds each from below |
| SearchState.Min | src/State.cpp:228-237 | the loop seeded with the first element returns the minimum |
| SearchState.MinAsWrittenMissesMinimum | src/State.cpp:228-237 | on [3] the as-written loop answers 0 while the minimum is 3 |
| SearchState.StationDistancesEmpty | src/State.cpp:244-252 | with no one waiting anywhere the list of distances to stops is empty |
| SearchState.StationDistancesCover | src/State.cpp:244-252 | every stop with someone waiting contributes its distance |
| SearchState.StationDistancesBounded | src/State.cpp:244-252 | every such distance is at most the cap |
| SearchState.StationDistancesFrom | src/State.cpp:244-252 | every distance in the pickup list is the distance to some stop where someone waits |
| SearchState.PickupHeuristicAttained | src/State.cpp:240-254 | the pickup heuristic is 0 or the distance to some stop where someone waits |
| SearchState.DeliveryDistancesFacts | src/State.cpp:261-266 | one distance per aboard passenger, the i-th being the distance to its destination |
| SearchState.DistanceHeuristics | src/State.cpp:240-270 | the delivery heuristic is the largest distance to an aboard passenger's destination (0 when none) and the pickup heuristic is at least the distance to every stop with someone waiting (0 when none); both are capped |
| SearchState.DeliveryHeuristicBounds | src/State.cpp:256-270 | the delivery heuristic is 0 with no one aboard, bounds the distance to every aboard passenger's destination, equals one of them, and is capped |
| SearchState.PickupHeuristicBounds | src/State.cpp:240-254 | the pickup heuristic is 0 with no one waiting, bounds the distance to every stop with someone waiting, and is capped |
| SearchState.DeliveryWithin | src/State.cpp:256-270 | if every aboard passenger's distance is within a slack of another state's delivery heuristic, so is this state's delivery heuristic |
| SearchState.PickupWithin | src/State.cpp:240-254 | if every waiting stop's distance is within a slack of another state's pickup heuristic, so is this state's pickup heuristic |
| SearchState.HeuristicWithin | src/State.cpp:272-288 | with one heuristic name, bounds on both components within a slack bound the chosen heuristic within that slack |
| SearchState.TripDetour | src/Graph.cpp:69-91 | the distance from a stop is at most an edge's cost plus the distance from that edge's end |
| SearchState.TripDelivery | src/State.cpp:256-270 | after a trip along an edge, the delivery heuristic dropped by at most the edge's cost |
| SearchState.TripPickup | src/State.cpp:240-254 | after a trip along an edge, the pickup heuristic dropped by at most the edge's cost |
| SearchState.MoveKeepsTotal | src/State.cpp:64-76 | a move along a non-zero edge is well formed and its total cost is not below its father's |
| SearchState.DisembarkRaisesTotal | src/State.cpp:89-107 | letting off a passenger at its destination is well formed and raises the total cost |
| SearchState.BoardingDelivery | src/State.cpp:256-270 | at the same stop, keeping every aboard passenger does not lower the delivery heuristic |
| SearchState.BoardingPickup | src/State.cpp:240-254 | changing only the current stop's waiting list does not lower the pickup heuristic |
| SearchState.EmbarkRaisesTotal | src/State.cpp:120-147 | boarding a waiting passenger below capacity is well formed and raises the total cost |
| SearchState.MovesNotCheaper | src/State.cpp:154-156 | no move successor has a smaller total cost than its father |
| SearchState.DisembarksNotCheaper | src/State.cpp:158-162 | no alighting successor has a smaller total cost than its father |
| SearchState.EmbarksNotCheaper | src/State.cpp:164-169 | no boarding successor has a smaller total cost than its father |
| SearchState.NoneCheaperConcat | src/State.cpp:149-172 | the successor groups joined keep the bound |
| SearchState.SuccessorsNotCheaper | src/State.cpp:149-172 | the heuristics are consistent: every successor is well formed and no successor's total cost is below its father's |
| SearchState.HeuristicByName | src/State.cpp:272-288 | "all" takes the larger of the two heuristics, each named heuristic takes its own, any other name gives 0 |
| SearchState.HeuristicAll | src/State.cpp:272-288 | the "all" heuristic is the larger of the delivery and pickup heuristics |
| SearchState.HeuristicDelivery | src/State.cpp:272-288 | the delivery-named heuristic is exactly the delivery heuristic |
| SearchState.HeuristicPickup | src/State.cpp:272-288 | the pickup-named heuristic is exactly the pickup heuristic |
| SearchState.HeuristicNone | src/State.cpp:272-288 | any other heuristic name gives 0 |
| SearchState.GoalCostsItsPath | src/State.cpp:272-309 | at a goal state the heuristic is 0 and the total cost is the path cost |
| SearchState.GetMaxCostToPassenger | src/State.cpp:240-254 | the loop returns the pickup heuristic |
| SearchState.GetMaxDistanceToDeliver | src/State.cpp:257-270 | the loop returns the delivery heuristic |
| SearchState.GetHeuristicCost | src/State.cpp:272-288 | the name dispatch returns the heuristic |
| SearchState.GetTotalCost | src/State.cpp:309 | total cost is path cost plus heuristic |
| SearchState.StateComparisonsTrichotomy | src/State.h:278-291 | state `<`, `==`, `>` compare total costs: exactly one holds, and `<` is `>` reversed |
| Text.SkipSeparators | src/main.cpp:38-39 | the first index at or after i that is not a separator, every index skipped being one |
| Text.ScanIsPrefix | src/main.cpp:40-60 | the pieces pushed, rejoined with the separator, are a prefix of the text scanned |
| Text.ScanHasNoSeparator | src/main.cpp:40-60 | no pushed piece contains the separator |
| Text.PiecesArePrefix | src/main.cpp:37-60 | after skipping leading separators, the pieces rejoin to a prefix of the line and none contains the separator |
| Text.SplitString | src/main.cpp:35-65 | split_string appends the scanned pieces to the vector and then applies the clean-up loop as written |
| Text.ScanStopsAtNewline | src/main.cpp:40-51 | a newline that is not the separator ends the scan: the pieces pushed, joined, are a prefix of the text up to any later newline |
| Text.PiecesStopAtNewline | src/main.cpp:37-51 | split_string reads nothing past the first newline after the start of its first piece |
| Text.ScanSkipsPlain | src/main.cpp:40-59 | characters other than the separator and the newline only advance the scan |
| Text.ScanPiece | src/main.cpp:41-45 | a separator pushes the piece before it and restarts the scan after it |
| Text.ScanNewlinePiece | src/main.cpp:47-50 | a newline pushes the piece before it and ends the scan |
| Text.ScanLastPiece | src/main.cpp:52-55 | with no separator or newline left, the last piece runs to the end of the string |
| Text.SkipLeading | src/main.cpp:38-39 | the leading-separator loop stops at the first character that is not the separator |
| Text.ScanJoined | src/main.cpp:40-60 | scanning plain pieces joined by the separator, followed by nothing, one separator or a newline, gives back exactly those pieces |
| Text.ScanLastJoined | src/main.cpp:47-55 | the last joined piece is pushed whole, whatever ends it |
| Text.ScanFirstJoined | src/main.cpp:41-45 | the first of several joined pieces is pushed at the separator after it, and the scan resumes on the others |
| Text.PiecesOfJoined | src/main.cpp:35-60 | round trip: after leading separators, the pieces of a joined line are the pieces it was joined from, when the first piece is non-empty, the line is longer than one character, the line ends, ends with one separator or goes on after a newline, and an empty last piece is followed by something |
| Text.SplitDropsOneCharacterLine | src/main.cpp:38-40 | the scan starts one past the first piece, so a one-character line yields no piece |
| Text.SplitTrailingSeparator | src/main.cpp:438-450 | "P1 P2 P3 P4 P5 " split on spaces gives the five stop names; the trailing space adds nothing |
| Text.SplitLeadingSeparatorAndNewline | src/main.cpp:439-451 | " P1 P2 P3 P4 P5" and a newline gives the same five names |
| Text.SplitStopDescriptions | src/main.cpp:440-452 | the stop line split on ';' gives its three descriptions |
| Text.SplitSchoolDescriptions | src/main.cpp:441-453 | the school line split on ';' gives its three descriptions |
| Text.TestStringSplit | src/main.cpp:436-453 | the four splits have sizes 5, 5, 3 and 3, with the pieces listed |
| Text.CleanUpKeepsNonEmpty | src/main.cpp:61-64 | with no empty piece the clean-up loop changes nothing |
| Text.EraseEmpty | src/main.cpp:61-64 | the iterator loop computes the as-written clean-up |
| Text.RemoveEmpty | src/main.cpp:61-64 | intended clean-up: the result holds exactly the non-empty pieces of the input |
| Text.EraseEmptyMissesNeighbour | src/main.cpp:61-64 | on ["a","","","b"] the loop as written leaves one "" behind, while the intended clean-up gives ["a","b"] |
| Text.EraseEmptyCorrectWithoutNeighbours | src/main.cpp:61-64 | when no two empty pieces are adjacent the loop as written removes every empty piece |
| Text.NatToString | src/Solver.cpp:118 | the decimal text of a number is non-empty and all digits |
| Text.NatToStringRoundTrip | src/main.cpp:133-135 | reading back the decimal text of a number gives the number |
| Text.ExtractAlphanumerics | src/main.cpp:122-143 | the loop computes the run-of-digits extraction, including the failing conversion of an empty last run |
| Text.ExtractFailsWithoutFinalDigit | src/main.cpp:140-142 | extraction fails (the final conversion of an empty run) exactly when the text does not end in a digit |
| Text.ExtractDigits | src/main.cpp:128-130 | a run of digits is gathered without pushing anything |
| Text.ExtractNonDigit | src/main.cpp:131-137 | a non-digit pushes the pending run, if any, and clears it |
| Text.SchoolPieceRoundTrip | src/main.cpp:166-176 | a school piece " C<a>: P<b>" yields exactly [a, b] |
| Text.ExtractSkipLabel | src/main.cpp:131-137 | non-digits met while no run is open push nothing |
| Text.ExtractLabelledNumber | src/main.cpp:126-137 | a non-digit prefix, a number and a non-digit push exactly that number |
| Text.ExtractExample | src/main.cpp:119-120 | " C2: P3" yields [2, 3] |
| Text.SchoolStation | src/main.cpp:186-192 | the stop of the first school with that id, or -1 exactly when no school has it |
| Text.FindSchoolStationOnList | src/main.cpp:186-192 | the search loop returns that stop or -1 |
| Text.SchoolAt | src/Solver.cpp:164-171 | the id of the first school at that stop, or -1 exactly when no school is there |
| Text.SchoolLookupsAreInverse | src/Solver.cpp:164-171 | with distinct ids and stops, the school found at a school's stop is that school |
| Search.UpperBound | src/Solver.cpp:53 | the insertion point after every entry with a key at most the new key and before the first larger one |
| Search.InsertEntryAtUpperBound | src/Solver.cpp:53 | a multimap insert places the entry after all entries with equal key |
| Search.InsertEntryFacts | src/Solver.cpp:53 | an insert adds exactly the entry and keeps the list ordered by key |
| Search.InsertEntrySorted | src/Solver.cpp:53 | inserting at the upper bound keeps the order |
| Search.InsertAllFacts | src/Solver.cpp:52-53 | inserting all successors adds exactly them and keeps the order |
| Search.InsertAllAddsBatch | src/Solver.cpp:52-53 | inserting the successors one by one adds exactly the batch to the open list |
| Search.InsertAllSorted | src/Solver.cpp:52-53 | inserting the successors one by one keeps the open list ordered by key |
| Search.Keyed | src/Solver.cpp:53 | each successor is keyed by its total cost |
| Search.SuccessorsWellFormed | src/State.cpp:149-172 | every successor of a well-formed state is well formed |
| Search.InsertSuccessors | src/Solver.cpp:52-53 | the insert loop adds each successor keyed by its total cost |
| Search.QueueSuccessors | src/Solver.cpp:46-57 | inserting the candidate's successors keyed by total cost and then erasing the front yields the insert-then-erase list |
| Search.SuccessorKeysNotBelow | src/Solver.cpp:52-53 | every successor's key is at least the candidate's key, whether that is its total cost or the initial key 0 |
| Search.FrontIsErased | src/Solver.cpp:46-57 | for an open entry that keeps the invariant, the front after the inserts is still the candidate, so inserting then erasing equals replacing the candidate by its successors |
| Search.ReplaceFront | src/Solver.cpp:46-57 | reference meaning of an expansion: the rest of the list plus the successors, as a multiset, still ordered |
| Search.ExpandOrdersAgree | src/Solver.cpp:50-57 | when no successor's key is below the candidate's, the first entry after the inserts is the candidate and inserting then erasing equals replacing it |
| Search.EraseAfterInsertLosesSuccessor | src/Solver.cpp:52-57 | why the key bound matters: with a successor keyed below the candidate, the erase would remove the successor and keep the candidate |
| Search.ParentChainIsUnique | src/Solver.cpp:91-101 | there is only one parent chain from a record back to the initial one |
| Search.GoalKeepsOk | src/Solver.cpp:35-40 | recording the goal keeps the search invariant |
| Search.DropKeepsOk | src/Solver.cpp:43-57 | dropping an already closed candidate keeps the invariant |
| Search.CloseKeepsOk | src/Solver.cpp:43-50 | closing the candidate keeps the invariant |
| Search.ClosingKeepsClosedOk | src/Solver.cpp:50 | closing a new record keeps every closed parent closed earlier |
| Search.QueueKeepsOk | src/Solver.cpp:46-57 | queueing the successors of a closed candidate keeps the invariant |
| Search.ChildrenAreOk | src/Solver.cpp:46-53 | every queued successor of a closed candidate is a valid open entry |
| Search.FollowParents | src/Solver.cpp:91-101 | parent chasing ends at the initial record, returns the unique parent chain, and every record on it has at most one flag |
| Search.FollowStep | src/Solver.cpp:91-101 | recovering the father of the last record keeps the chain consistent and strictly lowers its closing rank, so the loop ends |
| Search.RenderCountsMoves | src/Solver.cpp:110-112 | the stop counter grows by the number of move records on the route |
| Search.RenderTextGrows | src/Solver.cpp:106-158 | rendering only appends: the text for a later part of the route is a prefix of the whole |
| Search.RenderStartsAtFirstStop | src/Solver.cpp:117-119 | a route starting with a move begins with "P" and that stop |
| Search.RecoveredRouteStartsAtOrigin | src/Solver.cpp:108-123 | a recovered route begins at the initial record's stop and counts at least one stop |
| Search.Solver.constructor | src/Solver.h:63-81 | a new solver has an empty closed list, the initial state alone in the open list with key 0, and the initial record; the invariant holds |
| Search.Solver.RecordGoal | src/Solver.cpp:35-40 | a final candidate marks the search solved and records its record and path cost |
| Search.Solver.DropFront | src/Solver.cpp:43-57 | an already closed candidate is erased and nothing else changes |
| Search.Solver.CloseFront | src/Solver.cpp:43-50 | a new candidate is added to the closed list and counted as an expansion |
| Search.Solver.QueueFront | src/Solver.cpp:46-57 | the successors are inserted keyed by total cost and the front erased, in the source's order; the result equals the candidate replaced by its successors |
| Search.Solver.Expand | src/Solver.cpp:43-57 | expansion closes the candidate, counts it, inserts its successors and erases the front, which removes exactly the candidate |
| Search.Solver.Step | src/Solver.cpp:20-57 | one iteration: a goal is recorded; otherwise a closed candidate is dropped, or a new one is closed, its successors inserted and the front erased (equal to replacing the candidate); the invariant is kept |
| Search.Solver.ParseSchool | src/Solver.cpp:164-171 | the school at a stop, or -1 |
| Search.Solver.RecoverChain | src/Solver.cpp:91-101 | the solver's parent chase returns the unique chain from the goal back to the initial record |
| Search.Solver.RenderOne | src/Solver.cpp:109-157 | one iteration of the rendering state machine |
| Search.Solver.RenderRoute | src/Solver.cpp:106-158 | the rendering loop, from the initial record to the goal, yields the route text and stop count |
| Search.Solver.RecoverSolution | src/Solver.cpp:87-162 | the solution text is the rendering of the parent chain, and the stop counter grows by its moves |
| Search.Solver.Solve | src/Solver.cpp:11-69 | the loop stops when solved or the open list is empty; a solved search holds a final goal state, its path cost and the rendered parent chain; the invariant holds throughout |

## Left out

- Reading the problem file, writing the solution and statistics files, timing and console output (`parse_*` readers, `write_stats_file`, `write_down_solution_file`, `print`, `to_str`) are I/O and are not modelled.
- The state hash (`State.cpp:11-50`) is a parameter of type `Hasher`. Nothing is assumed about it, so collisions between different states are possible in the model as in the program. Its 32-bit width is not modelled.
- Allocation and release (`new`/`delete`, destructors, the copy leaked when an id is inserted twice) have no counterpart on values.
- Copy and move constructors of passengers, stations, buses, records and states are plain value copies. The graph's copy is `Transit.Graph.Copy`.
- The state assignment operator (`State.h:293-307`) is never used by the search and is not modelled. The record assignment copies all fields and needs no model.
- Unsigned wrap-around of costs and counters, and `stoi` overflow, are not modelled: numbers are unbounded.
- Search.Solver.Solve: the source loop is unbounded; the model takes a `fuel` bound on the number of iterations and promises termination-or-empty-open-list only when fewer than `fuel` steps were used.
- Search.Solver.constructor: establishes the invariant only when the initial state is well formed (stops numbered 1..N, bus on a stop); the source does not check its input.
- Transit.Graph.GetCost: requires `src` in range whenever the guard lets the call through, because the source then indexes `transitions[src-1]` unchecked (undefined behaviour otherwise).
- Text.SplitString: when the clean-up loop erases the last element, the source advances an iterator past the end (undefined behaviour); the model stops there.
- Text.SplitString: `str[i]` past the end reads the terminating NUL, so the separator must not be NUL.
- `test_state_type` (`main.cpp:402-433`) is not modelled: its assertions count the successors of the state read from one example problem file, and reading that file is I/O outside this model.
- In `recover_solution`, the branch for a record with both flags is unreachable: the search invariant shows no record carries both (`Search.SingleFlag`).
- `get_adjacent_stations` and the field getters are read directly as datatype fields.

## Findings

| source | as written | input that shows it | evidently intended | confidence | as-written member | corrected member |
|---|---|---|---|---|---|---|
| src/Graph.cpp:52 | the guard rejects `dest == transitions.size()`, though stops are numbered 1..N | the test graph, cost from P2 to P4: -1 although the edge costs 9 | accept every stop 1..N (and reject an out-of-range `src`) | high, not executed | Transit.Graph.GetCost (shown by Transit.TestGraphCosts) | Transit.Graph.GetCostChecked |
| src/main.cpp:61-64 | after `erase(it)` the loop still does `++it`, skipping the element that moved into place | the line "a;;;b" with separator ';' yields pieces ["a","","","b"] and keeps one "" | remove every empty piece | high, not executed | Text.EraseEmptyAsWritten (shown by Text.EraseEmptyMissesNeighbour) | Text.RemoveEmpty (agreement without adjacent empties: Text.EraseEmptyCorrectWithoutNeighbours) |
| src/State.cpp:228-237 | the running minimum starts from 0, which no unsigned cost undercuts | [3] gives 0 | start from the first element | high, not executed | SearchState.MinAsWritten (shown by SearchState.MinAsWrittenMissesMinimum) | SearchState.Min |
