# Flight planner core in Dafny

This project models the algorithmic core of a small flight planner. The
planner reads a network of bidirectional flights, lists every route between
two cities, and ranks the routes by cost or by time. The Java code has three
parts, and each exists twice: once in the `core` package and once as a
near-identical copy in the default package.

- **Flight network** (`FlightEdge`, `CityNode`, `FlightGraph`):
  - an adjacency list of city nodes, each owning the list of its outgoing flights;
  - `addFlightPath` finds or creates both endpoint cities, matching names case-insensitively;
  - it then appends one flight in each direction.
- **Route enumerator** (`PathFinder.findFlights`):
  - an iterative backtracking search over an explicit stack of search states;
  - every state owns its own copy of the path so far and of the visited set.
- **Ranking engine** (`PathSorter.heapSort`, `PathResult.compareTo`):
  - an in-place min-heap sort of the found routes;
  - the key is each route's time or cost, according to its `'T'`/`'C'` tag.

The Dafny modules follow that structure:

- `Options`, `Names`: a nullable result as an `Option`, and `equalsIgnoreCase` as equality after ASCII lower-casing (`Fold`).
- `Network`: the adjacency list as a value (`seq<City>`), with the pure effect of every graph operation and the invariant the graph keeps. The invariant is that names are distinct ignoring case and every flight has its reverse.
- `Graph`: the Java classes `CityNode` and `FlightGraph`, with in-place updates. `View()` reads the objects back as the value of `Network`, and each method states its effect as a `Network` function of the old value.
- `Results`: `PathResult`, `compareTo` and `setSortBy`.
- `Finder`:
  - the search loop as a method over a stack (`FindFlights`);
  - a recursive reference search (`Explore`), which the loop is proved to equal, result for result and in order;
  - soundness: every result is a simple route with the right totals;
  - completeness: every admissible sequence of flights is found.
- `Sorter`: the `PathSorter` class over an `array` with `size`:
  - `MinHeapify`, `Swap`, the build and extraction loops;
  - the two `heapSort` variants, proved to return a permutation that is sorted when all results share one tag.

The two Java copies of each class behave identically, except for `heapSort`. So each class is modelled once, and the table cites the copy whose lines the member follows. The default-package `heapSort` has its own method, `HeapSortUnreversed` (see Findings).

## Model

| member | source | states |
|---|---|---|
| Network.Lookup | src/main/java/core/FlightGraph.java:38-45 | the index found is the first city whose name equals the argument ignoring case; there is none exactly when no city matches |
| Network.LookupFrom | src/main/java/core/FlightGraph.java:39-43 | the scan from position k finds the first match at or after k, given that none before k matched |
| Network.LookupFirst | src/main/java/FlightGraph.java:19-23 | a matching city with no match before it is the one the scan returns |
| Network.LookupUnique | src/main/java/FlightGraph.java:47-54 | with names distinct ignoring case, any matching city is the one the scan returns |
| Network.FindOrCreate | src/main/java/core/FlightGraph.java:15-24 | the returned city matches the name; the list is unchanged when a match existed; otherwise exactly one city with the given name and no flights is appended at the end; distinct names stay distinct |
| Network.FindOrCreateIdempotent | src/main/java/core/FlightGraph.java:15-24 | a second call with a name equal ignoring case returns the same city and adds no node |
| Network.AddFlightAt | src/main/java/CityNode.java:13-16 | the chosen city's flights grow by the one edge at the end; its name and every other city are unchanged |
| Network.AddFlightFromEffect | src/main/java/core/FlightGraph.java:29-30 | finding or creating a city and adding a flight to it adds at most one city, renames none, and appends the edge to the matching city only |
| Network.AddFlightPathEffect | src/main/java/core/FlightGraph.java:27-35 | addFlightPath adds at most two cities and renames none; the origin's city gains (destination, cost, time), the destination's city gains (origin, cost, time), one city gains both in that order when the names are equal ignoring case, and every other city keeps its flights |
| Network.HasReverseExtends | src/main/java/FlightGraph.java:34-42 | appending flights and cities never removes an existing reverse flight |
| Network.EdgeAfterAdd | src/main/java/FlightGraph.java:34-42 | after the two appends, every flight is an old flight, which keeps its reverse, or one of the two new flights, which has its reverse |
| Network.NewEdgesReverse | src/main/java/FlightGraph.java:39-41 | the two flights appended by addFlightPath are each other's reverse |
| Network.SymmetricAfterAppend | src/main/java/FlightGraph.java:34-42 | appending a flight and its reverse keeps a graph in which every flight has its reverse |
| Network.AddFlightPathSymmetric | src/main/java/core/FlightGraph.java:27-35 | addFlightPath keeps every flight paired with a reverse flight of equal cost and time |
| Network.AddFlightPathValid | src/main/java/core/FlightGraph.java:27-35 | addFlightPath keeps the graph invariant: names distinct ignoring case, and every flight paired with its reverse |
| Network.ReverseViaLookup | src/main/java/FlightGraph.java:47-54 | in a valid graph, getCity of any flight's destination finds a node that holds a flight back to the source with the same cost and time |
| Graph.CityNode.constructor | src/main/java/CityNode.java:8-11 | a new node has the given name and no flights |
| Graph.CityNode.AddFlight | src/main/java/CityNode.java:13-16 | flights become the old flights followed by exactly the edge (destination, cost, time); earlier flights keep their values and order, and the name is a constant |
| Graph.FlightGraph.constructor | src/main/java/core/FlightGraph.java:10-12 | a new graph is empty and valid, and every lookup fails |
| Graph.FlightGraph.FindOrCreateCity | src/main/java/core/FlightGraph.java:15-24 | the node list becomes the FindOrCreate value; the returned node matches the name ignoring case; the list is unchanged when a match existed, and otherwise only extended by a fresh node |
| Graph.FlightGraph.AddFlightPath | src/main/java/core/FlightGraph.java:27-35 | the graph's value becomes the addFlightPath value of the old one, and the invariant is kept |
| Graph.FlightGraph.AddFlightToNode | src/main/java/core/FlightGraph.java:30 | addFlight on the node at index i changes that node only, because distinct names keep nodes apart |
| Graph.FlightGraph.GetCity | src/main/java/core/FlightGraph.java:38-45 | null exactly when no node's name equals the argument ignoring case; otherwise the first matching node, unmodified |
| Results.Compare | src/main/java/core/PathResult.java:32 | Integer.compare: -1, 0 or 1 exactly as x is below, equal to or above y |
| Results.CompareTo | src/main/java/core/PathResult.java:30-38 | tag 'T' compares times, tag 'C' compares costs, any other tag compares times; the result is negative or zero exactly as the compared values are |
| Results.CompareToByKey | src/main/java/PathResult.java:33-42 | for two results with the same tag, compareTo is negative or zero exactly as the keys are, and it is antisymmetric in sign |
| Results.SetSortBy | src/main/java/core/PathResult.java:26 | only the tag changes; path, cost and time are untouched |
| Finder.StepShrinks | src/main/java/core/PathFinder.java:70-78 | following an unvisited flight strictly shrinks the set of destinations not yet visited, which bounds the search |
| Finder.Explore | src/main/java/core/PathFinder.java:46-95 | the reference search below a state pops at least that state |
| Finder.StackPush | src/main/java/core/PathFinder.java:92 | a pushed state's search comes before the rest of the stack's |
| Finder.Pushed | src/main/java/core/PathFinder.java:66-94 | at most one state is pushed per flight |
| Finder.PushedSteps | src/main/java/core/PathFinder.java:70-92 | every pushed state is the popped state extended by one of its city's flights whose destination it has not visited |
| Finder.PushedNext | src/main/java/core/PathFinder.java:70-92 | one more flight pushes its extended copy of the state last, unless its destination was visited |
| Finder.StackAppend | src/main/java/PathFinder.java:46-96 | states laid on top of a stack are all searched before the states below them |
| Finder.PushedSearch | src/main/java/core/PathFinder.java:66-94 | the states pushed for a city's flights yield exactly the reference search of those flights, last flight first |
| Finder.PopAtEnd | src/main/java/core/PathFinder.java:50-59 | popping a state at the destination records its path, cost and time and leaves fewer pops to come |
| Finder.PopUnknown | src/main/java/core/PathFinder.java:62-63 | popping a state whose city is unknown records nothing and leaves fewer pops to come |
| Finder.PopExpand | src/main/java/core/PathFinder.java:62-94 | popping a state and pushing its extensions leaves the results still to come unchanged and fewer pops to come |
| Finder.ExploreEdgesNext | src/main/java/core/PathFinder.java:66-94 | a flight to a visited name adds nothing; otherwise its search comes before the earlier flights' |
| Finder.InitialOk | src/main/java/core/PathFinder.java:37-42 | the initial state is well formed: path [startCity], visited set {startCity}, zero totals |
| Finder.WalkStep | src/main/java/core/PathFinder.java:77-82 | extending a walk by a flight of its last city adds that flight's cost and time to the totals |
| Finder.NoDupAppend | src/main/java/core/PathFinder.java:70 | appending a name not already in the path keeps every name distinct |
| Finder.StepOk | src/main/java/core/PathFinder.java:70-91 | a pushed state is again well formed: its path extends its parent's, its visited set holds exactly its path's names, and its totals are the walk sums |
| Finder.VisitedAppend | src/main/java/core/PathFinder.java:74-78 | the copied visited set extended by the new name holds exactly the names of the copied path extended by it |
| Finder.NotEndAppend | src/main/java/core/PathFinder.java:50 | a state that is not at the destination keeps every name before the last one different from the destination |
| Finder.ExploreEdgesSplit | src/main/java/core/PathFinder.java:66-94 | a result below a city's flights comes from one particular unvisited flight's search |
| Finder.ExploreSound | src/main/java/core/PathFinder.java:46-95 | every result recorded below a well-formed state is a route: starts at startCity, ends at endCity ignoring case and not before, repeats no exact name, follows flights with the recorded totals, carries sortBy |
| Finder.ExploreEdgesSound | src/main/java/core/PathFinder.java:66-94 | every result found below a city's flights is a route |
| Finder.StepSound | src/main/java/core/PathFinder.java:70-92 | every result found below one pushed state is a route |
| Finder.ExploreEdgesContains | src/main/java/core/PathFinder.java:66-94 | everything found below one unvisited flight is found below all of the city's flights |
| Finder.ExploreComplete | src/main/java/core/PathFinder.java:66-96 | every sequence of flights that obeys the visited rule and stops at the first name equal to the destination is recorded |
| Finder.WalkLast | src/main/java/core/PathFinder.java:66-78 | the last name of a walk of two or more names is the destination of some flight of the graph |
| Finder.RouteLast | src/main/java/core/PathFinder.java:50-82 | a route from startCity to an endCity that differs from it ignoring case ends with a flight whose destination equals endCity ignoring case |
| Finder.DestinationKnown | src/main/java/core/FlightGraph.java:27-35 | in a graph where every flight has its reverse, a name equal ignoring case to some flight's destination resolves through getCity |
| Finder.UnknownEnd | src/main/java/core/PathFinder.java:46-95 | in a graph built by addFlightPath, an endCity that is not in the graph and differs from startCity ignoring case yields no result |
| Finder.SearchFromStart | src/main/java/core/PathFinder.java:37-63 | the search from startCity records only routes; exactly the route [startCity] at zero cost and time when startCity equals endCity ignoring case; nothing when startCity is unknown and differs from endCity; nothing, in a graph built by addFlightPath, when endCity is unknown and differs from startCity |
| Finder.PushFlights | src/main/java/core/PathFinder.java:66-94 | the inner loop pushes, in flight order, one copy of the state extended by each flight whose destination is not visited |
| Finder.FindFlights | src/main/java/core/PathFinder.java:31-98 | the results are those of the reference search, in the same order; each is a route; the start-equals-end, unknown-start and unknown-destination cases as in SearchFromStart |
| Sorter.Reversed | src/main/java/core/PathSorter.java:43-44 | Collections.reverse: same length, element k is element n-1-k |
| Sorter.ReversedPermutation | src/main/java/core/PathSorter.java:43-44 | reversing keeps every result as often as it occurred |
| Sorter.ReversedAscending | src/main/java/core/PathSorter.java:42-49 | a list is non-increasing by key exactly when its reverse is non-decreasing |
| Sorter.RootBelow | src/main/java/core/PathSorter.java:32 | in a min-heap the root is not larger than any element |
| Sorter.SiftStep | src/main/java/core/PathSorter.java:68-70 | swapping a node with its smaller child, when that child is smaller, moves the one heap violation down to the child |
| Sorter.SiftDone | src/main/java/core/PathSorter.java:68 | a node no larger than its children ends the violation |
| Sorter.SiftChoice | src/main/java/core/PathSorter.java:54-70 | the child chosen by the two compareTo tests is the smaller child when it is smaller than the node; stopping leaves a heap, and swapping moves the violation down |
| Sorter.ExtractStep | src/main/java/core/PathSorter.java:31-39 | swapping the root with the last heap cell leaves a heap wrong only at the root and a sorted part grown by the old root |
| Sorter.PrefixPermutation | src/main/java/core/PathSorter.java:39 | permuting an array while its tail stays put permutes the front part |
| Sorter.SettledPermutation | src/main/java/core/PathSorter.java:31-40 | the sorted tail stays sorted and not smaller than any heap element when only the heap part is permuted |
| Sorter.SwapTagged | src/main/java/core/PathSorter.java:74-78 | swapping two cells keeps every tag equal to a given one, and back |
| Sorter.PathSorter.constructor | src/main/java/core/PathSorter.java:12-13 | a new sorter holds no results |
| Sorter.PathSorter.Swap | src/main/java/core/PathSorter.java:74-78 | exchanges exactly cells i and j, so the array's multiset is kept |
| Sorter.PathSorter.MinHeapify | src/main/java/core/PathSorter.java:53-72 | keeps the multiset and the tags; changes only cells in [i, size); with one shared tag, turns a heap broken only at i into a heap from lo on |
| Sorter.PathSorter.BuildMinHeap | src/main/java/core/PathSorter.java:26-28 | after the build loop the array is a permutation of its old contents and, with one shared tag, a min-heap on [0, size) |
| Sorter.PathSorter.ExtractRoot | src/main/java/core/PathSorter.java:33-39 | one extraction round shrinks size by one, keeps the multiset, keeps the heap part a heap, and grows the sorted tail |
| Sorter.PathSorter.SortDown | src/main/java/core/PathSorter.java:31-40 | the extraction loop ends with size 1 and the array a non-increasing permutation when all tags agree |
| Sorter.PathSorter.BuildAndExtract | src/main/java/PathSorter.java:27-50 | the array is a fresh permutation of the input, size ends at 1, and with one shared tag the array is non-increasing by key |
| Sorter.PathSorter.HeapSort | src/main/java/core/PathSorter.java:15-51 | an empty input gives an empty list and changes nothing; otherwise the result is a permutation of the input, non-decreasing by key when all results share one tag, it is the reverse of the heap array, and size equals the array length |
| Sorter.PathSorter.HeapSortUnreversed | src/main/java/PathSorter.java:21-54 | an empty input gives an empty list; otherwise the result is the heap array, a permutation of the input, non-increasing by key when all results share one tag, and size stays 1 |
| Sorter.PairPermutation | src/main/java/PathSorter.java:53 | two two-element lists with the same multiset are equal or swapped |
| Sorter.UnreversedNotAscending | src/main/java/PathSorter.java:19 | for two cost-tagged results with costs 10 and 20, every output allowed to the unreversed heapSort puts cost 20 first, so it is not ordered most-efficient first |

## Left out

- The driver programs (`Driver.java`, `core/Driver.java`, `FlightPlannerMain.java`) are not part of this model. This includes file and console I/O, line parsing, the `printf` output with its floating-point average, and the top-3 selection, because they are plumbing and presentation.
- Java `int` overflow in the cost and time sums is not modelled. Totals are unbounded integers, so a sum that would wrap in Java is exact here.
- `String.equalsIgnoreCase` is modelled as equality after ASCII lower-casing. The full Unicode case rules are not modelled.
- Null arguments (a null graph, name or list) are not modelled. The check for a null list in `heapSort` is covered by its empty-list case.
- `FlightEdge` is a datatype whose fields are the getters, so the getters have no member of their own.
- `PathResult` is a value (datatype), and `setSortBy` returns an updated copy. An in-place tag change seen through another reference to the same object is not modelled. The constructor's copy of the path is implicit, because paths are values.
- `LinkedList`, `HashSet`, `Stack`, `Arrays.asList` and `Collections.reverse` are modelled as `seq` and `set` operations, not through their library internals.
- `SearchState`'s copied path and visited set are values, so two states never share them by construction.
- The default-package `PathFinder.SearchState` has no constructor in the source. The model uses the field assignment of the `core` copy.
- The `heap` field of a new `PathSorter` is null in Java. The model starts it as an empty array.
- Only the default-package `CityNode` and `FlightEdge` are at hand; the `core` classes are modelled as using them.
- Finder.ExploreComplete: proves that every admissible flight sequence is recorded, not that it is recorded exactly once, so separate results for parallel flights are not stated. Counting would need a bijection between admissible flight sequences and the positions of the result list, a much larger proof than membership.
- Sorter.PathSorter.HeapSort: its ordering is guaranteed only when all results share one tag, because compareTo reads only the receiver's tag. For mixed tags only the permutation is stated.

## Findings

| source | as written | input that shows it | evidently intended | confidence | as-written member | corrected member |
|---|---|---|---|---|---|---|
| src/main/java/PathSorter.java:53 | heapSort returns the heap array as it stands after extraction, which is non-increasing by key (least efficient first); the doc comment at line 19 promises most efficient to least efficient | two 'C' results with costs 10 and 20: the output lists the cost 20 route first | reverse the array before returning it, as the `core` copy does at src/main/java/core/PathSorter.java:43-44, giving non-decreasing order | not executed | Sorter.UnreversedNotAscending | Sorter.PathSorter.HeapSort |
