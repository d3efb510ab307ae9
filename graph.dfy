/**
 * The flight graph as the Java objects: CityNode owns a list of flights
 * it appends to in place, FlightGraph owns the adjacency list of city
 * nodes. View() reads the objects back as the value of module Network,
 * and every method states its effect as a function of that value.
 */
module Graph {
  import opened Options
  import opened Names
  import opened Network

  class CityNode {
    const name: string
    var flights: seq<FlightEdge>

    /** A new city has the given name and no flights. */
    constructor (name: string)
      ensures this.name == name && flights == []
    {
      this.name := name;
      flights := [];
    }

    /** Appends one flight (destination, cost, time); earlier flights keep their values and order. */
    method AddFlight(destination: string, cost: int, time: int)
      modifies this
      ensures flights == old(flights) + [FlightEdge(destination, cost, time)]
    {
      flights := flights + [FlightEdge(destination, cost, time)];
    }
  }

  /** The cities held by a list of nodes, index by index. */
  ghost function ViewOf(nodes: seq<CityNode>): (r: seq<City>)
    reads nodes
    ensures |r| == |nodes|
    ensures forall j :: 0 <= j < |nodes| ==> r[j] == City(nodes[j].name, nodes[j].flights)
  {
    if nodes == [] then [] else [City(nodes[0].name, nodes[0].flights)] + ViewOf(nodes[1..])
  }

  class FlightGraph {
    var adjacencyList: seq<CityNode>

    ghost function View(): seq<City>
      reads this, adjacencyList
    {
      ViewOf(adjacencyList)
    }

    /** Names are unique ignoring case and every flight has its reverse. */
    ghost predicate Valid()
      reads this, adjacencyList
    {
      Network.Valid(View())
    }

    /** A new graph has no cities, so every lookup fails. */
    constructor ()
      ensures Valid() && View() == []
      ensures forall name :: Lookup(View(), name).None?
    {
      adjacencyList := [];
    }

    /**
     * findOrCreateCity: the first node whose name equals `name` ignoring
     * case, or a new node with that name and no flights, appended to the
     * adjacency list.
     */
    method FindOrCreateCity(name: string) returns (city: CityNode)
      modifies this
      ensures Lookup(View(), name).Some?
      ensures (View(), Lookup(View(), name).value) == FindOrCreate(old(View()), name)
      ensures city == adjacencyList[Lookup(View(), name).value]
      ensures old(adjacencyList) <= adjacencyList
      ensures Lookup(old(View()), name).Some? ==> adjacencyList == old(adjacencyList)
      ensures |adjacencyList| == |old(adjacencyList)| + 1 ==> fresh(city)
    {
      var k := 0;
      while k < |adjacencyList|
        invariant 0 <= k <= |adjacencyList|
        invariant forall j :: 0 <= j < k ==> !FoldEq(adjacencyList[j].name, name)
      {
        if FoldEq(adjacencyList[k].name, name) {
          LookupFirst(View(), name, k);
          return adjacencyList[k];
        }
        k := k + 1;
      }
      ghost var before := View();
      city := new CityNode(name);
      adjacencyList := adjacencyList + [city];
      assert View() == before + [City(name, [])];
      LookupFirst(View(), name, |before|);
    }

    /**
     * addFlightPath: the origin's node gains (destination, cost, time) and
     * the destination's node gains (origin, cost, time), creating either
     * node when missing. The graph stays valid.
     */
    method AddFlightPath(origin: string, destination: string, cost: int, time: int)
      requires Valid()
      modifies this, adjacencyList
      ensures Valid()
      ensures View() == Network.AddFlightPath(old(View()), origin, destination, cost, time)
    {
      ghost var cs := View();
      var originCity := FindOrCreateCity(origin);
      ghost var io := Lookup(View(), origin).value;
      AddFlightToNode(originCity, io, destination, cost, time);
      assert View() == AddFlightFrom(cs, origin, FlightEdge(destination, cost, time));
      ghost var cs2 := View();
      var destCity := FindOrCreateCity(destination);
      ghost var id := Lookup(View(), destination).value;
      AddFlightToNode(destCity, id, origin, cost, time);
      assert View() == AddFlightFrom(cs2, destination, FlightEdge(origin, cost, time));
      AddFlightPathValid(cs, origin, destination, cost, time);
    }

    /** CityNode.addFlight on the node at index i; distinct names keep the other nodes apart from it. */
    method AddFlightToNode(city: CityNode, ghost i: nat, destination: string, cost: int, time: int)
      requires DistinctNames(View())
      requires i < |adjacencyList| && city == adjacencyList[i]
      modifies city
      ensures View() == AddFlightAt(old(View()), i, FlightEdge(destination, cost, time))
      ensures DistinctNames(View())
    {
      ghost var cs := View();
      forall j | 0 <= j < |adjacencyList| && j != i
        ensures adjacencyList[j] != city
      {
        if adjacencyList[j] == city {
          if j < i {
            assert FoldEq(cs[j].name, cs[i].name);
          } else {
            assert FoldEq(cs[i].name, cs[j].name);
          }
        }
      }
      city.AddFlight(destination, cost, time);
      assert View() == AddFlightAt(cs, i, FlightEdge(destination, cost, time));
    }

    /**
     * getCity: the first node whose name equals `name` ignoring case, or
     * null when there is none. Nothing is modified.
     */
    method GetCity(name: string) returns (city: CityNode?)
      ensures city == null <==> forall j :: 0 <= j < |adjacencyList| ==> !FoldEq(adjacencyList[j].name, name)
      ensures city != null ==> FoldEq(city.name, name)
      ensures city != null ==> Lookup(View(), name).Some? && city == adjacencyList[Lookup(View(), name).value]
      ensures city != null ==> City(city.name, city.flights) == View()[Lookup(View(), name).value]
    {
      var k := 0;
      while k < |adjacencyList|
        invariant 0 <= k <= |adjacencyList|
        invariant forall j :: 0 <= j < k ==> !FoldEq(adjacencyList[j].name, name)
      {
        if FoldEq(adjacencyList[k].name, name) {
          LookupFirst(View(), name, k);
          return adjacencyList[k];
        }
        k := k + 1;
      }
      return null;
    }
  }
}
