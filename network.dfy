/** Optional values, standing in for Java's nullable references. */
module Options {
  datatype Option<+T> = None | Some(value: T)
}

/**
 * Case-insensitive name matching. Java's String.equalsIgnoreCase is
 * modelled as equality after folding every ASCII upper-case letter to
 * lower case.
 */
module Names {
  function Lower(c: char): (r: char)
    ensures 'A' <= c <= 'Z' ==> r as int == c as int + 32
    ensures !('A' <= c <= 'Z') ==> r == c
  {
    if 'A' <= c <= 'Z' then (c as int + 32) as char else c
  }

  function Fold(s: string): (r: string)
    ensures |r| == |s|
  {
    seq(|s|, k requires 0 <= k < |s| => Lower(s[k]))
  }

  /** equalsIgnoreCase */
  predicate FoldEq(a: string, b: string) {
    Fold(a) == Fold(b)
  }
}

/**
 * The flight network as a value: the adjacency list is a sequence of
 * cities, each owning the sequence of its outgoing flights. The classes
 * in module Graph keep exactly this value up to date.
 */
module Network {
  import opened Options
  import opened Names

  /** An outgoing flight: destination name, dollar cost, minutes. All fields are final. */
  datatype FlightEdge = FlightEdge(destination: string, cost: int, time: int)

  /** The value held by one city node: its name and its flights in insertion order. */
  datatype City = City(name: string, flights: seq<FlightEdge>)

  /**
   * The first city whose name equals `name` ignoring case, as found by
   * the linear scans of getCity and findOrCreateCity.
   */
  function Lookup(cs: seq<City>, name: string): (r: Option<nat>)
    ensures r.Some? ==> r.value < |cs| && FoldEq(cs[r.value].name, name)
    ensures r.Some? ==> forall j :: 0 <= j < r.value ==> !FoldEq(cs[j].name, name)
    ensures r.None? <==> forall j :: 0 <= j < |cs| ==> !FoldEq(cs[j].name, name)
  {
    LookupFrom(cs, name, 0)
  }

  function LookupFrom(cs: seq<City>, name: string, k: nat): (r: Option<nat>)
    requires k <= |cs|
    requires forall j :: 0 <= j < k ==> !FoldEq(cs[j].name, name)
    ensures r.Some? ==> k <= r.value < |cs| && FoldEq(cs[r.value].name, name)
    ensures r.Some? ==> forall j :: 0 <= j < r.value ==> !FoldEq(cs[j].name, name)
    ensures r.None? <==> forall j :: 0 <= j < |cs| ==> !FoldEq(cs[j].name, name)
    decreases |cs| - k
  {
    if k == |cs| then None
    else if FoldEq(cs[k].name, name) then Some(k)
    else LookupFrom(cs, name, k + 1)
  }

  /** The first index whose name matches is what Lookup returns. */
  lemma LookupFirst(cs: seq<City>, name: string, k: nat)
    requires k < |cs| && FoldEq(cs[k].name, name)
    requires forall j :: 0 <= j < k ==> !FoldEq(cs[j].name, name)
    ensures Lookup(cs, name) == Some(k)
  {
    var r := Lookup(cs, name);
    assert r.Some?;
    assert r.value <= k ==> r.value == k;
  }

  /** No two cities have names that are equal ignoring case. */
  ghost predicate DistinctNames(cs: seq<City>) {
    forall i, j :: 0 <= i < j < |cs| ==> !FoldEq(cs[i].name, cs[j].name)
  }

  /** Under distinct names, Lookup finds the one city whose name matches. */
  lemma LookupUnique(cs: seq<City>, name: string, j: nat)
    requires DistinctNames(cs)
    requires j < |cs| && FoldEq(cs[j].name, name)
    ensures Lookup(cs, name) == Some(j)
  {
    var r := Lookup(cs, name);
    assert r.Some? && r.value <= j;
    assert Fold(cs[r.value].name) == Fold(cs[j].name);
  }

  /**
   * findOrCreateCity: the index of the matching city, appending a new
   * city with no flights when none matches.
   */
  function FindOrCreate(cs: seq<City>, name: string): (r: (seq<City>, nat))
    ensures r.1 < |r.0| && FoldEq(r.0[r.1].name, name)
    ensures |cs| <= |r.0| <= |cs| + 1 && r.0[..|cs|] == cs
    ensures |r.0| == |cs| + 1 <==> Lookup(cs, name).None?
    ensures |r.0| == |cs| + 1 ==> r.1 == |cs| && r.0[|cs|] == City(name, [])
    ensures DistinctNames(cs) ==> DistinctNames(r.0)
  {
    match Lookup(cs, name)
    case Some(i) => (cs, i)
    case None => (cs + [City(name, [])], |cs|)
  }

  /** A second findOrCreateCity with a name equal ignoring case returns the same city and creates nothing. */
  lemma FindOrCreateIdempotent(cs: seq<City>, a: string, b: string)
    requires FoldEq(a, b)
    ensures FindOrCreate(FindOrCreate(cs, a).0, b) == FindOrCreate(cs, a)
  {
    var (cs1, i) := FindOrCreate(cs, a);
    LookupFirst(cs1, b, i);
  }

  /** CityNode.addFlight applied to the city at index i. */
  function AddFlightAt(cs: seq<City>, i: nat, e: FlightEdge): (r: seq<City>)
    requires i < |cs|
    ensures |r| == |cs| && r[i].name == cs[i].name && r[i].flights == cs[i].flights + [e]
    ensures forall j :: 0 <= j < |cs| && j != i ==> r[j] == cs[j]
    ensures DistinctNames(cs) ==> DistinctNames(r)
  {
    cs[i := City(cs[i].name, cs[i].flights + [e])]
  }

  /** findOrCreateCity(name).addFlight(e): one half of addFlightPath. */
  function AddFlightFrom(cs: seq<City>, name: string, e: FlightEdge): seq<City>
  {
    var (cs1, i) := FindOrCreate(cs, name);
    AddFlightAt(cs1, i, e)
  }

  /** addFlightPath: an edge origin->destination, then an edge destination->origin. */
  function AddFlightPath(cs: seq<City>, origin: string, destination: string, cost: int, time: int): seq<City>
  {
    var cs2 := AddFlightFrom(cs, origin, FlightEdge(destination, cost, time));
    AddFlightFrom(cs2, destination, FlightEdge(origin, cost, time))
  }

  /** The flights a city held before the update: none for a city that did not exist. */
  function FlightsBefore(cs: seq<City>, j: nat): seq<FlightEdge> {
    if j < |cs| then cs[j].flights else []
  }

  /** One half of addFlightPath: at most one city is added and only the matching city gains e. */
  lemma AddFlightFromEffect(cs: seq<City>, name: string, e: FlightEdge) returns (i: nat)
    requires DistinctNames(cs)
    ensures var r := AddFlightFrom(cs, name, e);
      && DistinctNames(r)
      && |cs| <= |r| <= |cs| + 1
      && (forall j :: 0 <= j < |cs| ==> r[j].name == cs[j].name)
      && Lookup(r, name) == Some(i)
      && forall j :: 0 <= j < |r| ==> r[j].flights == FlightsBefore(cs, j) + (if j == i then [e] else [])
  {
    var cs1;
    cs1, i := FindOrCreate(cs, name).0, FindOrCreate(cs, name).1;
    var r := AddFlightAt(cs1, i, e);
    forall j | 0 <= j < |cs|
      ensures r[j].name == cs[j].name
    {
      assert cs1[j] == cs1[..|cs|][j];
    }
    forall j | 0 <= j < |r|
      ensures r[j].flights == FlightsBefore(cs, j) + (if j == i then [e] else [])
    {
      if j < |cs| { assert cs1[j] == cs1[..|cs|][j]; }
    }
    LookupUnique(r, name, i);
  }

  /**
   * The effect of addFlightPath on a graph with distinct names: at most
   * two cities are added, names never change, the origin's city (found
   * by Lookup) gains (destination, cost, time), the destination's city
   * gains (origin, cost, time) -- a single city gains both, in that
   * order, when the two names are equal ignoring case -- and every other
   * city keeps its flights.
   */
  lemma AddFlightPathEffect(cs: seq<City>, origin: string, destination: string, cost: int, time: int)
    returns (io: nat, id: nat)
    requires DistinctNames(cs)
    ensures var r := AddFlightPath(cs, origin, destination, cost, time);
      && DistinctNames(r)
      && |cs| <= |r| <= |cs| + 2
      && (forall j :: 0 <= j < |cs| ==> r[j].name == cs[j].name)
      && Lookup(r, origin) == Some(io) && Lookup(r, destination) == Some(id)
      && forall j :: 0 <= j < |r| ==>
           r[j].flights == FlightsBefore(cs, j)
                           + (if j == io then [FlightEdge(destination, cost, time)] else [])
                           + (if j == id then [FlightEdge(origin, cost, time)] else [])
  {
    var e1, e2 := FlightEdge(destination, cost, time), FlightEdge(origin, cost, time);
    var cs2 := AddFlightFrom(cs, origin, e1);
    io := AddFlightFromEffect(cs, origin, e1);
    var r := AddFlightFrom(cs2, destination, e2);
    id := AddFlightFromEffect(cs2, destination, e2);
    forall j | 0 <= j < |cs|
      ensures r[j].name == cs[j].name
    {
      assert r[j].name == cs2[j].name;
    }
    LookupUnique(r, origin, io);
    forall j | 0 <= j < |r|
      ensures r[j].flights == FlightsBefore(cs, j) + (if j == io then [e1] else []) + (if j == id then [e2] else [])
    {
      assert FlightsBefore(cs2, j) == FlightsBefore(cs, j) + (if j == io then [e1] else []);
    }
  }

  /** An edge of the list equals (dest, cost, time), its destination compared ignoring case. */
  ghost predicate HasEdge(fs: seq<FlightEdge>, dest: string, cost: int, time: int) {
    exists k :: 0 <= k < |fs| && FoldEq(fs[k].destination, dest) && fs[k].cost == cost && fs[k].time == time
  }

  /** The destination of e resolves to a city that has an edge back to src with e's cost and time. */
  ghost predicate HasReverse(cs: seq<City>, e: FlightEdge, src: string) {
    exists j :: 0 <= j < |cs| && FoldEq(cs[j].name, e.destination) && HasEdge(cs[j].flights, src, e.cost, e.time)
  }

  /** Every flight a->b has a matching flight b->a with equal cost and time. */
  ghost predicate Symmetric(cs: seq<City>) {
    forall i, k :: 0 <= i < |cs| && 0 <= k < |cs[i].flights| ==> HasReverse(cs, cs[i].flights[k], cs[i].name)
  }

  /** r keeps every city of cs at its index, with its name, and only appends to its flights. */
  ghost predicate Extends(cs: seq<City>, r: seq<City>) {
    && |cs| <= |r|
    && forall j :: 0 <= j < |cs| ==> r[j].name == cs[j].name && |cs[j].flights| <= |r[j].flights| && r[j].flights[..|cs[j].flights|] == cs[j].flights
  }

  lemma HasReverseExtends(cs: seq<City>, r: seq<City>, e: FlightEdge, src: string)
    requires Extends(cs, r) && HasReverse(cs, e, src)
    ensures HasReverse(r, e, src)
  {
    var j :| 0 <= j < |cs| && FoldEq(cs[j].name, e.destination) && HasEdge(cs[j].flights, src, e.cost, e.time);
    var k :| 0 <= k < |cs[j].flights| && FoldEq(cs[j].flights[k].destination, src) && cs[j].flights[k].cost == e.cost && cs[j].flights[k].time == e.time;
    assert r[j].flights[k] == cs[j].flights[k];
  }

  /** An edge of the updated graph is an old edge, which keeps its reverse, or one of the two new edges. */
  lemma EdgeAfterAdd(cs: seq<City>, r: seq<City>, io: nat, id: nat, e1: FlightEdge, e2: FlightEdge, i: nat, k: nat)
    requires Symmetric(cs) && Extends(cs, r)
    requires io < |r| && id < |r| && HasReverse(r, e1, r[io].name) && HasReverse(r, e2, r[id].name)
    requires i < |r| && r[i].flights == FlightsBefore(cs, i) + (if i == io then [e1] else []) + (if i == id then [e2] else [])
    requires k < |r[i].flights|
    ensures HasReverse(r, r[i].flights[k], r[i].name)
  {
    var before := FlightsBefore(cs, i);
    var fs := r[i].flights;
    if k < |before| {
      assert i < |cs| && fs[k] == cs[i].flights[k];
      HasReverseExtends(cs, r, cs[i].flights[k], cs[i].name);
    } else if i == io && i == id {
      assert fs == before + [e1, e2];
      assert k == |before| || k == |before| + 1;
    } else if i == io {
      assert fs == before + [e1];
      assert fs[k] == e1;
    } else {
      assert i == id && fs == before + [e2];
      assert fs[k] == e2;
    }
  }

  /** A flight origin->destination and a flight destination->origin with equal weights are each other's reverse. */
  lemma NewEdgesReverse(r: seq<City>, io: nat, id: nat, origin: string, destination: string, cost: int, time: int)
    requires io < |r| && id < |r| && FoldEq(r[io].name, origin) && FoldEq(r[id].name, destination)
    requires FlightEdge(destination, cost, time) in r[io].flights && FlightEdge(origin, cost, time) in r[id].flights
    ensures HasReverse(r, FlightEdge(destination, cost, time), r[io].name)
    ensures HasReverse(r, FlightEdge(origin, cost, time), r[id].name)
  {
    var k1 :| 0 <= k1 < |r[io].flights| && r[io].flights[k1] == FlightEdge(destination, cost, time);
    var k2 :| 0 <= k2 < |r[id].flights| && r[id].flights[k2] == FlightEdge(origin, cost, time);
    assert HasEdge(r[id].flights, r[io].name, cost, time);
    assert HasEdge(r[io].flights, r[id].name, cost, time);
  }

  /**
   * Appending a flight origin->destination to the city named like origin
   * and a flight destination->origin with the same weights to the city
   * named like destination keeps a symmetric graph symmetric.
   */
  lemma SymmetricAfterAppend(cs: seq<City>, r: seq<City>, io: nat, id: nat, origin: string, destination: string, cost: int, time: int)
    requires Symmetric(cs) && |cs| <= |r| && forall j :: 0 <= j < |cs| ==> r[j].name == cs[j].name
    requires io < |r| && id < |r| && FoldEq(r[io].name, origin) && FoldEq(r[id].name, destination)
    requires forall i :: 0 <= i < |r| ==>
      r[i].flights == FlightsBefore(cs, i)
                      + (if i == io then [FlightEdge(destination, cost, time)] else [])
                      + (if i == id then [FlightEdge(origin, cost, time)] else [])
    ensures Symmetric(r)
  {
    var e1, e2 := FlightEdge(destination, cost, time), FlightEdge(origin, cost, time);
    assert Extends(cs, r) by {
      forall j | 0 <= j < |cs|
        ensures |cs[j].flights| <= |r[j].flights| && r[j].flights[..|cs[j].flights|] == cs[j].flights
      {
        assert FlightsBefore(cs, j) == cs[j].flights;
      }
    }
    assert e1 in r[io].flights && e2 in r[id].flights by {
      assert r[io].flights[|FlightsBefore(cs, io)|] == e1;
      assert r[id].flights[|r[id].flights| - 1] == e2;
    }
    NewEdgesReverse(r, io, id, origin, destination, cost, time);
    forall i, k | 0 <= i < |r| && 0 <= k < |r[i].flights|
      ensures HasReverse(r, r[i].flights[k], r[i].name)
    {
      EdgeAfterAdd(cs, r, io, id, e1, e2, i, k);
    }
  }

  /** addFlightPath preserves the reverse-edge invariant. */
  lemma {:induction false} AddFlightPathSymmetric(cs: seq<City>, origin: string, destination: string, cost: int, time: int)
    requires DistinctNames(cs) && Symmetric(cs)
    ensures Symmetric(AddFlightPath(cs, origin, destination, cost, time))
  {
    var r := AddFlightPath(cs, origin, destination, cost, time);
    var io, id := AddFlightPathEffect(cs, origin, destination, cost, time);
    SymmetricAfterAppend(cs, r, io, id, origin, destination, cost, time);
  }

  /** The invariant kept by the flight graph. */
  ghost predicate Valid(cs: seq<City>) {
    DistinctNames(cs) && Symmetric(cs)
  }

  /** Valid graphs stay valid under addFlightPath. */
  lemma AddFlightPathValid(cs: seq<City>, origin: string, destination: string, cost: int, time: int)
    requires Valid(cs)
    ensures Valid(AddFlightPath(cs, origin, destination, cost, time))
  {
    var _, _ := AddFlightPathEffect(cs, origin, destination, cost, time);
    AddFlightPathSymmetric(cs, origin, destination, cost, time);
  }

  /**
   * In a valid graph, every flight a->b resolves through the lookup of b
   * to the city that holds a flight back to a with the same cost and time.
   */
  lemma {:induction false} ReverseViaLookup(cs: seq<City>, i: nat, k: nat)
    requires Valid(cs) && i < |cs| && k < |cs[i].flights|
    ensures var e := cs[i].flights[k];
      Lookup(cs, e.destination).Some? && HasEdge(cs[Lookup(cs, e.destination).value].flights, cs[i].name, e.cost, e.time)
  {
    var e := cs[i].flights[k];
    assert HasReverse(cs, e, cs[i].name);
    var j :| 0 <= j < |cs| && FoldEq(cs[j].name, e.destination) && HasEdge(cs[j].flights, cs[i].name, e.cost, e.time);
    LookupUnique(cs, e.destination, j);
  }
}
