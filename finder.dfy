/**
 * PathFinder.findFlights: iterative backtracking over an explicit stack
 * of search states. Each state owns its own path and visited set (here
 * values, so no two states share them). Explore is the recursive
 * reference that the stack loop is proved equal to, result for result
 * and in the same order.
 */
module Finder {
  import opened Options
  import opened Names
  import opened Network
  import opened Graph
  import opened Results

  /** One entry of the search stack. */
  datatype SearchState = SearchState(
    currentCityName: string,
    accumulatedCost: int,
    accumulatedTime: int,
    pathHistory: seq<string>,
    visitedCities: set<string>)

  /** The state pushed first: the start city, nothing spent, path and visited set holding only it. */
  function Initial(startCity: string): SearchState {
    SearchState(startCity, 0, 0, [startCity], {startCity})
  }

  /** The state pushed for flight e out of s: copies of s's path and visited set extended by e's destination. */
  function Step(s: SearchState, e: FlightEdge): SearchState {
    SearchState(
      e.destination,
      s.accumulatedCost + e.cost,
      s.accumulatedTime + e.time,
      s.pathHistory + [e.destination],
      s.visitedCities + {e.destination})
  }

  /** The result recorded when s has reached the destination. */
  function Record(s: SearchState, sortBy: char): PathResult {
    PathResult(s.pathHistory, s.accumulatedCost, s.accumulatedTime, sortBy)
  }

  /** Every name some flight leads to: the names a search can add to a visited set. */
  ghost function Destinations(cs: seq<City>): set<string> {
    set i, k | 0 <= i < |cs| && 0 <= k < |cs[i].flights| :: cs[i].flights[k].destination
  }

  /** Following an unvisited flight leaves strictly fewer destinations unvisited. */
  lemma StepShrinks(cs: seq<City>, s: SearchState, i: nat, k: nat)
    requires i < |cs| && k < |cs[i].flights| && cs[i].flights[k].destination !in s.visitedCities
    ensures |Destinations(cs) - Step(s, cs[i].flights[k]).visitedCities| < |Destinations(cs) - s.visitedCities|
  {
    var d := cs[i].flights[k].destination;
    var left := Destinations(cs) - s.visitedCities;
    assert d in left;
    assert Destinations(cs) - Step(s, cs[i].flights[k]).visitedCities == left - {d};
  }

  /** What a piece of the search produces: the results it records and the number of states it pops. */
  datatype Outcome = Outcome(results: seq<PathResult>, states: nat)

  /**
   * The search below one popped state: recorded when it is at the
   * destination, dropped when its city is unknown, otherwise expanded
   * along its city's flights.
   */
  ghost function Explore(cs: seq<City>, endCity: string, sortBy: char, s: SearchState): (o: Outcome)
    ensures o.states >= 1
    decreases |Destinations(cs) - s.visitedCities|, 1
  {
    if FoldEq(s.currentCityName, endCity) then Outcome([Record(s, sortBy)], 1)
    else match Lookup(cs, s.currentCityName)
      case None => Outcome([], 1)
      case Some(i) =>
        var o := ExploreEdges(cs, endCity, sortBy, s, i, |cs[i].flights|);
        Outcome(o.results, o.states + 1)
  }

  /**
   * The search below the states pushed for the first k flights of city i.
   * They are pushed in flight order and popped last-first, so the
   * results of flight k-1 come before those of the earlier flights.
   */
  ghost function ExploreEdges(cs: seq<City>, endCity: string, sortBy: char, s: SearchState, i: nat, k: nat): Outcome
    requires i < |cs| && k <= |cs[i].flights|
    decreases |Destinations(cs) - s.visitedCities|, 0, k
  {
    if k == 0 then Outcome([], 0)
    else
      var rest := ExploreEdges(cs, endCity, sortBy, s, i, k - 1);
      var e := cs[i].flights[k - 1];
      if e.destination in s.visitedCities then rest
      else
        StepShrinks(cs, s, i, k - 1);
        var o := Explore(cs, endCity, sortBy, Step(s, e));
        Outcome(o.results + rest.results, o.states + rest.states)
  }

  /** The results still to come from a stack whose top is its last element. */
  ghost function StackResults(cs: seq<City>, endCity: string, sortBy: char, stack: seq<SearchState>): seq<PathResult> {
    if stack == [] then []
    else Explore(cs, endCity, sortBy, stack[|stack| - 1]).results + StackResults(cs, endCity, sortBy, stack[..|stack| - 1])
  }

  /** The pops still to come from a stack. */
  ghost function StackStates(cs: seq<City>, endCity: string, sortBy: char, stack: seq<SearchState>): nat {
    if stack == [] then 0
    else Explore(cs, endCity, sortBy, stack[|stack| - 1]).states + StackStates(cs, endCity, sortBy, stack[..|stack| - 1])
  }

  /** Pushing x on a stack puts x's search before everything already on it. */
  lemma StackPush(cs: seq<City>, endCity: string, sortBy: char, stack: seq<SearchState>, x: SearchState)
    ensures StackResults(cs, endCity, sortBy, stack + [x])
      == Explore(cs, endCity, sortBy, x).results + StackResults(cs, endCity, sortBy, stack)
    ensures StackStates(cs, endCity, sortBy, stack + [x])
      == Explore(cs, endCity, sortBy, x).states + StackStates(cs, endCity, sortBy, stack)
  {
    assert (stack + [x])[..|stack + [x]| - 1] == stack;
  }

  /**
   * The states pushed for a list of flights out of s, in flight order:
   * one copy of s extended by each flight whose destination s has not
   * visited.
   */
  function Pushed(s: SearchState, flights: seq<FlightEdge>): (r: seq<SearchState>)
    ensures |r| <= |flights|
  {
    if flights == [] then []
    else
      var e := flights[|flights| - 1];
      Pushed(s, flights[..|flights| - 1]) + (if e.destination in s.visitedCities then [] else [Step(s, e)])
  }

  /** Every pushed state is the copy of s extended by one of the flights, whose destination s has not visited. */
  lemma {:induction false} PushedSteps(s: SearchState, flights: seq<FlightEdge>)
    ensures forall x :: x in Pushed(s, flights) ==>
      exists e :: e in flights && e.destination !in s.visitedCities && x == Step(s, e)
  {
    if flights != [] {
      var front := flights[..|flights| - 1];
      PushedSteps(s, front);
      forall x | x in Pushed(s, flights)
        ensures exists e :: e in flights && e.destination !in s.visitedCities && x == Step(s, e)
      {
        if x in Pushed(s, front) {
          var e :| e in front && e.destination !in s.visitedCities && x == Step(s, e);
          assert e in flights;
        } else {
          assert flights[|flights| - 1] in flights;
        }
      }
    }
  }

  /** One more flight: its copy of s is pushed last, unless s has visited its destination. */
  lemma PushedNext(s: SearchState, flights: seq<FlightEdge>, k: nat)
    requires k < |flights|
    ensures flights[k].destination in s.visitedCities ==> Pushed(s, flights[..k + 1]) == Pushed(s, flights[..k])
    ensures flights[k].destination !in s.visitedCities ==> Pushed(s, flights[..k + 1]) == Pushed(s, flights[..k]) + [Step(s, flights[k])]
  {
    assert flights[..k + 1][..k] == flights[..k];
    if flights[k].destination in s.visitedCities {
      assert Pushed(s, flights[..k]) + [] == Pushed(s, flights[..k]);
    }
  }

  /** A stack made of b laid on a: b's searches come first, then a's. */
  lemma {:induction false} StackAppend(cs: seq<City>, endCity: string, sortBy: char, a: seq<SearchState>, b: seq<SearchState>)
    ensures StackResults(cs, endCity, sortBy, a + b) == StackResults(cs, endCity, sortBy, b) + StackResults(cs, endCity, sortBy, a)
    ensures StackStates(cs, endCity, sortBy, a + b) == StackStates(cs, endCity, sortBy, b) + StackStates(cs, endCity, sortBy, a)
    decreases |b|
  {
    if b == [] {
      assert a + b == a;
    } else {
      var b' := b[..|b| - 1];
      assert (a + b)[..|a + b| - 1] == a + b' && (a + b)[|a + b| - 1] == b[|b| - 1];
      StackAppend(cs, endCity, sortBy, a, b');
    }
  }

  /** The states pushed for the first k flights of city i yield the search below those flights. */
  lemma {:induction false} PushedSearch(cs: seq<City>, endCity: string, sortBy: char, s: SearchState, i: nat, k: nat)
    requires i < |cs| && k <= |cs[i].flights|
    ensures StackResults(cs, endCity, sortBy, Pushed(s, cs[i].flights[..k])) == ExploreEdges(cs, endCity, sortBy, s, i, k).results
    ensures StackStates(cs, endCity, sortBy, Pushed(s, cs[i].flights[..k])) == ExploreEdges(cs, endCity, sortBy, s, i, k).states
    decreases k
  {
    if k > 0 {
      PushedSearch(cs, endCity, sortBy, s, i, k - 1);
      ExploreEdgesNext(cs, endCity, sortBy, s, i, k - 1);
      PushedNext(s, cs[i].flights, k - 1);
      var e := cs[i].flights[k - 1];
      if e.destination !in s.visitedCities {
        StackPush(cs, endCity, sortBy, Pushed(s, cs[i].flights[..k - 1]), Step(s, e));
      }
    }
  }

  /** Popping a state at the destination: its record joins the results found so far. */
  lemma PopAtEnd(cs: seq<City>, endCity: string, sortBy: char, stack: seq<SearchState>, done: seq<PathResult>)
    requires stack != [] && FoldEq(stack[|stack| - 1].currentCityName, endCity)
    ensures (done + [Record(stack[|stack| - 1], sortBy)]) + StackResults(cs, endCity, sortBy, stack[..|stack| - 1])
      == done + StackResults(cs, endCity, sortBy, stack)
    ensures StackStates(cs, endCity, sortBy, stack[..|stack| - 1]) < StackStates(cs, endCity, sortBy, stack)
  {
  }

  /** Popping a state whose city is unknown: it adds nothing. */
  lemma PopUnknown(cs: seq<City>, endCity: string, sortBy: char, stack: seq<SearchState>)
    requires stack != [] && !FoldEq(stack[|stack| - 1].currentCityName, endCity)
    requires Lookup(cs, stack[|stack| - 1].currentCityName).None?
    ensures StackResults(cs, endCity, sortBy, stack) == StackResults(cs, endCity, sortBy, stack[..|stack| - 1])
    ensures StackStates(cs, endCity, sortBy, stack[..|stack| - 1]) < StackStates(cs, endCity, sortBy, stack)
  {
  }

  /**
   * Popping a state whose city i is known and pushing its copies for the
   * unvisited flights of i leaves the search of the stack unchanged and
   * fewer pops to come.
   */
  lemma PopExpand(cs: seq<City>, endCity: string, sortBy: char, stack: seq<SearchState>, i: nat)
    requires stack != [] && !FoldEq(stack[|stack| - 1].currentCityName, endCity)
    requires Lookup(cs, stack[|stack| - 1].currentCityName) == Some(i)
    ensures var next := stack[..|stack| - 1] + Pushed(stack[|stack| - 1], cs[i].flights);
      && StackResults(cs, endCity, sortBy, next) == StackResults(cs, endCity, sortBy, stack)
      && StackStates(cs, endCity, sortBy, next) < StackStates(cs, endCity, sortBy, stack)
  {
    var top, below := stack[|stack| - 1], stack[..|stack| - 1];
    PushedSearch(cs, endCity, sortBy, top, i, |cs[i].flights|);
    assert cs[i].flights[..|cs[i].flights|] == cs[i].flights;
    StackAppend(cs, endCity, sortBy, below, Pushed(top, cs[i].flights));
  }

  /** One more flight: skipped when its destination was visited, otherwise its search comes first. */
  lemma ExploreEdgesNext(cs: seq<City>, endCity: string, sortBy: char, s: SearchState, i: nat, k: nat)
    requires i < |cs| && k < |cs[i].flights|
    ensures cs[i].flights[k].destination in s.visitedCities ==>
      ExploreEdges(cs, endCity, sortBy, s, i, k + 1) == ExploreEdges(cs, endCity, sortBy, s, i, k)
    ensures cs[i].flights[k].destination !in s.visitedCities ==>
      var o := Explore(cs, endCity, sortBy, Step(s, cs[i].flights[k]));
      var rest := ExploreEdges(cs, endCity, sortBy, s, i, k);
      ExploreEdges(cs, endCity, sortBy, s, i, k + 1) == Outcome(o.results + rest.results, o.states + rest.states)
  {
  }

  /** No name occurs twice. */
  ghost predicate NoDup(p: seq<string>) {
    forall a, b :: 0 <= a < b < |p| ==> p[a] != p[b]
  }

  /**
   * p is a walk through the graph with the given totals: each name after
   * the first is the destination of a flight of the city that getCity
   * finds for the name before it, and cost and time are the sums of
   * those flights' costs and times.
   */
  ghost predicate Walk(cs: seq<City>, p: seq<string>, cost: int, time: int)
    decreases |p|
  {
    if |p| == 0 then false
    else if |p| == 1 then cost == 0 && time == 0
    else match Lookup(cs, p[|p| - 2])
      case None => false
      case Some(i) =>
        exists k :: 0 <= k < |cs[i].flights| && cs[i].flights[k].destination == p[|p| - 1]
          && Walk(cs, p[..|p| - 1], cost - cs[i].flights[k].cost, time - cs[i].flights[k].time)
  }

  /**
   * A route from startCity to endCity: starts at startCity, ends at a name
   * equal to endCity ignoring case, passes no such name before that,
   * repeats no name, follows flights with the recorded totals, and carries
   * the requested tag.
   */
  ghost predicate IsRoute(cs: seq<City>, startCity: string, endCity: string, sortBy: char, r: PathResult) {
    var p := r.path;
    && |p| >= 1
    && p[0] == startCity
    && FoldEq(p[|p| - 1], endCity)
    && (forall k :: 0 <= k < |p| - 1 ==> !FoldEq(p[k], endCity))
    && NoDup(p)
    && Walk(cs, p, r.totalCost, r.totalTime)
    && r.sortBy == sortBy
  }

  /** What every state on the stack satisfies. */
  ghost predicate StateOk(cs: seq<City>, startCity: string, endCity: string, s: SearchState) {
    var p := s.pathHistory;
    && |p| >= 1
    && p[0] == startCity
    && p[|p| - 1] == s.currentCityName
    && (forall x :: x in s.visitedCities <==> x in p)
    && NoDup(p)
    && (forall k :: 0 <= k < |p| - 1 ==> !FoldEq(p[k], endCity))
    && Walk(cs, p, s.accumulatedCost, s.accumulatedTime)
  }

  lemma InitialOk(cs: seq<City>, startCity: string, endCity: string)
    ensures StateOk(cs, startCity, endCity, Initial(startCity))
  {
  }

  /** Extending a walk by a flight of the city its last name resolves to gives a walk with the flight's weights added. */
  lemma WalkStep(cs: seq<City>, p: seq<string>, cost: int, time: int, i: nat, k: nat)
    requires Walk(cs, p, cost, time) && Lookup(cs, p[|p| - 1]) == Some(i) && k < |cs[i].flights|
    ensures Walk(cs, p + [cs[i].flights[k].destination], cost + cs[i].flights[k].cost, time + cs[i].flights[k].time)
  {
    var e := cs[i].flights[k];
    var q := p + [e.destination];
    assert q[..|q| - 1] == p && q[|q| - 2] == p[|p| - 1];
    assert Walk(cs, p, (cost + e.cost) - e.cost, (time + e.time) - e.time);
  }

  lemma NoDupAppend(p: seq<string>, d: string)
    requires NoDup(p) && d !in p
    ensures NoDup(p + [d])
  {
    var q := p + [d];
    forall a, b | 0 <= a < b < |q| ensures q[a] != q[b] {
      if b == |q| - 1 { assert q[a] == p[a]; }
    }
  }

  /** A state pushed for an unvisited flight of a state that is not at the destination is again well formed. */
  lemma StepOk(cs: seq<City>, startCity: string, endCity: string, s: SearchState, i: nat, k: nat)
    requires StateOk(cs, startCity, endCity, s) && !FoldEq(s.currentCityName, endCity)
    requires Lookup(cs, s.currentCityName) == Some(i) && k < |cs[i].flights|
    requires cs[i].flights[k].destination !in s.visitedCities
    ensures StateOk(cs, startCity, endCity, Step(s, cs[i].flights[k]))
  {
    var e := cs[i].flights[k];
    var p, t := s.pathHistory, Step(s, e);
    var q := t.pathHistory;
    WalkStep(cs, p, s.accumulatedCost, s.accumulatedTime, i, k);
    NoDupAppend(p, e.destination);
    VisitedAppend(s.visitedCities, p, e.destination);
    NotEndAppend(p, endCity, e.destination);
  }

  lemma VisitedAppend(v: set<string>, p: seq<string>, d: string)
    requires forall x :: x in v <==> x in p
    ensures forall x :: x in v + {d} <==> x in p + [d]
  {
  }

  /** When no name of p equals endCity ignoring case, none before the last of p + [d] does either. */
  lemma NotEndAppend(p: seq<string>, endCity: string, d: string)
    requires |p| >= 1 && !FoldEq(p[|p| - 1], endCity)
    requires forall j :: 0 <= j < |p| - 1 ==> !FoldEq(p[j], endCity)
    ensures forall j :: 0 <= j < |p + [d]| - 1 ==> !FoldEq((p + [d])[j], endCity)
  {
    forall j | 0 <= j < |p + [d]| - 1 ensures !FoldEq((p + [d])[j], endCity) {
      assert (p + [d])[j] == p[j];
    }
  }

  /** A result below the first k flights comes from flight k-1, when unvisited, or from the first k-1 flights. */
  lemma ExploreEdgesSplit(cs: seq<City>, endCity: string, sortBy: char, s: SearchState, i: nat, k: nat, r: PathResult)
    requires i < |cs| && 0 < k <= |cs[i].flights|
    requires r in ExploreEdges(cs, endCity, sortBy, s, i, k).results
    ensures r in ExploreEdges(cs, endCity, sortBy, s, i, k - 1).results
      || (cs[i].flights[k - 1].destination !in s.visitedCities
          && r in Explore(cs, endCity, sortBy, Step(s, cs[i].flights[k - 1])).results)
  {
  }

  /** Soundness: every result recorded below a well-formed state is a route. */
  lemma {:induction false} ExploreSound(cs: seq<City>, startCity: string, endCity: string, sortBy: char, s: SearchState, r: PathResult)
    requires StateOk(cs, startCity, endCity, s)
    requires r in Explore(cs, endCity, sortBy, s).results
    ensures IsRoute(cs, startCity, endCity, sortBy, r)
    decreases |Destinations(cs) - s.visitedCities|, 1
  {
    if !FoldEq(s.currentCityName, endCity) {
      var i := Lookup(cs, s.currentCityName).value;
      ExploreEdgesSound(cs, startCity, endCity, sortBy, s, i, |cs[i].flights|, r);
    }
  }

  lemma {:induction false} ExploreEdgesSound(cs: seq<City>, startCity: string, endCity: string, sortBy: char, s: SearchState, i: nat, k: nat, r: PathResult)
    requires StateOk(cs, startCity, endCity, s) && !FoldEq(s.currentCityName, endCity)
    requires Lookup(cs, s.currentCityName) == Some(i) && k <= |cs[i].flights|
    requires r in ExploreEdges(cs, endCity, sortBy, s, i, k).results
    ensures IsRoute(cs, startCity, endCity, sortBy, r)
    decreases |Destinations(cs) - s.visitedCities|, 0, k
  {
    ExploreEdgesSplit(cs, endCity, sortBy, s, i, k, r);
    if r in ExploreEdges(cs, endCity, sortBy, s, i, k - 1).results {
      ExploreEdgesSound(cs, startCity, endCity, sortBy, s, i, k - 1, r);
    } else {
      StepSound(cs, startCity, endCity, sortBy, s, i, k - 1, r);
    }
  }

  lemma {:induction false} StepSound(cs: seq<City>, startCity: string, endCity: string, sortBy: char, s: SearchState, i: nat, k: nat, r: PathResult)
    requires StateOk(cs, startCity, endCity, s) && !FoldEq(s.currentCityName, endCity)
    requires Lookup(cs, s.currentCityName) == Some(i) && k < |cs[i].flights|
    requires cs[i].flights[k].destination !in s.visitedCities
    requires r in Explore(cs, endCity, sortBy, Step(s, cs[i].flights[k])).results
    ensures IsRoute(cs, startCity, endCity, sortBy, r)
    decreases |Destinations(cs) - s.visitedCities|, 0, k
  {
    StepShrinks(cs, s, i, k);
    StepOk(cs, startCity, endCity, s, i, k);
    ExploreSound(cs, startCity, endCity, sortBy, Step(s, cs[i].flights[k]), r);
  }

  /**
   * The state reached from s by taking, at each step, the flight with the
   * given index out of the current city, as long as the current city is
   * not the destination, is known to the graph, and the flight leads to a
   * name not yet visited.
   */
  ghost function Follow(cs: seq<City>, endCity: string, s: SearchState, choices: seq<nat>): Option<SearchState>
    decreases |choices|
  {
    if choices == [] then Some(s)
    else if FoldEq(s.currentCityName, endCity) then None
    else match Lookup(cs, s.currentCityName)
      case None => None
      case Some(i) =>
        if choices[0] < |cs[i].flights| && cs[i].flights[choices[0]].destination !in s.visitedCities
        then Follow(cs, endCity, Step(s, cs[i].flights[choices[0]]), choices[1..])
        else None
  }

  /** Everything recorded below the state of flight c is recorded below the first k flights, c < k. */
  lemma {:induction false} ExploreEdgesContains(cs: seq<City>, endCity: string, sortBy: char, s: SearchState, i: nat, k: nat, c: nat)
    requires i < |cs| && c < k <= |cs[i].flights| && cs[i].flights[c].destination !in s.visitedCities
    ensures forall r :: r in Explore(cs, endCity, sortBy, Step(s, cs[i].flights[c])).results ==>
      r in ExploreEdges(cs, endCity, sortBy, s, i, k).results
    decreases k
  {
    if c < k - 1 {
      ExploreEdgesContains(cs, endCity, sortBy, s, i, k - 1, c);
    }
  }

  /**
   * Completeness: every sequence of flights that obeys the visited-set
   * rule and stops at the first name equal to the destination is
   * recorded by the search.
   */
  lemma {:induction false} ExploreComplete(cs: seq<City>, endCity: string, sortBy: char, s: SearchState, choices: seq<nat>)
    requires Follow(cs, endCity, s, choices).Some?
    requires FoldEq(Follow(cs, endCity, s, choices).value.currentCityName, endCity)
    ensures Record(Follow(cs, endCity, s, choices).value, sortBy) in Explore(cs, endCity, sortBy, s).results
    decreases |choices|
  {
    if choices != [] {
      var i := Lookup(cs, s.currentCityName).value;
      var e := cs[i].flights[choices[0]];
      ExploreComplete(cs, endCity, sortBy, Step(s, e), choices[1..]);
      ExploreEdgesContains(cs, endCity, sortBy, s, i, |cs[i].flights|, choices[0]);
    }
  }

  /**
   * The search from startCity records only routes; when startCity already
   * equals endCity ignoring case it records the one-city path at no cost,
   * and when startCity is unknown to the graph it records nothing.
   */
  lemma SearchFromStart(cs: seq<City>, startCity: string, endCity: string, sortBy: char)
    ensures forall r :: r in Explore(cs, endCity, sortBy, Initial(startCity)).results ==> IsRoute(cs, startCity, endCity, sortBy, r)
    ensures FoldEq(startCity, endCity) ==> Explore(cs, endCity, sortBy, Initial(startCity)).results == [PathResult([startCity], 0, 0, sortBy)]
    ensures !FoldEq(startCity, endCity) && Lookup(cs, startCity).None? ==> Explore(cs, endCity, sortBy, Initial(startCity)).results == []
    ensures Valid(cs) && !FoldEq(startCity, endCity) && Lookup(cs, endCity).None? ==> Explore(cs, endCity, sortBy, Initial(startCity)).results == []
  {
    var results := Explore(cs, endCity, sortBy, Initial(startCity)).results;
    InitialOk(cs, startCity, endCity);
    forall r | r in results
      ensures IsRoute(cs, startCity, endCity, sortBy, r)
    {
      ExploreSound(cs, startCity, endCity, sortBy, Initial(startCity), r);
    }
    if Valid(cs) && !FoldEq(startCity, endCity) && Lookup(cs, endCity).None? {
      UnknownEnd(cs, startCity, endCity, sortBy);
    }
  }

  /**
   * In a graph where every flight has its reverse, a name equal ignoring
   * case to some flight's destination resolves through getCity.
   */
  lemma DestinationKnown(cs: seq<City>, i: nat, k: nat, endCity: string)
    requires Valid(cs) && i < |cs| && k < |cs[i].flights| && FoldEq(cs[i].flights[k].destination, endCity)
    ensures Lookup(cs, endCity).Some?
  {
    ReverseViaLookup(cs, i, k);
    var j := Lookup(cs, cs[i].flights[k].destination).value;
    assert FoldEq(cs[j].name, endCity);
  }

  /**
   * A route from startCity to a different endCity has two or more names,
   * so its last name, equal to endCity ignoring case, is a flight's
   * destination.
   */
  lemma RouteLast(cs: seq<City>, startCity: string, endCity: string, sortBy: char, r: PathResult) returns (i: nat, k: nat)
    requires !FoldEq(startCity, endCity) && IsRoute(cs, startCity, endCity, sortBy, r)
    ensures i < |cs| && k < |cs[i].flights| && FoldEq(cs[i].flights[k].destination, endCity)
  {
    assert |r.path| != 1;
    i, k := WalkLast(cs, r.path, r.totalCost, r.totalTime);
  }

  /**
   * In a graph built by addFlightPath, a destination that is not in the
   * graph and differs from the start ignoring case has no route.
   */
  lemma UnknownEnd(cs: seq<City>, startCity: string, endCity: string, sortBy: char)
    requires Valid(cs) && !FoldEq(startCity, endCity) && Lookup(cs, endCity).None?
    ensures Explore(cs, endCity, sortBy, Initial(startCity)).results == []
  {
    var results := Explore(cs, endCity, sortBy, Initial(startCity)).results;
    assert |results| > 0 ==> Lookup(cs, endCity).Some? by {
      if |results| > 0 {
        InitialOk(cs, startCity, endCity);
        ExploreSound(cs, startCity, endCity, sortBy, Initial(startCity), results[0]);
        var i, k := RouteLast(cs, startCity, endCity, sortBy, results[0]);
        DestinationKnown(cs, i, k, endCity);
      }
    }
  }

  /** The last name of a walk of two or more names is the destination of some flight. */
  lemma WalkLast(cs: seq<City>, p: seq<string>, cost: int, time: int) returns (i: nat, k: nat)
    requires |p| >= 2 && Walk(cs, p, cost, time)
    ensures i < |cs| && k < |cs[i].flights| && cs[i].flights[k].destination == p[|p| - 1]
  {
    i := Lookup(cs, p[|p| - 2]).value;
    k :| 0 <= k < |cs[i].flights| && cs[i].flights[k].destination == p[|p| - 1]
      && Walk(cs, p[..|p| - 1], cost - cs[i].flights[k].cost, time - cs[i].flights[k].time);
  }

  /**
   * The inner loop of findFlights: for each flight of the popped state's
   * city, in order, a copy of the state extended by the flight is pushed
   * unless the flight's destination was already visited.
   */
  method PushFlights(city: CityNode, current: SearchState, rest: seq<SearchState>) returns (stack: seq<SearchState>)
    ensures stack == rest + Pushed(current, city.flights)
  {
    stack := rest;
    var k := 0;
    while k < |city.flights|
      invariant 0 <= k <= |city.flights|
      invariant stack == rest + Pushed(current, city.flights[..k])
    {
      PushedNext(current, city.flights, k);
      var flight := city.flights[k];
      var nextCity := flight.destination;
      if nextCity !in current.visitedCities {
        var nextVisited := current.visitedCities + {nextCity};
        var nextPath := current.pathHistory + [nextCity];
        var newCost := current.accumulatedCost + flight.cost;
        var newTime := current.accumulatedTime + flight.time;
        var nextState := SearchState(nextCity, newCost, newTime, nextPath, nextVisited);
        assert nextState == Step(current, flight);
        stack := stack + [nextState];
      }
      k := k + 1;
    }
    assert city.flights[..k] == city.flights;
  }

  /**
   * findFlights: every route from startCity to endCity, in the order the
   * stack search records them. The graph is only read.
   */
  method FindFlights(graph: FlightGraph, startCity: string, endCity: string, sortBy: char)
    returns (allPaths: seq<PathResult>)
    ensures allPaths == Explore(graph.View(), endCity, sortBy, Initial(startCity)).results
    ensures forall r :: r in allPaths ==> IsRoute(graph.View(), startCity, endCity, sortBy, r)
    ensures FoldEq(startCity, endCity) ==> allPaths == [PathResult([startCity], 0, 0, sortBy)]
    ensures !FoldEq(startCity, endCity) && Lookup(graph.View(), startCity).None? ==> allPaths == []
    ensures graph.Valid() && !FoldEq(startCity, endCity) && Lookup(graph.View(), endCity).None? ==> allPaths == []
  {
    ghost var cs := graph.View();
    allPaths := [];
    var initialPath := [startCity];
    var initialVisited := {startCity};
    var stack := [SearchState(startCity, 0, 0, initialPath, initialVisited)];
    while stack != []
      invariant allPaths + StackResults(cs, endCity, sortBy, stack) == Explore(cs, endCity, sortBy, Initial(startCity)).results
      decreases StackStates(cs, endCity, sortBy, stack)
    {
      ghost var before := stack;
      var current := stack[|stack| - 1];
      stack := stack[..|stack| - 1];
      if FoldEq(current.currentCityName, endCity) {
        PopAtEnd(cs, endCity, sortBy, before, allPaths);
        var pathFound := PathResult(current.pathHistory, current.accumulatedCost, current.accumulatedTime, sortBy);
        allPaths := allPaths + [pathFound];
        continue;
      }
      var city := graph.GetCity(current.currentCityName);
      if city == null {
        PopUnknown(cs, endCity, sortBy, before);
        continue;
      }
      PopExpand(cs, endCity, sortBy, before, Lookup(cs, current.currentCityName).value);
      stack := PushFlights(city, current, stack);
    }
    SearchFromStart(cs, startCity, endCity, sortBy);
  }
}
