/** The transport catalogue: an append-only store of stops and buses with lookup by
    name, the index from a stop to the buses serving it, the table of road distances, and
    the statistics of a bus. */
module Catalogue {
  import opened Wrappers
  import opened Domain

  /** A great-circle distance between two points (geo.h), left uninterpreted. */
  type Geo = (Coordinates, Coordinates) -> real

  /** Every position in `ps` addresses one of `count` stored stops. */
  predicate StopsIn(ps: seq<nat>, count: nat) {
    forall k :: 0 <= k < |ps| ==> ps[k] < count
  }

  /** The stop positions named by a bus's stop names, in order, as far as the names are
      known: the result stops at the first unknown name, where `.at` throws. */
  function Resolve(index: map<string, nat>, names: seq<string>): (r: seq<nat>)
    ensures |r| <= |names|
    ensures forall k :: 0 <= k < |r| ==> names[k] in index && r[k] == index[names[k]]
    ensures |r| < |names| ==> names[|r|] !in index
  {
    if |names| == 0 || names[0] !in index then []
    else [index[names[0]]] + Resolve(index, names[1..])
  }

  /** Adds the bus name to the set of every stop in `ps`, creating empty sets as needed. */
  function Register(m: map<nat, set<string>>, ps: seq<nat>, name: string): (r: map<nat, set<string>>)
    ensures forall p :: p in r <==> p in m || p in ps
    ensures forall p :: p in r ==> r[p] == (if p in m then m[p] else {}) + (if p in ps then {name} else {})
  {
    if |ps| == 0 then m
    else
      var rest := Register(m, ps[..|ps| - 1], name);
      var last := ps[|ps| - 1];
      assert forall p :: p in ps <==> p == last || p in ps[..|ps| - 1];
      rest[last := (if last in rest then rest[last] else {}) + {name}]
  }

  /** Sum of the distances between consecutive points. */
  function PathLength(cs: seq<Coordinates>, geo: Geo): real
  {
    if |cs| <= 1 then 0.0 else PathLength(cs[..|cs| - 1], geo) + geo(cs[|cs| - 2], cs[|cs| - 1])
  }

  /** The result of AddBus: the new state, and the first stop name that was not found. */
  datatype AddBusOutcome = AddBusOutcome(state: CatalogueState, unknownStop: Option<string>)

  /** The fields of TransportCatalogue as one value. `stopIndex` and `busIndex` hold the
      position of the newest stop or bus of each name; `distances` is keyed by the ordered
      pair of stop positions. */
  datatype CatalogueState = CatalogueState(
    stops: seq<Stop>,
    stopIndex: map<string, nat>,
    buses: seq<Bus>,
    busIndex: map<string, nat>,
    stopToBuses: map<nat, set<string>>,
    distances: map<(nat, nat), int>)
  {
    ghost predicate Valid() {
      (forall n :: n in stopIndex ==> stopIndex[n] < |stops| && stops[stopIndex[n]].name == n)
      && (forall i :: 0 <= i < |stops| ==> stops[i].name in stopIndex)
      && (forall n :: n in busIndex ==> busIndex[n] < |buses| && buses[busIndex[n]].name == n)
      && (forall b :: 0 <= b < |buses| ==> StopsIn(buses[b].stops, |stops|))
      && (forall p :: p in stopToBuses ==> p < |stops| && forall n :: n in stopToBuses[p] ==> n in busIndex)
      && (forall n, k :: n in busIndex && 0 <= k < |buses[busIndex[n]].stops| ==>
            buses[busIndex[n]].stops[k] in stopToBuses && n in stopToBuses[buses[busIndex[n]].stops[k]])
      && (forall key :: key in distances ==> key.0 < |stops| && key.1 < |stops|)
    }

    /** FindStop: the newest stop of that name. */
    function FindStop(name: string): Option<nat> {
      if name in stopIndex then Some(stopIndex[name]) else None
    }

    /** FindBus: the newest registered bus of that name. */
    function FindBus(name: string): Option<nat> {
      if name in busIndex then Some(busIndex[name]) else None
    }

    /** GetBusesByStop: the names of the buses registered at the newest stop of that name. */
    function BusesByStop(name: string): set<string> {
      match FindStop(name)
      case None => {}
      case Some(p) => if p in stopToBuses then stopToBuses[p] else {}
    }

    /** GetDistance as a lookup of the stored entry for the ordered pair. */
    function GetDistance(from: nat, to: nat): (r: Option<int>)
    {
      if (from, to) in distances then Some(distances[(from, to)]) else None
    }

    function AddStop(name: string, coordinates: Coordinates): CatalogueState {
      this.(stops := stops + [Stop(name, coordinates)], stopIndex := stopIndex[name := |stops|])
    }

    function AddBus(name: string, names: seq<string>, isCircular: bool): AddBusOutcome {
      var resolved := Resolve(stopIndex, names);
      var appended := this.(buses := buses + [Bus(name, resolved, isCircular)]);
      if |resolved| < |names| then AddBusOutcome(appended, Some(names[|resolved|]))
      else
        AddBusOutcome(appended.(busIndex := busIndex[name := |buses|],
                                stopToBuses := Register(stopToBuses, resolved, name)), None)
    }

    function SetDistance(from: nat, to: nat, distance: int): CatalogueState {
      this.(distances := distances[(from, to) := distance])
    }

    /** The coordinates of the stops at positions `ps`. */
    function Coords(ps: seq<nat>): (r: seq<Coordinates>)
      requires StopsIn(ps, |stops|)
      ensures |r| == |ps|
      ensures forall k :: 0 <= k < |ps| ==> r[k] == stops[ps[k]].coordinates
    {
      seq(|ps|, k requires 0 <= k < |ps| => stops[ps[k]].coordinates)
    }

    /** The distinct names of the first `i` stops at positions `ps`. */
    function NamesUpTo(ps: seq<nat>, i: nat): set<string>
      requires StopsIn(ps, |stops|) && i <= |ps|
    {
      set k | 0 <= k < i :: stops[ps[k]].name
    }

    /** The distinct names of the stops at positions `ps`. */
    function StopNames(ps: seq<nat>): set<string>
      requires StopsIn(ps, |stops|)
    {
      NamesUpTo(ps, |ps|)
    }

    /** GetBusInfo: zero counters for an unknown bus; otherwise the number of stored stops,
        the number of distinct stop names, and the geographic length of the stored stop
        sequence, closed back to the first stop unless the bus is circular. */
    function BusInfoOf(name: string, geo: Geo): BusInfo
      requires Valid()
      requires name in busIndex ==> |buses[busIndex[name]].stops| > 0
    {
      match FindBus(name)
      case None => NoBusInfo
      case Some(b) =>
        var bus := buses[b];
        var cs := Coords(bus.stops);
        var closing := if bus.isCircular then 0.0 else geo(cs[|cs| - 1], cs[0]);
        BusInfo(|bus.stops|, |StopNames(bus.stops)|, PathLength(cs, geo) + closing, 0.0, 0.0)
    }
  }

  /** FindStop finds a stop of the name asked for, and finds nothing exactly when no stop
      of that name was ever added. */
  lemma FindStopSpec(st: CatalogueState, name: string)
    requires st.Valid()
    ensures st.FindStop(name).Some? ==>
      st.FindStop(name).value < |st.stops| && st.stops[st.FindStop(name).value].name == name
    ensures st.FindStop(name).None? <==> forall i :: 0 <= i < |st.stops| ==> st.stops[i].name != name
  {
  }

  /** FindBus finds a stored bus of the name asked for. */
  lemma FindBusSpec(st: CatalogueState, name: string)
    requires st.Valid()
    ensures st.FindBus(name).Some? ==>
      st.FindBus(name).value < |st.buses| && st.buses[st.FindBus(name).value].name == name
  {
  }

  /** Every name listed for a stop is a registered bus; an unknown stop lists nothing; and
      every registered bus that calls at the stop is listed. */
  lemma BusesByStopSpec(st: CatalogueState, name: string)
    requires st.Valid()
    ensures forall b :: b in st.BusesByStop(name) ==> st.FindBus(b).Some?
    ensures st.FindStop(name).None? ==> st.BusesByStop(name) == {}
    ensures st.FindStop(name).Some? ==>
      forall b, k ::
        (b in st.busIndex && 0 <= k < |st.buses[st.busIndex[b]].stops| &&
         st.buses[st.busIndex[b]].stops[k] == st.FindStop(name).value) ==> b in st.BusesByStop(name)
  {
  }

  const EmptyCatalogue := CatalogueState([], map[], [], map[], map[], map[])

  lemma EmptyCatalogueValid()
    ensures EmptyCatalogue.Valid()
    ensures forall n :: EmptyCatalogue.FindStop(n).None? && EmptyCatalogue.FindBus(n).None?
  {
  }

  /** After AddStop the name finds the new stop at the end of the store, every earlier stop
      stays where it was, other names find what they found before, and the name's bus set
      starts empty (the set is kept per stored stop, not per name). */
  lemma AddStopSpec(st: CatalogueState, name: string, c: Coordinates)
    requires st.Valid()
    ensures st.AddStop(name, c).Valid()
    ensures st.AddStop(name, c).FindStop(name) == Some(|st.stops|)
    ensures st.AddStop(name, c).stops == st.stops + [Stop(name, c)]
    ensures forall n :: n != name ==> st.AddStop(name, c).FindStop(n) == st.FindStop(n)
    ensures forall n :: st.AddStop(name, c).FindBus(n) == st.FindBus(n)
    ensures st.AddStop(name, c).BusesByStop(name) == {}
    ensures forall n :: n != name ==> st.AddStop(name, c).BusesByStop(n) == st.BusesByStop(n)
  {
    var r := st.AddStop(name, c);
    assert forall b :: 0 <= b < |r.buses| ==> StopsIn(r.buses[b].stops, |r.stops|) by {
      forall b | 0 <= b < |r.buses| ensures StopsIn(r.buses[b].stops, |r.stops|) {
        assert StopsIn(st.buses[b].stops, |st.stops|);
      }
    }
    assert r.Valid();
    assert |st.stops| !in st.stopToBuses;
  }

  /** AddBus with a name that was never added as a stop fails on that name: the bus is
      appended to the store with the stops resolved so far, but it is not registered, so
      no lookup sees it. */
  lemma AddBusUnknownStop(st: CatalogueState, name: string, names: seq<string>, circ: bool)
    requires st.Valid()
    requires exists k :: 0 <= k < |names| && names[k] !in st.stopIndex
    ensures st.AddBus(name, names, circ).state.Valid()
    ensures st.AddBus(name, names, circ).unknownStop.Some?
    ensures st.AddBus(name, names, circ).unknownStop.value in names
    ensures st.AddBus(name, names, circ).unknownStop.value !in st.stopIndex
    ensures |st.AddBus(name, names, circ).state.buses| == |st.buses| + 1
    ensures st.AddBus(name, names, circ).state.buses[..|st.buses|] == st.buses
    ensures forall n :: st.AddBus(name, names, circ).state.FindBus(n) == st.FindBus(n)
    ensures forall n :: st.AddBus(name, names, circ).state.BusesByStop(n) == st.BusesByStop(n)
  {
    var resolved := Resolve(st.stopIndex, names);
    var r := st.AddBus(name, names, circ).state;
    assert StopsIn(resolved, |st.stops|);
    assert forall b :: 0 <= b < |r.buses| ==> StopsIn(r.buses[b].stops, |r.stops|) by {
      forall b | 0 <= b < |r.buses| ensures StopsIn(r.buses[b].stops, |r.stops|) {
        if b < |st.buses| { assert r.buses[b] == st.buses[b]; }
      }
    }
    assert r.Valid();
  }

  /** The state after a successful AddBus, given the resolved stop positions. */
  function Registered(st: CatalogueState, name: string, resolved: seq<nat>, circ: bool): CatalogueState {
    st.(buses := st.buses + [Bus(name, resolved, circ)],
        busIndex := st.busIndex[name := |st.buses|],
        stopToBuses := Register(st.stopToBuses, resolved, name))
  }

  lemma RegisteredValid(st: CatalogueState, name: string, resolved: seq<nat>, circ: bool)
    requires st.Valid() && StopsIn(resolved, |st.stops|)
    ensures Registered(st, name, resolved, circ).Valid()
  {
    var r := Registered(st, name, resolved, circ);
    assert forall b :: 0 <= b < |r.buses| ==> StopsIn(r.buses[b].stops, |r.stops|) by {
      forall b | 0 <= b < |r.buses| ensures StopsIn(r.buses[b].stops, |r.stops|) {
        if b < |st.buses| { assert r.buses[b] == st.buses[b]; }
      }
    }
    forall n, k | n in r.busIndex && 0 <= k < |r.buses[r.busIndex[n]].stops|
      ensures r.buses[r.busIndex[n]].stops[k] in r.stopToBuses
      ensures n in r.stopToBuses[r.buses[r.busIndex[n]].stops[k]]
    {
      if n == name {
        assert r.buses[r.busIndex[n]].stops[k] == resolved[k];
      } else {
        assert r.buses[r.busIndex[n]] == st.buses[st.busIndex[n]];
      }
    }
  }

  lemma RegisteredStopOnRoute(st: CatalogueState, name: string, names: seq<string>, circ: bool, s: string)
    requires forall k :: 0 <= k < |names| ==> names[k] in st.stopIndex
    requires s in names
    ensures Registered(st, name, Resolve(st.stopIndex, names), circ).BusesByStop(s) == st.BusesByStop(s) + {name}
  {
    var resolved := Resolve(st.stopIndex, names);
    var k :| 0 <= k < |names| && names[k] == s;
    assert resolved[k] == st.stopIndex[s];
    assert st.stopIndex[s] in resolved;
  }

  lemma RegisteredStopOffRoute(st: CatalogueState, name: string, names: seq<string>, circ: bool, s: string)
    requires forall n :: n in st.stopIndex ==> st.stopIndex[n] < |st.stops| && st.stops[st.stopIndex[n]].name == n
    requires forall k :: 0 <= k < |names| ==> names[k] in st.stopIndex
    requires s !in names
    ensures Registered(st, name, Resolve(st.stopIndex, names), circ).BusesByStop(s) == st.BusesByStop(s)
  {
    var resolved := Resolve(st.stopIndex, names);
    if s in st.stopIndex {
      forall k | 0 <= k < |resolved| ensures resolved[k] != st.stopIndex[s] {
        assert st.stops[st.stopIndex[names[k]]].name == names[k] != s;
      }
      assert st.stopIndex[s] !in resolved;
    }
  }

  /** A successful AddBus registers the bus under its name, with the stops the names
      denote, adds its name to the bus set of every stop on it, and leaves the bus set of
      every other stop as it was. */
  lemma AddBusRegisters(st: CatalogueState, name: string, names: seq<string>, circ: bool)
    requires st.Valid()
    requires forall k :: 0 <= k < |names| ==> names[k] in st.stopIndex
    ensures st.AddBus(name, names, circ).unknownStop.None?
    ensures st.AddBus(name, names, circ).state.Valid()
    ensures st.AddBus(name, names, circ).state.buses[..|st.buses|] == st.buses
    ensures st.AddBus(name, names, circ).state.FindBus(name) == Some(|st.buses|)
    ensures st.AddBus(name, names, circ).state.buses[|st.buses|] ==
      Bus(name, seq(|names|, k requires 0 <= k < |names| => st.stopIndex[names[k]]), circ)
    ensures forall n :: n != name ==> st.AddBus(name, names, circ).state.FindBus(n) == st.FindBus(n)
    ensures forall s :: s in names ==>
      st.AddBus(name, names, circ).state.BusesByStop(s) == st.BusesByStop(s) + {name}
    ensures forall s :: s !in names ==>
      st.AddBus(name, names, circ).state.BusesByStop(s) == st.BusesByStop(s)
  {
    var resolved := Resolve(st.stopIndex, names);
    assert |resolved| == |names|;
    assert st.AddBus(name, names, circ) == AddBusOutcome(Registered(st, name, resolved, circ), None);
    assert resolved == seq(|names|, k requires 0 <= k < |names| => st.stopIndex[names[k]]);
    assert StopsIn(resolved, |st.stops|);
    RegisteredValid(st, name, resolved, circ);
    forall s | s in names
      ensures Registered(st, name, resolved, circ).BusesByStop(s) == st.BusesByStop(s) + {name}
    {
      RegisteredStopOnRoute(st, name, names, circ, s);
    }
    forall s | s !in names
      ensures Registered(st, name, resolved, circ).BusesByStop(s) == st.BusesByStop(s)
    {
      RegisteredStopOffRoute(st, name, names, circ, s);
    }
  }

  /** Distances are kept per ordered pair: setting A to B leaves every other pair,
      B to A included, as it was. */
  lemma SetDistanceSpec(st: CatalogueState, from: nat, to: nat, d: int)
    requires st.Valid() && from < |st.stops| && to < |st.stops|
    ensures st.SetDistance(from, to, d).Valid()
    ensures st.SetDistance(from, to, d).GetDistance(from, to) == Some(d)
    ensures forall a: nat, b: nat :: (a, b) != (from, to) ==>
      st.SetDistance(from, to, d).GetDistance(a, b) == st.GetDistance(a, b)
  {
  }

  lemma NamesStep(st: CatalogueState, ps: seq<nat>, i: nat)
    requires StopsIn(ps, |st.stops|) && i < |ps|
    ensures st.NamesUpTo(ps, i + 1) == st.NamesUpTo(ps, i) + {st.stops[ps[i]].name}
  {
  }

  /** Among the first `i` stops of a bus there are at least one (when i > 0) and at most
      `i` distinct names. */
  lemma {:induction false} NamesUpToBounds(st: CatalogueState, ps: seq<nat>, i: nat)
    requires StopsIn(ps, |st.stops|) && i <= |ps|
    ensures i > 0 ==> 1 <= |st.NamesUpTo(ps, i)|
    ensures |st.NamesUpTo(ps, i)| <= i
  {
    if i > 0 {
      NamesUpToBounds(st, ps, i - 1);
      NamesStep(st, ps, i - 1);
    }
  }

  /** GetBusInfo reports zero stops exactly for a bus that is not registered; for a
      registered bus it counts its stored stops, between one and that many distinct stop
      names, and never sets the geographic length or the curvature. */
  lemma BusInfoSpec(st: CatalogueState, name: string, geo: Geo)
    requires st.Valid()
    requires name in st.busIndex ==> |st.buses[st.busIndex[name]].stops| > 0
    ensures st.BusInfoOf(name, geo).stopsOnRoute == 0 <==> st.FindBus(name).None?
    ensures st.FindBus(name).None? ==> st.BusInfoOf(name, geo) == NoBusInfo
    ensures st.FindBus(name).Some? ==>
      st.BusInfoOf(name, geo).stopsOnRoute == |st.buses[st.FindBus(name).value].stops|
    ensures 0 <= st.BusInfoOf(name, geo).uniqueStops <= st.BusInfoOf(name, geo).stopsOnRoute
    ensures st.FindBus(name).Some? ==> 1 <= st.BusInfoOf(name, geo).uniqueStops
    ensures st.BusInfoOf(name, geo).geoLength == 0.0 && st.BusInfoOf(name, geo).curvature == 0.0
  {
    if name in st.busIndex {
      NamesUpToBounds(st, st.buses[st.busIndex[name]].stops, |st.buses[st.busIndex[name]].stops|);
    }
  }

  lemma BusInfoOfKnown(st: CatalogueState, name: string, geo: Geo, ps: seq<nat>, closing: real)
    requires st.Valid() && name in st.busIndex
    requires ps == st.buses[st.busIndex[name]].stops && |ps| > 0
    requires closing == if st.buses[st.busIndex[name]].isCircular then 0.0
                        else geo(st.stops[ps[|ps| - 1]].coordinates, st.stops[ps[0]].coordinates)
    ensures StopsIn(ps, |st.stops|)
    ensures st.BusInfoOf(name, geo) ==
      BusInfo(|ps|, |st.StopNames(ps)|, PathLength(st.Coords(ps), geo) + closing, 0.0, 0.0)
  {
  }

  lemma BusInfoOfKnownValid(st: CatalogueState, name: string)
    requires st.Valid() && name in st.busIndex
    ensures st.busIndex[name] < |st.buses| && StopsIn(st.buses[st.busIndex[name]].stops, |st.stops|)
  {
  }

  lemma AddBusValid(st: CatalogueState, name: string, names: seq<string>, circ: bool)
    requires st.Valid()
    ensures st.AddBus(name, names, circ).state.Valid()
  {
    if exists k :: 0 <= k < |names| && names[k] !in st.stopIndex {
      AddBusUnknownStop(st, name, names, circ);
    } else {
      AddBusRegisters(st, name, names, circ);
    }
  }

  /** The route length never decreases when every leg has non-negative length. */
  lemma {:induction false} PathLengthNonNegative(cs: seq<Coordinates>, geo: Geo)
    requires forall a, b :: geo(a, b) >= 0.0
    ensures PathLength(cs, geo) >= 0.0
  {
    if |cs| > 1 { PathLengthNonNegative(cs[..|cs| - 1], geo); }
  }

  /** The legs from the k-th point up to the m-th, front to back; the leg from the last
      point returns to the first. */
  function LegSum(cs: seq<Coordinates>, k: nat, m: nat, geo: Geo): real
    requires k <= m <= |cs| && |cs| > 0
    decreases m - k
  {
    if k == m then 0.0 else geo(cs[k], cs[Around(k, |cs|)]) + LegSum(cs, k + 1, m, geo)
  }

  /** The point after the k-th around a loop of n points: (k + 1) mod n. */
  function Around(k: nat, n: nat): (r: nat)
    requires k < n
    ensures r < n && r == (k + 1) % n
  {
    if k + 1 == n then 0 else k + 1
  }

  /** One more leg at the back. */
  lemma {:induction false} LegSumSnoc(cs: seq<Coordinates>, k: nat, m: nat, geo: Geo)
    requires k <= m < |cs|
    ensures LegSum(cs, k, m + 1, geo) == LegSum(cs, k, m, geo) + geo(cs[m], cs[Around(m, |cs|)])
    decreases m - k
  {
    if k < m {
      LegSumSnoc(cs, k + 1, m, geo);
    }
  }

  /** The path over the first j points is the sum of their j - 1 legs. */
  lemma {:induction false} PathLengthPrefix(cs: seq<Coordinates>, j: nat, geo: Geo)
    requires 1 <= j <= |cs|
    ensures PathLength(cs[..j], geo) == LegSum(cs, 0, j - 1, geo)
  {
    if j > 1 {
      PathLengthPrefix(cs, j - 1, geo);
      PathLengthStep(cs, j, geo);
      LegSumSnoc(cs, 0, j - 2, geo);
    }
  }

  lemma PathLengthStep(cs: seq<Coordinates>, j: nat, geo: Geo)
    requires 2 <= j <= |cs|
    ensures PathLength(cs[..j], geo) == PathLength(cs[..j - 1], geo) + geo(cs[j - 2], cs[j - 1])
  {
    assert cs[..j][..j - 1] == cs[..j - 1];
  }

  /** The route length GetBusInfo reports is the sum of the legs between consecutive
      stops, taken front to back, and for a non-circular bus also the leg from the last
      stop back to the first: every stop's leg to the next one around the loop. */
  lemma RouteLengthIsLegs(st: CatalogueState, name: string, geo: Geo)
    requires st.Valid() && name in st.busIndex && |st.buses[st.busIndex[name]].stops| > 0
    ensures var bus := st.buses[st.busIndex[name]];
      StopsIn(bus.stops, |st.stops|) &&
      var cs := st.Coords(bus.stops);
      st.BusInfoOf(name, geo).routeLength ==
        if bus.isCircular then LegSum(cs, 0, |cs| - 1, geo) else LegSum(cs, 0, |cs|, geo)
  {
    var bus := st.buses[st.busIndex[name]];
    BusInfoOfKnownValid(st, name);
    var cs := st.Coords(bus.stops);
    PathLengthPrefix(cs, |cs|, geo);
    assert cs[..|cs|] == cs;
    LegSumSnoc(cs, 0, |cs| - 1, geo);
  }

  /** The catalogue. The fields are those of the C++ class; every method keeps Valid(). */
  class TransportCatalogue {
    var stops: seq<Stop>
    var stopIndex: map<string, nat>
    var buses: seq<Bus>
    var busIndex: map<string, nat>
    var stopToBuses: map<nat, set<string>>
    var distances: map<(nat, nat), int>

    function State(): CatalogueState
      reads this
    {
      CatalogueState(stops, stopIndex, buses, busIndex, stopToBuses, distances)
    }

    ghost predicate Valid()
      reads this
    {
      State().Valid()
    }

    constructor ()
      ensures State() == EmptyCatalogue && Valid()
    {
      stops, stopIndex, buses, busIndex, stopToBuses, distances := [], map[], [], map[], map[], map[];
      EmptyCatalogueValid();
    }

    method AddStop(name: string, coordinates: Coordinates)
      requires Valid()
      modifies this
      ensures Valid()
      ensures State() == old(State()).AddStop(name, coordinates)
    {
      AddStopSpec(State(), name, coordinates);
      stops := stops + [Stop(name, coordinates)];
      stopIndex := stopIndex[name := |stops| - 1];
      assert State() == old(State()).AddStop(name, coordinates);
    }

    /** Appends the bus, resolves its stop names one by one, and only when all are known
        registers it and adds it to the bus set of each stop. Returns the first unknown
        stop name, where the C++ code throws std::out_of_range. */
    method AddBus(name: string, names: seq<string>, isCircular: bool) returns (unknownStop: Option<string>)
      requires Valid()
      modifies this
      ensures Valid()
      ensures State() == old(State()).AddBus(name, names, isCircular).state
      ensures unknownStop == old(State()).AddBus(name, names, isCircular).unknownStop
    {
      ghost var st := State();
      AddBusValid(st, name, names, isCircular);
      var last := |buses|;
      buses := buses + [Bus(name, [], isCircular)];
      unknownStop := ResolveStops(last, names);
      if unknownStop.Some? {
        assert State() == st.AddBus(name, names, isCircular).state;
        return;
      }
      busIndex := busIndex[name := last];
      RegisterAtStops(buses[last].stops, name);
      assert State() == st.AddBus(name, names, isCircular).state;
    }

    /** The first loop of AddBus: pushes the position of each named stop onto the stop list
        of the last stored bus, stopping at the first name that is not known. */
    method ResolveStops(last: nat, names: seq<string>) returns (unknownStop: Option<string>)
      requires last < |buses| && buses[last].stops == []
      modifies this
      ensures buses == old(buses)[last := old(buses)[last].(stops := Resolve(stopIndex, names))]
      ensures unknownStop.None? <==> |Resolve(stopIndex, names)| == |names|
      ensures unknownStop.Some? ==> unknownStop == Some(names[|Resolve(stopIndex, names)|])
      ensures stops == old(stops) && stopIndex == old(stopIndex) && busIndex == old(busIndex)
      ensures stopToBuses == old(stopToBuses) && distances == old(distances)
    {
      ghost var resolved := Resolve(stopIndex, names);
      var i := 0;
      while i < |names|
        invariant 0 <= i <= |names|
        invariant |buses| == |old(buses)| && buses[..last] == old(buses)[..last] && buses[last + 1..] == old(buses)[last + 1..]
        invariant buses[last] == old(buses)[last].(stops := buses[last].stops)
        invariant |buses[last].stops| == i
        invariant forall k :: 0 <= k < i ==> names[k] in stopIndex && buses[last].stops[k] == stopIndex[names[k]]
        invariant stops == old(stops) && stopIndex == old(stopIndex) && busIndex == old(busIndex)
        invariant stopToBuses == old(stopToBuses) && distances == old(distances)
      {
        if names[i] !in stopIndex {
          assert |resolved| == i;
          assert buses[last].stops == resolved;
          assert buses == old(buses)[last := old(buses)[last].(stops := resolved)];
          return Some(names[i]);
        }
        buses := buses[last := buses[last].(stops := buses[last].stops + [stopIndex[names[i]]])];
        i := i + 1;
      }
      assert |resolved| == |names|;
      assert buses[last].stops == resolved;
      assert buses == old(buses)[last := old(buses)[last].(stops := resolved)];
      unknownStop := None;
    }

    /** The second loop of AddBus: adds the bus name to the set of every stop in `ps`. */
    method RegisterAtStops(ps: seq<nat>, name: string)
      modifies this
      ensures stopToBuses == Register(old(stopToBuses), ps, name)
      ensures stops == old(stops) && stopIndex == old(stopIndex) && busIndex == old(busIndex)
      ensures buses == old(buses) && distances == old(distances)
    {
      var i := 0;
      while i < |ps|
        invariant 0 <= i <= |ps|
        invariant stops == old(stops) && stopIndex == old(stopIndex) && busIndex == old(busIndex)
        invariant buses == old(buses) && distances == old(distances)
        invariant stopToBuses == Register(old(stopToBuses), ps[..i], name)
      {
        var p := ps[i];
        assert ps[..i + 1][..i] == ps[..i];
        stopToBuses := stopToBuses[p := (if p in stopToBuses then stopToBuses[p] else {}) + {name}];
        i := i + 1;
      }
      assert ps[..i] == ps;
    }

    method SetDistance(from: nat, to: nat, distance: int)
      requires Valid() && from < |stops| && to < |stops|
      modifies this
      ensures Valid()
      ensures State() == old(State()).SetDistance(from, to, distance)
    {
      SetDistanceSpec(State(), from, to, distance);
      distances := distances[(from, to) := distance];
      assert State() == old(State()).SetDistance(from, to, distance);
    }

    function FindStop(name: string): Option<nat>
      requires Valid()
      reads this
    {
      State().FindStop(name)
    }

    function FindBus(name: string): Option<nat>
      requires Valid()
      reads this
    {
      State().FindBus(name)
    }

    function GetBusesByStop(name: string): set<string>
      requires Valid()
      reads this
    {
      State().BusesByStop(name)
    }

    function GetDistance(from: nat, to: nat): Option<int>
      reads this
    {
      State().GetDistance(from, to)
    }

    /** Walks the stored stops of the bus once, summing the legs and collecting the names. */
    method GetBusInfo(name: string, geo: Geo) returns (info: BusInfo)
      requires Valid()
      requires name in busIndex ==> |buses[busIndex[name]].stops| > 0
      ensures info == State().BusInfoOf(name, geo)
    {
      info := NoBusInfo;
      if name !in busIndex {
        return;
      }
      ghost var st := State();
      var bus := buses[busIndex[name]];
      assert bus == st.buses[st.busIndex[name]];
      var n := |bus.stops|;
      BusInfoOfKnownValid(st, name);
      var routeLength, uniqueStops := WalkStops(bus.stops, geo);
      var closing := ClosingLeg(bus, geo);
      BusInfoOfKnown(st, name, geo, bus.stops, closing);
      info := BusInfo(n, |uniqueStops|, routeLength + closing, 0.0, 0.0);
    }

    /** The leg from the last stop back to the first that GetBusInfo adds for a route
        that is not circular. */
    method ClosingLeg(bus: Bus, geo: Geo) returns (closing: real)
      requires StopsIn(bus.stops, |stops|) && |bus.stops| > 0
      ensures closing == if bus.isCircular then 0.0
                         else geo(State().stops[bus.stops[|bus.stops| - 1]].coordinates,
                                  State().stops[bus.stops[0]].coordinates)
    {
      closing := 0.0;
      if !bus.isCircular {
        closing := geo(stops[bus.stops[|bus.stops| - 1]].coordinates, stops[bus.stops[0]].coordinates);
      }
    }

    /** The loop of GetBusInfo over the consecutive pairs of stops, and the name of the
        last stop added afterwards. */
    method WalkStops(ps: seq<nat>, geo: Geo) returns (pathLength: real, names: set<string>)
      requires StopsIn(ps, |stops|) && |ps| > 0
      ensures pathLength == PathLength(State().Coords(ps), geo)
      ensures names == State().StopNames(ps)
    {
      ghost var st := State();
      ghost var cs := st.Coords(ps);
      names := {};
      var n := |ps|;
      pathLength := 0.0;
      var i := 0;
      while i < n - 1
        invariant 0 <= i <= n - 1
        invariant pathLength == PathLength(cs[..i + 1], geo)
        invariant names == st.NamesUpTo(ps, i)
      {
        NamesStep(st, ps, i);
        assert cs[..i + 2][..i + 1] == cs[..i + 1];
        pathLength := pathLength + geo(stops[ps[i]].coordinates, stops[ps[i + 1]].coordinates);
        names := names + {stops[ps[i]].name};
        i := i + 1;
      }
      assert cs[..n] == cs;
      NamesStep(st, ps, n - 1);
      names := names + {stops[ps[n - 1]].name};
    }
  }
}
