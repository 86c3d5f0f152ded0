/** The request handler: the two questions the output side asks of the catalogue, each
    answered with an optional value that is absent for a name the catalogue does not know. */
module RequestHandler {
  import opened Wrappers
  import opened Domain
  import opened Catalogue

  /** GetBusStat: the statistics of a registered bus; nothing for an unknown name. */
  function GetBusStat(st: CatalogueState, name: string, geo: Geo): Option<BusInfo>
    requires st.Valid()
    requires name in st.busIndex ==> |st.buses[st.busIndex[name]].stops| > 0
  {
    if st.FindBus(name).Some? then Some(st.BusInfoOf(name, geo)) else None
  }

  /** GetStopInfo: the names of the buses at a known stop (possibly none); nothing for an
      unknown name. */
  function GetStopInfo(st: CatalogueState, name: string): Option<set<string>>
  {
    var buses := st.BusesByStop(name);
    if st.FindStop(name).Some? then Some(buses) else None
  }

  /** The bus statistics are absent exactly when no bus of that name is registered, which
      is also exactly when the catalogue's own statistics report zero stops; when present
      they are the catalogue's statistics of that bus. */
  lemma BusStatSpec(st: CatalogueState, name: string, geo: Geo)
    requires st.Valid()
    requires name in st.busIndex ==> |st.buses[st.busIndex[name]].stops| > 0
    ensures GetBusStat(st, name, geo).None? <==> st.FindBus(name).None?
    ensures GetBusStat(st, name, geo).None? <==> st.BusInfoOf(name, geo).stopsOnRoute == 0
    ensures GetBusStat(st, name, geo).Some? ==>
      GetBusStat(st, name, geo).value == st.BusInfoOf(name, geo) &&
      1 <= GetBusStat(st, name, geo).value.uniqueStops <= GetBusStat(st, name, geo).value.stopsOnRoute
  {
    BusInfoSpec(st, name, geo);
  }

  /** The stop information is absent exactly when no stop of that name was ever added;
      when present it lists only registered buses, and every registered bus that calls at
      the stop. */
  lemma StopInfoSpec(st: CatalogueState, name: string)
    requires st.Valid()
    ensures GetStopInfo(st, name).None? <==> forall i :: 0 <= i < |st.stops| ==> st.stops[i].name != name
    ensures GetStopInfo(st, name).Some? ==>
      GetStopInfo(st, name).value == st.BusesByStop(name) &&
      forall b :: b in GetStopInfo(st, name).value ==> st.FindBus(b).Some?
    ensures GetStopInfo(st, name).Some? ==>
      forall b, k ::
        (b in st.busIndex && 0 <= k < |st.buses[st.busIndex[b]].stops| &&
         st.buses[st.busIndex[b]].stops[k] == st.FindStop(name).value) ==> b in GetStopInfo(st, name).value
  {
    FindStopSpec(st, name);
    BusesByStopSpec(st, name);
  }

  /** A stop that was just added is known and served by no bus: its information is
      present and empty, which is not the same answer as for an unknown name. */
  lemma NewStopHasNoBuses(st: CatalogueState, name: string, c: Coordinates)
    requires st.Valid()
    ensures GetStopInfo(st.AddStop(name, c), name) == Some({})
  {
    AddStopSpec(st, name, c);
  }

  /** After a successful AddBus, every stop on its route reports the bus, on top of what
      it reported before. */
  lemma StopInfoAfterAddBus(st: CatalogueState, bus: string, names: seq<string>, circ: bool, s: string)
    requires st.Valid()
    requires forall k :: 0 <= k < |names| ==> names[k] in st.stopIndex
    requires s in names
    ensures GetStopInfo(st.AddBus(bus, names, circ).state, s) == Some(st.BusesByStop(s) + {bus})
  {
    AddBusRegisters(st, bus, names, circ);
    var k :| 0 <= k < |names| && names[k] == s;
    assert s in st.stopIndex;
  }
}
