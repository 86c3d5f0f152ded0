/** The line-oriented statistics reader: a request line names a bus or a stop, and the
    reply is one line of text about it, or nothing for a request it does not understand. */
module StatReader {
  import opened Text
  import opened Domain
  import opened Catalogue

  datatype RequestType = BusRequest | StopRequest | Invalid

  datatype ParsedRequest = ParsedRequest(kind: RequestType, name: string)

  // ---------------------------------------------------------------------------
  // detail::ParseRequest

  /** The type is the text before the first space and the name everything after it. */
  function ParseRequest(request: string): ParsedRequest {
    if |request| == 0 then ParsedRequest(Invalid, [])
    else
      var space := Find(request, ' ', 0);
      if space == |request| then ParsedRequest(Invalid, [])
      else
        var typeText := request[..space];
        var name := request[space + 1..];
        if typeText == "Bus" then ParsedRequest(BusRequest, name)
        else if typeText == "Stop" then ParsedRequest(StopRequest, name)
        else ParsedRequest(Invalid, [])
  }

  /** The request line a bus or stop question is written as. */
  function RequestLine(kind: RequestType, name: string): string
    requires kind != Invalid
  {
    (if kind == BusRequest then "Bus " else "Stop ") + name
  }

  predicate StartsWith(s: string, prefix: string) {
    |prefix| <= |s| && s[..|prefix|] == prefix
  }

  /** A request is a bus question exactly when the line starts with "Bus ", a stop question
      exactly when it starts with "Stop ", and invalid otherwise (in particular when it is
      empty or holds no space); the name is all the rest of the line, spaces included. */
  lemma ParseRequestSpec(request: string)
    ensures |request| == 0 || ' ' !in request ==> ParseRequest(request).kind == Invalid
    ensures ParseRequest(request) ==
      if StartsWith(request, "Bus ") then ParsedRequest(BusRequest, request[4..])
      else if StartsWith(request, "Stop ") then ParsedRequest(StopRequest, request[5..])
      else ParsedRequest(Invalid, [])
  {
    var space := Find(request, ' ', 0);
    FindSkips(request, ' ', 0);
    if StartsWith(request, "Bus ") {
      assert request[..4][3] == ' ' && forall k :: 0 <= k < 3 ==> request[..4][k] != ' ';
      FindIs(request, ' ', 0, 3);
    } else if StartsWith(request, "Stop ") {
      assert request[..5][4] == ' ' && forall k :: 0 <= k < 4 ==> request[..5][k] != ' ';
      FindIs(request, ' ', 0, 4);
    } else if space < |request| {
      assert request[..space + 1] == request[..space] + [' '];
    }
  }

  /** Parsing the line of a bus or stop question gives back that question. */
  lemma ParseRequestLine(kind: RequestType, name: string)
    requires kind != Invalid
    ensures ParseRequest(RequestLine(kind, name)) == ParsedRequest(kind, name)
  {
    var line := RequestLine(kind, name);
    ParseRequestSpec(line);
    if kind == BusRequest {
      assert line[..4] == "Bus " && line[4..] == name;
    } else {
      assert line[..5] == "Stop " && line[5..] == name;
      assert line[..4] != "Bus " by { assert line[1] != "Bus "[1]; }
    }
  }

  // ---------------------------------------------------------------------------
  // detail::PrintStat

  /** GetBusInfo is asked only of a bus whose stored route is not empty. */
  predicate Answerable(st: CatalogueState, request: ParsedRequest) {
    request.kind == BusRequest && request.name in st.busIndex ==>
      st.busIndex[request.name] < |st.buses| && |st.buses[st.busIndex[request.name]].stops| > 0
  }

  /** Each bus name written after a space, in the given order. */
  function Listing(names: seq<string>): string {
    if |names| == 0 then [] else Listing(names[..|names| - 1]) + " " + names[|names| - 1]
  }

  /** The reply to a bus question: not found for a route of no stops, otherwise the stop
      counts and the route length, written by `formatReal` (setprecision(6)). */
  function BusReply(name: string, info: BusInfo, formatReal: real -> string): string {
    if info.stopsOnRoute > 0 then
      "Bus " + name + ": " + IntToString(info.stopsOnRoute) + " stops on route, " +
      IntToString(info.uniqueStops) + " unique stops, " + formatReal(info.routeLength) + " route length\n"
    else
      "Bus " + name + ": not found\n"
  }

  /** The reply to a stop question: not found, no buses, or the buses in set order. */
  ghost function StopReply(st: CatalogueState, name: string): string {
    if st.FindStop(name).None? then "Stop " + name + ": not found\n"
    else if st.BusesByStop(name) == {} then "Stop " + name + ": no buses\n"
    else "Stop " + name + ": buses" + Listing(SortedList(st.BusesByStop(name))) + "\n"
  }

  /** What PrintStat writes for a parsed request. */
  ghost function StatOutput(st: CatalogueState, request: ParsedRequest, geo: Geo, formatReal: real -> string): string
    requires st.Valid() && Answerable(st, request)
  {
    match request.kind
    case BusRequest => BusReply(request.name, st.BusInfoOf(request.name, geo), formatReal)
    case StopRequest => StopReply(st, request.name)
    case Invalid => []
  }

  /** A bus question is answered "not found" exactly when no bus of that name is
      registered; otherwise the reply gives the number of stored stops and of distinct stop
      names on the route. */
  lemma BusReplySpec(st: CatalogueState, name: string, geo: Geo, formatReal: real -> string)
    requires st.Valid() && Answerable(st, ParsedRequest(BusRequest, name))
    ensures StatOutput(st, ParsedRequest(BusRequest, name), geo, formatReal) == "Bus " + name + ": not found\n"
        <==> st.FindBus(name).None?
    ensures st.FindBus(name).Some? ==>
      var ps := st.buses[st.FindBus(name).value].stops;
      StopsIn(ps, |st.stops|) &&
      StatOutput(st, ParsedRequest(BusRequest, name), geo, formatReal) ==
        "Bus " + name + ": " + NatToString(|ps|) + " stops on route, " +
        NatToString(|st.StopNames(ps)|) + " unique stops, " +
        formatReal(st.BusInfoOf(name, geo).routeLength) + " route length\n"
  {
    BusInfoSpec(st, name, geo);
    if name in st.busIndex {
      BusInfoOfKnownValid(st, name);
      var info := st.BusInfoOf(name, geo);
      FoundIsNotNotFound(name, info, formatReal);
    }
  }

  /** A reply with counts is not the not-found reply. */
  lemma FoundIsNotNotFound(name: string, info: BusInfo, formatReal: real -> string)
    requires info.stopsOnRoute > 0
    ensures BusReply(name, info, formatReal) != "Bus " + name + ": not found\n"
  {
    var k := |"Bus " + name + ": "|;
    assert BusReply(name, info, formatReal)[k] == IntToString(info.stopsOnRoute)[0];
    assert ("Bus " + name + ": not found\n")[k] == 'n';
  }

  /** A stop question is answered "not found" exactly when no stop of that name was ever
      added, "no buses" exactly when the stop is known and no bus calls at it, and
      otherwise with the names of the buses at the stop, each once, in increasing order. */
  lemma StopReplySpec(st: CatalogueState, name: string, geo: Geo, formatReal: real -> string)
    requires st.Valid()
    ensures StatOutput(st, ParsedRequest(StopRequest, name), geo, formatReal) == "Stop " + name + ": not found\n"
        <==> forall i :: 0 <= i < |st.stops| ==> st.stops[i].name != name
    ensures StatOutput(st, ParsedRequest(StopRequest, name), geo, formatReal) == "Stop " + name + ": no buses\n"
        <==> st.FindStop(name).Some? && st.BusesByStop(name) == {}
    ensures st.FindStop(name).Some? && st.BusesByStop(name) != {} ==>
      exists names: seq<string> ::
        StatOutput(st, ParsedRequest(StopRequest, name), geo, formatReal) == "Stop " + name + ": buses" + Listing(names) + "\n" &&
        StrictlySorted(names) && (forall b :: b in names <==> b in st.BusesByStop(name))
  {
    FindStopSpec(st, name);
    var k := |"Stop " + name| + 2;
    assert ("Stop " + name + ": not found\n")[k] == 'n' && ("Stop " + name + ": not found\n")[k + 2] == 't';
    assert ("Stop " + name + ": no buses\n")[k] == 'n' && ("Stop " + name + ": no buses\n")[k + 2] == ' ';
    if st.FindStop(name).Some? && st.BusesByStop(name) != {} {
      var names := SortedList(st.BusesByStop(name));
      assert ("Stop " + name + ": buses" + Listing(names) + "\n")[k] == 'b';
    }
  }

  /** PrintStat writes nothing exactly for an invalid request. */
  lemma SilentIffInvalid(st: CatalogueState, request: ParsedRequest, geo: Geo, formatReal: real -> string)
    requires st.Valid() && Answerable(st, request)
    ensures StatOutput(st, request, geo, formatReal) == [] <==> request.kind == Invalid
  {
    if request.kind == BusRequest {
      assert BusReply(request.name, st.BusInfoOf(request.name, geo), formatReal)[0] == 'B';
    } else if request.kind == StopRequest {
      assert StopReply(st, request.name)[0] == 'S';
    }
  }

  /** A line is answered with nothing exactly when it starts with neither "Bus " nor
      "Stop ". */
  lemma ParseAndPrintSilent(st: CatalogueState, request: string, geo: Geo, formatReal: real -> string)
    requires st.Valid() && Answerable(st, ParseRequest(request))
    ensures StatOutput(st, ParseRequest(request), geo, formatReal) == [] <==>
      !StartsWith(request, "Bus ") && !StartsWith(request, "Stop ")
  {
    ParseRequestSpec(request);
    SilentIffInvalid(st, ParseRequest(request), geo, formatReal);
  }

  /** detail::PrintStat: the reply to a parsed request, as a string. */
  method PrintStat(catalogue: TransportCatalogue, request: ParsedRequest, geo: Geo, formatReal: real -> string)
    returns (output: string)
    requires catalogue.Valid() && Answerable(catalogue.State(), request)
    ensures output == StatOutput(catalogue.State(), request, geo, formatReal)
  {
    output := [];
    if request.kind == BusRequest {
      var info := catalogue.GetBusInfo(request.name, geo);
      if info.stopsOnRoute > 0 {
        output := "Bus " + request.name + ": " + IntToString(info.stopsOnRoute) + " stops on route, " +
          IntToString(info.uniqueStops) + " unique stops, " + formatReal(info.routeLength) + " route length\n";
      } else {
        output := "Bus " + request.name + ": not found\n";
      }
    } else if request.kind == StopRequest {
      if catalogue.FindStop(request.name).Some? {
        var buses := catalogue.GetBusesByStop(request.name);
        if buses == {} {
          output := "Stop " + request.name + ": no buses\n";
        } else {
          var listing := ListBuses(buses);
          output := "Stop " + request.name + ": buses" + listing + "\n";
        }
      } else {
        output := "Stop " + request.name + ": not found\n";
      }
    }
  }

  /** The loop over a std::set<std::string>: visits the names from the least up. */
  method ListBuses(buses: set<string>) returns (listing: string)
    ensures listing == Listing(SortedList(buses))
  {
    listing := [];
    var rest := buses;
    ghost var done: seq<string> := [];
    while rest != {}
      invariant done + SortedList(rest) == SortedList(buses)
      invariant listing == Listing(done)
      decreases |rest|
    {
      LeastExists(rest);
      var m :| m in rest && IsLeast(m, rest);
      SortedListFirst(rest, m);
      MoveFirst(done, m, SortedList(rest - {m}), SortedList(buses));
      assert (done + [m])[..|done|] == done;
      listing := listing + " " + m;
      done := done + [m];
      rest := rest - {m};
    }
    assert SortedList(rest) == [];
    assert done == SortedList(buses);
  }

  /** Moving the first of what is left over to what is done keeps the whole. */
  lemma MoveFirst(done: seq<string>, m: string, left: seq<string>, whole: seq<string>)
    requires done + ([m] + left) == whole
    ensures (done + [m]) + left == whole
  {
    assert (done + [m]) + left == done + ([m] + left);
  }

  /** Stat::ParseAndPrintStat: parse the line, then answer it. */
  method ParseAndPrintStat(catalogue: TransportCatalogue, request: string, geo: Geo, formatReal: real -> string)
    returns (output: string)
    requires catalogue.Valid() && Answerable(catalogue.State(), ParseRequest(request))
    ensures output == StatOutput(catalogue.State(), ParseRequest(request), geo, formatReal)
  {
    output := PrintStat(catalogue, ParseRequest(request), geo, formatReal);
  }
}
