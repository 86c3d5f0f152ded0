# Transport catalogue, modelled in Dafny

This project models the core of a C++ transport catalogue. The catalogue stores bus
stops and bus routes and answers questions about them. It has these parts:

- **The catalogue** (`catalogue.dfy`). It registers stops and buses and keeps an index from
  each stop to the buses that call there. It stores road distances between stops and
  computes a bus's statistics: stops on the route, unique stops, and route length.
- **The request handler** (`request_handler.dfy`). It wraps the catalogue lookups into
  optional answers.
- **The line-oriented input reader** (`input_reader.dfy`). It parses lines such as
  `Stop A: 55.6, 37.2, 3900m to B` and `Bus 750: A - B - C`. It queues them as commands and
  applies them in three passes: stops, then distances, then buses.
- **The line-oriented stat reader** (`stat_reader.dfy`). It parses `Bus X` / `Stop Y` requests
  and produces the text replies.
- **The router** (`router.dfy`). It builds the routing graph: two vertices per stop, a wait
  edge between them, and one ride edge for every pair of stops a bus can travel between.
  It turns a shortest path into a list of wait and ride items. The router names stops by
  their names, while the C++ passes `Stop*` pointers to `GetDistance`. After a stop name is
  added twice, a bus registered before the second add still points at the older stop, and a
  name-keyed distance cannot tell the two apart. When every stop is added before every bus,
  as the input reader's passes do, nothing is lost.
- **The JSON library**:
  - the node type and its typed accessors, and the pretty printer (`json.dfy`);
  - the stream parser (`json_load.dfy`);
  - the round trip from the printer to the parser (`json_roundtrip.dfy`): printed text
    loads back as the same node;
  - the fluent builder with its item contexts (`json_builder.dfy`).

Shared helpers: `wrappers.dfy` (Option, Result), `domain.dfy` (stop, bus and bus
statistics values) and `text.dfy`. `text.dfy` holds character classes, `find`-style
scans, the string order of `std::set<std::string>`, decimal printing as
`operator<<` does it, and decimal parsing as `std::stoi` does it.

How the C++ shapes are modelled:

- **Classes that change state in place are Dafny classes:**
  - `TransportCatalogue`, `TransportRouter`, `InputReader` and the JSON `Builder`;
  - their methods are proved against pure state-transition functions;
  - the lemmas are stated about those functions.
- **Pointers:**
  - A pointer into the catalogue's never-shrinking deques becomes an index.
  - The builder's stack of `Node*` becomes a stack of paths from the root. Each open
    container lies on the path to the innermost one, and only the innermost one grows.
    So no pointer the C++ holds is invalidated, and the paths see the same nodes.
- **Output streams become returned strings.** Formatting a `double` (`setprecision`,
  `operator<<`) is a function parameter, and so is `std::stod`.
- **External code becomes parameters:**
  - the great-circle distance, `ComputeDistance`;
  - coordinate parsing, `ParseCoordinates`;
  - the shortest-path engine, `graph::Router`.
- **Characters:** one Dafny `char` stands for one byte of a `std::string`, so only
  characters below 256 occur. `Text.Less` compares them as `std::char_traits<char>`
  compares bytes, as unsigned values.
- **Numbers:** C++ `int` is `Int32` (a subset of `int` bounded to 32 bits). `double` is
  `real`.

Where the written code and the comments or names disagree, the model follows the code:

- `GetBusInfo` sums `ComputeDistance` over consecutive stops into `route_length`. It does
  not use road distances.
- For a non-circular bus it also adds the distance from the last stop back to the first.

## Model

| member | source | states |
|---|---|---|
| Catalogue.EmptyCatalogueValid | transport-catalogue/transport_catalogue.h:46-53 | A new catalogue is consistent and knows no stop and no bus |
| Catalogue.AddStopSpec | transport-catalogue/transport_catalogue.cpp:9-12 | AddStop appends the stop, makes the name find it (a re-used name now finds the newest), leaves every other name, every bus and every other stop's bus set unchanged, and the new stop has no buses |
| Catalogue.FindStopSpec | transport-catalogue/transport_catalogue.cpp:14-19 | FindStop answers the stop carrying that name, and answers nothing exactly when no stored stop has the name |
| Catalogue.FindBusSpec | transport-catalogue/transport_catalogue.cpp:35-40 | FindBus answers a stored bus carrying that name |
| Catalogue.Resolve | transport-catalogue/transport_catalogue.cpp:25-27 | Stop names are looked up in order; the lookup stops at the first unknown name (`at` throws there) |
| Catalogue.Register | transport-catalogue/transport_catalogue.cpp:29-31 | The bus name is added to the set of every stop on the route and to no other |
| Catalogue.AddBusRegisters | transport-catalogue/transport_catalogue.cpp:21-32 | With every stop known, AddBus appends the bus with the resolved stops, makes its name find it, keeps other names, adds the bus to exactly the sets of the stops on its route |
| Catalogue.AddBusUnknownStop | transport-catalogue/transport_catalogue.cpp:21-27 | With an unknown stop, AddBus fails naming that stop after the half-built bus was appended, and no name or stop set changes |
| Catalogue.RegisteredStopOnRoute | transport-catalogue/transport_catalogue.cpp:29-31 | A stop on the route gains exactly the new bus |
| Catalogue.RegisteredStopOffRoute | transport-catalogue/transport_catalogue.cpp:29-31 | A stop off the route keeps its set |
| Catalogue.AddBusValid | transport-catalogue/transport_catalogue.cpp:21-32 | AddBus keeps the catalogue consistent, whether or not it fails |
| Catalogue.BusesByStopSpec | transport-catalogue/transport_catalogue.cpp:63-69 | Every bus listed at a stop exists; an unknown stop lists nothing; a known stop lists every bus whose route calls there |
| Catalogue.SetDistanceSpec | transport-catalogue/transport_catalogue.h:37-41 | SetDistance stores the distance for that ordered pair and for no other pair |
| Catalogue.BusInfoSpec | transport-catalogue/transport_catalogue.cpp:42-61 | Zero stops on route exactly when the bus is unknown, and then every counter is zero; otherwise stops on route is the route length and unique stops lie between 1 and it |
| Catalogue.NamesUpToBounds | transport-catalogue/transport_catalogue.cpp:45-51 | The set of names after i stops has between 1 and i elements |
| Catalogue.PathLengthNonNegative | transport-catalogue/transport_catalogue.cpp:47-56 | The route length is not negative when the distance function is not |
| Catalogue.RouteLengthIsLegs | transport-catalogue/transport_catalogue.cpp:47-56 | The route length is the sum, front to back, of each stop's leg to the next one; a non-circular bus also counts the leg from the last stop back to the first, closing the loop |
| Catalogue.TransportCatalogue.constructor | transport-catalogue/transport_catalogue.h:46-53 | Starts empty and consistent |
| Catalogue.TransportCatalogue.AddStop | transport-catalogue/transport_catalogue.cpp:9-12 | New state is the AddStop transition; consistency kept |
| Catalogue.TransportCatalogue.AddBus | transport-catalogue/transport_catalogue.cpp:21-32 | New state and failure are those of the AddBus transition |
| Catalogue.TransportCatalogue.ResolveStops | transport-catalogue/transport_catalogue.cpp:24-27 | The loop fills the bus's stops with the resolved prefix and reports the first unknown name |
| Catalogue.TransportCatalogue.RegisterAtStops | transport-catalogue/transport_catalogue.cpp:29-31 | The loop registers the bus at each stop of the route |
| Catalogue.TransportCatalogue.SetDistance | transport-catalogue/transport_catalogue.h:38 | New state is the SetDistance transition |
| Catalogue.TransportCatalogue.GetBusInfo | transport-catalogue/transport_catalogue.cpp:42-61 | The loop computes the statistics the BusInfoOf function defines |
| Catalogue.TransportCatalogue.WalkStops | transport-catalogue/transport_catalogue.cpp:47-51 | The loop's sum is the path length over consecutive stops and its set the names of the stops |
| RequestHandler.BusStatSpec | transport-catalogue/request_handler.cpp:7-12 | No answer exactly when the bus is unknown, equivalently when the statistics count zero stops; otherwise the catalogue's statistics |
| RequestHandler.StopInfoSpec | transport-catalogue/request_handler.cpp:14-19 | No answer exactly when no stop has the name; otherwise the buses calling there |
| RequestHandler.NewStopHasNoBuses | transport-catalogue/request_handler.cpp:14-19 | A stop just added answers the empty set |
| RequestHandler.StopInfoAfterAddBus | transport-catalogue/transport_catalogue.cpp:29-31 | After a bus through the stop is added, the stop's answer gains exactly that bus |
| Router.FirstPosFound | transport-catalogue/transport_router.cpp:95-96 | find_if finds a position exactly when the name occurs |
| Router.FirstPosIsFirst | transport-catalogue/transport_router.cpp:95-96 | No earlier position carries the name |
| Router.VertexTables | transport-catalogue/transport_router.cpp:14-22 | Stop k gets vertices 2k and 2k+1; vertex v belongs to stop v/2; exactly the listed stops get a vertex |
| Router.WaitEdgesSpec | transport-catalogue/transport_router.cpp:14-22 | One wait edge per stop, from 2k to 2k+1, weighing the wait time |
| Router.RowsLength | transport-catalogue/transport_router.cpp:26-54 | The rows up to i hold the triangular number of span edges, doubled for a non-circular route |
| Router.BusEdgeCount | transport-catalogue/transport_router.cpp:24-55 | A bus contributes last·(last+1)/2 edges per direction, last being the route's last index |
| Router.BusEdgesMembers | transport-catalogue/transport_router.cpp:30-53 | An edge belongs to a bus's edges exactly when it is the forward or (non-circular) reverse edge of some span i<j |
| Router.RideEdgesMembers | transport-catalogue/transport_router.cpp:24-55 | An edge is a ride edge exactly when some bus contributes it |
| Router.SpanEdgeShape | transport-catalogue/transport_router.cpp:32-51 | A ride edge leaves an odd vertex for an even one, inside the graph, with non-negative time when distances and velocity are non-negative |
| Router.ForwardDistanceNonNegative | transport-catalogue/transport_router.cpp:33-36 | The forward sum of non-negative distances is non-negative |
| Router.ReverseDistanceNonNegative | transport-catalogue/transport_router.cpp:44-47 | The reverse sum of non-negative distances is non-negative |
| Router.GraphEdgeShape | transport-catalogue/transport_router.cpp:10-56 | Every graph edge stays within the vertices; edges from even vertices are the wait edges of their stop, edges from odd vertices are ride edges |
| Router.FirstBusBetweenIsFirst | transport-catalogue/transport_router.cpp:92-102 | No bus before the chosen one has the first occurrence of `from` strictly before that of `to` |
| Router.BusNamedMissing | transport-catalogue/transport_router.cpp:105-106 | An unknown bus name matches no bus |
| Router.CalculateSpans | transport-catalogue/transport_router.cpp:104-112 | The span count is never negative and is zero for an unknown bus |
| Router.CalculateSpansFound | transport-catalogue/transport_router.cpp:104-112 | A positive count comes from a bus with that name whose route has both stops, the count being the distance of their first positions |
| Router.ItineraryItems | transport-catalogue/transport_router.cpp:70-90 | The route items are, in order, the items of the path's edges |
| Router.ItemTimesAddUp | transport-catalogue/transport_router.cpp:72-85 | The item times add up to the path's weight |
| Router.ItemForGraphEdge | transport-catalogue/transport_router.cpp:74-86 | An edge from an even vertex becomes a wait at its stop; every item carries its edge's weight and a non-negative span count |
| Router.ReverseRideLosesBus | transport-catalogue/transport_router.cpp:92-102 | For bus "2" running A, B, C and back, the reverse ride edge from C to A is in the graph yet translates to a ride on bus "" with span 0 |
| Router.SpanBetweenSpec | transport-catalogue/transport_router.cpp:30-51 | The span search finds a span exactly when some span of the route rides from one stop to the other |
| Router.RideBetweenFinds | transport-catalogue/transport_router.cpp:30-51 | When some bus rides between two stops, the corrected search finds a ride |
| Router.SpanEdgeStops | transport-catalogue/transport_router.cpp:38-50 | A span edge goes from the stop at one end of its span to the stop at the other |
| Router.ForwardEdgeStops | transport-catalogue/transport_router.cpp:38-40 | The forward edge leaves stop i and reaches stop j |
| Router.ReverseEdgeStops | transport-catalogue/transport_router.cpp:49-51 | The reverse edge leaves stop j and reaches stop i |
| Router.RideEdgeFound | transport-catalogue/transport_router.cpp:81-84 | For every ride edge in the graph, some bus rides between the edge's stops |
| Router.CorrectedItemOfRide | transport-catalogue/transport_router.cpp:81-85 | The corrected item names the bus that rides between the stops, with that ride's span count |
| Router.CorrectedRideNamesItsBus | transport-catalogue/transport_router.cpp:81-85 | Every ride edge translates to a named bus with a positive span count |
| Router.SumForward | transport-catalogue/transport_router.cpp:33-36 | The loop sums the forward distances |
| Router.SumReverse | transport-catalogue/transport_router.cpp:44-47 | The loop sums the reverse distances |
| Router.PathEdges | transport-catalogue/transport_router.cpp:74-75 | The path's edges are the graph's edges with those ids, in order |
| Router.TransportRouter.constructor | transport-catalogue/transport_router.cpp:3-8 | Stores the wait time, converts km/h to m/min, builds a consistent graph |
| Router.TransportRouter.BuildGraph | transport-catalogue/transport_router.cpp:10-56 | The built graph is the wait edges followed by every bus's ride edges |
| Router.TransportRouter.AddStopVertices | transport-catalogue/transport_router.cpp:14-22 | The loop fills both vertex tables and the wait edges |
| Router.TransportRouter.BusRides | transport-catalogue/transport_router.cpp:24-55 | The nested loops produce the bus's edges as BusEdges defines them |
| Router.TransportRouter.RowRides | transport-catalogue/transport_router.cpp:31-53 | The inner loop produces row i |
| Router.TransportRouter.SpanRides | transport-catalogue/transport_router.cpp:32-52 | One span yields its forward edge and, for a non-circular route, its reverse edge |
| Router.TransportRouter.ForwardRide | transport-catalogue/transport_router.cpp:32-40 | The forward edge of span i..j |
| Router.TransportRouter.ReverseRide | transport-catalogue/transport_router.cpp:43-51 | The reverse edge of span i..j |
| Router.TransportRouter.BuildRoute | transport-catalogue/transport_router.cpp:58-68 | An unknown stop fails (`at` throws); no path gives no route; a path gives its itinerary |
| Router.TransportRouter.ConvertRouteToRouteInfo | transport-catalogue/transport_router.cpp:70-90 | The result carries the path's weight and the items of its edges |
| Router.TransportRouter.EdgeToItem | transport-catalogue/transport_router.cpp:75-86 | One edge becomes its wait or bus item |
| InputReader.Trim | transport-catalogue/input_reader.cpp:35-41 | A non-empty trimmed text starts and ends with a non-space |
| InputReader.TrimPadded | transport-catalogue/input_reader.cpp:35-41 | Trimming spaces around a trimmed text gives that text back |
| InputReader.TrimPads | transport-catalogue/input_reader.cpp:35-41 | Every text is its trim with spaces around it |
| InputReader.TrimIdempotent | transport-catalogue/input_reader.cpp:35-41 | Trimming twice equals trimming once |
| InputReader.TrimEmpty | transport-catalogue/input_reader.cpp:36-39 | The trim is empty exactly when the text is all spaces |
| InputReader.Split | transport-catalogue/input_reader.cpp:46-62 | The loop yields the pieces the Pieces function defines |
| InputReader.PiecesArePieces | transport-catalogue/input_reader.cpp:46-62 | Every piece is non-empty, trimmed and free of the delimiter |
| InputReader.SplitJoin | transport-catalogue/input_reader.cpp:46-62 | Splitting the delimiter-joined pieces gives them back |
| InputReader.ParseRouteShape | transport-catalogue/input_reader.cpp:98-108 | With `>` the route is the `>`-pieces; otherwise the `-`-pieces followed by their reverse without the last, a palindrome of length 2n-1 |
| InputReader.CommandRoundTrip | transport-catalogue/input_reader.cpp:110-129 | A line built from a command, blanks, an id, a colon and a description parses back into those three parts |
| InputReader.CommandParts | transport-catalogue/input_reader.cpp:110-129 | Every parse is either the empty command or the parts of a line of that shape |
| InputReader.NoCommandCases | transport-catalogue/input_reader.cpp:111-124 | No colon, no space before the colon, or only spaces before the colon all give the empty command |
| InputReader.SplitLatLngSpec | transport-catalogue/input_reader.cpp:85-90 | Either the coordinates are followed by a comma and the distances (the coordinates holding exactly one comma), or both parts are the whole description |
| InputReader.ChunkSkipped | transport-catalogue/input_reader.cpp:69-70 | A chunk without `m` is skipped |
| InputReader.ChunkRoundTrip | transport-catalogue/input_reader.cpp:67-78 | A chunk ` Dm to Name` reads back as Name with distance D |
| InputReader.DistancesRoundTrip | transport-catalogue/input_reader.cpp:64-83 | A comma-separated list of such chunks reads back as the map the entries write in order, later entries overwriting earlier ones |
| InputReader.ParseStopDistances | transport-catalogue/input_reader.cpp:64-83 | The loop computes the DistancesFrom function, failing where `stoi` throws |
| InputReader.ReadLineThrows | transport-catalogue/input_reader.cpp:131-141 | Reading a line fails exactly when it is a Stop command whose distances do not parse |
| InputReader.ReadLinesFails | transport-catalogue/input_reader.cpp:131-141 | Reading lines fails exactly when some line throws after the lines before it were read |
| InputReader.ReadLineCommands | transport-catalogue/input_reader.cpp:131-141 | A read line queues exactly its Stop or Bus command |
| InputReader.ReadLinesKeeps | transport-catalogue/input_reader.cpp:131-141 | The queue gains the Stop and Bus commands of the lines, in order |
| InputReader.ReadLinesValid | transport-catalogue/input_reader.cpp:136-137 | Every Stop command queued has its distances recorded |
| InputReader.AddStopsValid | transport-catalogue/input_reader.cpp:144-149 | The first pass adds every Stop command's stop and touches no bus |
| InputReader.WithDistancesSpec | transport-catalogue/input_reader.cpp:151-157 | The second pass stores each listed distance between known stops and leaves every other pair and everything else unchanged |
| InputReader.BusStopsShape | transport-catalogue/input_reader.cpp:159-166 | The stop list passed on starts with the parsed route; a `>` route comes out closed (first stop equals last stop) and a `-` route reads the same backwards |
| InputReader.AddBusesKeeps | transport-catalogue/input_reader.cpp:159-169 | The third pass leaves stops and distances alone and keeps existing buses |
| InputReader.AddBusesFails | transport-catalogue/input_reader.cpp:159-169 | A failing third pass names an unknown stop of some Bus command |
| InputReader.AddBusesKnown | transport-catalogue/input_reader.cpp:159-169 | When every route names known stops, every Bus command's bus is added |
| InputReader.ApplyAllKnown | transport-catalogue/input_reader.cpp:143-170 | When routes name only stops of Stop commands, applying adds every stop and every bus without failure |
| InputReader.RoutesKnownAfterStops | transport-catalogue/input_reader.cpp:143-169 | Stops named by routes are known once the first pass has run |
| InputReader.ApplyDistances | transport-catalogue/input_reader.cpp:143-170 | After applying, each listed distance between known stops is stored |
| InputReader.InputReader.constructor | transport-catalogue/input_reader.cpp:131-137 | Starts with no commands and no distances |
| InputReader.InputReader.ParseLine | transport-catalogue/input_reader.cpp:131-141 | Succeeds exactly when ReadLine does, and then takes its new state; a failed line changes nothing |
| InputReader.InputReader.ApplyCommands | transport-catalogue/input_reader.cpp:143-170 | The catalogue's new state and failure are those of the three passes |
| InputReader.InputReader.AddStopCommands | transport-catalogue/input_reader.cpp:144-149 | First pass |
| InputReader.InputReader.SetStopDistances | transport-catalogue/input_reader.cpp:151-157 | Second pass |
| InputReader.InputReader.SetDistancesFrom | transport-catalogue/input_reader.cpp:153-156 | The inner loop stores the distances from one stop |
| InputReader.InputReader.SetDistanceOf | transport-catalogue/input_reader.cpp:154-155 | Stores one distance when both stops are known |
| InputReader.InputReader.AddBusCommands | transport-catalogue/input_reader.cpp:159-169 | Third pass, ending at the first unknown stop |
| StatReader.ParseRequestSpec | transport-catalogue/stat_reader.cpp:21-41 | An empty request or one without a space is invalid; otherwise `Bus ` and `Stop ` prefixes give that kind and the rest as the name, anything else is invalid with an empty name |
| StatReader.ParseRequestLine | transport-catalogue/stat_reader.cpp:21-41 | A request line written for a kind and a name parses back into them |
| StatReader.BusReplySpec | transport-catalogue/stat_reader.cpp:45-52 | The not-found line is printed exactly for an unknown bus; a known one prints its stop count, its distinct-stop count and its formatted route length |
| StatReader.FoundIsNotNotFound | transport-catalogue/stat_reader.cpp:46-52 | A statistics line is never the not-found line |
| StatReader.StopReplySpec | transport-catalogue/stat_reader.cpp:53-67 | Not found exactly for an unknown stop; no buses exactly for a known stop with none; otherwise its buses in ascending order, each after a space |
| StatReader.SilentIffInvalid | transport-catalogue/stat_reader.cpp:43-69 | Nothing is printed exactly for an invalid request |
| StatReader.ParseAndPrintSilent | transport-catalogue/stat_reader.cpp:72-76 | A request prints nothing exactly when it does not start with `Bus ` or `Stop ` |
| StatReader.PrintStat | transport-catalogue/stat_reader.cpp:43-69 | The printed text is the StatOutput function's |
| StatReader.ListBuses | transport-catalogue/stat_reader.cpp:60-62 | The loop lists the set in ascending order |
| StatReader.ParseAndPrintStat | transport-catalogue/stat_reader.cpp:72-76 | Parses the request, then prints its reply |
| Text.SortedList | transport-catalogue/stat_reader.cpp:60-62 | The listing of a set holds its elements, each once, in strictly ascending byte order |
| Text.IntRoundTrip | transport-catalogue/input_reader.cpp:71 | `stoi` on the decimal text of an int, followed by a non-digit, reads that int and stops after it |
| Json.Node.AsInt | transport-catalogue/json.cpp:221-226 | Succeeds exactly for an int, giving it back |
| Json.Node.AsBool | transport-catalogue/json.cpp:228-233 | Succeeds exactly for a bool, giving it back |
| Json.Node.AsDouble | transport-catalogue/json.cpp:235-243 | Succeeds exactly for an int or a double; an int is converted |
| Json.Node.AsString | transport-catalogue/json.cpp:245-250 | Succeeds exactly for a string, giving it back |
| Json.Node.AsArray | transport-catalogue/json.cpp:252-257 | Succeeds exactly for an array, giving it back |
| Json.Node.AsMap | transport-catalogue/json.cpp:259-264 | Succeeds exactly for a dictionary, giving it back |
| Json.OneAlternative | transport-catalogue/json.cpp:189-219 | Each node is exactly one of null, array, map, bool, int, pure double, string; IsDouble means int or pure double |
| Json.EscapeSnoc | transport-catalogue/json.cpp:297-321 | The escape of a text grows character by character |
| Json.EscapeShape | transport-catalogue/json.cpp:297-321 | An escaped text holds no raw line break |
| Json.PrintString | transport-catalogue/json.cpp:297-321 | The loop writes the quoted escape of the text |
| Json.PrintIndent | transport-catalogue/json.h:81-85 | Writes max(indent, 0) spaces |
| Json.LinesSnoc | transport-catalogue/json.cpp:340-357 | Items are separated by `,` and a line break, none before the first |
| Json.PrintNode | transport-catalogue/json.cpp:290-295 | Writes the node as the Printed function lays it out |
| Json.PrintArray | transport-catalogue/json.cpp:340-357 | Writes `[`, each item indented one level on its own line, then the closing bracket at the outer indent |
| Json.PrintDict | transport-catalogue/json.cpp:359-378 | Writes the entries in ascending key order, each key quoted, `: `, then the value |
| Json.Print | transport-catalogue/json.cpp:286-288 | Prints the root with the default context |
| JsonLoad.StringAt | transport-catalogue/json.cpp:57-102 | A string read ends just after its closing quote |
| JsonLoad.LoadString | transport-catalogue/json.cpp:57-102 | The loop reads the string StringAt defines, with its three error messages |
| JsonLoad.StringRoundTrip | transport-catalogue/json.cpp:57-102 | Reading a printed string gives the text back and stops after its closing quote |
| JsonLoad.StringLiteral | transport-catalogue/json.cpp:57-102 | Without raw tabs, a read succeeds with value v up to e exactly when the input there is the escape of v and a quote |
| JsonLoad.NullSpec | transport-catalogue/json.cpp:124-139 | null is read exactly when the word is `null` and no letter or digit follows |
| JsonLoad.BoolSpec | transport-catalogue/json.cpp:141-161 | A bool is read exactly for the words `true` and `false` not followed by a letter or digit |
| JsonLoad.LiteralSpec | transport-catalogue/json.cpp:127-133 | The word read is the given one and ends properly exactly when the input spells it there |
| JsonLoad.LoadNull | transport-catalogue/json.cpp:124-139 | The loop computes NullAt |
| JsonLoad.LoadBool | transport-catalogue/json.cpp:141-161 | The loop computes BoolAt |
| JsonLoad.NumberAt | transport-catalogue/json.cpp:36-55 | A number read consumes at least one character |
| JsonLoad.LoadNumber | transport-catalogue/json.cpp:36-55 | The loop collects the number characters and converts as NumberAt does |
| JsonLoad.IntRoundTripAt | transport-catalogue/json.cpp:36-55 | A printed int followed by a non-number character reads back as that int |
| JsonLoad.NodeAt | transport-catalogue/json.cpp:163-185 | A node read consumes at least one character |
| JsonLoad.ArrayAt | transport-catalogue/json.cpp:19-34 | An array read yields an array and ends just after a `]` |
| JsonLoad.DictAt | transport-catalogue/json.cpp:104-122 | A dictionary read yields a dictionary and ends just after a `}` |
| JsonLoad.LoadNode | transport-catalogue/json.cpp:163-185 | Dispatches on the first non-blank character as NodeAt does |
| JsonLoad.LoadArray | transport-catalogue/json.cpp:19-34 | The loop reads the array ArrayAt defines |
| JsonLoad.LoadDict | transport-catalogue/json.cpp:104-122 | The loop reads the dictionary DictAt defines, a repeated key keeping its first value |
| JsonLoad.Load | transport-catalogue/json.cpp:282-284 | Succeeds exactly when the node at the start reads, giving that node |
| JsonRoundTrip.PrintThenLoad | transport-catalogue/json.cpp:282-288 | Loading the text Print writes for a node without doubles gives the node back and consumes the whole text |
| JsonRoundTrip.LoadPrinted | transport-catalogue/json.cpp:163-185 | A node printed at any indent and followed by a comma, a line break or the end of the input loads back as itself, ending just after its text |
| JsonRoundTrip.LoadItems | transport-catalogue/json.cpp:19-34 | The lines of a printed array read back as its elements, in order, up to the closing bracket |
| JsonRoundTrip.LoadEntries | transport-catalogue/json.cpp:104-122 | The lines of a printed dictionary, in sorted key order, read back as its entries, up to the closing brace |
| JsonBuilder.AddRootSpec | transport-catalogue/json_builder.cpp:54-60 | With nothing open, an add succeeds exactly while the root is null, and the node becomes the root, opened when a container |
| JsonBuilder.AddToArraySpec | transport-catalogue/json_builder.cpp:63-66 | In an open array the node is appended at the end, and opened when a container |
| JsonBuilder.AddToDictSpec | transport-catalogue/json_builder.cpp:67-74 | In an open dictionary an add needs a pending key; the node is stored unless the key exists, where the old value stays; the key is cleared |
| JsonBuilder.OnlyContainersOpened | transport-catalogue/json_builder.cpp:79-81 | An add pushes at most one path, only to a container, and keeps the stack consistent |
| JsonBuilder.EndSpec | transport-catalogue/json_builder.cpp:18-40 | EndDict and EndArray succeed exactly on a matching innermost container and pop exactly it; Key succeeds exactly in an open dictionary |
| JsonBuilder.BuildSpec | transport-catalogue/json_builder.cpp:85-89 | Build fails exactly when nothing is open and the root is null, or a key is pending, and otherwise yields the root; open containers do not make it fail, while a builder holding only the value null does |
| JsonBuilder.StartEndArray | transport-catalogue/json_builder.cpp:13-32 | Where a new array is stored, StartArray then EndArray leaves the empty array in the tree, makes it the innermost container in between, and restores the stack of open containers |
| JsonBuilder.AddNodeValid | transport-catalogue/json_builder.cpp:52-83 | Every open path still leads to a container after an add |
| JsonBuilder.EndValid | transport-catalogue/json_builder.cpp:18-32 | Closing keeps the stack consistent |
| JsonBuilder.NeverInvalidNodeType | transport-catalogue/json_builder.cpp:75-77 | With a consistent stack the "Invalid node type" error never happens |
| JsonBuilder.OpenedIsNew | transport-catalogue/json_builder.cpp:62-81 | A node added where nothing was stored becomes the innermost open container or joins it |
| JsonBuilder.ContextsAreSafe | transport-catalogue/json_builder.h:44-66 | A call an item context offers, with scalar values and fresh keys, never throws and leaves a builder matching the context it returns |
| JsonBuilder.Builder.constructor | transport-catalogue/json_builder.cpp:6 | Starts with a null root, nothing open and no key |
| JsonBuilder.Builder.AddNode | transport-catalogue/json_builder.cpp:52-83 | New state or error as the AddNode transition; a failed add changes nothing |
| JsonBuilder.Builder.StartDict | transport-catalogue/json_builder.cpp:8-11 | Adds an empty dictionary |
| JsonBuilder.Builder.StartArray | transport-catalogue/json_builder.cpp:13-16 | Adds an empty array |
| JsonBuilder.Builder.Value | transport-catalogue/json_builder.cpp:42-45 | Adds the value |
| JsonBuilder.Builder.EndDict | transport-catalogue/json_builder.cpp:18-24 | Closes the innermost dictionary or fails |
| JsonBuilder.Builder.EndArray | transport-catalogue/json_builder.cpp:26-32 | Closes the innermost array or fails |
| JsonBuilder.Builder.Key | transport-catalogue/json_builder.cpp:34-40 | Sets the pending key inside a dictionary or fails |
| JsonBuilder.Builder.Build | transport-catalogue/json_builder.cpp:47-50 | Returns the root after the readiness check |

## Left out

- `ComputeDistance` (geo.cpp) and `ParseCoordinates` (with `std::stod`) are function parameters; their arithmetic is not modelled.
- Floating point: `double` is `real`, so rounding and NaN are not modelled. Formatting with `setprecision(6)` and `operator<<` on a double, and parsing with `std::stod`, are function parameters.
- The shortest-path engine `graph::Router` and the graph class are not part of this model. `BuildRoute` takes the engine's answer as a parameter.
- `GetDistance`, `GetAllStops` and `GetAllBuses` have no body in the source. `SetDistance` stores into the declared `distances_` table, and `GetDistance` reads it back with no fallback to the reverse pair. The router takes the stop order, the bus order and a distance function as inputs.
- The iteration order of the `unordered_map`s (stops, buses, distances) is an input to the router. The input reader's second pass is proved for every order.
- `GetBusesByStop` returns a set of `string_view`s into a by-value parameter of `AddBus`, which dangles. The model stores the names.
- The header declares `GetBusesByStop` as returning a reference while the source file returns a set by value. The model returns the set.
- StatReader.PrintStat: requires a non-empty route for a known bus (`Answerable`). With an empty route, `GetBusInfo` computes `size() - 1` on `size_t` and indexes out of range.
- Catalogue.TransportCatalogue.GetBusInfo: requires a non-empty route for a known bus, for the same underflow.
- Router.TransportRouter.constructor: requires a non-zero velocity. Division by zero gives an IEEE infinity, which `real` cannot represent.
- Router.TransportRouter.constructor: requires no non-circular bus with an empty route, whose `size() - 1` underflows.
- InputReader.ParseRouteShape: an empty `-` route is modelled as giving no stops. The C++ `std::next(stops.rbegin())` on an empty vector is undefined.
- InputReader.InputReader.ApplyCommands: a circular route whose description parses to no stops calls `front()` on an empty vector in the source. The model appends nothing there.
- InputReader.InputReader.SetDistanceOf: `SetDistance` with a null `from` or `to` (an unknown stop) has no body to follow. The model skips such pairs.
- InputReader.InputReader.ApplyCommands: an `AddBus` that throws on an unknown stop ends the whole application in the source. The model returns that stop and stops there.
- InputReader.InputReader.ParseLine: `std::stoi` throwing inside `ParseStopDistances` is modelled as a failed line that changes nothing.
- JsonLoad.LoadNode: `input >> c` at the end of the stream leaves `c` uninitialised in the source. The model reports "Unexpected end of input".
- JsonLoad.StringLiteral: a raw tab inside a string is read as itself, while PrintString writes it escaped. So the round trip is stated for texts without raw tabs.
- Router.CorrectedRideNamesItsBus: the corrected translation names the first bus, in catalogue order, that rides between the edge's two stops, with the span count of its first such ride. That can differ from the bus and span the edge was built from, for example when a route visits a stop twice. The graph does not record which span built an edge.
- JsonRoundTrip.PrintThenLoad: stated for nodes without doubles, because printing and reading a double are function parameters of the model.
- Stream state after a failed extraction is not modelled beyond the errors each loader reports.
- The builder calls `IsDict`/`AsDict`, which json.h names `IsMap`/`AsMap`; the model treats them as one test.
- JsonBuilder.ContextsAreSafe: states safety only for scalar values and keys new to their dictionary. A container passed to `Value` is opened, and a repeated key keeps its old value, so the context types do not describe the builder there.
- `Json.Node`: json.cpp applies `std::holds_alternative` and `std::get` to `*this`, not to the private `value_` variant. json.cpp also defines none of the eight constructors or `operator==`/`operator!=` that json.h declares, so the source as written does not compile. The tests and accessors are modelled on the held alternative (`value_`), each constructor is taken to store its argument, and the comparison operators are not modelled.
- The `Document` wrapper and its comparison operators are not modelled; `Load` and `Print` work on the root node.
- The map renderer, the JSON request reader and `main` are not part of this model.

## Findings

| source | as written | input that shows it | evidently intended | confidence | as-written member | corrected member |
|---|---|---|---|---|---|---|
| transport-catalogue/transport_router.cpp:92-102 | The ride edge's bus is taken from the first occurrences of the two stops, with `from` required strictly before `to` | Non-circular bus "2" over stops A, B, C: the reverse ride edge from C to A translates to bus "" with span count 0 | The item names a bus that rides between the two stops, with the span count of such a ride | not executed | Router.ReverseRideLosesBus | Router.CorrectedRideNamesItsBus |
