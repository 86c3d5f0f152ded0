/** The routing graph built over the catalogue and the translation of a shortest path,
    given as a list of edge ids, into WAIT and BUS items.

    Every stop p (in the order the catalogue lists its stops) owns two vertices: 2p, where
    a passenger has arrived, and 2p+1, where the passenger is ready to board. A wait edge
    2p -> 2p+1 costs the bus wait time; a ride edge goes from the ready vertex of one stop
    of a bus to the arrived vertex of a later stop of the same bus. */
module Router {
  import opened Wrappers

  /** A bus as the router sees it: its name, the names of its stored stops, and whether
      it is a ring. */
  datatype BusRoute = BusRoute(name: string, stops: seq<string>, isCircular: bool)

  /** What the router reads from the catalogue: its stops and buses in the order the
      catalogue lists them, and the road distance between two stops. */
  datatype CatalogueView = CatalogueView(stops: seq<string>, buses: seq<BusRoute>,
                                         distance: (string, string) -> int)

  /** An edge of the directed weighted graph. */
  datatype Edge = Edge(from: nat, to: nat, weight: real)

  datatype ItemType = Wait | Bus

  /** One leg of an itinerary; `spanCount` is 0 for a wait. */
  datatype RouteItem = RouteItem(kind: ItemType, name: string, time: real, spanCount: int)

  datatype RouteInfo = RouteInfo(totalTime: real, items: seq<RouteItem>)

  /** What the shortest-path engine returns: the total weight and the edge ids in order. */
  datatype RawRoute = RawRoute(weight: real, edges: seq<nat>)

  /** A shortest-path engine: from vertex, to vertex, and the path if there is one. */
  type Engine = (nat, nat) -> Option<RawRoute>

  predicate Distinct(s: seq<string>) {
    forall i, j :: 0 <= i < j < |s| ==> s[i] != s[j]
  }

  /** std::find_if over a stop list by name: the first position holding `x`, or |s|. */
  function FirstPos(s: seq<string>, x: string): (r: nat)
    ensures r <= |s|
    ensures r < |s| ==> s[r] == x
  {
    if |s| == 0 then 0
    else if s[0] == x then 0
    else 1 + FirstPos(s[1..], x)
  }

  /** std::find_if reaches the end exactly when `x` is not in the list. */
  lemma {:induction false} FirstPosFound(s: seq<string>, x: string)
    ensures FirstPos(s, x) < |s| <==> x in s
  {
    if |s| > 0 && s[0] != x {
      FirstPosFound(s[1..], x);
      assert x in s <==> x in s[1..];
    }
  }

  /** No position before the one std::find_if returns holds `x`. */
  lemma {:induction false} FirstPosIsFirst(s: seq<string>, x: string, k: nat)
    requires k < FirstPos(s, x)
    ensures s[k] != x
  {
    if k > 0 {
      FirstPosIsFirst(s[1..], x, k - 1);
    }
  }

  lemma FirstPosDistinct(s: seq<string>, p: nat)
    requires Distinct(s) && p < |s|
    ensures FirstPos(s, s[p]) == p
  {
    if p < FirstPos(s, s[p]) {
      FirstPosIsFirst(s, s[p], p);
    }
  }

  /** A bus whose every stop is one of the catalogue's stops. A bus that is not a ring must
      have a stop: with none, the last index underflows in the C++ code. */
  predicate BusFits(b: BusRoute, stops: seq<string>) {
    (forall x :: x in b.stops ==> x in stops) && (b.isCircular || |b.stops| > 0)
  }

  /** The router's view of a catalogue: distinct stop names (the keys of GetAllStops),
      buses that fit, and distinct bus names (the keys of GetAllBuses). */
  predicate ViewFits(db: CatalogueView) {
    Distinct(db.stops)
    && (forall b :: 0 <= b < |db.buses| ==> BusFits(db.buses[b], db.stops))
    && (forall a, b :: 0 <= a < b < |db.buses| ==> db.buses[a].name != db.buses[b].name)
  }

  /** The index of the last stop a ride may end at: the stop count for a ring (the ring
      closes at index 0 again), one less otherwise. */
  function LastIndex(b: BusRoute): nat
    requires b.isCircular || |b.stops| > 0
  {
    if b.isCircular then |b.stops| else |b.stops| - 1
  }

  // ---------------------------------------------------------------------------
  // The vertex tables and the wait edges, for the first stops of `order`.

  /** stop_to_vertex_: each stop name to its even vertex. */
  function StopVertices(order: seq<string>): map<string, nat>
  {
    if |order| == 0 then map[]
    else StopVertices(order[..|order| - 1])[order[|order| - 1] := 2 * (|order| - 1)]
  }

  /** vertex_to_stop_: both vertices of each stop to its name. */
  function VertexStops(order: seq<string>): seq<string>
  {
    if |order| == 0 then []
    else VertexStops(order[..|order| - 1]) + [order[|order| - 1], order[|order| - 1]]
  }

  /** The wait edge of each stop, in stop order. */
  function WaitEdges(order: seq<string>, wait: int): seq<Edge>
  {
    if |order| == 0 then []
    else WaitEdges(order[..|order| - 1], wait) + [Edge(2 * (|order| - 1), 2 * (|order| - 1) + 1, wait as real)]
  }

  /** Two vertices per stop, and both vertices of a stop lead back to its name. */
  lemma VertexStopsSpec(order: seq<string>)
    ensures |VertexStops(order)| == 2 * |order|
    ensures forall v :: 0 <= v < 2 * |order| ==> VertexStops(order)[v] == order[v / 2]
  {
    forall v | 0 <= v < 2 * |order|
      ensures |VertexStops(order)| == 2 * |order| && VertexStops(order)[v] == order[v / 2]
    {
      VertexStopAt(order, v);
    }
    VertexStopsLength(order);
  }

  lemma {:induction false} VertexStopsLength(order: seq<string>)
    ensures |VertexStops(order)| == 2 * |order|
  {
    if |order| > 0 {
      VertexStopsLength(order[..|order| - 1]);
    }
  }

  /** Vertex v stands for stop v / 2. */
  lemma {:induction false} VertexStopAt(order: seq<string>, v: nat)
    requires v < 2 * |order|
    ensures |VertexStops(order)| == 2 * |order| && VertexStops(order)[v] == order[v / 2]
  {
    var init := order[..|order| - 1];
    VertexStopsLength(order);
    VertexStopsLength(init);
    if v < 2 * |init| {
      VertexStopAt(init, v);
      assert order[v / 2] == init[v / 2];
    }
  }

  /** Every stop has an even vertex, its position doubled. */
  lemma {:induction false} StopVerticesSpec(order: seq<string>)
    requires Distinct(order)
    ensures forall x :: x in StopVertices(order) <==> x in order
    ensures forall x :: x in order ==> StopVertices(order)[x] == 2 * FirstPos(order, x)
  {
    if |order| > 0 {
      var init := order[..|order| - 1];
      var last := order[|order| - 1];
      StopVerticesSpec(init);
      assert forall x :: x in order <==> x in init || x == last;
      forall x | x in order ensures StopVertices(order)[x] == 2 * FirstPos(order, x) {
        var p :| 0 <= p < |order| && order[p] == x;
        FirstPosDistinct(order, p);
        if p < |order| - 1 {
          assert init[p] == x;
          FirstPosDistinct(init, p);
        }
      }
    }
  }

  lemma VertexTables(order: seq<string>)
    requires Distinct(order)
    ensures |VertexStops(order)| == 2 * |order|
    ensures forall v :: 0 <= v < 2 * |order| ==> VertexStops(order)[v] == order[v / 2]
    ensures forall x :: x in StopVertices(order) <==> x in order
    ensures forall x :: x in order ==> StopVertices(order)[x] == 2 * FirstPos(order, x)
  {
    VertexStopsSpec(order);
    StopVerticesSpec(order);
  }

  /** One wait edge per stop, from its arrived vertex to its ready vertex, weighted by the
      bus wait time. */
  lemma {:induction false} WaitEdgesSpec(order: seq<string>, wait: int)
    ensures |WaitEdges(order, wait)| == |order|
    ensures forall p :: 0 <= p < |order| ==> WaitEdges(order, wait)[p] == Edge(2 * p, 2 * p + 1, wait as real)
  {
    if |order| > 0 { WaitEdgesSpec(order[..|order| - 1], wait); }
  }

  // ---------------------------------------------------------------------------
  // Ride edges.

  /** Road distance from stop i to stop j of a bus, leg by leg forward; the stop after the
      last one of a ring is its first. */
  function ForwardDistance(s: seq<string>, dist: (string, string) -> int, i: nat, j: nat): int
    requires i <= j < |s| + 1 && |s| > 0
    decreases j
  {
    if j == i then 0 else ForwardDistance(s, dist, i, j - 1) + dist(s[j - 1], s[j % |s|])
  }

  /** Road distance back from stop j to stop i, leg by leg in the reverse direction. */
  function ReverseDistance(s: seq<string>, dist: (string, string) -> int, i: nat, j: nat): int
    requires i <= j < |s| + 1 && |s| > 0
    decreases j - i
  {
    if j == i then 0 else ReverseDistance(s, dist, i + 1, j) + dist(s[(i + 1) % |s|], s[i % |s|])
  }

  /** The ride edge from stop i of the bus to stop j (taken modulo the stop count). */
  function ForwardEdge(db: CatalogueView, b: BusRoute, velocity: real, i: nat, j: nat): Edge
    requires velocity != 0.0 && i < j <= |b.stops|
  {
    Edge(2 * FirstPos(db.stops, b.stops[i]) + 1, 2 * FirstPos(db.stops, b.stops[j % |b.stops|]),
         (ForwardDistance(b.stops, db.distance, i, j) as real) / velocity)
  }

  /** The ride edge back from stop j of the bus to stop i. */
  function ReverseEdge(db: CatalogueView, b: BusRoute, velocity: real, i: nat, j: nat): Edge
    requires velocity != 0.0 && i < j <= |b.stops|
  {
    Edge(2 * FirstPos(db.stops, b.stops[j % |b.stops|]) + 1, 2 * FirstPos(db.stops, b.stops[i]),
         (ReverseDistance(b.stops, db.distance, i, j) as real) / velocity)
  }

  /** The edges added for the span from stop i to stop j: the forward one, and for a bus
      that is not a ring the reverse one after it. */
  function SpanEdges(db: CatalogueView, b: BusRoute, velocity: real, i: nat, j: nat): seq<Edge>
    requires velocity != 0.0 && i < j <= |b.stops|
  {
    [ForwardEdge(db, b, velocity, i, j)] + (if b.isCircular then [] else [ReverseEdge(db, b, velocity, i, j)])
  }

  /** The edges for the spans from stop i to the stops i+1 .. j, in that order. */
  function Row(db: CatalogueView, b: BusRoute, velocity: real, i: nat, j: nat): seq<Edge>
    requires velocity != 0.0 && i <= j <= |b.stops|
    decreases j
  {
    if j == i then [] else Row(db, b, velocity, i, j - 1) + SpanEdges(db, b, velocity, i, j)
  }

  /** The edges of the rows starting at stops 0 .. i-1, each row running to the last index. */
  function Rows(db: CatalogueView, b: BusRoute, velocity: real, i: nat): seq<Edge>
    requires velocity != 0.0 && (b.isCircular || |b.stops| > 0) && i <= LastIndex(b)
  {
    if i == 0 then [] else Rows(db, b, velocity, i - 1) + Row(db, b, velocity, i - 1, LastIndex(b))
  }

  /** Every ride edge one bus adds, in the order the C++ loops add them. */
  function BusEdges(db: CatalogueView, b: BusRoute, velocity: real): seq<Edge>
    requires velocity != 0.0 && (b.isCircular || |b.stops| > 0)
  {
    Rows(db, b, velocity, LastIndex(b))
  }

  /** The ride edges of the buses in `bs`, bus after bus. */
  function RideEdges(db: CatalogueView, bs: seq<BusRoute>, velocity: real): seq<Edge>
    requires velocity != 0.0 && forall b :: 0 <= b < |bs| ==> bs[b].isCircular || |bs[b].stops| > 0
  {
    if |bs| == 0 then [] else RideEdges(db, bs[..|bs| - 1], velocity) + BusEdges(db, bs[|bs| - 1], velocity)
  }

  /** The whole edge list of the graph: the wait edges, then the ride edges. */
  function Graph(db: CatalogueView, wait: int, velocity: real): seq<Edge>
    requires velocity != 0.0 && ViewFits(db)
  {
    WaitEdges(db.stops, wait) + RideEdges(db, db.buses, velocity)
  }

  /** `e` is an edge the bus adds for the span from stop i to stop j. */
  predicate IsSpanEdge(db: CatalogueView, b: BusRoute, velocity: real, i: nat, j: nat, e: Edge)
    requires velocity != 0.0 && (b.isCircular || |b.stops| > 0)
  {
    i < j <= LastIndex(b)
    && (e == ForwardEdge(db, b, velocity, i, j) || (!b.isCircular && e == ReverseEdge(db, b, velocity, i, j)))
  }

  // ---------------------------------------------------------------------------
  // Facts about the ride edges.

  /** A row holds one edge per span for a ring and two otherwise. */
  lemma {:induction false} RowLength(db: CatalogueView, b: BusRoute, velocity: real, i: nat, j: nat)
    requires velocity != 0.0 && i <= j <= |b.stops|
    ensures |Row(db, b, velocity, i, j)| == (if b.isCircular then 1 else 2) * (j - i)
    decreases j
  {
    if j > i { RowLength(db, b, velocity, i, j - 1); }
  }

  lemma SpanCountStep(i: int, l: int)
    ensures (i - 1) * (2 * l - i + 2) + 2 * (l - i + 1) == i * (2 * l - i + 1)
  {
  }

  lemma {:induction false} RowsLength(db: CatalogueView, b: BusRoute, velocity: real, i: nat)
    requires velocity != 0.0 && (b.isCircular || |b.stops| > 0) && i <= LastIndex(b)
    ensures 2 * |Rows(db, b, velocity, i)| == (if b.isCircular then 1 else 2) * (i * (2 * LastIndex(b) - i + 1))
  {
    if i > 0 {
      var l := LastIndex(b);
      RowsLength(db, b, velocity, i - 1);
      RowLength(db, b, velocity, i - 1, l);
      SpanCountStep(i, l);
      if b.isCircular {
        assert 2 * |Rows(db, b, velocity, i)| == (i - 1) * (2 * l - i + 2) + 2 * (l - i + 1);
      } else {
        assert 2 * |Rows(db, b, velocity, i)| == 2 * ((i - 1) * (2 * l - i + 2)) + 4 * (l - i + 1);
      }
    }
  }

  /** With L the last index, a bus adds L(L+1)/2 forward ride edges, one per span, and for
      a bus that is not a ring as many reverse edges again. */
  lemma BusEdgeCount(db: CatalogueView, b: BusRoute, velocity: real)
    requires velocity != 0.0 && (b.isCircular || |b.stops| > 0)
    ensures 2 * |BusEdges(db, b, velocity)| ==
      (if b.isCircular then 1 else 2) * (LastIndex(b) * (LastIndex(b) + 1))
  {
    RowsLength(db, b, velocity, LastIndex(b));
  }

  lemma {:induction false} RowMembers(db: CatalogueView, b: BusRoute, velocity: real, i: nat, j: nat, e: Edge)
    requires velocity != 0.0 && (b.isCircular || |b.stops| > 0) && i <= j <= LastIndex(b)
    ensures e in Row(db, b, velocity, i, j) <==> exists k: nat :: i < k <= j && IsSpanEdge(db, b, velocity, i, k, e)
    decreases j
  {
    if j > i {
      RowMembers(db, b, velocity, i, j - 1, e);
      if IsSpanEdge(db, b, velocity, i, j, e) {
        assert e in SpanEdges(db, b, velocity, i, j);
      }
      if e in SpanEdges(db, b, velocity, i, j) {
        assert IsSpanEdge(db, b, velocity, i, j, e);
      }
    }
  }

  lemma {:induction false} RowsMembers(db: CatalogueView, b: BusRoute, velocity: real, i: nat, e: Edge)
    requires velocity != 0.0 && (b.isCircular || |b.stops| > 0) && i <= LastIndex(b)
    ensures e in Rows(db, b, velocity, i) <==>
      exists r: nat, k: nat :: r < i && IsSpanEdge(db, b, velocity, r, k, e)
  {
    if e in Rows(db, b, velocity, i) {
      RowsSpanOf(db, b, velocity, i, e);
    }
    if exists r: nat, k: nat :: r < i && IsSpanEdge(db, b, velocity, r, k, e) {
      var r: nat, k: nat :| r < i && IsSpanEdge(db, b, velocity, r, k, e);
      RowsContain(db, b, velocity, i, r, k, e);
    }
  }

  /** Every edge of the first i rows is an edge of a span starting before stop i. */
  lemma {:induction false} RowsSpanOf(db: CatalogueView, b: BusRoute, velocity: real, i: nat, e: Edge)
    requires velocity != 0.0 && (b.isCircular || |b.stops| > 0) && i <= LastIndex(b)
    requires e in Rows(db, b, velocity, i)
    ensures exists r: nat, k: nat :: r < i && IsSpanEdge(db, b, velocity, r, k, e)
  {
    var l := LastIndex(b);
    assert Rows(db, b, velocity, i) == Rows(db, b, velocity, i - 1) + Row(db, b, velocity, i - 1, l);
    if e in Rows(db, b, velocity, i - 1) {
      RowsSpanOf(db, b, velocity, i - 1, e);
      var r: nat, k: nat :| r < i - 1 && IsSpanEdge(db, b, velocity, r, k, e);
      assert r < i;
    } else {
      RowMembers(db, b, velocity, i - 1, l, e);
      var k: nat :| i - 1 < k <= l && IsSpanEdge(db, b, velocity, i - 1, k, e);
      assert i - 1 < i;
    }
  }

  /** The edges of every span starting before stop i are among the first i rows. */
  lemma {:induction false} RowsContain(db: CatalogueView, b: BusRoute, velocity: real, i: nat, r: nat, k: nat, e: Edge)
    requires velocity != 0.0 && (b.isCircular || |b.stops| > 0) && i <= LastIndex(b)
    requires r < i && IsSpanEdge(db, b, velocity, r, k, e)
    ensures e in Rows(db, b, velocity, i)
  {
    var l := LastIndex(b);
    assert Rows(db, b, velocity, i) == Rows(db, b, velocity, i - 1) + Row(db, b, velocity, i - 1, l);
    if r == i - 1 {
      RowMembers(db, b, velocity, i - 1, l, e);
    } else {
      RowsContain(db, b, velocity, i - 1, r, k, e);
    }
  }

  /** The ride edges of a bus are exactly the forward edges of its spans i < j <= L and, for
      a bus that is not a ring, their reverse edges. */
  lemma BusEdgesMembers(db: CatalogueView, b: BusRoute, velocity: real, e: Edge)
    requires velocity != 0.0 && (b.isCircular || |b.stops| > 0)
    ensures e in BusEdges(db, b, velocity) <==> exists i: nat, j: nat :: IsSpanEdge(db, b, velocity, i, j, e)
  {
    RowsMembers(db, b, velocity, LastIndex(b), e);
  }

  /** Every ride edge leaves a ready (odd) vertex and enters an arrived (even) vertex, both
      within the graph; its weight is non-negative when road distances are and the
      velocity is positive. */
  lemma SpanEdgeShape(db: CatalogueView, b: BusRoute, velocity: real, i: nat, j: nat, e: Edge)
    requires velocity != 0.0 && BusFits(b, db.stops) && IsSpanEdge(db, b, velocity, i, j, e)
    ensures e.from % 2 == 1 && e.to % 2 == 0
    ensures e.from < 2 * |db.stops| && e.to < 2 * |db.stops|
    ensures velocity > 0.0 && (forall x, y :: db.distance(x, y) >= 0) ==> e.weight >= 0.0
  {
    var nonNegative := velocity > 0.0 && (forall x, y :: db.distance(x, y) >= 0);
    if e == ForwardEdge(db, b, velocity, i, j) {
      ForwardEdgeStops(db, b, velocity, i, j);
      if nonNegative {
        ForwardDistanceNonNegative(b.stops, db.distance, i, j);
      }
    } else {
      ReverseEdgeStops(db, b, velocity, i, j);
      if nonNegative {
        ReverseDistanceNonNegative(b.stops, db.distance, i, j);
      }
    }
  }

  lemma {:induction false} ForwardDistanceNonNegative(s: seq<string>, dist: (string, string) -> int, i: nat, j: nat)
    requires i <= j < |s| + 1 && |s| > 0
    requires forall x, y :: dist(x, y) >= 0
    ensures ForwardDistance(s, dist, i, j) >= 0
    decreases j
  {
    if j > i { ForwardDistanceNonNegative(s, dist, i, j - 1); }
  }

  lemma {:induction false} ReverseDistanceNonNegative(s: seq<string>, dist: (string, string) -> int, i: nat, j: nat)
    requires i <= j < |s| + 1 && |s| > 0
    requires forall x, y :: dist(x, y) >= 0
    ensures ReverseDistance(s, dist, i, j) >= 0
    decreases j - i
  {
    if j > i { ReverseDistanceNonNegative(s, dist, i + 1, j); }
  }

  /** Every ride edge of the graph belongs to a span of one of the catalogue's buses. */
  lemma {:induction false} RideEdgesMembers(db: CatalogueView, bs: seq<BusRoute>, velocity: real, e: Edge)
    requires velocity != 0.0 && forall b :: 0 <= b < |bs| ==> bs[b].isCircular || |bs[b].stops| > 0
    ensures e in RideEdges(db, bs, velocity) <==>
      exists b: nat, i: nat, j: nat :: b < |bs| && IsSpanEdge(db, bs[b], velocity, i, j, e)
  {
    if |bs| > 0 {
      var init := bs[..|bs| - 1];
      RideEdgesMembers(db, init, velocity, e);
      BusEdgesMembers(db, bs[|bs| - 1], velocity, e);
      if exists b: nat, i: nat, j: nat :: b < |bs| && IsSpanEdge(db, bs[b], velocity, i, j, e) {
        var b: nat, i: nat, j: nat :| b < |bs| && IsSpanEdge(db, bs[b], velocity, i, j, e);
        if b < |bs| - 1 {
          assert init[b] == bs[b];
        }
      }
      if exists b: nat, i: nat, j: nat :: b < |init| && IsSpanEdge(db, init[b], velocity, i, j, e) {
        var b: nat, i: nat, j: nat :| b < |init| && IsSpanEdge(db, init[b], velocity, i, j, e);
        assert bs[b] == init[b];
      }
    }
  }

  /** In the whole graph an edge leaving an even vertex is the wait edge of that vertex's
      stop, and every edge stays within the 2 x (stop count) vertices. */
  lemma GraphEdgeShape(db: CatalogueView, wait: int, velocity: real, id: nat)
    requires velocity != 0.0 && ViewFits(db) && id < |Graph(db, wait, velocity)|
    ensures Graph(db, wait, velocity)[id].from < 2 * |db.stops|
    ensures Graph(db, wait, velocity)[id].to < 2 * |db.stops|
    ensures Graph(db, wait, velocity)[id].from % 2 == 0 ==>
      Graph(db, wait, velocity)[id] == Edge(Graph(db, wait, velocity)[id].from, Graph(db, wait, velocity)[id].from + 1, wait as real)
    ensures Graph(db, wait, velocity)[id].from % 2 == 1 ==>
      Graph(db, wait, velocity)[id] in RideEdges(db, db.buses, velocity)
  {
    var g := Graph(db, wait, velocity);
    WaitEdgesSpec(db.stops, wait);
    if id >= |db.stops| {
      var e := g[id];
      assert e == RideEdges(db, db.buses, velocity)[id - |db.stops|];
      RideEdgesMembers(db, db.buses, velocity, e);
      var b: nat, i: nat, j: nat :| b < |db.buses| && IsSpanEdge(db, db.buses[b], velocity, i, j, e);
      SpanEdgeShape(db, db.buses[b], velocity, i, j, e);
    }
  }

  // ---------------------------------------------------------------------------
  // Translating a path back into itinerary items.

  /** The first occurrence of `from` comes strictly before the first occurrence of `to`. */
  predicate Precedes(s: seq<string>, from: string, to: string) {
    FirstPos(s, from) < |s| && FirstPos(s, to) < |s| && FirstPos(s, from) < FirstPos(s, to)
  }

  /** The position of the first bus, in catalogue order, on which `from` precedes `to`. */
  function FirstBusBetween(bs: seq<BusRoute>, from: string, to: string): (r: Option<nat>)
    ensures r.Some? ==> r.value < |bs| && Precedes(bs[r.value].stops, from, to)
  {
    if |bs| == 0 then None
    else if Precedes(bs[0].stops, from, to) then Some(0)
    else match FirstBusBetween(bs[1..], from, to)
      case None => None
      case Some(k) => Some(k + 1)
  }

  /** No bus before the one found, and none at all when none is found, has `from` before
      `to`. */
  lemma {:induction false} FirstBusBetweenIsFirst(bs: seq<BusRoute>, from: string, to: string, k: nat)
    requires k < |bs|
    requires FirstBusBetween(bs, from, to).Some? ==> k < FirstBusBetween(bs, from, to).value
    ensures !Precedes(bs[k].stops, from, to)
  {
    if k > 0 {
      assert bs[1..][k - 1] == bs[k];
      FirstBusBetweenIsFirst(bs[1..], from, to, k - 1);
    }
  }

  /** FindBusBetweenStops: the name of that bus, or the empty name. */
  function FindBusBetweenStops(db: CatalogueView, from: string, to: string): string
  {
    match FirstBusBetween(db.buses, from, to)
    case None => ""
    case Some(k) => db.buses[k].name
  }

  /** The catalogue's bus of that name (FindBus). */
  function BusNamed(bs: seq<BusRoute>, name: string): (r: Option<nat>)
    ensures r.Some? ==> r.value < |bs| && bs[r.value].name == name
  {
    if |bs| == 0 then None
    else if bs[0].name == name then Some(0)
    else match BusNamed(bs[1..], name)
      case None => None
      case Some(k) => Some(k + 1)
  }

  /** When FindBus finds nothing, no bus has that name. */
  lemma {:induction false} BusNamedMissing(bs: seq<BusRoute>, name: string, k: nat)
    requires k < |bs| && BusNamed(bs, name).None?
    ensures bs[k].name != name
  {
    if k > 0 {
      assert bs[1..][k - 1] == bs[k];
      BusNamedMissing(bs[1..], name, k - 1);
    }
  }

  function Abs(x: int): nat { if x < 0 then -x else x }

  /** CalculateSpansBetweenStops: the distance between the first occurrences of the two
      stops on the named bus, or 0 when the bus or either stop is missing. */
  function CalculateSpans(db: CatalogueView, busName: string, from: string, to: string): (r: int)
    ensures r >= 0
    ensures BusNamed(db.buses, busName).None? ==> r == 0
  {
    match BusNamed(db.buses, busName)
    case None => 0
    case Some(k) =>
      var s := db.buses[k].stops;
      var pf := FirstPos(s, from);
      var pt := FirstPos(s, to);
      if pf == |s| || pt == |s| then 0 else Abs(pt - pf)
  }

  /** A positive span count comes from a bus of that name holding both stops, and is the
      distance between their first occurrences there. */
  lemma CalculateSpansFound(db: CatalogueView, busName: string, from: string, to: string)
    requires CalculateSpans(db, busName, from, to) > 0
    ensures BusNamed(db.buses, busName).Some?
    ensures var s := db.buses[BusNamed(db.buses, busName).value].stops;
      from in s && to in s && from != to &&
      CalculateSpans(db, busName, from, to) == Abs(FirstPos(s, to) - FirstPos(s, from))
  {
  }

  /** vertex_to_stop_: the stop both vertices 2p and 2p + 1 stand for. */
  function StopOf(db: CatalogueView, v: nat): string
    requires v < 2 * |db.stops|
  {
    db.stops[v / 2]
  }

  /** The item one edge of a path becomes, as ConvertRouteToRouteInfo builds it. */
  function ItemFor(db: CatalogueView, e: Edge): RouteItem
    requires e.from < 2 * |db.stops| && e.to < 2 * |db.stops|
  {
    if e.from % 2 == 0 then RouteItem(Wait, StopOf(db, e.from), e.weight, 0)
    else
      var fromStop := StopOf(db, e.from - 1);
      var toStop := StopOf(db, e.to);
      var busName := FindBusBetweenStops(db, fromStop, toStop);
      RouteItem(Bus, busName, e.weight, CalculateSpans(db, busName, fromStop, toStop))
  }

  /** Sum of the weights of a list of edges. */
  function TotalWeight(es: seq<Edge>): real
  {
    if |es| == 0 then 0.0 else TotalWeight(es[..|es| - 1]) + es[|es| - 1].weight
  }

  /** Sum of the times of a list of items. */
  function TotalTime(items: seq<RouteItem>): real
  {
    if |items| == 0 then 0.0 else TotalTime(items[..|items| - 1]) + items[|items| - 1].time
  }

  /** The edges a path goes through. */
  function PathEdges(g: seq<Edge>, ids: seq<nat>): (r: seq<Edge>)
    requires forall k :: 0 <= k < |ids| ==> ids[k] < |g|
    ensures |r| == |ids| && forall k :: 0 <= k < |ids| ==> r[k] == g[ids[k]]
  {
    seq(|ids|, k requires 0 <= k < |ids| => g[ids[k]])
  }

  /** Edges whose vertices are vertices of the graph. */
  predicate InGraph(db: CatalogueView, es: seq<Edge>) {
    forall k :: 0 <= k < |es| ==> es[k].from < 2 * |db.stops| && es[k].to < 2 * |db.stops|
  }

  /** The items a path becomes, one per edge, in path order. */
  function Itinerary(db: CatalogueView, es: seq<Edge>): (r: seq<RouteItem>)
    requires InGraph(db, es)
    ensures |r| == |es|
  {
    if |es| == 0 then [] else Itinerary(db, es[..|es| - 1]) + [ItemFor(db, es[|es| - 1])]
  }

  /** One item per edge, each the item of its edge. */
  lemma {:induction false} ItineraryItems(db: CatalogueView, es: seq<Edge>)
    requires InGraph(db, es)
    ensures forall k :: 0 <= k < |es| ==> Itinerary(db, es)[k] == ItemFor(db, es[k])
  {
    if |es| > 0 {
      ItineraryItems(db, es[..|es| - 1]);
    }
  }

  /** Each item of an itinerary takes the time of its edge, so the item times add up to
      the path weight. */
  lemma {:induction false} ItemTimesAddUp(db: CatalogueView, es: seq<Edge>)
    requires InGraph(db, es)
    ensures TotalTime(Itinerary(db, es)) == TotalWeight(es)
  {
    if |es| > 0 {
      ItemTimesAddUp(db, es[..|es| - 1]);
      assert Itinerary(db, es)[..|es| - 1] == Itinerary(db, es[..|es| - 1]);
    }
  }

  /** The item for an edge of the graph: an edge out of an even vertex is a wait of the bus
      wait time at that vertex's stop, with no spans; any other edge is a ride of the edge's
      weight. */
  lemma ItemForGraphEdge(db: CatalogueView, wait: int, velocity: real, id: nat)
    requires velocity != 0.0 && ViewFits(db) && id < |Graph(db, wait, velocity)|
    ensures Graph(db, wait, velocity)[id].from < 2 * |db.stops| && Graph(db, wait, velocity)[id].to < 2 * |db.stops|
    ensures ItemFor(db, Graph(db, wait, velocity)[id]).kind == Wait <==> Graph(db, wait, velocity)[id].from % 2 == 0
    ensures ItemFor(db, Graph(db, wait, velocity)[id]).kind == Wait ==>
      ItemFor(db, Graph(db, wait, velocity)[id]) ==
        RouteItem(Wait, StopOf(db, Graph(db, wait, velocity)[id].from), wait as real, 0)
    ensures ItemFor(db, Graph(db, wait, velocity)[id]).time == Graph(db, wait, velocity)[id].weight
    ensures ItemFor(db, Graph(db, wait, velocity)[id]).spanCount >= 0
  {
    GraphEdgeShape(db, wait, velocity, id);
  }

  // ---------------------------------------------------------------------------
  // The ride translation by first occurrences misses rides against the order of first
  // occurrences: the reverse edges of a bus that is not a ring, and ring edges ending at
  // the first stop. A translation that looks for any bus riding between the two stops, in
  // either direction, finds one for every ride edge.

  /** Bus "2" running A, B, C and back, over a catalogue with those three stops. */
  const AsWrittenView := CatalogueView(["A", "B", "C"], [BusRoute("2", ["A", "B", "C"], false)],
                                       (x: string, y: string) => 100)

  /** The reverse ride of bus "2" from C to A (two spans) becomes a ride on the bus with
      the empty name and no spans. */
  lemma ReverseRideLosesBus()
    ensures IsSpanEdge(AsWrittenView, AsWrittenView.buses[0], 1.0, 0, 2,
                       ReverseEdge(AsWrittenView, AsWrittenView.buses[0], 1.0, 0, 2))
    ensures ReverseEdge(AsWrittenView, AsWrittenView.buses[0], 1.0, 0, 2) in RideEdges(AsWrittenView, AsWrittenView.buses, 1.0)
    ensures ItemFor(AsWrittenView, ReverseEdge(AsWrittenView, AsWrittenView.buses[0], 1.0, 0, 2)) ==
      RouteItem(Bus, "", 200.0, 0)
  {
    var db := AsWrittenView;
    var b := db.buses[0];
    var e := ReverseEdge(db, b, 1.0, 0, 2);
    assert FirstPos(db.stops, "C") == 2 && FirstPos(db.stops, "A") == 0;
    assert ReverseDistance(b.stops, db.distance, 0, 2) == 200;
    assert e == Edge(5, 0, 200.0);
    RideEdgesMembers(db, db.buses, 1.0, e);
    assert FirstPos(b.stops, "C") == 2 && FirstPos(b.stops, "A") == 0;
    assert !Precedes(b.stops, "C", "A");
    assert BusNamed(db.buses, "").None?;
  }

  /** The bus a passenger rides from one stop to another, and the number of spans, found
      as the first bus in catalogue order and on it the first span i < j <= L whose edge
      runs between the two stops, in either direction the bus travels. */
  function SpanBetween(b: BusRoute, from: string, to: string, i: nat, j: nat): (r: Option<nat>)
    requires (b.isCircular || |b.stops| > 0) && i < j <= LastIndex(b) + 1
    decreases LastIndex(b) - i, LastIndex(b) + 1 - j
  {
    if j > LastIndex(b) then
      if i + 1 < LastIndex(b) then SpanBetween(b, from, to, i + 1, i + 2) else None
    else if b.stops[i] == from && b.stops[j % |b.stops|] == to then Some(j - i)
    else if !b.isCircular && b.stops[j % |b.stops|] == from && b.stops[i] == to then Some(j - i)
    else SpanBetween(b, from, to, i, j + 1)
  }

  /** `b` has a span from `from` to `to` of `count` stops in a direction it travels. */
  predicate Rides(b: BusRoute, from: string, to: string, count: nat)
    requires b.isCircular || |b.stops| > 0
  {
    exists i: nat, j: nat :: i < j <= LastIndex(b) && j - i == count &&
      ((b.stops[i] == from && b.stops[j % |b.stops|] == to) ||
       (!b.isCircular && b.stops[j % |b.stops|] == from && b.stops[i] == to))
  }

  lemma {:induction false} SpanBetweenSpec(b: BusRoute, from: string, to: string, i: nat, j: nat)
    requires (b.isCircular || |b.stops| > 0) && i < j <= LastIndex(b) + 1
    ensures SpanBetween(b, from, to, i, j).Some? ==>
      (SpanBetween(b, from, to, i, j).value > 0 && Rides(b, from, to, SpanBetween(b, from, to, i, j).value))
    ensures (exists i': nat, j': nat ::
               ((i' == i && j <= j' <= LastIndex(b)) || i < i' < j' <= LastIndex(b)) &&
               ((b.stops[i'] == from && b.stops[j' % |b.stops|] == to) ||
                (!b.isCircular && b.stops[j' % |b.stops|] == from && b.stops[i'] == to)))
      ==> SpanBetween(b, from, to, i, j).Some?
    decreases LastIndex(b) - i, LastIndex(b) + 1 - j
  {
    var l := LastIndex(b);
    if j > l {
      if i + 1 < l {
        SpanBetweenSpec(b, from, to, i + 1, i + 2);
      }
    } else if b.stops[i] == from && b.stops[j % |b.stops|] == to {
    } else if !b.isCircular && b.stops[j % |b.stops|] == from && b.stops[i] == to {
    } else {
      SpanBetweenSpec(b, from, to, i, j + 1);
    }
  }

  /** The first bus in catalogue order with a span between the two stops, and that span. */
  function RideBetween(bs: seq<BusRoute>, from: string, to: string): (r: Option<(string, nat)>)
    requires forall b :: 0 <= b < |bs| ==> bs[b].isCircular || |bs[b].stops| > 0
    ensures r.Some? ==>
      (r.value.1 > 0 && exists k :: 0 <= k < |bs| && bs[k].name == r.value.0 && Rides(bs[k], from, to, r.value.1))
  {
    if |bs| == 0 then None
    else
      var b := bs[0];
      var found := if LastIndex(b) == 0 then None else SpanBetween(b, from, to, 0, 1);
      if found.Some? then
        SpanBetweenSpec(b, from, to, 0, 1);
        Some((b.name, found.value))
      else
        var rest := RideBetween(bs[1..], from, to);
        if rest.Some? then
          assert forall k :: 0 <= k < |bs[1..]| ==> bs[1..][k] == bs[k + 1];
          rest
        else None
  }

  /** The item for an edge when the ride is looked up as the first bus, in catalogue order,
      riding between the edge's two stops, with the span count of the first such ride. */
  function CorrectedItemFor(db: CatalogueView, e: Edge): RouteItem
    requires e.from < 2 * |db.stops| && e.to < 2 * |db.stops|
    requires forall b :: 0 <= b < |db.buses| ==> db.buses[b].isCircular || |db.buses[b].stops| > 0
  {
    if e.from % 2 == 0 then RouteItem(Wait, StopOf(db, e.from), e.weight, 0)
    else
      var fromStop := StopOf(db, e.from - 1);
      var toStop := StopOf(db, e.to);
      match RideBetween(db.buses, fromStop, toStop)
      case None => RouteItem(Bus, "", e.weight, 0)
      case Some((name, count)) => RouteItem(Bus, name, e.weight, count)
  }

  /** With the corrected translation every ride edge of the graph, reverse ones included,
      becomes a ride on a bus of the catalogue that travels from the edge's first stop to
      its second stop in the reported number of spans. */
  lemma CorrectedRideNamesItsBus(db: CatalogueView, velocity: real, e: Edge)
    requires velocity != 0.0 && ViewFits(db) && e in RideEdges(db, db.buses, velocity)
    ensures e.from % 2 == 1 && e.from < 2 * |db.stops| && e.to < 2 * |db.stops|
    ensures var item := CorrectedItemFor(db, e);
      item.kind == Bus && item.spanCount > 0 &&
      exists k :: 0 <= k < |db.buses| && db.buses[k].name == item.name &&
        Rides(db.buses[k], StopOf(db, e.from - 1), StopOf(db, e.to), item.spanCount)
  {
    RideEdgeFound(db, velocity, e);
    CorrectedItemOfRide(db, e);
  }

  /** An edge out of a ready vertex whose two stops some bus rides between becomes a
      ride on that bus. */
  lemma CorrectedItemOfRide(db: CatalogueView, e: Edge)
    requires forall b :: 0 <= b < |db.buses| ==> db.buses[b].isCircular || |db.buses[b].stops| > 0
    requires e.from % 2 == 1 && e.from < 2 * |db.stops| && e.to < 2 * |db.stops|
    requires RideBetween(db.buses, StopOf(db, e.from - 1), StopOf(db, e.to)).Some?
    ensures var item := CorrectedItemFor(db, e);
      item.kind == Bus && item.spanCount > 0 &&
      exists k :: 0 <= k < |db.buses| && db.buses[k].name == item.name &&
        Rides(db.buses[k], StopOf(db, e.from - 1), StopOf(db, e.to), item.spanCount)
  {
    var found := RideBetween(db.buses, StopOf(db, e.from - 1), StopOf(db, e.to));
    assert CorrectedItemFor(db, e) == RouteItem(Bus, found.value.0, e.weight, found.value.1);
  }

  lemma RideEdgeFound(db: CatalogueView, velocity: real, e: Edge)
    requires velocity != 0.0 && ViewFits(db) && e in RideEdges(db, db.buses, velocity)
    ensures e.from % 2 == 1 && e.from < 2 * |db.stops| && e.to < 2 * |db.stops|
    ensures RideBetween(db.buses, StopOf(db, e.from - 1), StopOf(db, e.to)).Some?
  {
    RideEdgesMembers(db, db.buses, velocity, e);
    var b: nat, i: nat, j: nat :| b < |db.buses| && IsSpanEdge(db, db.buses[b], velocity, i, j, e);
    SpanEdgeStops(db, db.buses[b], velocity, i, j, e);
    RideBetweenFinds(db.buses, StopOf(db, e.from - 1), StopOf(db, e.to), b, i, j);
  }

  /** A ride edge runs from the ready vertex of the stop it starts at to the arrived vertex
      of the stop it ends at. */
  lemma SpanEdgeStops(db: CatalogueView, b: BusRoute, velocity: real, i: nat, j: nat, e: Edge)
    requires velocity != 0.0 && BusFits(b, db.stops) && IsSpanEdge(db, b, velocity, i, j, e)
    ensures e.from % 2 == 1 && e.from < 2 * |db.stops| && e.to < 2 * |db.stops|
    ensures (b.stops[i] == StopOf(db, e.from - 1) && b.stops[j % |b.stops|] == StopOf(db, e.to)) ||
            (!b.isCircular && b.stops[j % |b.stops|] == StopOf(db, e.from - 1) && b.stops[i] == StopOf(db, e.to))
  {
    if e == ForwardEdge(db, b, velocity, i, j) {
      ForwardEdgeStops(db, b, velocity, i, j);
    } else {
      ReverseEdgeStops(db, b, velocity, i, j);
    }
  }

  lemma ForwardEdgeStops(db: CatalogueView, b: BusRoute, velocity: real, i: nat, j: nat)
    requires velocity != 0.0 && BusFits(b, db.stops) && i < j <= |b.stops|
    ensures var e := ForwardEdge(db, b, velocity, i, j);
      e.from % 2 == 1 && e.from < 2 * |db.stops| && e.to < 2 * |db.stops| &&
      b.stops[i] == StopOf(db, e.from - 1) && b.stops[j % |b.stops|] == StopOf(db, e.to)
  {
    var ps := FirstPos(db.stops, b.stops[i]);
    var pe := FirstPos(db.stops, b.stops[j % |b.stops|]);
    assert b.stops[i] in b.stops && b.stops[j % |b.stops|] in b.stops;
    FirstPosFound(db.stops, b.stops[i]);
    FirstPosFound(db.stops, b.stops[j % |b.stops|]);
    assert (2 * ps + 1 - 1) / 2 == ps && (2 * pe) / 2 == pe;
  }

  lemma ReverseEdgeStops(db: CatalogueView, b: BusRoute, velocity: real, i: nat, j: nat)
    requires velocity != 0.0 && BusFits(b, db.stops) && i < j <= |b.stops|
    ensures var e := ReverseEdge(db, b, velocity, i, j);
      e.from % 2 == 1 && e.from < 2 * |db.stops| && e.to < 2 * |db.stops| &&
      b.stops[j % |b.stops|] == StopOf(db, e.from - 1) && b.stops[i] == StopOf(db, e.to)
  {
    var ps := FirstPos(db.stops, b.stops[i]);
    var pe := FirstPos(db.stops, b.stops[j % |b.stops|]);
    assert b.stops[i] in b.stops && b.stops[j % |b.stops|] in b.stops;
    FirstPosFound(db.stops, b.stops[i]);
    FirstPosFound(db.stops, b.stops[j % |b.stops|]);
    assert (2 * pe + 1 - 1) / 2 == pe && (2 * ps) / 2 == ps;
  }

  lemma {:induction false} RideBetweenFinds(bs: seq<BusRoute>, from: string, to: string, b: nat, i: nat, j: nat)
    requires forall k :: 0 <= k < |bs| ==> bs[k].isCircular || |bs[k].stops| > 0
    requires b < |bs| && i < j <= LastIndex(bs[b])
    requires (bs[b].stops[i] == from && bs[b].stops[j % |bs[b].stops|] == to) ||
             (!bs[b].isCircular && bs[b].stops[j % |bs[b].stops|] == from && bs[b].stops[i] == to)
    ensures RideBetween(bs, from, to).Some?
  {
    var first := bs[0];
    if b == 0 {
      assert LastIndex(first) > 0;
      SpanBetweenSpec(first, from, to, 0, 1);
      assert (i == 0 && 1 <= j <= LastIndex(first)) || 0 < i < j <= LastIndex(first);
    } else {
      assert bs[1..][b - 1] == bs[b];
      RideBetweenFinds(bs[1..], from, to, b - 1, i, j);
    }
  }

  /** The inner loop of BuildGraph going forward: the legs from stop i to stop j summed. */
  method SumForward(s: seq<string>, dist: (string, string) -> int, i: nat, j: nat) returns (d: int)
    requires i <= j < |s| + 1 && |s| > 0
    ensures d == ForwardDistance(s, dist, i, j)
  {
    d := 0;
    var n := |s|;
    for k := i to j
      invariant d == ForwardDistance(s, dist, i, k)
    {
      d := d + dist(s[k], s[(k + 1) % n]);
    }
  }

  /** The inner loop of BuildGraph going back: the legs from stop j down to stop i summed. */
  method SumReverse(s: seq<string>, dist: (string, string) -> int, i: nat, j: nat) returns (d: int)
    requires i <= j < |s| + 1 && |s| > 0
    ensures d == ReverseDistance(s, dist, i, j)
  {
    d := 0;
    var n := |s|;
    var k := j;
    while k > i
      invariant i <= k <= j
      invariant d == ReverseDistance(s, dist, k, j)
    {
      d := d + dist(s[k % n], s[(k - 1) % n]);
      k := k - 1;
    }
  }

  lemma AppendAssociates(a: seq<Edge>, b: seq<Edge>, c: seq<Edge>)
    ensures (a + b) + c == a + (b + c)
  {
  }

  // ---------------------------------------------------------------------------
  // The router object.

  /** TransportRouter: the catalogue it reads, the wait time and velocity fixed when it is
      built, and the graph with its two vertex tables, filled once by BuildGraph. */
  class TransportRouter {
    const db: CatalogueView
    const busWaitTime: int
    const busVelocity: real
    var vertexCount: nat
    var edges: seq<Edge>
    var stopToVertex: map<string, nat>
    var vertexToStop: seq<string>

    ghost predicate Valid()
      reads this
    {
      ViewFits(db) && busVelocity != 0.0
      && vertexCount == 2 * |db.stops|
      && edges == Graph(db, busWaitTime, busVelocity)
      && stopToVertex == StopVertices(db.stops)
      && vertexToStop == VertexStops(db.stops)
    }

    /** Keeps the wait time, converts the velocity from km/h to m/min, and builds the graph. */
    constructor (db: CatalogueView, busWaitTime: int, busVelocity: real)
      requires ViewFits(db) && busVelocity != 0.0
      ensures this.db == db && this.busWaitTime == busWaitTime
      ensures this.busVelocity == busVelocity * 1000.0 / 60.0
      ensures Valid()
    {
      this.db := db;
      this.busWaitTime := busWaitTime;
      this.busVelocity := busVelocity * 1000.0 / 60.0;
      vertexCount := 0;
      edges := [];
      stopToVertex := map[];
      vertexToStop := [];
      new;
      BuildGraph();
    }

    method BuildGraph()
      requires ViewFits(db) && busVelocity != 0.0
      requires stopToVertex == map[] && vertexToStop == []
      modifies this
      ensures Valid()
    {
      vertexCount := 2 * |db.stops|;
      edges := [];
      AddStopVertices();
      VertexTables(db.stops);
      var b := 0;
      while b < |db.buses|
        invariant 0 <= b <= |db.buses|
        invariant vertexCount == 2 * |db.stops|
        invariant stopToVertex == StopVertices(db.stops) && vertexToStop == VertexStops(db.stops)
        invariant edges == WaitEdges(db.stops, busWaitTime) + RideEdges(db, db.buses[..b], busVelocity)
      {
        assert db.buses[..b + 1][..b] == db.buses[..b];
        var rides := BusRides(db.buses[b]);
        AppendAssociates(WaitEdges(db.stops, busWaitTime), RideEdges(db, db.buses[..b], busVelocity), rides);
        edges := edges + rides;
        b := b + 1;
      }
      assert db.buses[..b] == db.buses;
    }

    /** The first loop of BuildGraph: two vertices and a wait edge per stop. */
    method AddStopVertices()
      requires stopToVertex == map[] && vertexToStop == [] && edges == []
      modifies this
      ensures stopToVertex == StopVertices(db.stops) && vertexToStop == VertexStops(db.stops)
      ensures edges == WaitEdges(db.stops, busWaitTime) && vertexCount == old(vertexCount)
    {
      var p := 0;
      while p < |db.stops|
        invariant 0 <= p <= |db.stops|
        invariant vertexCount == old(vertexCount)
        invariant stopToVertex == StopVertices(db.stops[..p])
        invariant vertexToStop == VertexStops(db.stops[..p])
        invariant edges == WaitEdges(db.stops[..p], busWaitTime)
      {
        var name := db.stops[p];
        assert db.stops[..p + 1][..p] == db.stops[..p];
        stopToVertex := stopToVertex[name := 2 * p];
        vertexToStop := vertexToStop + [name, name];
        edges := edges + [Edge(2 * p, 2 * p + 1, busWaitTime as real)];
        p := p + 1;
      }
      assert db.stops[..p] == db.stops;
    }

    /** The body of BuildGraph's loop over the buses: for each span i < j <= L the forward
        ride edge, and for a bus that is not a ring the reverse one, in the order the
        loops over i and j reach them. */
    method BusRides(bus: BusRoute) returns (rides: seq<Edge>)
      requires Distinct(db.stops) && busVelocity != 0.0 && BusFits(bus, db.stops)
      requires stopToVertex == StopVertices(db.stops)
      ensures rides == BusEdges(db, bus, busVelocity)
    {
      var last := if bus.isCircular then |bus.stops| else |bus.stops| - 1;
      rides := [];
      var i := 0;
      while i < last
        invariant i <= last == LastIndex(bus)
        invariant rides == Rows(db, bus, busVelocity, i)
      {
        var row := RowRides(bus, i);
        rides := rides + row;
        i := i + 1;
      }
    }

    /** One pass of the loop over i: the edges for the spans from stop i to every later
        stop up to the last index. */
    method RowRides(bus: BusRoute, i: nat) returns (row: seq<Edge>)
      requires Distinct(db.stops) && busVelocity != 0.0 && BusFits(bus, db.stops) && i < LastIndex(bus)
      requires stopToVertex == StopVertices(db.stops)
      ensures row == Row(db, bus, busVelocity, i, LastIndex(bus))
    {
      var last := if bus.isCircular then |bus.stops| else |bus.stops| - 1;
      row := [];
      var j := i;
      while j < last
        invariant i <= j <= last == LastIndex(bus)
        invariant row == Row(db, bus, busVelocity, i, j)
      {
        j := j + 1;
        var span := SpanRides(bus, i, j);
        row := row + span;
      }
    }

    /** The body of the loop over j: the forward ride edge from stop i to stop j, then
        for a bus that is not a ring the reverse one. */
    method SpanRides(bus: BusRoute, i: nat, j: nat) returns (span: seq<Edge>)
      requires Distinct(db.stops) && busVelocity != 0.0 && BusFits(bus, db.stops) && i < j <= |bus.stops|
      requires stopToVertex == StopVertices(db.stops)
      ensures span == SpanEdges(db, bus, busVelocity, i, j)
    {
      var forward := ForwardRide(bus, i, j);
      span := [forward];
      if !bus.isCircular {
        var reverse := ReverseRide(bus, i, j);
        span := span + [reverse];
      }
    }

    /** The forward ride edge of one span: the road distance summed leg by leg from stop i
        to stop j, from the ride vertex of stop i to the wait vertex of stop j. */
    method ForwardRide(bus: BusRoute, i: nat, j: nat) returns (e: Edge)
      requires Distinct(db.stops) && busVelocity != 0.0 && BusFits(bus, db.stops) && i < j <= |bus.stops|
      requires stopToVertex == StopVertices(db.stops)
      ensures e == ForwardEdge(db, bus, busVelocity, i, j)
    {
      StopVerticesSpec(db.stops);
      var n := |bus.stops|;
      assert bus.stops[i] in bus.stops && bus.stops[j % n] in bus.stops;
      var distance := SumForward(bus.stops, db.distance, i, j);
      var time := (distance as real) / busVelocity;
      e := Edge(stopToVertex[bus.stops[i]] + 1, stopToVertex[bus.stops[j % n]], time);
    }

    /** The reverse ride edge of one span: the road distance summed leg by leg back from
        stop j to stop i, from the ride vertex of stop j to the wait vertex of stop i. */
    method ReverseRide(bus: BusRoute, i: nat, j: nat) returns (e: Edge)
      requires Distinct(db.stops) && busVelocity != 0.0 && BusFits(bus, db.stops) && i < j <= |bus.stops|
      requires stopToVertex == StopVertices(db.stops)
      ensures e == ReverseEdge(db, bus, busVelocity, i, j)
    {
      StopVerticesSpec(db.stops);
      var n := |bus.stops|;
      assert bus.stops[i] in bus.stops && bus.stops[j % n] in bus.stops;
      var distance := SumReverse(bus.stops, db.distance, i, j);
      var time := (distance as real) / busVelocity;
      e := Edge(stopToVertex[bus.stops[j % n]] + 1, stopToVertex[bus.stops[i]], time);
    }

    /** BuildRoute: an unknown stop name is an error (std::out_of_range from `.at`), no
        path is no route, and a path is translated item by item. */
    method BuildRoute(from: string, to: string, engine: Engine) returns (r: Result<Option<RouteInfo>, string>)
      requires Valid()
      requires from in db.stops && to in db.stops ==>
        var found := engine(2 * FirstPos(db.stops, from), 2 * FirstPos(db.stops, to));
        found.Some? ==> forall k :: 0 <= k < |found.value.edges| ==> found.value.edges[k] < |edges|
      ensures from !in db.stops ==> r == Err(from)
      ensures from in db.stops && to !in db.stops ==> r == Err(to)
      ensures from in db.stops && to in db.stops ==>
        var found := engine(2 * FirstPos(db.stops, from), 2 * FirstPos(db.stops, to));
        r.Ok? && (r.value.None? <==> found.None?) &&
        (found.Some? ==>
          (InGraph(db, PathEdges(edges, found.value.edges)) &&
           r.value.value == RouteInfo(found.value.weight, Itinerary(db, PathEdges(edges, found.value.edges)))))
    {
      VertexTables(db.stops);
      if from !in stopToVertex {
        return Err(from);
      }
      if to !in stopToVertex {
        return Err(to);
      }
      var fromVertex := stopToVertex[from];
      var toVertex := stopToVertex[to];
      var route := engine(fromVertex, toVertex);
      if route.None? {
        return Ok(None);
      }
      var info := ConvertRouteToRouteInfo(route.value);
      return Ok(Some(info));
    }

    /** ConvertRouteToRouteInfo: the total time is the path weight, and each edge of the
        path becomes one item, in path order. */
    method ConvertRouteToRouteInfo(route: RawRoute) returns (info: RouteInfo)
      requires Valid()
      requires forall k :: 0 <= k < |route.edges| ==> route.edges[k] < |edges|
      ensures InGraph(db, PathEdges(edges, route.edges))
      ensures info == RouteInfo(route.weight, Itinerary(db, PathEdges(edges, route.edges)))
    {
      VertexTables(db.stops);
      ghost var path := PathEdges(edges, route.edges);
      forall k | 0 <= k < |path|
        ensures path[k].from < 2 * |db.stops| && path[k].to < 2 * |db.stops|
      {
        GraphEdgeShape(db, busWaitTime, busVelocity, route.edges[k]);
      }
      var items: seq<RouteItem> := [];
      for i := 0 to |route.edges|
        invariant items == Itinerary(db, path[..i])
      {
        var item := EdgeToItem(edges[route.edges[i]]);
        assert path[..i + 1][..i] == path[..i];
        items := items + [item];
      }
      assert path[..|path|] == path;
      info := RouteInfo(route.weight, items);
    }

    /** The body of ConvertRouteToRouteInfo's loop: a wait at the stop of an even vertex,
        or a ride on the bus found between the two stops. */
    method EdgeToItem(edge: Edge) returns (item: RouteItem)
      requires vertexToStop == VertexStops(db.stops)
      requires edge.from < 2 * |db.stops| && edge.to < 2 * |db.stops|
      ensures item == ItemFor(db, edge)
    {
      if edge.from % 2 == 0 {
        VertexStopAt(db.stops, edge.from);
        item := RouteItem(Wait, vertexToStop[edge.from], edge.weight, 0);
      } else {
        VertexStopAt(db.stops, edge.from - 1);
        VertexStopAt(db.stops, edge.to);
        var fromStop := vertexToStop[edge.from - 1];
        var toStop := vertexToStop[edge.to];
        assert fromStop == StopOf(db, edge.from - 1) && toStop == StopOf(db, edge.to);
        var busName := FindBusBetweenStops(db, fromStop, toStop);
        var spanCount := CalculateSpans(db, busName, fromStop, toStop);
        item := RouteItem(Bus, busName, edge.weight, spanCount);
      }
    }
  }
}
