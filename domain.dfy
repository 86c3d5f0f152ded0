/** The value types shared by the catalogue, the readers and the router. */
module Domain {
  /** A point on the globe in degrees (geo.h); only compared and passed on here. */
  datatype Coordinates = Coordinates(lat: real, lng: real)

  /** A stop: its name and where it is. */
  datatype Stop = Stop(name: string, coordinates: Coordinates)

  /** A bus: its name, the stops it calls at in order (repeats allowed), and whether the
      route is a ring. A stop is referred to by its position in the catalogue's stop store,
      which stands for the C++ pointer into the never-shrinking deque. */
  datatype Bus = Bus(name: string, stops: seq<nat>, isCircular: bool)

  /** Statistics of one bus. */
  datatype BusInfo = BusInfo(stopsOnRoute: int, uniqueStops: int, routeLength: real,
                             geoLength: real, curvature: real)

  /** A default-constructed BusInfo: every counter is zero. */
  const NoBusInfo := BusInfo(0, 0, 0.0, 0.0, 0.0)
}
