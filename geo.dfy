/** Geographic coordinates and the great-circle distance between them. */
module Geo {
  /** A (latitude, longitude) pair in degrees. */
  datatype Coords = Coords(lat: real, lon: real)

  /** The Haversine great-circle distance in km (local.py:72-86). Its
      floating-point trigonometry is not modelled: every operation that
      uses it takes it as a value of this type. */
  type Distance = (Coords, Coords) -> real

  /** Haversine distance does not depend on the order of its two points. */
  ghost predicate SymmetricDistance(geo: Distance) {
    forall p, q :: geo(p, q) == geo(q, p)
  }
}
