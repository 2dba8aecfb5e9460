/** The spherical-earth formulas of walking_timer_callback.cs: great-circle
    distance, initial bearing and the destination point reached from a start
    point along a bearing.  The trigonometric primitives of System.Math are
    not interpreted: they are the fields of a `Trig` value that every formula
    takes as a parameter, so only facts that follow from the arithmetic
    structure of the formulas (and from trigonometric laws stated explicitly
    where a lemma needs them) are proved. */
module Geodesy {

  /** Math.PI: the double nearest to pi, written out exactly. */
  const PI: real := 3.141592653589793115997963468544185161590576171875

  /** The earth radius in metres used by every formula. */
  const EarthRadius: real := 6378100.0

  /** A Bing Maps Location: latitude and longitude in degrees, altitude in metres.
      Equality is by value, as Location.Equals compares the coordinates. */
  datatype Location = Location(lat: real, lon: real, alt: real)

  /** The System.Math trigonometric functions, left uninterpreted. */
  datatype Trig = Trig(
    sin: real -> real,
    cos: real -> real,
    acos: real -> real,
    asin: real -> real,
    atan2: (real, real) -> real)

  function DegreesToRadians(angle: real): real
  {
    angle * PI / 180.0
  }

  function RadiansToDegrees(radians: real): real
  {
    radians * (180.0 / PI)
  }

  /** Over the reals the two conversions are inverse to each other. */
  lemma DegreesRadiansRoundTrip(a: real)
    ensures RadiansToDegrees(DegreesToRadians(a)) == a
    ensures DegreesToRadians(RadiansToDegrees(a)) == a
  {
  }

  /** A point of space in metres, earth-centred. */
  datatype Vec3 = Vec3(x: real, y: real, z: real)

  /** The Cartesian position of a latitude/longitude on the sphere
      (the blocks marked "P" and "Q" in distance_on_geoid). */
  function OnSphere(t: Trig, lat: real, lon: real): Vec3
  {
    var la := DegreesToRadians(lat);
    var lo := DegreesToRadians(lon);
    var rho := EarthRadius * t.cos(la);
    Vec3(rho * t.cos(lo), rho * t.sin(lo), EarthRadius * t.sin(la))
  }

  function Dot(p: Vec3, q: Vec3): real
  {
    p.x * q.x + p.y * q.y + p.z * q.z
  }

  /** distance_on_geoid: the arc length subtended by the angle between the
      two position vectors. */
  function DistanceOnGeoid(t: Trig, lat1: real, lon1: real, lat2: real, lon2: real): real
  {
    var r := EarthRadius;
    var cosTheta := Dot(OnSphere(t, lat1, lon1), OnSphere(t, lat2, lon2)) / (r * r);
    r * t.acos(cosTheta)
  }

  /** distance_on_loc: the distance between two locations (altitude ignored). */
  function Distance(t: Trig, a: Location, b: Location): real
  {
    DistanceOnGeoid(t, a.lat, a.lon, b.lat, b.lon)
  }

  /** The dot product is symmetric in P and Q, so the distance is too,
      whatever the trigonometric functions are. */
  lemma DistanceSymmetric(t: Trig, a: Location, b: Location)
    ensures Distance(t, a, b) == Distance(t, b, a)
  {
    var p, q := OnSphere(t, a.lat, a.lon), OnSphere(t, b.lat, b.lon);
    assert Dot(p, q) == Dot(q, p);
  }

  /** The altitude plays no part in the distance. */
  lemma DistanceIgnoresAltitude(t: Trig, a: Location, b: Location, altA: real, altB: real)
    ensures Distance(t, a.(alt := altA), b.(alt := altB)) == Distance(t, a, b)
  {
  }

  ghost predicate Pythagorean(t: Trig)
  {
    forall x :: t.sin(x) * t.sin(x) + t.cos(x) * t.cos(x) == 1.0
  }

  /** With sin^2 + cos^2 = 1 and acos(1) = 0, a point is at distance zero from
      itself (in exact arithmetic; the double formula may produce NaN here). */
  lemma DistanceToSelf(t: Trig, p: Location)
    requires Pythagorean(t)
    requires t.acos(1.0) == 0.0
    ensures Distance(t, p, p) == 0.0
  {
    var r := EarthRadius;
    var la := DegreesToRadians(p.lat);
    var lo := DegreesToRadians(p.lon);
    var cl, sl, co, so := t.cos(la), t.sin(la), t.cos(lo), t.sin(lo);
    var rho := r * cl;
    var v := OnSphere(t, p.lat, p.lon);
    assert v == Vec3(rho * co, rho * so, r * sl);
    assert co * co + so * so == 1.0 by { assert so * so + co * co == 1.0; }
    assert sl * sl + cl * cl == 1.0;
    calc {
      Dot(v, v);
      (rho * co) * (rho * co) + (rho * so) * (rho * so) + (r * sl) * (r * sl);
      rho * rho * (co * co + so * so) + r * r * (sl * sl);
      rho * rho + r * r * (sl * sl);
      r * r * (cl * cl + sl * sl);
      r * r;
    }
    assert Dot(v, v) / (r * r) == 1.0;
  }

  /** C#'s `%` on doubles: the remainder of the division truncated toward
      zero, carrying the sign of the dividend. */
  function FMod(a: real, b: real): (r: real)
    requires b > 0.0
    ensures a >= 0.0 ==> 0.0 <= r < b
    ensures a < 0.0 ==> -b < r <= 0.0
  {
    if a >= 0.0 then
      FloorRemainder(a, b);
      a - b * ((a / b).Floor as real)
    else
      FloorRemainder(-a, b);
      -((-a) - b * (((-a) / b).Floor as real))
  }

  /** For x >= 0 and b > 0, x - b * floor(x / b) lies in [0, b). */
  lemma FloorRemainder(x: real, b: real)
    requires x >= 0.0 && b > 0.0
    ensures 0.0 <= x - b * ((x / b).Floor as real) < b
  {
    var m := x / b;
    var q := m.Floor as real;
    assert q <= m < q + 1.0;
    assert b * m == x;
    MulLe(b, q, m);
    MulStrict(b, m, q + 1.0);
    assert b * (q + 1.0) == b * q + b;
    assert x - b * q < b;
    assert x - b * ((x / b).Floor as real) == x - b * q;
  }

  lemma MulLe(b: real, u: real, v: real)
    requires b > 0.0 && u <= v
    ensures b * u <= b * v
  {
  }

  lemma MulStrict(b: real, u: real, v: real)
    requires b > 0.0 && u < v
    ensures b * u < b * v
  {
  }

  /** The normalisation Bearing applies to the output of Math.Atan2. */
  function NormalizeAngle(a: real): real
  {
    FMod(a + PI * 2.0, PI * 2.0)
  }

  /** For every angle Atan2 can return, (-pi, pi], the normalisation yields the
      same direction in [0, 2 pi): negative angles are shifted by one turn,
      the others are left alone. */
  lemma NormalizeAngleRange(a: real)
    requires -PI < a <= PI
    ensures 0.0 <= NormalizeAngle(a) < 2.0 * PI
    ensures NormalizeAngle(a) == if a < 0.0 then a + 2.0 * PI else a
  {
    var b := PI * 2.0;
    var x := a + b;
    if a < 0.0 {
      assert 0.0 <= x / b < 1.0;
      assert (x / b).Floor == 0;
    } else {
      assert 1.0 <= x / b < 2.0;
      assert (x / b).Floor == 1;
    }
  }

  /** The initial bearing from `p1` towards `p2`, in radians. */
  function Bearing(t: Trig, p1: Location, p2: Location): real
  {
    var x := t.cos(DegreesToRadians(p1.lat)) * t.sin(DegreesToRadians(p2.lat))
      - t.sin(DegreesToRadians(p1.lat)) * t.cos(DegreesToRadians(p2.lat))
        * t.cos(DegreesToRadians(p2.lon - p1.lon));
    var y := t.sin(DegreesToRadians(p2.lon - p1.lon)) * t.cos(DegreesToRadians(p2.lat));
    NormalizeAngle(t.atan2(y, x))
  }

  ghost predicate Atan2InRange(t: Trig)
  {
    forall y, x :: -PI < t.atan2(y, x) <= PI
  }

  /** Whenever Atan2 keeps to its documented range, a bearing lies in [0, 2 pi). */
  lemma BearingInRange(t: Trig, p1: Location, p2: Location)
    requires Atan2InRange(t)
    ensures 0.0 <= Bearing(t, p1, p2) < 2.0 * PI
  {
    var x := t.cos(DegreesToRadians(p1.lat)) * t.sin(DegreesToRadians(p2.lat))
      - t.sin(DegreesToRadians(p1.lat)) * t.cos(DegreesToRadians(p2.lat))
        * t.cos(DegreesToRadians(p2.lon - p1.lon));
    var y := t.sin(DegreesToRadians(p2.lon - p1.lon)) * t.cos(DegreesToRadians(p2.lat));
    NormalizeAngleRange(t.atan2(y, x));
  }

  /** The latitude (radians) reached from latitude `lat` after an angular
      distance `ratio` along `bearing`. */
  function EndLatitude(t: Trig, lat: real, ratio: real, bearing: real): real
  {
    t.asin(t.sin(lat) * t.cos(ratio) + t.cos(lat) * t.sin(ratio) * t.cos(bearing))
  }

  /** The longitude (radians) reached from (`lat`, `lon`) after an angular
      distance `ratio` along `bearing`, given the end latitude. */
  function EndLongitude(t: Trig, lat: real, lon: real, ratio: real, bearing: real, endLat: real): real
  {
    lon + t.atan2(t.sin(bearing) * t.sin(ratio) * t.cos(lat),
                  t.cos(ratio) - t.sin(lat) * t.sin(endLat))
  }

  /** FindPointAtDistanceFrom: the direct geodesic problem on the sphere.  The
      result carries latitude and longitude only, so its altitude is 0. */
  function Destination(t: Trig, start: Location, bearing: real, distance: real): (r: Location)
    ensures r.alt == 0.0
  {
    var ratio := distance / EarthRadius;
    var lat := DegreesToRadians(start.lat);
    var lon := DegreesToRadians(start.lon);
    var endLat := EndLatitude(t, lat, ratio, bearing);
    Location(RadiansToDegrees(endLat),
             RadiansToDegrees(EndLongitude(t, lat, lon, ratio, bearing, endLat)), 0.0)
  }

  ghost predicate AsinInvertsSin(t: Trig)
  {
    forall x :: -PI / 2.0 <= x <= PI / 2.0 ==> t.asin(t.sin(x)) == x
  }

  ghost predicate CosPositiveInside(t: Trig)
  {
    forall x :: -PI / 2.0 < x < PI / 2.0 ==> t.cos(x) > 0.0
  }

  ghost predicate Atan2OnPositiveAxis(t: Trig)
  {
    forall x :: x > 0.0 ==> t.atan2(0.0, x) == 0.0
  }

  /** A step of length zero from a point off the poles stays on that point
      (the altitude is dropped, as FindPointAtDistanceFrom never sets it). */
  lemma DestinationZeroDistance(t: Trig, start: Location, bearing: real)
    requires -90.0 < start.lat < 90.0
    requires t.sin(0.0) == 0.0 && t.cos(0.0) == 1.0
    requires Pythagorean(t) && AsinInvertsSin(t) && CosPositiveInside(t) && Atan2OnPositiveAxis(t)
    ensures Destination(t, start, bearing, 0.0) == Location(start.lat, start.lon, 0.0)
  {
    var ratio := 0.0 / EarthRadius;
    assert ratio == 0.0;
    var lat := DegreesToRadians(start.lat);
    var lon := DegreesToRadians(start.lon);
    assert -PI / 2.0 < lat < PI / 2.0;
    var c, s := t.cos(lat), t.sin(lat);
    assert c > 0.0;
    assert t.sin(ratio) == 0.0 && t.cos(ratio) == 1.0;
    assert s * t.cos(ratio) + c * t.sin(ratio) * t.cos(bearing) == s;
    var endLat := EndLatitude(t, lat, ratio, bearing);
    assert endLat == t.asin(s);
    assert endLat == lat;
    assert t.sin(endLat) == s;
    var den := t.cos(ratio) - s * t.sin(endLat);
    assert s * s + c * c == 1.0;
    assert den == c * c;
    SquarePositive(den, c);
    var num := t.sin(bearing) * t.sin(ratio) * t.cos(lat);
    assert num == 0.0;
    assert t.atan2(num, den) == 0.0;
    assert EndLongitude(t, lat, lon, ratio, bearing, endLat) == lon + t.atan2(num, den);
    DegreesRadiansRoundTrip(start.lat);
    DegreesRadiansRoundTrip(start.lon);
  }

  /** A number equal to the square of a positive number is positive. */
  lemma SquarePositive(den: real, c: real)
    requires c > 0.0 && den == c * c
    ensures den > 0.0
  {
    calc {
      den;
      == c * c;
      > 0.0 * c;
      == 0.0;
    }
  }
}
