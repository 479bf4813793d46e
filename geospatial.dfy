/**
 Elevation of a geostationary satellite seen from an observer on the Earth's
 surface (src/lib/geospatial.ts).

 Dafny has no trigonometry, so the primitives the source takes from `Math`
 (cos, atan, sqrt and PI) are passed in as a `Trig` value. `Trig` admits only
 those choices that have the few properties the proofs rely on (see `Lawful`);
 nothing else about the real functions is assumed.
 */
module Geospatial {

  /** Mean Earth radius, in km. */
  const EarthRadiusKm: real := 6378.0
  /** Radius of the geostationary orbit, in km. */
  const GeoSatelliteRadiusKm: real := 42164.0
  /** Below this value of cos(psi) the satellite is under the horizon. */
  const HorizonRatio: real := EarthRadiusKm / GeoSatelliteRadiusKm
  /** What the calculator returns for a satellite below the horizon. */
  const BelowHorizon: real := -90.0

  /** An observer's position, in degrees. */
  datatype GeoCoordinate = GeoCoordinate(lat: real, lon: real)

  /** The primitives the source takes from JavaScript's `Math`. */
  datatype TrigOps = TrigOps(cos: real -> real, atan: real -> real, sqrt: real -> real, pi: real)

  /** cos is even: equal on opposite arguments. */
  ghost predicate CosEvenAt(t: TrigOps, x: real, y: real) {
    x + y == 0.0 ==> t.cos(x) == t.cos(y)
  }

  /** cos does not increase on [0, pi]. */
  ghost predicate CosNonIncreasingAt(t: TrigOps, x: real, y: real) {
    0.0 <= x <= y <= t.pi ==> t.cos(y) <= t.cos(x)
  }

  /** atan is monotone. */
  ghost predicate AtanMonotoneAt(t: TrigOps, x: real, y: real) {
    x <= y ==> t.atan(x) <= t.atan(y)
  }

  /** sqrt is monotone on non-negative arguments. */
  ghost predicate SqrtMonotoneAt(t: TrigOps, x: real, y: real) {
    0.0 <= x <= y ==> t.sqrt(x) <= t.sqrt(y)
  }

  /**
   The facts about cos, atan, sqrt and pi that the model relies on. The
   two-argument laws are only instantiated where a proof names them (through
   the lemmas CosEven, CosNonIncreasing, AtanMonotone and SqrtMonotone).
   */
  ghost predicate Lawful(t: TrigOps) {
    && t.pi > 0.0
    && (forall x :: -1.0 <= t.cos(x) <= 1.0)
    && t.cos(0.0) == 1.0
    && (forall x, y {:trigger CosEvenAt(t, x, y)} :: CosEvenAt(t, x, y))
    && (forall x, y {:trigger CosNonIncreasingAt(t, x, y)} :: CosNonIncreasingAt(t, x, y))
    && (forall x :: 0.0 <= x <= t.pi / 2.0 ==> 0.0 <= t.cos(x))
    && t.atan(0.0) == 0.0
    && (forall x, y {:trigger AtanMonotoneAt(t, x, y)} :: AtanMonotoneAt(t, x, y))
    && (forall x :: -t.pi / 2.0 < t.atan(x) < t.pi / 2.0)
    && (forall x :: 0.0 < x ==> 0.0 < t.sqrt(x))
    && (forall x, y {:trigger SqrtMonotoneAt(t, x, y)} :: SqrtMonotoneAt(t, x, y))
  }

  /**
   A lawful choice of primitives. The witness (a constant cos, a clamped
   atan, a truncated identity for sqrt and pi = 4) shows that the facts in
   `Lawful` do not contradict each other.
   */
  type Trig = t: TrigOps | Lawful(t)
    witness TrigOps(
      x => 1.0,
      x => if x < -1.0 then -1.0 else if 1.0 < x then 1.0 else x,
      x => if 0.0 < x then x else 0.0,
      4.0)

  lemma CosEven(t: Trig, x: real)
    ensures t.cos(-x) == t.cos(x)
  {
    assert CosEvenAt(t, -x, x);
  }

  lemma CosNonIncreasing(t: Trig, x: real, y: real)
    requires 0.0 <= x <= y <= t.pi
    ensures t.cos(y) <= t.cos(x)
  {
    assert CosNonIncreasingAt(t, x, y);
  }

  lemma AtanMonotone(t: Trig, x: real, y: real)
    requires x <= y
    ensures t.atan(x) <= t.atan(y)
  {
    assert AtanMonotoneAt(t, x, y);
  }

  lemma SqrtMonotone(t: Trig, x: real, y: real)
    requires 0.0 <= x <= y
    ensures t.sqrt(x) <= t.sqrt(y)
  {
    assert SqrtMonotoneAt(t, x, y);
  }

  /** degToRad: degrees times pi/180. */
  function DegToRad(t: Trig, degrees: real): real {
    degrees * (t.pi / 180.0)
  }

  /** radToDeg: radians times 180/pi. */
  function RadToDeg(t: Trig, radians: real): real {
    radians * (180.0 / t.pi)
  }

  lemma DegRadRoundTrip(t: Trig, x: real)
    ensures RadToDeg(t, DegToRad(t, x)) == x
    ensures DegToRad(t, RadToDeg(t, x)) == x
  {
    assert (t.pi / 180.0) * (180.0 / t.pi) == 1.0;
    calc {
      RadToDeg(t, DegToRad(t, x));
      x * ((t.pi / 180.0) * (180.0 / t.pi));
      x;
    }
    calc {
      DegToRad(t, RadToDeg(t, x));
      x * ((180.0 / t.pi) * (t.pi / 180.0));
      x;
    }
  }

  /** Both conversions are linear: a difference of angles converts to the difference of the conversions. */
  lemma DegToRadDifference(t: Trig, a: real, b: real)
    ensures DegToRad(t, a) - DegToRad(t, b) == DegToRad(t, a - b)
    ensures DegToRad(t, -a) == -DegToRad(t, a)
  {
  }

  /** RadToDeg preserves order and maps (-pi/2, pi/2) into (-90, 90). */
  lemma RadToDegMonotone(t: Trig, a: real, b: real)
    requires a <= b
    ensures RadToDeg(t, a) <= RadToDeg(t, b)
  {
    var k := 180.0 / t.pi;
    assert 0.0 < k;
    assert a * k <= b * k;
  }

  lemma RadToDegStrict(t: Trig, a: real, b: real)
    requires a < b
    ensures RadToDeg(t, a) < RadToDeg(t, b)
  {
    var k := 180.0 / t.pi;
    assert 0.0 < k;
    assert a * k < b * k;
  }

  lemma RadToDegQuarterTurn(t: Trig)
    ensures RadToDeg(t, t.pi / 2.0) == 90.0
    ensures RadToDeg(t, -t.pi / 2.0) == -90.0
  {
    assert (t.pi / 2.0) * (180.0 / t.pi) == 90.0;
  }

  /** cos(psi) for the central angle psi between the observer and the sub-satellite point. */
  function CosPsi(t: Trig, observer: GeoCoordinate, satelliteLon: real): (c: real)
    ensures -1.0 <= c <= 1.0
  {
    var phi := DegToRad(t, observer.lat);
    var lambdaObs := DegToRad(t, observer.lon);
    var lambdaSat := DegToRad(t, satelliteLon);
    ProductOfUnitBounded(t.cos(phi), t.cos(lambdaSat - lambdaObs));
    t.cos(phi) * t.cos(lambdaSat - lambdaObs)
  }

  lemma ProductOfUnitBounded(a: real, b: real)
    requires -1.0 <= a <= 1.0 && -1.0 <= b <= 1.0
    ensures -1.0 <= a * b <= 1.0
  {
    if 0.0 <= a {
      assert a * b <= a * 1.0 && a * (-1.0) <= a * b;
    } else {
      assert a * b <= a * (-1.0) && a * 1.0 <= a * b;
    }
  }

  /**
   The calculation after cos(psi) is known: the sentinel when cos(psi) is
   under the horizon ratio, otherwise atan((cos(psi) - ratio) / sqrt(1 - cos(psi)^2))
   in degrees. At cos(psi) = 1 the source divides by zero and floating point
   gives atan(+infinity), i.e. 90 degrees; the model returns 90 there.
   */
  function ElevationFromCosPsi(t: Trig, cosPsi: real): (e: real)
    ensures -90.0 <= e <= 90.0
    ensures e == BelowHorizon <==> cosPsi < HorizonRatio
    ensures 0.0 <= e <==> HorizonRatio <= cosPsi
  {
    if cosPsi < HorizonRatio then
      BelowHorizon
    else if 1.0 <= cosPsi then
      90.0
    else
      AboveHorizonBounds(t, cosPsi);
      RadToDeg(t, t.atan(HorizonSlope(t, cosPsi)))
  }

  /** (cos(psi) - ratio) / sqrt(1 - cos(psi)^2), the argument of atan. */
  function HorizonSlope(t: Trig, cosPsi: real): (q: real)
    requires HorizonRatio <= cosPsi < 1.0
    ensures 0.0 <= q
  {
    SinPsiPositive(t, cosPsi);
    (cosPsi - HorizonRatio) / t.sqrt(1.0 - cosPsi * cosPsi)
  }

  lemma SinPsiPositive(t: Trig, cosPsi: real)
    requires HorizonRatio <= cosPsi < 1.0
    ensures 0.0 < 1.0 - cosPsi * cosPsi
    ensures 0.0 < t.sqrt(1.0 - cosPsi * cosPsi)
  {
    assert cosPsi * cosPsi < 1.0 * cosPsi;
  }

  lemma AboveHorizonBounds(t: Trig, cosPsi: real)
    requires HorizonRatio <= cosPsi < 1.0
    ensures 0.0 <= RadToDeg(t, t.atan(HorizonSlope(t, cosPsi))) < 90.0
  {
    var a := t.atan(HorizonSlope(t, cosPsi));
    AtanMonotone(t, 0.0, HorizonSlope(t, cosPsi));
    assert 0.0 <= a < t.pi / 2.0;
    RadToDegMonotone(t, 0.0, a);
    assert RadToDeg(t, 0.0) == 0.0;
    RadToDegStrict(t, a, t.pi / 2.0);
    RadToDegQuarterTurn(t);
  }

  /** calculateSatelliteElevation: the elevation in degrees, or the sentinel -90 below the horizon. */
  function Elevation(t: Trig, observer: GeoCoordinate, satelliteLon: real): (e: real)
    ensures -90.0 <= e <= 90.0
    ensures e == BelowHorizon <==> CosPsi(t, observer, satelliteLon) < HorizonRatio
    ensures 0.0 <= e <==> HorizonRatio <= CosPsi(t, observer, satelliteLon)
  {
    ElevationFromCosPsi(t, CosPsi(t, observer, satelliteLon))
  }

  /** Exactly at the horizon ratio the atan branch is taken and gives 0, not the sentinel. */
  lemma ElevationAtHorizon(t: Trig)
    ensures ElevationFromCosPsi(t, HorizonRatio) == 0.0
  {
    assert HorizonSlope(t, HorizonRatio) == 0.0;
  }

  /** Elevation never decreases as cos(psi) grows, i.e. as the central angle shrinks. */
  lemma {:induction false} ElevationMonotoneInCosPsi(t: Trig, c1: real, c2: real)
    requires c1 <= c2
    ensures ElevationFromCosPsi(t, c1) <= ElevationFromCosPsi(t, c2)
  {
    if c1 < HorizonRatio || 1.0 <= c2 {
    } else {
      SlopeMonotone(t, c1, c2);
      AtanMonotone(t, HorizonSlope(t, c1), HorizonSlope(t, c2));
      RadToDegMonotone(t, t.atan(HorizonSlope(t, c1)), t.atan(HorizonSlope(t, c2)));
    }
  }

  lemma SlopeMonotone(t: Trig, c1: real, c2: real)
    requires HorizonRatio <= c1 <= c2 < 1.0
    ensures HorizonSlope(t, c1) <= HorizonSlope(t, c2)
  {
    SinPsiPositive(t, c1);
    SinPsiPositive(t, c2);
    SquareMonotone(c1, c2);
    var d1, d2 := t.sqrt(1.0 - c1 * c1), t.sqrt(1.0 - c2 * c2);
    SqrtMonotone(t, 1.0 - c2 * c2, 1.0 - c1 * c1);
    QuotientMonotone(c1 - HorizonRatio, d1, c2 - HorizonRatio, d2);
  }

  lemma SquareMonotone(a: real, b: real)
    requires 0.0 <= a <= b
    ensures a * a <= b * b
  {
    assert a * a <= a * b;
    assert a * b <= b * b;
  }

  lemma QuotientMonotone(n1: real, d1: real, n2: real, d2: real)
    requires 0.0 <= n1 <= n2 && 0.0 < d2 <= d1
    ensures n1 / d1 <= n2 / d2
  {
    assert n1 / d1 * d1 == n1;
    assert n2 / d2 * d2 == n2;
    assert n1 / d1 <= n1 / d2 by {
      assert n1 / d1 * d2 <= n1 / d1 * d1;
    }
    assert n1 / d2 <= n2 / d2;
  }

  /** Directly overhead: on the equator, below the satellite's slot, the elevation is 90. */
  lemma ElevationOverhead(t: Trig, lon: real)
    ensures Elevation(t, GeoCoordinate(0.0, lon), lon) == 90.0
  {
    assert DegToRad(t, 0.0) == 0.0;
    assert DegToRad(t, lon) - DegToRad(t, lon) == 0.0;
    assert CosPsi(t, GeoCoordinate(0.0, lon), lon) == 1.0;
  }

  /** Shifting the observer and the slot by the same longitude leaves the elevation unchanged. */
  lemma ElevationLongitudeShift(t: Trig, observer: GeoCoordinate, satelliteLon: real, shift: real)
    ensures Elevation(t, GeoCoordinate(observer.lat, observer.lon + shift), satelliteLon + shift)
         == Elevation(t, observer, satelliteLon)
  {
    CosPsiLongitudeShift(t, observer, satelliteLon, shift);
  }

  lemma CosPsiLongitudeShift(t: Trig, observer: GeoCoordinate, satelliteLon: real, shift: real)
    ensures CosPsi(t, GeoCoordinate(observer.lat, observer.lon + shift), satelliteLon + shift)
         == CosPsi(t, observer, satelliteLon)
  {
    DegToRadDifference(t, satelliteLon + shift, observer.lon + shift);
    DegToRadDifference(t, satelliteLon, observer.lon);
    assert (satelliteLon + shift) - (observer.lon + shift) == satelliteLon - observer.lon;
  }

  /** Mirroring the observer across the equator leaves the elevation unchanged. */
  lemma ElevationLatitudeMirror(t: Trig, observer: GeoCoordinate, satelliteLon: real)
    ensures Elevation(t, GeoCoordinate(-observer.lat, observer.lon), satelliteLon)
         == Elevation(t, observer, satelliteLon)
  {
    CosPsiLatitudeMirror(t, observer, satelliteLon);
  }

  lemma CosPsiLatitudeMirror(t: Trig, observer: GeoCoordinate, satelliteLon: real)
    ensures CosPsi(t, GeoCoordinate(-observer.lat, observer.lon), satelliteLon)
         == CosPsi(t, observer, satelliteLon)
  {
    DegToRadDifference(t, observer.lat, 0.0);
    CosEven(t, DegToRad(t, observer.lat));
  }

  /**
   Swapping the observer's longitude and the slot, which negates their
   difference, leaves the elevation unchanged.
   */
  lemma ElevationLongitudeSwap(t: Trig, observer: GeoCoordinate, satelliteLon: real)
    ensures Elevation(t, GeoCoordinate(observer.lat, satelliteLon), observer.lon)
         == Elevation(t, observer, satelliteLon)
  {
    CosPsiLongitudeSwap(t, observer, satelliteLon);
  }

  lemma CosPsiLongitudeSwap(t: Trig, observer: GeoCoordinate, satelliteLon: real)
    ensures CosPsi(t, GeoCoordinate(observer.lat, satelliteLon), observer.lon)
         == CosPsi(t, observer, satelliteLon)
  {
    var a := DegToRad(t, satelliteLon) - DegToRad(t, observer.lon);
    var b := DegToRad(t, observer.lon) - DegToRad(t, satelliteLon);
    assert b == -a;
    CosEven(t, a);
  }

  /**
   For an observer at a valid latitude, moving the slot further away in
   longitude (up to half a turn) never raises the elevation.
   */
  lemma ElevationMonotoneInSeparation(t: Trig, observer: GeoCoordinate, d1: real, d2: real)
    requires -90.0 <= observer.lat <= 90.0
    requires 0.0 <= d1 <= d2 <= 180.0
    ensures Elevation(t, observer, observer.lon + d2) <= Elevation(t, observer, observer.lon + d1)
  {
    CosPsiMonotoneInSeparation(t, observer, d1, d2);
    ElevationMonotoneInCosPsi(t, CosPsi(t, observer, observer.lon + d2), CosPsi(t, observer, observer.lon + d1));
  }

  lemma CosPsiMonotoneInSeparation(t: Trig, observer: GeoCoordinate, d1: real, d2: real)
    requires -90.0 <= observer.lat <= 90.0
    requires 0.0 <= d1 <= d2 <= 180.0
    ensures CosPsi(t, observer, observer.lon + d2) <= CosPsi(t, observer, observer.lon + d1)
  {
    var cp := t.cos(DegToRad(t, observer.lat));
    var c1, c2 := t.cos(DegToRad(t, d1)), t.cos(DegToRad(t, d2));
    assert 0.0 <= cp by {
      CosOfLatitudeNonNegative(t, observer.lat);
    }
    assert c2 <= c1 by {
      DegToRadWithin(t, d1, d2, 180.0);
      assert DegToRad(t, 180.0) == t.pi;
      CosNonIncreasing(t, DegToRad(t, d1), DegToRad(t, d2));
    }
    var far := CosPsi(t, observer, observer.lon + d2);
    var near := CosPsi(t, observer, observer.lon + d1);
    CosPsiAtOffset(t, observer, d1);
    CosPsiAtOffset(t, observer, d2);
    ScaledOrder(far, near, cp, c2, c1);
  }

  lemma ScaledOrder(far: real, near: real, k: real, a: real, b: real)
    requires far == k * a && near == k * b
    requires 0.0 <= k && a <= b
    ensures far <= near
  {
  }

  lemma CosPsiAtOffset(t: Trig, observer: GeoCoordinate, d: real)
    ensures CosPsi(t, observer, observer.lon + d) == t.cos(DegToRad(t, observer.lat)) * t.cos(DegToRad(t, d))
  {
    DegToRadDifference(t, observer.lon + d, observer.lon);
    assert observer.lon + d - observer.lon == d;
  }

  lemma DegToRadWithin(t: Trig, a: real, b: real, c: real)
    requires 0.0 <= a <= b <= c
    ensures 0.0 <= DegToRad(t, a) <= DegToRad(t, b) <= DegToRad(t, c)
  {
    var k := t.pi / 180.0;
    assert 0.0 * k <= a * k <= b * k <= c * k;
  }

  /** The cosine of a latitude in [-90, 90] is non-negative. */
  lemma CosOfLatitudeNonNegative(t: Trig, lat: real)
    requires -90.0 <= lat <= 90.0
    ensures 0.0 <= t.cos(DegToRad(t, lat))
  {
    assert DegToRad(t, 90.0) == t.pi / 2.0;
    if 0.0 <= lat {
      DegToRadWithin(t, lat, 90.0, 90.0);
    } else {
      DegToRadWithin(t, -lat, 90.0, 90.0);
      DegToRadDifference(t, lat, 0.0);
      CosEven(t, DegToRad(t, -lat));
    }
  }
}
