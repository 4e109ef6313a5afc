/**
 * The simulated vessel of ramdom.py: a triangle wave drives the latitude up
 * and down around a fixed start while the longitude stays put; course and
 * speed follow from the wave; positions go through the DDMM <-> decimal
 * conversions and are sent as VTG, RMC and GGA sentences. Arithmetic is exact
 * over `real`; IEEE rounding and the fixed-point rendering of the fields are
 * not modelled.
 */
module Ramdom {
  import opened PyStr
  import opened Nmea

  // -------------------------------------------------------- triangle_wave

  lemma ScaleUnit(p: real, f: real)
    requires p != 0.0 && 0.0 <= f < 1.0
    ensures p > 0.0 ==> 0.0 <= p * f < p
    ensures p < 0.0 ==> p < p * f <= 0.0
  {
  }

  /** The fractional part of x, in [0, 1). */
  function Frac(x: real): (f: real)
    ensures 0.0 <= f < 1.0
  {
    x - x.Floor as real
  }

  /**
   * Python's float `t % p`, which is `t - p * floor(t / p)`: the remainder
   * has the sign of the divisor and differs from t by whole periods.
   */
  function PyMod(t: real, p: real): (r: real)
    requires p != 0.0
    ensures p > 0.0 ==> 0.0 <= r < p
    ensures p < 0.0 ==> p < r <= 0.0
  {
    var f := Frac(t / p);
    ScaleUnit(p, f);
    assert p > 0.0 ==> p * f < p;
    p * f
  }

  /** The remainder is `t - p * floor(t / p)`, so it differs from t by a whole number of periods. */
  lemma PyModIdentity(t: real, p: real)
    requires p != 0.0
    ensures PyMod(t, p) == t - p * (t / p).Floor as real
  {
  }

  /** `(t % period) / period`: the fractional part of `t / period`. */
  function Phase(t: real, period: real): (x: real)
    requires period != 0.0
    ensures 0.0 <= x < 1.0
    ensures x == t / period - (t / period).Floor as real
  {
    assert PyMod(t, period) / period == Frac(t / period);
    PyMod(t, period) / period
  }

  /** The three linear pieces of `triangle_wave` as a function of the phase. */
  function Triangle(x: real): (y: real)
    ensures 0.0 <= x < 1.0 ==> -1.0 <= y <= 1.0
  {
    if x < 0.25 then 4.0 * x
    else if x < 0.75 then 2.0 - 4.0 * x
    else -4.0 + 4.0 * x
  }

  /** `triangle_wave(t, period)`: a wave in [-1, 1] for every non-zero period. */
  function TriangleWave(t: real, period: real): (w: real)
    requires period != 0.0
    ensures -1.0 <= w <= 1.0
  {
    Triangle(Phase(t, period))
  }

  /**
   * Over time, the wave is 0, 1, 0, -1 and 0 again at t = 0, P/4, P/2, 3P/4
   * and P, for any non-zero period P.
   */
  lemma TriangleKnots(p: real)
    requires p != 0.0
    ensures TriangleWave(0.0, p) == 0.0 && TriangleWave(p / 4.0, p) == 1.0 && TriangleWave(p / 2.0, p) == 0.0
    ensures TriangleWave(3.0 * p / 4.0, p) == -1.0 && TriangleWave(p, p) == 0.0
  {
    assert 0.0 / p == 0.0;
    assert (p / 4.0) / p == 0.25;
    assert (p / 2.0) / p == 0.5;
    assert (3.0 * p / 4.0) / p == 0.75;
    assert p / p == 1.0;
  }

  function Abs(x: real): real {
    if x < 0.0 then -x else x
  }

  lemma TriangleLipschitzOrdered(x: real, y: real)
    requires 0.0 <= x <= y < 1.0
    ensures Abs(Triangle(x) - Triangle(y)) <= 4.0 * (y - x)
  {
    if x < 0.25 && 0.75 <= y {
      assert Triangle(x) - Triangle(y) == 4.0 * x + 4.0 - 4.0 * y;
    }
  }

  /** Continuity: the wave never moves faster than slope 4 within a period... */
  lemma TriangleLipschitz(x: real, y: real)
    requires 0.0 <= x < 1.0 && 0.0 <= y < 1.0
    ensures Abs(Triangle(x) - Triangle(y)) <= 4.0 * Abs(x - y)
  {
    if x <= y {
      TriangleLipschitzOrdered(x, y);
    } else {
      TriangleLipschitzOrdered(y, x);
    }
  }

  /** ...and it closes up across the end of a period, where the phase wraps from 1 back to 0. */
  lemma TriangleWraps(x: real)
    requires 0.75 <= x < 1.0
    ensures Abs(Triangle(x) - Triangle(0.0)) <= 4.0 * (1.0 - x)
  {
  }

  /** Shifting the time by whole periods does not change the phase. */
  lemma PhasePeriodic(t: real, period: real, k: int)
    requires period != 0.0
    ensures Phase(t + k as real * period, period) == Phase(t, period)
  {
    var u := t / period;
    assert (t + k as real * period) / period == u + k as real;
    assert (u + k as real).Floor == u.Floor + k;
  }

  /** `triangle_wave(t + k * period, period) == triangle_wave(t, period)`. */
  lemma WavePeriodic(t: real, period: real, k: int)
    requires period != 0.0
    ensures TriangleWave(t + k as real * period, period) == TriangleWave(t, period)
  {
    PhasePeriodic(t, period, k);
  }

  // ------------------------------------------------- course, speed, track

  /** Which linear piece of the wave a phase lies on. */
  function Segment(x: real): int {
    if x < 0.25 then 0 else if x < 0.75 then 1 else 2
  }

  /** The course over ground for a phase: 0.0 on the rising pieces, 180.0 on the falling one. */
  function Heading(x: real): real {
    if x < 0.25 || x >= 0.75 then 0.0 else 180.0
  }

  /**
   * The course is 0.0 exactly where the wave rises and 180.0 exactly where it
   * falls: for two phases on one piece, the later one is higher iff the heading
   * is north.
   */
  lemma HeadingFollowsWave(x: real, y: real)
    requires 0.0 <= x < y < 1.0 && Segment(x) == Segment(y)
    ensures Heading(x) == 0.0 || Heading(x) == 180.0
    ensures Heading(x) == 0.0 <==> Triangle(x) < Triangle(y)
    ensures Heading(x) == 180.0 <==> Triangle(x) > Triangle(y)
  {
  }

  /** `cog` in the loop: the heading of the phase `(t % period) / period`. */
  function Course(t: real, period: real): (c: real)
    requires period != 0.0
    ensures c == 0.0 || c == 180.0
    ensures c == 0.0 <==> Segment(Phase(t, period)) != 1
  {
    Heading(Phase(t, period))
  }

  /**
   * `speed_knots = (2 * amp_nm) / ((period_sec / 2) / 3600.0)`: the speed that
   * covers the full swing of 2 * amp_nm nautical miles in half a period.
   */
  function SpeedKnots(ampNm: real, period: real): (v: real)
    requires period != 0.0
    ensures v * ((period / 2.0) / 3600.0) == 2.0 * ampNm
    ensures v == 14400.0 * ampNm / period
    ensures ampNm > 0.0 && period > 0.0 ==> v > 0.0
  {
    var h := (period / 2.0) / 3600.0;
    assert h == period / 7200.0;
    assert (2.0 * ampNm) / h == 14400.0 * ampNm / period;
    (2.0 * ampNm) / h
  }

  lemma ScaleBound(c: real, w: real)
    requires -1.0 <= w <= 1.0
    ensures -Abs(c) <= c * w <= Abs(c)
  {
    if c < 0.0 {
      assert c * w == -((-c) * w);
      assert -(-c) <= (-c) * w <= -c;
    }
  }

  /** `lat = start_lat + (amp_nm / 60.0) * w`: one nautical mile is one minute of latitude. */
  function Latitude(startLat: real, ampNm: real, t: real, period: real): (lat: real)
    requires period != 0.0
    ensures startLat - Abs(ampNm) / 60.0 <= lat <= startLat + Abs(ampNm) / 60.0
  {
    var w := TriangleWave(t, period);
    ScaleBound(ampNm / 60.0, w);
    startLat + (ampNm / 60.0) * w
  }

  /** Two instants in the same period and on the same piece of the wave. */
  predicate SameLeg(t1: real, t2: real, period: real)
    requires period != 0.0
  {
    (t1 / period).Floor == (t2 / period).Floor && Segment(Phase(t1, period)) == Segment(Phase(t2, period))
  }

  /** Within one leg the phase advances by the elapsed time over the period. */
  lemma PhaseAdvance(t1: real, t2: real, period: real)
    requires period != 0.0 && (t1 / period).Floor == (t2 / period).Floor
    ensures Phase(t2, period) - Phase(t1, period) == (t2 - t1) / period
  {
    assert t2 / period - t1 / period == (t2 - t1) / period;
  }

  /** On one piece the wave changes by 4 times the phase change, up on rising pieces, down on the falling one. */
  lemma TriangleSlope(x: real, y: real)
    requires Segment(x) == Segment(y)
    ensures Triangle(y) - Triangle(x) == if Segment(x) == 1 then -4.0 * (y - x) else 4.0 * (y - x)
  {
  }

  lemma LatitudeDelta(startLat: real, ampNm: real, period: real, t1: real, t2: real)
    requires period != 0.0
    ensures Latitude(startLat, ampNm, t2, period) - Latitude(startLat, ampNm, t1, period) ==
      (ampNm / 60.0) * (TriangleWave(t2, period) - TriangleWave(t1, period))
  {
    var c, w1, w2 := ampNm / 60.0, TriangleWave(t1, period), TriangleWave(t2, period);
    assert c * w2 - c * w1 == c * (w2 - w1);
  }

  /** Speed times elapsed hours is 4 * amp_nm times the phase advance. */
  lemma SpeedTimesHours(ampNm: real, period: real, dt: real)
    requires period != 0.0
    ensures SpeedKnots(ampNm, period) * (dt / 3600.0) == 4.0 * ampNm * (dt / period)
  {
    var v := SpeedKnots(ampNm, period);
    assert v * period == 14400.0 * ampNm;
    var u := dt / period;
    assert dt == u * period;
    assert v * (dt / 3600.0) == v * period * u / 3600.0;
  }

  /** Along one leg the latitude moves by amp_nm / 60 * 4 * (phase advance), north on rising legs. */
  lemma LegDelta(startLat: real, ampNm: real, period: real, t1: real, t2: real)
    requires period != 0.0 && SameLeg(t1, t2, period)
    ensures Latitude(startLat, ampNm, t2, period) - Latitude(startLat, ampNm, t1, period) ==
      (if Course(t1, period) == 0.0 then 1.0 else -1.0) * (ampNm / 15.0) * ((t2 - t1) / period)
  {
    var x1, x2 := Phase(t1, period), Phase(t2, period);
    PhaseAdvance(t1, t2, period);
    TriangleSlope(x1, x2);
    LatitudeDelta(startLat, ampNm, period, t1, t2);
    var c, d := ampNm / 60.0, (t2 - t1) / period;
    assert c * (4.0 * d) == (ampNm / 15.0) * d;
    assert c * (-4.0 * d) == -1.0 * (ampNm / 15.0) * d;
  }

  /**
   * The reported speed is the true speed of the simulated track: along one
   * leg the latitude changes by speed * elapsed hours nautical miles, and it
   * grows exactly when the reported course is 0.0.
   */
  lemma SpeedMatchesTrack(startLat: real, ampNm: real, period: real, t1: real, t2: real)
    requires period > 0.0 && ampNm > 0.0 && t1 < t2 && SameLeg(t1, t2, period)
    ensures Abs(Latitude(startLat, ampNm, t2, period) - Latitude(startLat, ampNm, t1, period)) * 60.0 ==
      SpeedKnots(ampNm, period) * ((t2 - t1) / 3600.0)
    ensures Course(t1, period) == 0.0 <==> Latitude(startLat, ampNm, t1, period) < Latitude(startLat, ampNm, t2, period)
  {
    LegDelta(startLat, ampNm, period, t1, t2);
    SpeedTimesHours(ampNm, period, t2 - t1);
    var d := (t2 - t1) / period;
    assert d > 0.0;
    var m := (ampNm / 15.0) * d;
    assert m > 0.0;
    assert m * 60.0 == 4.0 * ampNm * d;
  }

  // ------------------------------------------------- DDMM <-> decimal degrees

  /** `int(v // 100)`: the whole degrees of a DDMM.MMMMM (or DDDMM.MMMMM) number. */
  function DegreesOf(v: real): int {
    (v / 100.0).Floor
  }

  /** What is left after the degrees: the minutes, `v - deg * 100`. */
  function MinutesOf(v: real): real {
    v - DegreesOf(v) as real * 100.0
  }

  /** `deg + mm / 60.0`, the computation `ddmm_to_decimal_lat` and `dddmm_to_decimal_lon` share before the sign. */
  function DegMinToDegrees(v: real): real {
    DegreesOf(v) as real + MinutesOf(v) / 60.0
  }

  /** `ns.upper() == "S"`: "S", "s", and U+017F, whose upper case is "S". */
  predicate IsSouth(ns: string) {
    ns == "S" || ns == "s" || ns == "\U{017F}"
  }

  /** `ew.upper() == "W"`. */
  predicate IsWest(ew: string) {
    ew == "W" || ew == "w"
  }

  /**
   * `ddmm_to_decimal_lat`: the size is degrees plus minutes over 60, and a
   * positive value comes out negative exactly in the southern hemisphere.
   */
  function DdmmToDecimalLat(ddmm: real, ns: string): (lat: real)
    ensures ddmm >= 0.0 ==> Abs(lat) == DegMinToDegrees(ddmm) && DegreesOf(ddmm) as real <= Abs(lat)
    ensures DegMinToDegrees(ddmm) > 0.0 ==> (lat < 0.0 <==> IsSouth(ns))
  {
    DegreesBounds(ddmm);
    var dec := DegMinToDegrees(ddmm);
    if IsSouth(ns) then -dec else dec
  }

  /**
   * `dddmm_to_decimal_lon`: the size is degrees plus minutes over 60, and a
   * positive value comes out negative exactly in the western hemisphere.
   */
  function DddmmToDecimalLon(dddmm: real, ew: string): (lon: real)
    ensures dddmm >= 0.0 ==> Abs(lon) == DegMinToDegrees(dddmm) && DegreesOf(dddmm) as real <= Abs(lon)
    ensures DegMinToDegrees(dddmm) > 0.0 ==> (lon < 0.0 <==> IsWest(ew))
  {
    DegreesBounds(dddmm);
    var dec := DegMinToDegrees(dddmm);
    if IsWest(ew) then -dec else dec
  }

  /** The numeric part of a `decimal_to_*` result with its hemisphere letter. */
  datatype DegMin = DegMin(value: real, hemisphere: string)

  /** `deg * 100 + (a - deg) * 60.0` for `a = abs(dec)` and `deg = int(a)`, which truncates. */
  function DecimalToDegMinValue(dec: real): real {
    var a := Abs(dec);
    var deg := a.Floor;
    deg as real * 100.0 + (a - deg as real) * 60.0
  }

  /**
   * The numeric part of `decimal_to_ddmm_lat`: "N" exactly for a non-negative
   * latitude, "S" otherwise, and a non-negative DDMM number whose minutes are
   * below 60 and which reads back as the size of the latitude.
   */
  function DecimalToDdmmLat(lat: real): (d: DegMin)
    ensures d.hemisphere == "N" <==> lat >= 0.0
    ensures d.hemisphere == "N" || d.hemisphere == "S"
    ensures d.value >= 0.0 && MinutesOf(d.value) < 60.0 && DegMinToDegrees(d.value) == Abs(lat)
  {
    DegMinRoundTrip(Abs(lat));
    DegMin(DecimalToDegMinValue(lat), if lat >= 0.0 then "N" else "S")
  }

  /**
   * The numeric part of `decimal_to_dddmm_lon`: "E" exactly for a
   * non-negative longitude, "W" otherwise, and a non-negative DDDMM number
   * whose minutes are below 60 and which reads back as the size of the
   * longitude.
   */
  function DecimalToDddmmLon(lon: real): (d: DegMin)
    ensures d.hemisphere == "E" <==> lon >= 0.0
    ensures d.hemisphere == "E" || d.hemisphere == "W"
    ensures d.value >= 0.0 && MinutesOf(d.value) < 60.0 && DegMinToDegrees(d.value) == Abs(lon)
  {
    DegMinRoundTrip(Abs(lon));
    DegMin(DecimalToDegMinValue(lon), if lon >= 0.0 then "E" else "W")
  }

  /** For a non-negative value, the degree-minute number reads back as that value. */
  lemma DegMinRoundTrip(a: real)
    requires a >= 0.0
    ensures DecimalToDegMinValue(a) >= 0.0
    ensures DegreesOf(DecimalToDegMinValue(a)) == a.Floor
    ensures MinutesOf(DecimalToDegMinValue(a)) == (a - a.Floor as real) * 60.0
    ensures DegMinToDegrees(DecimalToDegMinValue(a)) == a
  {
    var deg := a.Floor as real;
    var mm := (a - deg) * 60.0;
    var v := deg * 100.0 + mm;
    assert 0.0 <= mm < 60.0;
    assert v / 100.0 == deg + mm / 100.0;
    assert deg <= v / 100.0 < deg + 1.0;
    assert DegreesOf(v) == a.Floor;
  }

  lemma DegreesBounds(v: real)
    ensures DegreesOf(v) as real * 100.0 <= v < DegreesOf(v) as real * 100.0 + 100.0
  {
    var deg := DegreesOf(v) as real;
    assert deg <= v / 100.0 < deg + 1.0;
  }

  /** A degree-minute number with fewer than 60 minutes converts to decimal and back unchanged. */
  lemma DegreesRoundTrip(v: real)
    requires v >= 0.0 && MinutesOf(v) < 60.0
    ensures DegMinToDegrees(v) >= 0.0
    ensures DecimalToDegMinValue(DegMinToDegrees(v)) == v
  {
    DegreesBounds(v);
    var deg := DegreesOf(v) as real;
    var mm := MinutesOf(v);
    assert 0.0 <= mm < 60.0;
    var d := DegMinToDegrees(v);
    assert d == deg + mm / 60.0;
    assert deg <= d < deg + 1.0;
    assert d.Floor == DegreesOf(v);
    assert (d - deg) * 60.0 == mm;
  }

  /** decimal -> DDMM -> decimal returns every latitude exactly, hemisphere included. */
  lemma LatRoundTrip(lat: real)
    ensures DdmmToDecimalLat(DecimalToDdmmLat(lat).value, DecimalToDdmmLat(lat).hemisphere) == lat
  {
    DegMinRoundTrip(Abs(lat));
  }

  /** decimal -> DDDMM -> decimal returns every longitude exactly, hemisphere included. */
  lemma LonRoundTrip(lon: real)
    ensures DddmmToDecimalLon(DecimalToDddmmLon(lon).value, DecimalToDddmmLon(lon).hemisphere) == lon
  {
    DegMinRoundTrip(Abs(lon));
  }

  /**
   * DDMM -> decimal -> DDMM gives back the number, and the hemisphere, except
   * that a zero latitude is always reported north.
   */
  lemma DdmmRoundTrip(ddmm: real, ns: string)
    requires ddmm >= 0.0 && MinutesOf(ddmm) < 60.0
    ensures DecimalToDdmmLat(DdmmToDecimalLat(ddmm, ns)) ==
      DegMin(ddmm, if IsSouth(ns) && ddmm != 0.0 then "S" else "N")
  {
    DegreesRoundTrip(ddmm);
    assert DegMinToDegrees(ddmm) == 0.0 ==> ddmm == 0.0;
  }

  /** The same for DDDMM longitudes and the E/W letters. */
  lemma DddmmRoundTrip(dddmm: real, ew: string)
    requires dddmm >= 0.0 && MinutesOf(dddmm) < 60.0
    ensures DecimalToDddmmLon(DddmmToDecimalLon(dddmm, ew)) ==
      DegMin(dddmm, if IsWest(ew) && dddmm != 0.0 then "W" else "E")
  {
    DegreesRoundTrip(dddmm);
    assert DegMinToDegrees(dddmm) == 0.0 ==> dddmm == 0.0;
  }

  // ------------------------------------------------------------ main loop

  const StartLatDdm: real := 3408.08333
  const StartLonDdm: real := 7752.0

  /** `start_lat`, from 34 deg 08.08333' N. */
  function StartLat(): real {
    DdmmToDecimalLat(StartLatDdm, "N")
  }

  /** `start_lon`, from 077 deg 52.00000' W. */
  function StartLon(): real {
    DddmmToDecimalLon(StartLonDdm, "W")
  }

  /** The start position in decimal degrees: 34 + 8.08333/60 north, 77 + 52/60 west. */
  lemma StartPosition()
    ensures StartLat() == 34.0 + 8.08333 / 60.0
    ensures StartLon() == -(77.0 + 52.0 / 60.0)
  {
    assert DegreesOf(StartLatDdm) == 34;
    assert DegreesOf(StartLonDdm) == 77;
  }

  /** What one pass of the loop computes from the elapsed time `t`. */
  datatype Fix = Fix(lat: real, lon: real, course: real, speed: real)

  /**
   * One pass of the loop: the latitude swings within amp_nm minutes of the
   * start, the longitude never changes, the course is 0.0 or 180.0 by the
   * phase, and the speed is the same on every pass.
   */
  function MotionFix(t: real, ampNm: real, period: real): (f: Fix)
    requires period != 0.0
    ensures StartLat() - Abs(ampNm) / 60.0 <= f.lat <= StartLat() + Abs(ampNm) / 60.0
    ensures f.lon == StartLon()
    ensures f.course == 0.0 <==> Phase(t, period) < 0.25 || Phase(t, period) >= 0.75
    ensures f.course == 0.0 || f.course == 180.0
    ensures f.speed * ((period / 2.0) / 3600.0) == 2.0 * ampNm
  {
    Fix(Latitude(StartLat(), ampNm, t, period), StartLon(), Course(t, period), SpeedKnots(ampNm, period))
  }

  /** With the prompts' defaults (5 NM, 120 s), after 15 s the vessel is 2.5' north of the start, heading 000 at 600 kn. */
  lemma DefaultsAtFifteenSeconds()
    ensures MotionFix(15.0, 5.0, 120.0) == Fix(StartLat() + 2.5 / 60.0, StartLon(), 0.0, 600.0)
  {
    assert (15.0 / 120.0).Floor == 0;
    assert Phase(15.0, 120.0) == 0.125;
  }

  /**
   * At the quarter period (30 s with the defaults) the vessel is at its
   * northern turning point, 5' north of the start, and the course is already
   * 180.0: phase 0.25 fails `phase < 0.25`.
   */
  lemma DefaultsAtQuarterPeriod()
    ensures MotionFix(30.0, 5.0, 120.0) == Fix(StartLat() + 5.0 / 60.0, StartLon(), 180.0, 600.0)
  {
    assert (30.0 / 120.0).Floor == 0;
    assert Phase(30.0, 120.0) == 0.25;
  }

  // ------------------------------------------------------------ sentences

  /** The formatted fields of one pass: `{cog:.1f}`, `{speed_knots:.1f}`, the km/h speed, the UTC strings, the position strings and letters. */
  datatype Fields = Fields(cog: string, sog: string, kmh: string, hhmmss: string, ddmmyy: string,
                           latStr: string, ns: string, lonStr: string, ew: string)

  /** A rendered field: ASCII and free of "*". */
  predicate Clean(s: string) {
    IsAscii(s) && '*' !in s
  }

  predicate CleanFields(f: Fields) {
    Clean(f.cog) && Clean(f.sog) && Clean(f.kmh) && Clean(f.hhmmss) && Clean(f.ddmmyy) &&
    Clean(f.latStr) && Clean(f.ns) && Clean(f.lonStr) && Clean(f.ew)
  }

  function VtgBody(f: Fields): string {
    "GPVTG," + f.cog + ",T,,M," + f.sog + ",N," + f.kmh + ",K,A"
  }

  function RmcBody(f: Fields): string {
    "GPRMC," + f.hhmmss + ",A," + f.latStr + "," + f.ns + "," + f.lonStr + "," + f.ew + "," +
    f.sog + "," + f.cog + "," + f.ddmmyy + ",000.0,E,A"
  }

  function GgaBody(f: Fields): string {
    "GPGGA," + f.hhmmss + "," + f.latStr + "," + f.ns + "," + f.lonStr + "," + f.ew + ",1,08,0.9,0.0,M,0.0,M,,"
  }

  lemma CleanAppend(a: string, b: string)
    requires Clean(a) && Clean(b)
    ensures Clean(a + b)
  {
    AsciiAppend(a, b);
  }

  /** A clean body with no white space at its ends is framed by the stripping `make_nmea` into a sentence that validates to it. */
  lemma CleanBodyValidates(body: string)
    requires Clean(body) && body != [] && !IsSpace(body[0]) && !IsSpace(body[|body| - 1])
    ensures MakeNmeaStripped(body).Ok?
    ensures ParseSentence(DecodeAsciiIgnore(MakeNmeaStripped(body).value)) == Ok(body)
  {
    StripUnchanged(body);
    MakeNmeaStrippedValidates(body);
  }

  lemma VtgClean(f: Fields)
    requires CleanFields(f)
    ensures Clean(VtgBody(f)) && VtgBody(f)[0] == 'G' && VtgBody(f)[|VtgBody(f)| - 1] == 'A'
  {
    CleanAppend("GPVTG,", f.cog);
    CleanAppend("GPVTG," + f.cog, ",T,,M,");
    CleanAppend("GPVTG," + f.cog + ",T,,M,", f.sog);
    CleanAppend("GPVTG," + f.cog + ",T,,M," + f.sog, ",N,");
    CleanAppend("GPVTG," + f.cog + ",T,,M," + f.sog + ",N,", f.kmh);
    CleanAppend("GPVTG," + f.cog + ",T,,M," + f.sog + ",N," + f.kmh, ",K,A");
  }

  lemma RmcClean(f: Fields)
    requires CleanFields(f)
    ensures Clean(RmcBody(f)) && RmcBody(f)[0] == 'G' && RmcBody(f)[|RmcBody(f)| - 1] == 'A'
  {
    var s := "GPRMC,";
    CleanAppend(s, f.hhmmss);
    s := s + f.hhmmss;
    CleanAppend(s, ",A,");
    s := s + ",A,";
    CleanAppend(s, f.latStr);
    s := s + f.latStr;
    CleanAppend(s, ",");
    s := s + ",";
    CleanAppend(s, f.ns);
    s := s + f.ns;
    CleanAppend(s, ",");
    s := s + ",";
    CleanAppend(s, f.lonStr);
    s := s + f.lonStr;
    CleanAppend(s, ",");
    s := s + ",";
    CleanAppend(s, f.ew);
    s := s + f.ew;
    CleanAppend(s, ",");
    s := s + ",";
    CleanAppend(s, f.sog);
    s := s + f.sog;
    CleanAppend(s, ",");
    s := s + ",";
    CleanAppend(s, f.cog);
    s := s + f.cog;
    CleanAppend(s, ",");
    s := s + ",";
    CleanAppend(s, f.ddmmyy);
    s := s + f.ddmmyy;
    CleanAppend(s, ",000.0,E,A");
    s := s + ",000.0,E,A";
    assert s == RmcBody(f);
  }

  lemma GgaClean(f: Fields)
    requires CleanFields(f)
    ensures Clean(GgaBody(f)) && GgaBody(f)[0] == 'G' && GgaBody(f)[|GgaBody(f)| - 1] == ','
  {
    var s := "GPGGA,";
    CleanAppend(s, f.hhmmss);
    s := s + f.hhmmss;
    CleanAppend(s, ",");
    s := s + ",";
    CleanAppend(s, f.latStr);
    s := s + f.latStr;
    CleanAppend(s, ",");
    s := s + ",";
    CleanAppend(s, f.ns);
    s := s + f.ns;
    CleanAppend(s, ",");
    s := s + ",";
    CleanAppend(s, f.lonStr);
    s := s + f.lonStr;
    CleanAppend(s, ",");
    s := s + ",";
    CleanAppend(s, f.ew);
    s := s + f.ew;
    CleanAppend(s, ",1,08,0.9,0.0,M,0.0,M,,");
    s := s + ",1,08,0.9,0.0,M,0.0,M,,";
    assert s == GgaBody(f);
  }

  /** The datagram `make_nmea` sends for a clean body that starts with "G" and ends with "A" or ",". */
  function Frame(body: string): (m: seq<Byte>)
    requires Clean(body) && body != [] && body[0] == 'G' && body[|body| - 1] in "A,"
    ensures IsAsciiBytes(m)
    ensures ParseSentence(DecodeAsciiIgnore(m)) == Ok(body)
  {
    CleanBodyValidates(body);
    MakeNmeaStripped(body).value
  }

  /**
   * The three datagrams of one pass, in the order they are sent: VTG, RMC,
   * GGA, each a valid sentence carrying its body.
   */
  function TickFrames(f: Fields): (msgs: seq<seq<Byte>>)
    requires CleanFields(f)
    ensures |msgs| == 3
    ensures IsAsciiBytes(msgs[0]) && IsAsciiBytes(msgs[1]) && IsAsciiBytes(msgs[2])
    ensures ParseSentence(DecodeAsciiIgnore(msgs[0])) == Ok(VtgBody(f))
    ensures ParseSentence(DecodeAsciiIgnore(msgs[1])) == Ok(RmcBody(f))
    ensures ParseSentence(DecodeAsciiIgnore(msgs[2])) == Ok(GgaBody(f))
  {
    VtgClean(f);
    RmcClean(f);
    GgaClean(f);
    [Frame(VtgBody(f)), Frame(RmcBody(f)), Frame(GgaBody(f))]
  }
}
