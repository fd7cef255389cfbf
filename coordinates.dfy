/** Decoding a coordinate token such as "551212N 0131212E" or
    "551212.5N 0131212.5E" into signed decimal degrees
    (SwedenObstacleParser.parse, lines 102-139). Degrees are exact reals. */
module CoordinateDecoding {
  import opened Wrappers
  import opened Text
  import opened Patterns
  import opened Obstacles

  // ---------------------------------------------------------------------------
  // Float.valueOf

  /** The syntax Float.valueOf accepts on text a slice of a coordinate token
      can hold (digits, '.', whitespace and the hemisphere letters), once
      String.trim() has run: digits with at most one '.', and at least one
      digit. The result is the digits before and after the '.'. */
  function DecimalSplit(u: string): (r: Option<(string, string)>)
    ensures r.Some? ==> AllDigits(r.value.0) && AllDigits(r.value.1)
  {
    var k := DigitRunEnd(u, 0, |u|);
    assert u[..k] == u[0..k];
    if k == |u| then
      if k >= 1 then Some((u[..k], "")) else None
    else if u[k] == '.' && AllDigits(u[k + 1..]) && (k >= 1 || k + 1 < |u|) then
      Some((u[..k], u[k + 1..]))
    else None
  }

  /** Float.valueOf on the slices of a coordinate token, as an exact real. */
  function ParseDecimal(t: string): (r: Option<real>) {
    match DecimalSplit(Trim(t))
    case None => None
    case Some((whole, fraction)) =>
      Some(DigitsValue(whole) as real + FractionValue(fraction))
  }

  /** The value 0.f of the digits f after the period, read from the left:
      each digit counts a tenth of the one before it. */
  function FractionValue(f: string): real
    requires AllDigits(f)
  {
    if f == [] then 0.0 else (DigitValue(f[0]) as real + FractionValue(f[1..])) / 10.0
  }

  /** A run of digits reads as its value. */
  lemma ParseDigits(t: string)
    requires t != [] && AllDigits(t)
    ensures ParseDecimal(t) == Some(DigitsValue(t) as real)
  {
    TrimKeeps(t);
    assert t[..|t|] == t;
    assert DecimalSplit(t) == Some((t, ""));
  }

  /** Digits, a period and one more digit: the digits' value plus a tenth
      of the last digit's. */
  function DecimalWithTenth(whole: string, tenth: char): real
    requires AllDigits(whole) && IsDigit(tenth)
  {
    DigitsValue(whole) as real + DigitValue(tenth) as real / 10.0
  }

  /** Digits, a period and one more digit read as a number with one decimal. */
  lemma ParseDigitsWithTenth(t: string, c: char)
    requires t != [] && AllDigits(t) && IsDigit(c)
    ensures ParseDecimal(t + "." + [c]) == Some(DecimalWithTenth(t, c))
  {
    ParseWithFraction(t, [c]);
    OneDigitFraction(t, c);
  }

  /** One digit after the period is worth a tenth of its value. */
  lemma OneDigitFraction(t: string, c: char)
    requires AllDigits(t) && IsDigit(c)
    ensures Some(DigitsValue(t) as real + FractionValue([c])) == Some(DecimalWithTenth(t, c))
  {
    var f := [c];
    assert f[1..] == [];
  }

  /** Digits, a period and more digits split at the period. */
  lemma ParseWithFraction(t: string, f: string)
    requires t != [] && AllDigits(t) && f != [] && AllDigits(f)
    ensures ParseDecimal(t + "." + f) == Some(DigitsValue(t) as real + FractionValue(f))
  {
    TrimKeeps(t + "." + f);
    DecimalSplitAtPeriod(t, f);
  }

  lemma DecimalSplitAtPeriod(t: string, f: string)
    requires t != [] && AllDigits(t) && f != [] && AllDigits(f)
    ensures DecimalSplit(t + "." + f) == Some((t, f))
  {
    var u := t + "." + f;
    assert u[..|t|] == t;
    assert u[|t|] == '.';
    assert u[|t| + 1..] == f;
    DigitRunStops(u, |t|);
  }

  /** The run of digits at the front of u ends where the first character
      that is not a digit stands. */
  lemma DigitRunStops(u: string, m: nat)
    requires m < |u| && AllDigits(u[..m]) && !IsDigit(u[m])
    ensures DigitRunEnd(u, 0, |u|) == m
  {
    var k := DigitRunEnd(u, 0, |u|);
    assert forall j :: 0 <= j < m ==> IsDigit(u[j]) by {
      forall j | 0 <= j < m
        ensures IsDigit(u[j])
      {
        assert u[..m][j] == u[j];
      }
    }
    assert forall j :: 0 <= j < k ==> IsDigit(u[j]) by {
      forall j | 0 <= j < k
        ensures IsDigit(u[j])
      {
        assert u[0..k][j] == u[j];
      }
    }
  }

  /** Float.valueOf: the value, or NumberFormatException carrying the text. */
  function FloatValue(t: string): (r: Result<real, LineFailure>)
    ensures r.Success? <==> ParseDecimal(t).Some?
    ensures r.Failure? ==> r.error == NumberFormat(t)
    ensures r.Success? ==> r.value == ParseDecimal(t).value
  {
    match ParseDecimal(t)
    case None => Failure(NumberFormat(t))
    case Some(v) => Success(v)
  }

  /** Float.valueOf(t.substring(b, e)). */
  function SliceValue(t: string, b: nat, e: nat): (r: Result<real, LineFailure>)
    requires b <= e
    ensures e > |t| ==> r == Failure(IndexOutOfBounds)
    ensures r.Failure? ==> !r.error.NoMatch?
  {
    if e <= |t| then FloatValue(t[b..e]) else Failure(IndexOutOfBounds)
  }

  // ---------------------------------------------------------------------------
  // The two layouts

  /** degrees + minutes / 60 + seconds / 3600, as lines 113-114 and 130-131 compute it. */
  function Degrees(degrees: real, minutes: real, seconds: real): real {
    degrees + minutes / 60.0 + seconds / 3600.0
  }

  /** The value negated in the southern or western hemisphere. */
  function Signed(v: real, negative: bool): real {
    if negative then -v else v
  }

  /** Lines 103-137: a 16-character token is read in the layout of lines
      104-119, any other one in the layout of lines 121-136. */
  function DecodeCoordinates(t: string): (r: Result<Coordinates, LineFailure>)
    ensures r.Failure? ==> !r.error.NoMatch?
  {
    if |t| == 16 then DecodeWholeSeconds(t) else DecodeTenths(t)
  }

  /** Lines 104-119: DDMMSS[NS] DDDMMSS[EW], each field read with
      Float.valueOf, in the order the source evaluates them. */
  function DecodeWholeSeconds(t: string): (r: Result<Coordinates, LineFailure>)
    requires |t| == 16
    ensures r.Failure? ==> !r.error.NoMatch?
  {
    var latDeg :- FloatValue(t[0..2]);
    var latMin :- FloatValue(t[2..4]);
    var latSec :- FloatValue(t[4..6]);
    var lonDeg :- FloatValue(t[8..11]);
    var lonMin :- FloatValue(t[11..13]);
    var lonSec :- FloatValue(t[13..15]);
    Success(Coordinates(
      Signed(Degrees(latDeg, latMin, latSec), t[6] == 'S'),
      Signed(Degrees(lonDeg, lonMin, lonSec), t[15] == 'W')))
  }

  /** Lines 121-136: DDMMSS.S[NS] DDDMMSS.S[EW], each slice taken with
      String.substring and each field read with Float.valueOf, in the order
      the source evaluates them. */
  function DecodeTenths(t: string): (r: Result<Coordinates, LineFailure>)
    ensures r.Failure? ==> !r.error.NoMatch?
  {
    var latDeg :- SliceValue(t, 0, 2);
    var latMin :- SliceValue(t, 2, 4);
    var latSec :- SliceValue(t, 4, 8);
    var lonDeg :- SliceValue(t, 10, 13);
    var lonMin :- SliceValue(t, 13, 15);
    var lonSec :- SliceValue(t, 15, 19);
    if |t| < 20 then Failure(IndexOutOfBounds)
    else
      Success(Coordinates(
        Signed(Degrees(latDeg, latMin, latSec), t[8] == 'S'),
        Signed(Degrees(lonDeg, lonMin, lonSec), t[19] == 'W')))
  }

  /** The six fields of a 16-character token, once read, make the position. */
  lemma DecodeWholeSecondsFields(t: string, latDeg: real, latMin: real, latSec: real, south: bool,
                                 lonDeg: real, lonMin: real, lonSec: real, west: bool)
    requires |t| == 16
    requires FloatValue(t[0..2]) == Success(latDeg) && FloatValue(t[2..4]) == Success(latMin)
    requires FloatValue(t[4..6]) == Success(latSec) && FloatValue(t[8..11]) == Success(lonDeg)
    requires FloatValue(t[11..13]) == Success(lonMin) && FloatValue(t[13..15]) == Success(lonSec)
    requires (t[6] == 'S') == south && (t[15] == 'W') == west
    ensures DecodeCoordinates(t) == Success(Coordinates(
      Signed(Degrees(latDeg, latMin, latSec), south),
      Signed(Degrees(lonDeg, lonMin, lonSec), west)))
  {
  }

  /** The six fields of a token of 20 characters or more, once read, make
      the position. */
  lemma DecodeTenthsFields(t: string, latDeg: real, latMin: real, latSec: real, south: bool,
                           lonDeg: real, lonMin: real, lonSec: real, west: bool)
    requires |t| >= 20
    requires FloatValue(t[0..2]) == Success(latDeg) && FloatValue(t[2..4]) == Success(latMin)
    requires FloatValue(t[4..8]) == Success(latSec) && FloatValue(t[10..13]) == Success(lonDeg)
    requires FloatValue(t[13..15]) == Success(lonMin) && FloatValue(t[15..19]) == Success(lonSec)
    requires (t[8] == 'S') == south && (t[19] == 'W') == west
    ensures DecodeCoordinates(t) == Success(Coordinates(
      Signed(Degrees(latDeg, latMin, latSec), south),
      Signed(Degrees(lonDeg, lonMin, lonSec), west)))
  {
  }

  /** Only the two layouts decode: every token shorter than 20 characters
      other than a 16-character one fails, whatever its characters. */
  lemma DecodeOnlyTwoLayouts(t: string)
    requires |t| < 20 && |t| != 16
    ensures DecodeCoordinates(t).Failure?
  {
    if |t| < 19 {
      assert SliceValue(t, 15, 19).Failure?;
    }
  }

  /** A 16-character token whose six columns are digits decodes to the
      degrees, minutes and seconds those columns spell, whatever stands in
      columns 6, 7 and 15: the latitude is negated only when column 6 is S,
      the longitude only when column 15 is W. */
  lemma DecodeWholeSecondsValue(t: string)
    requires |t| == 16
    requires AllDigits(t[0..2]) && AllDigits(t[2..4]) && AllDigits(t[4..6])
    requires AllDigits(t[8..11]) && AllDigits(t[11..13]) && AllDigits(t[13..15])
    ensures DecodeCoordinates(t) == Success(Coordinates(
      Signed(Degrees(DigitsValue(t[0..2]) as real, DigitsValue(t[2..4]) as real, DigitsValue(t[4..6]) as real),
             t[6] == 'S'),
      Signed(Degrees(DigitsValue(t[8..11]) as real, DigitsValue(t[11..13]) as real, DigitsValue(t[13..15]) as real),
             t[15] == 'W')))
  {
    ParseDigits(t[0..2]);
    ParseDigits(t[2..4]);
    ParseDigits(t[4..6]);
    ParseDigits(t[8..11]);
    ParseDigits(t[11..13]);
    ParseDigits(t[13..15]);
  }

  /** A token of 20 characters or more whose columns hold DD, MM, SS.S, DDD,
      MM and SS.S decodes to those values, seconds with their tenth; the
      latitude is negated only when column 8 is S, the longitude only when
      column 19 is W. What follows column 19 is never read. */
  lemma DecodeTenthsValue(t: string)
    requires |t| >= 20
    requires AllDigits(t[0..2]) && AllDigits(t[2..4]) && AllDigits(t[4..6]) && t[6] == '.' && IsDigit(t[7])
    requires AllDigits(t[10..13]) && AllDigits(t[13..15]) && AllDigits(t[15..17]) && t[17] == '.' && IsDigit(t[18])
    ensures DecodeCoordinates(t) == Success(Coordinates(
      Signed(Degrees(DigitsValue(t[0..2]) as real, DigitsValue(t[2..4]) as real,
                     DecimalWithTenth(t[4..6], t[7])),
             t[8] == 'S'),
      Signed(Degrees(DigitsValue(t[10..13]) as real, DigitsValue(t[13..15]) as real,
                     DecimalWithTenth(t[15..17], t[18])),
             t[19] == 'W')))
  {
    SliceDigits(t, 0, 2);
    SliceDigits(t, 2, 4);
    SliceSecondsWithTenth(t, 4);
    SliceDigits(t, 10, 13);
    SliceDigits(t, 13, 15);
    SliceSecondsWithTenth(t, 15);
  }

  /** A slice of digits reads as the number they spell. */
  lemma SliceDigits(t: string, b: nat, e: nat)
    requires b < e <= |t| && AllDigits(t[b..e])
    ensures SliceValue(t, b, e) == Success(DigitsValue(t[b..e]) as real)
  {
    ParseDigits(t[b..e]);
  }

  /** Two digits, a period and a digit at p read as seconds with a tenth. */
  lemma SliceSecondsWithTenth(t: string, p: nat)
    requires p + 4 <= |t| && AllDigits(t[p..p + 2]) && t[p + 2] == '.' && IsDigit(t[p + 3])
    ensures SliceValue(t, p, p + 4) == Success(DecimalWithTenth(t[p..p + 2], t[p + 3]))
  {
    assert t[p..p + 4] == t[p..p + 2] + "." + [t[p + 3]];
    ParseDigitsWithTenth(t[p..p + 2], t[p + 3]);
  }

  // ---------------------------------------------------------------------------
  // Printing a position as the AIP does, and reading it back

  /** One angle as printed in the obstacle table: degrees, minutes, whole
      seconds, an optional tenth of a second, and the hemisphere. */
  datatype Angle = Angle(degrees: nat, minutes: nat, seconds: nat, tenths: Option<nat>, negative: bool)

  predicate ValidAngle(a: Angle, degreeDigits: nat) {
    a.degrees < Pow10(degreeDigits) && a.minutes < 100 && a.seconds < 100 && (a.tenths.Some? ==> a.tenths.value < 10)
  }

  /** A latitude and a longitude that print in one of the two layouts: both
      with a tenth of a second or neither. */
  predicate ValidPosition(lat: Angle, lon: Angle) {
    ValidAngle(lat, 2) && ValidAngle(lon, 3) && lat.tenths.Some? == lon.tenths.Some?
  }

  /** The seconds of an angle, with their tenth. */
  function SecondsValue(a: Angle): real {
    a.seconds as real + if a.tenths.Some? then a.tenths.value as real / 10.0 else 0.0
  }

  /** The signed decimal degrees an angle denotes. */
  function AngleValue(a: Angle): real {
    Signed(Degrees(a.degrees as real, a.minutes as real, SecondsValue(a)), a.negative)
  }

  function SecondsText(a: Angle): (r: string)
    requires a.seconds < 100 && (a.tenths.Some? ==> a.tenths.value < 10)
    ensures |r| == if a.tenths.Some? then 4 else 2
  {
    PadDigits(a.seconds, 2) + if a.tenths.Some? then "." + [DigitChar(a.tenths.value)] else ""
  }

  /** DDMMSS[.S][NS] */
  function LatitudeText(a: Angle): (r: string)
    requires ValidAngle(a, 2)
    ensures |r| == if a.tenths.Some? then 9 else 7
  {
    PadDigits(a.degrees, 2) + PadDigits(a.minutes, 2) + SecondsText(a) + [if a.negative then 'S' else 'N']
  }

  /** DDDMMSS[.S][EW] */
  function LongitudeText(a: Angle): (r: string)
    requires ValidAngle(a, 3)
    ensures |r| == if a.tenths.Some? then 10 else 8
  {
    PadDigits(a.degrees, 3) + PadDigits(a.minutes, 2) + SecondsText(a) + [if a.negative then 'W' else 'E']
  }

  /** The coordinate token of a position: latitude, one space, longitude. */
  function CoordinatesText(lat: Angle, lon: Angle): (r: string)
    requires ValidPosition(lat, lon)
    ensures |r| == if lat.tenths.Some? then 20 else 16
  {
    LatitudeText(lat) + " " + LongitudeText(lon)
  }

  /** The seconds of an angle read back with Float.valueOf. */
  lemma ParseSeconds(a: Angle)
    requires a.seconds < 100 && (a.tenths.Some? ==> a.tenths.value < 10)
    ensures ParseDecimal(SecondsText(a)) == Some(SecondsValue(a))
  {
    if a.tenths.Some? {
      ParseSecondsWithTenth(a);
    } else {
      ParseWholeSeconds(a);
    }
  }

  lemma ParseWholeSeconds(a: Angle)
    requires a.seconds < 100 && a.tenths.None?
    ensures ParseDecimal(SecondsText(a)) == Some(a.seconds as real)
  {
    var whole := PadDigits(a.seconds, 2);
    assert SecondsText(a) == whole;
    ParseDigits(whole);
  }

  lemma ParseSecondsWithTenth(a: Angle)
    requires a.seconds < 100 && a.tenths.Some? && a.tenths.value < 10
    ensures ParseDecimal(SecondsText(a)) == Some(a.seconds as real + a.tenths.value as real / 10.0)
  {
    var whole := PadDigits(a.seconds, 2);
    var c := DigitChar(a.tenths.value);
    assert SecondsText(a) == whole + "." + [c];
    ParseDigitsWithTenth(whole, c);
  }

  /** Decoding a printed position gives back the degrees it denotes, in both
      layouts and all four hemispheres. */
  lemma DecodePrinted(lat: Angle, lon: Angle)
    requires ValidPosition(lat, lon)
    ensures DecodeCoordinates(CoordinatesText(lat, lon)) == Success(Coordinates(AngleValue(lat), AngleValue(lon)))
  {
    if lat.tenths.Some? {
      DecodePrintedWithTenths(lat, lon);
    } else {
      DecodePrintedWholeSeconds(lat, lon);
    }
  }

  /** Where the fields of a printed latitude stand. */
  lemma LatitudeTextParts(a: Angle)
    requires ValidAngle(a, 2)
    ensures var x := LatitudeText(a);
      && x[0..2] == PadDigits(a.degrees, 2) && x[2..4] == PadDigits(a.minutes, 2)
      && x[4..|x| - 1] == SecondsText(a) && x[|x| - 1] == (if a.negative then 'S' else 'N')
  {
    var x := LatitudeText(a);
    var head := PadDigits(a.degrees, 2) + PadDigits(a.minutes, 2);
    assert x == head + SecondsText(a) + [if a.negative then 'S' else 'N'];
    assert x[..4] == head;
    assert x[0..2] == head[0..2];
    assert x[2..4] == head[2..4];
  }

  /** Where the fields of a printed longitude stand. */
  lemma LongitudeTextParts(a: Angle)
    requires ValidAngle(a, 3)
    ensures var x := LongitudeText(a);
      && x[0..3] == PadDigits(a.degrees, 3) && x[3..5] == PadDigits(a.minutes, 2)
      && x[5..|x| - 1] == SecondsText(a) && x[|x| - 1] == (if a.negative then 'W' else 'E')
  {
    var x := LongitudeText(a);
    var head := PadDigits(a.degrees, 3) + PadDigits(a.minutes, 2);
    assert x == head + SecondsText(a) + [if a.negative then 'W' else 'E'];
    assert x[..5] == head;
    assert x[0..3] == head[0..3];
    assert x[3..5] == head[3..5];
  }

  /** Where the fields of a printed position stand, by offset from the start
      of the token: w is the width of the seconds field. */
  lemma CoordinatesTextParts(lat: Angle, lon: Angle, w: nat)
    requires ValidPosition(lat, lon) && w == (if lat.tenths.Some? then 4 else 2)
    ensures var t := CoordinatesText(lat, lon);
      && |t| == 2 * w + 12
      && t[0..2] == PadDigits(lat.degrees, 2) && t[2..4] == PadDigits(lat.minutes, 2)
      && t[4..4 + w] == SecondsText(lat) && t[4 + w] == (if lat.negative then 'S' else 'N')
      && t[w + 6..w + 9] == PadDigits(lon.degrees, 3) && t[w + 9..w + 11] == PadDigits(lon.minutes, 2)
      && t[w + 11..2 * w + 11] == SecondsText(lon) && t[2 * w + 11] == (if lon.negative then 'W' else 'E')
  {
    var t := CoordinatesText(lat, lon);
    CoordinatesTextHalves(lat, lon, w);
    LatitudeTextParts(lat);
    LongitudeTextParts(lon);
    SliceOfSlice(t, 0, w + 5, 0, 2);
    SliceOfSlice(t, 0, w + 5, 2, 4);
    SliceOfSlice(t, 0, w + 5, 4, w + 4);
    SliceOfSlice(t, w + 6, 2 * w + 12, 0, 3);
    SliceOfSlice(t, w + 6, 2 * w + 12, 3, 5);
    SliceOfSlice(t, w + 6, 2 * w + 12, 5, w + 5);
  }

  /** The coordinate token of a position is its latitude, a space and its
      longitude. */
  lemma CoordinatesTextHalves(lat: Angle, lon: Angle, w: nat)
    requires ValidPosition(lat, lon) && w == (if lat.tenths.Some? then 4 else 2)
    ensures var t := CoordinatesText(lat, lon);
      && |t| == 2 * w + 12 && t[0..w + 5] == LatitudeText(lat) && t[w + 5] == ' '
      && t[w + 6..2 * w + 12] == LongitudeText(lon)
  {
    var t := CoordinatesText(lat, lon);
    assert t[0..w + 5] == LatitudeText(lat);
    assert t[w + 6..2 * w + 12] == LongitudeText(lon);
  }

  /** The latitude fields of a printed position read back with Float.valueOf. */
  lemma PrintedLatitudeFields(lat: Angle, lon: Angle, w: nat)
    requires ValidPosition(lat, lon) && w == (if lat.tenths.Some? then 4 else 2)
    ensures var t := CoordinatesText(lat, lon);
      && FloatValue(t[0..2]) == Success(lat.degrees as real)
      && FloatValue(t[2..4]) == Success(lat.minutes as real)
      && FloatValue(t[4..4 + w]) == Success(SecondsValue(lat))
      && (t[4 + w] == 'S') == lat.negative
  {
    CoordinatesTextParts(lat, lon, w);
    ParseDigits(PadDigits(lat.degrees, 2));
    ParseDigits(PadDigits(lat.minutes, 2));
    ParseSeconds(lat);
  }

  /** The longitude fields of a printed position read back with Float.valueOf. */
  lemma PrintedLongitudeFields(lat: Angle, lon: Angle, w: nat)
    requires ValidPosition(lat, lon) && w == (if lat.tenths.Some? then 4 else 2)
    ensures var t := CoordinatesText(lat, lon);
      && FloatValue(t[w + 6..w + 9]) == Success(lon.degrees as real)
      && FloatValue(t[w + 9..w + 11]) == Success(lon.minutes as real)
      && FloatValue(t[w + 11..2 * w + 11]) == Success(SecondsValue(lon))
      && (t[2 * w + 11] == 'W') == lon.negative
  {
    CoordinatesTextParts(lat, lon, w);
    ParseDigits(PadDigits(lon.degrees, 3));
    ParseDigits(PadDigits(lon.minutes, 2));
    ParseSeconds(lon);
  }

  /** The layout DDMMSS[NS] DDDMMSS[EW]. */
  lemma DecodePrintedWholeSeconds(lat: Angle, lon: Angle)
    requires ValidPosition(lat, lon) && lat.tenths.None?
    ensures DecodeCoordinates(CoordinatesText(lat, lon)) == Success(Coordinates(AngleValue(lat), AngleValue(lon)))
  {
    PrintedLatitudeFields(lat, lon, 2);
    PrintedLongitudeFields(lat, lon, 2);
    DecodeWholeSecondsFields(CoordinatesText(lat, lon),
      lat.degrees as real, lat.minutes as real, SecondsValue(lat), lat.negative,
      lon.degrees as real, lon.minutes as real, SecondsValue(lon), lon.negative);
  }

  /** The layout DDMMSS.S[NS] DDDMMSS.S[EW]. */
  lemma DecodePrintedWithTenths(lat: Angle, lon: Angle)
    requires ValidPosition(lat, lon) && lat.tenths.Some?
    ensures DecodeCoordinates(CoordinatesText(lat, lon)) == Success(Coordinates(AngleValue(lat), AngleValue(lon)))
  {
    PrintedLatitudeFields(lat, lon, 4);
    PrintedLongitudeFields(lat, lon, 4);
    DecodeTenthsFields(CoordinatesText(lat, lon),
      lat.degrees as real, lat.minutes as real, SecondsValue(lat), lat.negative,
      lon.degrees as real, lon.minutes as real, SecondsValue(lon), lon.negative);
  }

  /** A printed position is a token of the coordinate pattern. */
  lemma PrintedIsCoordinateToken(lat: Angle, lon: Angle)
    requires ValidPosition(lat, lon)
    ensures IsCoordinateToken(CoordinatesText(lat, lon))
    ensures IsLatitude(LatitudeText(lat)) && IsLongitude(LongitudeText(lon))
  {
    var t := CoordinatesText(lat, lon);
    var a := |LatitudeText(lat)|;
    var latText := LatitudeText(lat);
    var lonText := LongitudeText(lon);
    assert t[..a] == latText;
    assert t[a..a + 1] == " ";
    assert t[a + 1..] == lonText;
    assert latText[..6] == PadDigits(lat.degrees, 2) + PadDigits(lat.minutes, 2) + PadDigits(lat.seconds, 2);
    assert lonText[..7] == PadDigits(lon.degrees, 3) + PadDigits(lon.minutes, 2) + PadDigits(lon.seconds, 2);
    assert lonText[..6] == lonText[..7][..6];
    assert IsDigit(lonText[6]) by {
      assert lonText[6] == lonText[..7][6];
    }
    if lat.tenths.Some? {
      assert latText[6..|latText| - 1] == "." + [DigitChar(lat.tenths.value)];
      assert lonText[7..|lonText| - 1] == "." + [DigitChar(lon.tenths.value)];
    } else {
      assert latText[6..|latText| - 1] == [];
      assert lonText[7..|lonText| - 1] == [];
    }
    assert IsLatitude(t[..a]) && AllSpaces(t[a..a + 1]) && IsLongitude(t[a + 1..]);
  }

  /** The token of the obstacle table layout decodes back to the angles it prints,
      north and east positive... */
  lemma DecodeExampleNorthEast(t: string)
    requires t == "551212N 0131212E"
    ensures DecodeCoordinates(t) ==
      Success(Coordinates(55.0 + 12.0 / 60.0 + 12.0 / 3600.0, 13.0 + 12.0 / 60.0 + 12.0 / 3600.0))
  {
    var lat := Angle(55, 12, 12, None, false);
    var lon := Angle(13, 12, 12, None, false);
    NorthEastText();
    DecodePrinted(lat, lon);
  }

  /** ... and south and west the exact negation. */
  lemma DecodeExampleSouthWest(t: string)
    requires t == "551212S 0131212W"
    ensures DecodeCoordinates(t) ==
      Success(Coordinates(-(55.0 + 12.0 / 60.0 + 12.0 / 3600.0), -(13.0 + 12.0 / 60.0 + 12.0 / 3600.0)))
  {
    var lat := Angle(55, 12, 12, None, true);
    var lon := Angle(13, 12, 12, None, true);
    SouthWestText();
    DecodePrinted(lat, lon);
  }

  /** The layout with tenths of a second reads the seconds as a decimal. */
  lemma DecodeExampleTenths(t: string)
    requires t == "551212.5N 0131212.5E"
    ensures DecodeCoordinates(t) ==
      Success(Coordinates(55.0 + 12.0 / 60.0 + 12.5 / 3600.0, 13.0 + 12.0 / 60.0 + 12.5 / 3600.0))
  {
    var lat := Angle(55, 12, 12, Some(5), false);
    var lon := Angle(13, 12, 12, Some(5), false);
    TenthsText();
    DecodePrinted(lat, lon);
  }

  /** The digit groups of the example positions. */
  lemma ExampleDigits()
    ensures PadDigits(55, 2) == "55" && PadDigits(12, 2) == "12" && PadDigits(13, 3) == "013"
  {
    PadTwoDigits(55);
    PadTwoDigits(12);
    PadTwoDigits(13);
    assert PadDigits(13, 3) == PadDigits(1, 2) + [DigitChar(3)];
    PadTwoDigits(1);
  }

  /** A number below 100 in two digits. */
  lemma PadTwoDigits(n: nat)
    requires n < 100
    ensures PadDigits(n, 2) == [DigitChar(n / 10), DigitChar(n % 10)]
  {
    assert PadDigits(n / 10, 1) == PadDigits(n / 10 / 10, 0) + [DigitChar(n / 10 % 10)];
  }

  lemma NorthEastText()
    ensures CoordinatesText(Angle(55, 12, 12, None, false), Angle(13, 12, 12, None, false)) == "551212N 0131212E"
  {
    NorthText();
    EastText();
  }

  lemma SouthWestText()
    ensures CoordinatesText(Angle(55, 12, 12, None, true), Angle(13, 12, 12, None, true)) == "551212S 0131212W"
  {
    SouthText();
    WestText();
  }

  lemma TenthsText()
    ensures CoordinatesText(Angle(55, 12, 12, Some(5), false), Angle(13, 12, 12, Some(5), false)) == "551212.5N 0131212.5E"
  {
    NorthTenthsText();
    EastTenthsText();
  }

  lemma NorthText()
    ensures LatitudeText(Angle(55, 12, 12, None, false)) == "551212N"
  {
    ExampleDigits();
  }

  lemma SouthText()
    ensures LatitudeText(Angle(55, 12, 12, None, true)) == "551212S"
  {
    ExampleDigits();
  }

  lemma NorthTenthsText()
    ensures LatitudeText(Angle(55, 12, 12, Some(5), false)) == "551212.5N"
  {
    ExampleDigits();
  }

  lemma EastText()
    ensures LongitudeText(Angle(13, 12, 12, None, false)) == "0131212E"
  {
    ExampleDigits();
  }

  lemma WestText()
    ensures LongitudeText(Angle(13, 12, 12, None, true)) == "0131212W"
  {
    ExampleDigits();
  }

  lemma EastTenthsText()
    ensures LongitudeText(Angle(13, 12, 12, Some(5), false)) == "0131212.5E"
  {
    ExampleDigits();
  }
}
