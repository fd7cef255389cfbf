/** The printed rows of the obstacle table that are already in the normal
    form of lines 56-72 of SwedenObstacleParser.java: for them the clean-up
    changes nothing, so the line parse() tokenises is the printed row. */
module PrintedRows {
  import opened Text
  import opened Patterns
  import opened Normalisation
  import opened CoordinateDecoding
  import opened Tokeniser

  /** A printable row whose fields are in normal form and whose light is
      not empty: a designation and a type with single spaces, nothing to
      trim at their ends, no period after the six letters, no footnote
      marker and no area token, and no marker at the edges where a field
      meets the space beside it. */
  predicate NormalRow(row: Row) {
    && PrintableRow(row)
    && NormalText(row.designation)
    && !StartsWithMarker(row.designation) && row.designation != "(*)" && !EndsWithMarker(row.designation)
    && row.light != [] && Collapsed(row.light)
    && !IsSpace(row.light[0]) && !IsSpace(row.light[|row.light| - 1])
    && NormalText(row.obstacleType) && !StartsWithMarker(row.obstacleType)
  }

  /** A printed number is in normal form. */
  lemma NumberNormal(n: nat)
    ensures NormalText(NatToString(n))
  {
    var t := NatToString(n);
    WordNormal(t);
  }

  /** A light of light characters with single spaces and no space at either
      end is in normal form: it holds no period, no `(` and no digit. */
  lemma LightNormal(l: string)
    requires l != [] && AllLightChars(l) && Collapsed(l) && !IsSpace(l[0]) && !IsSpace(l[|l| - 1])
    ensures NormalText(l)
  {
    forall i, e | 0 <= i <= e <= |l|
      ensures !IsAreaToken(l[i..e])
    {
      if e - i >= 7 {
        assert l[i..e][..2][0] == l[i];
      }
    }
  }

  /** Digits, at most one period after a digit, and a final letter. */
  predicate PositionWord(x: string) {
    && |x| >= 2 && x[|x| - 1] in {'N', 'S', 'E', 'W'}
    && (forall k :: 0 <= k < |x| - 1 ==> IsDigit(x[k]) || x[k] == '.')
    && (forall k :: 0 < k < |x| && x[k] == '.' ==> IsDigit(x[k - 1]))
  }

  lemma PositionWordNormal(x: string)
    requires PositionWord(x) && IsDigit(x[0])
    ensures NormalText(x)
  {
    WordNormal(x);
  }

  /** A printed angle: the degree and minute digits, the seconds and the
      hemisphere letter. */
  lemma AngleTextWord(head: string, a: Angle, h: char)
    requires |head| >= 1 && AllDigits(head) && a.seconds < 100 && (a.tenths.Some? ==> a.tenths.value < 10)
    requires h in {'N', 'S', 'E', 'W'}
    ensures PositionWord(head + SecondsText(a) + [h])
  {
    var x := head + SecondsText(a) + [h];
    var p := PadDigits(a.seconds, 2);
    var n := |head|;
    forall k | 0 <= k < |x| - 1
      ensures IsDigit(x[k]) || (x[k] == '.' && 0 < k && IsDigit(x[k - 1]))
    {
      if k < n {
        assert x[k] == head[k];
      } else if k < n + 2 {
        assert x[k] == p[k - n];
      } else {
        assert a.tenths.Some?;
        assert SecondsText(a) == p + "." + [DigitChar(a.tenths.value)];
        assert x[n + 1] == p[1];
        assert x[n + 2] == '.' && x[n + 3] == DigitChar(a.tenths.value);
      }
    }
  }

  /** A printed latitude is in normal form and starts with four digits. */
  lemma LatitudeNormal(a: Angle)
    requires ValidAngle(a, 2)
    ensures NormalText(LatitudeText(a)) && AllDigits(LatitudeText(a)[..4])
    ensures IsNorthSouth(LatitudeText(a)[|LatitudeText(a)| - 1])
  {
    var head := PadDigits(a.degrees, 2) + PadDigits(a.minutes, 2);
    var h := if a.negative then 'S' else 'N';
    assert AllDigits(head) by {
      forall k | 0 <= k < 4
        ensures IsDigit(head[k])
      {
        if k < 2 {
          assert head[k] == PadDigits(a.degrees, 2)[k];
        } else {
          assert head[k] == PadDigits(a.minutes, 2)[k - 2];
        }
      }
    }
    assert LatitudeText(a) == head + SecondsText(a) + [h];
    AngleTextWord(head, a, h);
    PositionWordNormal(LatitudeText(a));
    assert LatitudeText(a)[..4] == head;
  }

  /** A printed longitude is in normal form and ends with E or W. */
  lemma LongitudeNormal(a: Angle)
    requires ValidAngle(a, 3)
    ensures NormalText(LongitudeText(a)) && IsDigit(LongitudeText(a)[0])
    ensures IsEastWest(LongitudeText(a)[|LongitudeText(a)| - 1])
  {
    var head := PadDigits(a.degrees, 3) + PadDigits(a.minutes, 2);
    var h := if a.negative then 'W' else 'E';
    assert AllDigits(head) by {
      forall k | 0 <= k < 5
        ensures IsDigit(head[k])
      {
        if k < 3 {
          assert head[k] == PadDigits(a.degrees, 3)[k];
        } else {
          assert head[k] == PadDigits(a.minutes, 2)[k - 3];
        }
      }
    }
    assert LongitudeText(a) == head + SecondsText(a) + [h];
    AngleTextWord(head, a, h);
    PositionWordNormal(LongitudeText(a));
  }

  /** A printed position is in normal form: the area pattern cannot match
      across its space, because the longitude starts with more than three
      digits. */
  lemma CoordinatesNormal(lat: Angle, lon: Angle)
    requires ValidPosition(lat, lon)
    ensures var t := CoordinatesText(lat, lon);
      NormalText(t) && AllDigits(t[..4]) && IsEastWest(t[|t| - 1])
  {
    var x := LatitudeText(lat);
    var y := LongitudeText(lon);
    LatitudeNormal(lat);
    LongitudeNormal(lon);
    LongitudeTextParts(lon);
    assert y[2] == y[0..3][2] && y[3] == y[3..5][0];
    JoinNormal(x, y);
    var t := CoordinatesText(lat, lon);
    assert t[..4] == x[..4];
    assert t[|t| - 1] == y[|y| - 1];
  }

  /** The light and the type, one space apart. */
  lemma AfterElevationNormal(row: Row)
    requires NormalRow(row)
    ensures NormalText(AfterElevation(row)) && AfterElevation(row)[0] == row.light[0]
  {
    var l := row.light;
    LightNormal(l);
    assert IsLightChar(l[|l| - 1]);
    JoinNormal(l, row.obstacleType);
  }

  /** The elevation and what follows it. */
  lemma AfterHeightNormal(row: Row)
    requires NormalRow(row)
    ensures NormalText(AfterHeight(row)) && IsDigit(AfterHeight(row)[0])
  {
    var t := NatToString(row.elevation);
    AfterElevationNormal(row);
    assert IsLightChar(row.light[0]);
    NumberNormal(row.elevation);
    assert IsDigit(t[|t| - 1]);
    JoinNormal(t, AfterElevation(row));
  }

  /** The height and what follows it. */
  lemma AfterPositionNormal(row: Row)
    requires NormalRow(row)
    ensures NormalText(AfterPosition(row)) && IsDigit(AfterPosition(row)[0])
  {
    var t := NatToString(row.height);
    AfterHeightNormal(row);
    NumberNormal(row.height);
    assert IsDigit(t[|t| - 1]);
    JoinNormal(t, AfterHeight(row));
  }

  /** The position and what follows it. */
  lemma AfterDesignationNormal(row: Row)
    requires NormalRow(row)
    ensures NormalText(AfterDesignation(row)) && AllDigits(AfterDesignation(row)[..4])
  {
    var t := CoordinatesText(row.latitude, row.longitude);
    AfterPositionNormal(row);
    CoordinatesNormal(row.latitude, row.longitude);
    JoinNormal(t, AfterPosition(row));
    assert AfterDesignation(row)[..4] == t[..4];
  }

  /** The designation and what follows it. */
  lemma AfterNumberNormal(row: Row)
    requires NormalRow(row)
    ensures NormalText(AfterNumber(row)) && !StartsWithMarker(AfterNumber(row))
  {
    var d := row.designation;
    var rest := AfterDesignation(row);
    AfterDesignationNormal(row);
    assert IsDigit(rest[..4][2]) && IsDigit(rest[..4][3]);
    JoinNormal(d, rest);
    var s := d + " " + rest;
    if |d| < 4 {
      assert s[|d|] == ' ';
      assert |d| == 3 ==> s[..3] == d;
    }
  }

  /** The printed line of a normal row is in normal form, so the clean-up of
      lines 56-72 gives it back unchanged. */
  lemma FormatRowNormal(row: Row)
    requires NormalRow(row)
    ensures NormalText(FormatRow(row)) && Normalise(FormatRow(row)) == FormatRow(row)
  {
    var t := NatToString(row.number);
    AfterNumberNormal(row);
    NumberNormal(row.number);
    assert IsDigit(t[|t| - 1]);
    JoinNormal(t, AfterNumber(row));
    NormaliseIdentity(FormatRow(row));
  }
}
