/** The cursor of SwedenObstacleParser.parse (lines 74-170) that pops the
    fields of a normalised line one after another: number, designation,
    coordinates, height, elevation, light and, last, the type. Each step finds
    the first match of its field's pattern in what is left of the line, takes
    the value from the match, and then cuts the value's length plus one
    characters off the FRONT of the line, wherever the match started. */
module Tokeniser {
  import opened Wrappers
  import opened Text
  import opened Patterns
  import opened Obstacles
  import opened CoordinateDecoding

  /** A field's value and what is left of the line once it has been popped. */
  datatype Popped<T> = Popped(value: T, rest: string)

  // ---------------------------------------------------------------------------
  // Number, height and elevation (lines 75-81, 144-150, 153-159)

  /** Find `\d{1,5}`, take the digits, cut their length plus one characters
      off the front of the line, and read the digits with Integer.valueOf. */
  function PopInteger(line: string, field: Field): (r: Result<Popped<nat>, LineFailure>)
    ensures r.Failure? ==> r.error == NoMatch(field) || r.error == IndexOutOfBounds
    ensures r.Success? ==> r.value.value < 100000 && |r.value.rest| < |line|
  {
    match FindDigits(line)
    case None => Failure(NoMatch(field))
    case Some(m) =>
      var digits := line[m.start..m.end];
      var rest :- SubstringFrom(line, |digits| + 1);
      DigitsValueBound(digits);
      Success(Popped(DigitsValue(digits), rest))
  }

  /** The field is missing exactly when the line holds no digit at all. */
  lemma PopIntegerNoMatch(line: string, field: Field)
    ensures PopInteger(line, field) == Failure(NoMatch(field)) <==> forall k :: 0 <= k < |line| ==> !IsDigit(line[k])
  {
    if PopInteger(line, field) == Failure(NoMatch(field)) {
      forall k | 0 <= k < |line|
        ensures !IsDigit(line[k])
      {
        assert !IsShortDigitRun(line[k..k + 1]);
      }
    } else {
      var m := FindDigits(line).value;
      assert IsDigit(line[m.start..m.end][0]);
    }
  }

  /** The value is that of the first run of up to five digits: the run starts
      at the first digit of the line and stops after five digits or at the
      first non-digit. The line then loses the run's length plus one
      characters from its front, or, when it is not that long, the pop fails
      as String.substring does. */
  lemma PopIntegerTakesFirstRun(line: string, field: Field, i: nat, e: nat)
    requires i < e <= |line| && e - i <= 5 && AllDigits(line[i..e])
    requires forall k :: 0 <= k < i ==> !IsDigit(line[k])
    requires e - i == 5 || e == |line| || !IsDigit(line[e])
    ensures PopInteger(line, field) ==
      if e - i + 1 <= |line| then Success(Popped(DigitsValue(line[i..e]), line[e - i + 1..]))
      else Failure(IndexOutOfBounds)
  {
    FindDigitsAt(line, i, e);
    DigitsValueBound(line[i..e]);
  }

  /** Where the match of `\d{1,5}` lies in such a line. */
  lemma FindDigitsAt(line: string, i: nat, e: nat)
    requires i < e <= |line| && e - i <= 5 && AllDigits(line[i..e])
    requires forall k :: 0 <= k < i ==> !IsDigit(line[k])
    requires e - i == 5 || e == |line| || !IsDigit(line[e])
    ensures FindDigits(line) == Some(Span(i, e))
  {
    assert IsShortDigitRun(line[i..e]);
    var m := FindDigits(line).value;
    assert IsDigit(line[m.start..m.end][0]);
    if m.start > i {
      assert false;
    }
  }

  /** A number printed in decimal and followed by a space pops back as
      itself, leaving what followed the space. */
  lemma PopIntegerPrinted(n: nat, rest: string, field: Field)
    requires n < 100000
    ensures PopInteger(NatToString(n) + " " + rest, field) == Success(Popped(n, rest))
  {
    var digits := NatToString(n);
    var line := digits + " " + rest;
    NatToStringLength(n, 5);
    assert line[0..|digits|] == digits;
    assert line[|digits|] == ' ';
    PopIntegerTakesFirstRun(line, field, 0, |digits|);
    assert line[|digits| + 1..] == rest;
  }

  // ---------------------------------------------------------------------------
  // Designation (lines 84-94)

  /** Lines 86-92 once the cut is chosen: the match loses its last `cut`
      characters, and the line then loses the designation's length plus one
      characters from its front. */
  function CutDesignation(line: string, m: DesignationMatch, cut: nat): (r: Result<Popped<string>, LineFailure>)
    requires m.start <= m.end <= |line| && cut >= 1
    ensures r.Failure? <==> m.end - m.start < cut
    ensures r.Failure? ==> r.error == IndexOutOfBounds
    ensures r.Success? ==> r.value.value == line[m.start..m.end - cut] && r.value.rest == line[m.end - m.start - cut + 1..]
  {
    var matched := line[m.start..m.end];
    if |matched| < cut then Failure(IndexOutOfBounds)
    else
      var designation := matched[..|matched| - cut];
      // the cut is at least one character of a match that lies in the line,
      // so this String.substring cannot throw
      Success(Popped(designation, line[|designation| + 1..]))
  }

  /** Lines 84-94 as written: the match of `.*\d{6}\.?\d?[NS]` loses its last
      10 characters if it holds a '.' ANYWHERE, its last 8 otherwise. */
  function PopDesignationAsWritten(line: string): (r: Result<Popped<string>, LineFailure>)
    ensures r.Failure? ==> r.error == NoMatch(Designation) || r.error == IndexOutOfBounds
  {
    match FindDesignation(line)
    case None => Failure(NoMatch(Designation))
    case Some(m) => CutDesignation(line, m, if '.' in line[m.start..m.end] then 10 else 8)
  }

  /** The designation step as it is evidently meant: the match loses its
      latitude and the space before it, whatever characters the designation
      text holds. The rest of the model uses this step. */
  function PopDesignation(line: string): (r: Result<Popped<string>, LineFailure>)
    ensures r.Failure? ==> r.error == NoMatch(Designation) || r.error == IndexOutOfBounds
  {
    match FindDesignation(line)
    case None => Failure(NoMatch(Designation))
    case Some(m) => CutDesignation(line, m, m.end - m.tail + 1)
  }

  /** The field is missing exactly when no latitude stands anywhere in the line. */
  lemma PopDesignationNoMatch(line: string)
    ensures PopDesignation(line) == Failure(NoMatch(Designation)) <==> NoLatitudeIn(line)
    ensures PopDesignationAsWritten(line) == Failure(NoMatch(Designation)) <==> NoLatitudeIn(line)
  {
  }

  /** No latitude stands anywhere in t. */
  predicate NoLatitudeIn(t: string) {
    forall j, e :: 0 <= j <= e <= |t| ==> !IsLatitude(t[j..e])
  }

  /** A latitude holds no whitespace. */
  lemma LatitudeHasNoSpace(w: string)
    requires IsLatitude(w)
    ensures forall k :: 0 <= k < |w| ==> !IsSpace(w[k])
  {
    forall k | 0 <= k < |w|
      ensures !IsSpace(w[k])
    {
      if k < 6 {
        assert w[..6][k] == w[k];
      } else if k < |w| - 1 {
        assert w[6..|w| - 1][k - 6] == w[k];
      }
    }
  }

  /** Text without N and S holds no latitude. */
  lemma NoNorthSouthNoLatitude(t: string)
    requires forall k :: 0 <= k < |t| ==> !IsNorthSouth(t[k])
    ensures NoLatitudeIn(t)
  {
    forall j, e | 0 <= j <= e <= |t|
      ensures !IsLatitude(t[j..e])
    {
      if j < e {
        assert t[j..e][e - j - 1] == t[e - 1];
      }
    }
  }

  /** A latitude does not reach across a space. */
  lemma NoLatitudeAcrossSpace(a: string, b: string)
    requires NoLatitudeIn(a) && NoLatitudeIn(b)
    ensures NoLatitudeIn(a + " " + b)
  {
    var s := a + " " + b;
    forall j, e | 0 <= j <= e <= |s|
      ensures !IsLatitude(s[j..e])
    {
      if e <= |a| {
        assert s[j..e] == a[j..e];
      } else if j > |a| {
        assert s[j..e] == b[j - |a| - 1..e - |a| - 1];
      } else {
        assert s[|a|] == ' ';
        assert s[j..e][|a| - j] == ' ';
        if IsLatitude(s[j..e]) {
          LatitudeHasNoSpace(s[j..e]);
        }
      }
    }
  }

  /** Where the designation match of d, a space, a latitude and the rest of
      the line stands, when no latitude starts after the first character of
      that latitude. */
  lemma DesignationMatchAt(d: string, lat: string, rest: string)
    requires NoLineTerminator(d) && IsLatitude(lat) && NoLatitudeIn(lat[1..] + rest)
    ensures FindDesignation(d + " " + lat + rest) == Some(DesignationMatch(0, |d| + 1, |d| + 1 + |lat|))
  {
    var s := d + " " + lat + rest;
    LineParts(d, lat, rest);
    NoLineTerminatorSpace(d);
    DesignationMatchOfSplit(s, |d| + 1, |d| + 1 + |lat|);
  }

  /** Where the parts of a designation, a space, a latitude and the rest stand. */
  lemma LineParts(d: string, lat: string, rest: string)
    requires |lat| >= 1
    ensures var s := d + " " + lat + rest;
      && s[..|d| + 1] == d + " " && s[|d| + 1..|d| + 1 + |lat|] == lat && s[|d| + 2..] == lat[1..] + rest
  {
    var s := d + " " + lat + rest;
    assert s[..|d| + 1] == d + " ";
    assert s[|d| + 1..|d| + 1 + |lat|] == lat;
    assert s[|d| + 2..] == lat[1..] + rest;
  }

  /** A designation without line terminators keeps none with its space. */
  lemma NoLineTerminatorSpace(d: string)
    requires NoLineTerminator(d)
    ensures NoLineTerminator(d + " ")
  {
    assert forall k :: 0 <= k < |d| ==> (d + " ")[k] == d[k];
  }

  /** No latitude starts in a suffix that holds none. */
  lemma NoLatitudeInSuffix(s: string, k: nat)
    requires k <= |s| && NoLatitudeIn(s[k..])
    ensures forall j, e :: k <= j <= e <= |s| ==> !IsLatitude(s[j..e])
  {
    forall j, e | k <= j <= e <= |s|
      ensures !IsLatitude(s[j..e])
    {
      assert s[k..] == s[k..|s|];
      SliceOfSlice(s, k, |s|, j - k, e - k);
      assert !IsLatitude(s[k..][j - k..e - k]);
    }
  }

  /** The designation match of a line whose first `tail` characters hold no
      line terminator and are followed by a latitude, after whose first
      character no latitude starts. */
  lemma DesignationMatchOfSplit(s: string, tail: nat, end: nat)
    requires tail < end <= |s| && NoLineTerminator(s[..tail]) && IsLatitude(s[tail..end])
    requires NoLatitudeIn(s[tail + 1..])
    ensures FindDesignation(s) == Some(DesignationMatch(0, tail, end))
  {
    NoLatitudeInSuffix(s, tail + 1);
    var m := FindDesignation(s).value;
    MatchTailAt(s, tail, end, m);
    LatitudeEndExact(s, tail, m.end);
    LatitudeEndExact(s, tail, end);
    MatchStartsLine(s, tail, m);
    assert m == DesignationMatch(0, tail, end);
  }

  /** The last latitude of the match is the one at `tail`. */
  lemma MatchTailAt(s: string, tail: nat, end: nat, m: DesignationMatch)
    requires FindDesignation(s) == Some(m)
    requires tail < end <= |s| && NoLineTerminator(s[..tail]) && IsLatitude(s[tail..end])
    requires forall j, e :: tail < j <= e <= |s| ==> !IsLatitude(s[j..e])
    ensures m.tail == tail
  {
    if m.tail < tail {
      NoLineTerminatorWithin(s, tail, m.start, tail);
      assert false;
    }
    if m.tail > tail {
      assert false;
    }
  }

  /** A match whose latitude starts within a prefix free of line terminators
      starts the line. */
  lemma MatchStartsLine(s: string, tail: nat, m: DesignationMatch)
    requires FindDesignation(s) == Some(m)
    requires m.tail <= tail <= |s| && NoLineTerminator(s[..tail])
    ensures m.start == 0
  {
    if m.start > 0 {
      assert false;
    }
  }

  /** A slice of a prefix without line terminators has none either. */
  lemma NoLineTerminatorWithin(s: string, n: nat, a: nat, b: nat)
    requires a <= b <= n <= |s| && NoLineTerminator(s[..n])
    ensures NoLineTerminator(s[a..b])
  {
    forall k | 0 <= k < b - a
      ensures !IsLineTerminator(s[a..b][k])
    {
      assert s[a..b][k] == s[..n][a + k];
    }
  }

  /** A designation, a space, a latitude and the rest of the line pop back
      as the designation, leaving the latitude and the rest. */
  lemma PopDesignationPrinted(d: string, lat: string, rest: string)
    requires NoLineTerminator(d) && IsLatitude(lat) && NoLatitudeIn(lat[1..] + rest)
    ensures PopDesignation(d + " " + lat + rest) == Success(Popped(d, lat + rest))
  {
    var s := d + " " + lat + rest;
    var m := DesignationMatch(0, |d| + 1, |d| + 1 + |lat|);
    DesignationMatchAt(d, lat, rest);
    PopDesignationBeforeSpace(s, |d|, m);
    SplitAtSpace(d, lat, rest);
  }

  /** A match that starts the line and whose latitude starts after the
      character at `a` pops what stands before that character and leaves
      what stands after it. */
  lemma PopDesignationBeforeSpace(s: string, a: nat, m: DesignationMatch)
    requires FindDesignation(s) == Some(m) && m.start == 0 && m.tail == a + 1
    ensures PopDesignation(s) == Success(Popped(s[..a], s[a + 1..]))
  {
  }

  /** The two sides of the space after a designation. */
  lemma SplitAtSpace(d: string, lat: string, rest: string)
    ensures var s := d + " " + lat + rest;
      s[..|d|] == d && s[|d| + 1..] == lat + rest
  {
    var s := d + " " + lat + rest;
    assert s == d + " " + (lat + rest);
  }

  /** The two steps agree when the designation text holds no '.' and the
      latitude is printed with whole seconds or with a tenth. */
  lemma PopDesignationAsWrittenAgrees(d: string, lat: string, rest: string)
    requires NoLineTerminator(d) && IsLatitude(lat) && NoLatitudeIn(lat[1..] + rest)
    requires '.' !in d && |lat| != 8
    ensures PopDesignationAsWritten(d + " " + lat + rest) == PopDesignation(d + " " + lat + rest)
  {
    var s := d + " " + lat + rest;
    DesignationMatchAt(d, lat, rest);
    LatitudePeriod(lat);
    MatchedPeriod(d, lat, rest);
    SameCutSameStep(s);
  }

  /** The text matched by a designation, a space and a latitude holds a '.'
      when either of them does. */
  lemma MatchedPeriod(d: string, lat: string, rest: string)
    ensures var matched := (d + " " + lat + rest)[0..|d| + 1 + |lat|];
      ('.' in matched) == ('.' in d || '.' in lat)
  {
    var matched := (d + " " + lat + rest)[0..|d| + 1 + |lat|];
    assert matched == d + " " + lat;
    assert forall k :: 0 <= k < |d| ==> matched[k] == d[k];
    assert forall k :: 0 <= k < |lat| ==> matched[|d| + 1 + k] == lat[k];
  }

  /** Both steps give the same result whenever the cut of 10 or 8 happens to
      be the length of the latitude plus one. */
  lemma SameCutSameStep(line: string)
    requires FindDesignation(line).Some?
    requires var m := FindDesignation(line).value;
      (if '.' in line[m.start..m.end] then 10 else 8) == m.end - m.tail + 1
    ensures PopDesignationAsWritten(line) == PopDesignation(line)
  {
    var m := FindDesignation(line).value;
    assert PopDesignationAsWritten(line) == CutDesignation(line, m, m.end - m.tail + 1);
  }

  /** The period of a latitude: none with whole seconds, one with a tenth. */
  lemma LatitudePeriod(lat: string)
    requires IsLatitude(lat)
    ensures |lat| == 7 ==> '.' !in lat
    ensures |lat| == 9 ==> '.' in lat
  {
    if |lat| == 7 {
      forall k | 0 <= k < 7
        ensures lat[k] != '.'
      {
        if k < 6 {
          assert lat[..6][k] == lat[k];
        }
      }
    } else if |lat| == 9 {
      assert lat[6..|lat| - 1][0] == lat[6];
    }
  }

  /** A designation text that holds a '.' (such as "ST. PETRI") followed by a
      latitude with whole seconds loses its last two characters to the cut of
      10; the line then loses one character fewer than the designation took,
      so the next to last character is dropped and the last one stays at the
      front of the line. */
  lemma PopDesignationAsWrittenDropsTwo(d: string, lat: string, rest: string)
    requires NoLineTerminator(d) && IsLatitude(lat) && NoLatitudeIn(lat[1..] + rest)
    requires '.' in d && |d| >= 2 && |lat| == 7
    ensures PopDesignationAsWritten(d + " " + lat + rest) ==
      Success(Popped(d[..|d| - 2], d[|d| - 1..] + " " + lat + rest))
  {
    var s := d + " " + lat + rest;
    DesignationMatchAt(d, lat, rest);
    MatchedPeriod(d, lat, rest);
    CutTwoParts(d, lat, rest);
  }

  /** What stands on either side of the next to last character of the
      designation. */
  lemma CutTwoParts(d: string, lat: string, rest: string)
    requires |d| >= 2
    ensures var s := d + " " + lat + rest;
      s[0..|d| - 2] == d[..|d| - 2] && s[|d| - 1..] == d[|d| - 1..] + " " + lat + rest
  {
    var s := d + " " + lat + rest;
    assert s[0..|d| - 2] == d[..|d| - 2];
    assert s[|d| - 1..] == d[|d| - 1..] + " " + lat + rest;
  }

  /** The line "ST. PETRI 551212N 0131212E", given by its parts: as written
      the designation becomes "ST. PET", the 'R' is lost and "I" is left
      before the coordinates. */
  lemma DesignationWithPeriod(d: string, lat: string, rest: string)
    requires d == "ST. PETRI" && lat == "551212N" && rest == " 0131212E"
    ensures PopDesignationAsWritten(d + " " + lat + rest) == Success(Popped("ST. PET", "I " + lat + rest))
  {
    PeriodExampleDesignation(d);
    PeriodExampleLatitude(lat, rest);
    PopDesignationAsWrittenDropsTwo(d, lat, rest);
    assert d[|d| - 1..] + " " == "I ";
  }

  /** The same line through the corrected step keeps "ST. PETRI" whole and
      leaves the coordinates. */
  lemma DesignationWithPeriodCorrected(d: string, lat: string, rest: string)
    requires d == "ST. PETRI" && lat == "551212N" && rest == " 0131212E"
    ensures PopDesignation(d + " " + lat + rest) == Success(Popped("ST. PETRI", lat + rest))
  {
    PeriodExampleDesignation(d);
    PeriodExampleLatitude(lat, rest);
    PopDesignationPrinted(d, lat, rest);
  }

  lemma PeriodExampleDesignation(d: string)
    requires d == "ST. PETRI"
    ensures NoLineTerminator(d) && '.' in d && |d| == 9 && d[..|d| - 2] == "ST. PET" && d[|d| - 1..] == "I"
  {
    assert d[2] == '.';
  }

  lemma PeriodExampleLatitude(lat: string, rest: string)
    requires lat == "551212N" && rest == " 0131212E"
    ensures IsLatitude(lat) && NoLatitudeIn(lat[1..] + rest)
  {
    assert lat[..6] == "551212";
    assert lat[6..|lat| - 1] == [];
    var head := lat[1..];
    var lon := rest[1..];
    assert |head| == 6;
    assert NoLatitudeIn(head);
    assert lon == "0131212E";
    NoNorthSouthNoLatitude(lon);
    NoLatitudeAcrossSpace(head, lon);
    assert rest == " " + lon;
  }

  // ---------------------------------------------------------------------------
  // Coordinates (lines 97-141)

  /** Find the coordinate token, cut its length plus one characters off the
      front of the line, and decode it. */
  function PopCoordinates(line: string): (r: Result<Popped<Coordinates>, LineFailure>)
    ensures r.Success? ==> |r.value.rest| < |line|
  {
    match FindCoordinates(line)
    case None => Failure(NoMatch(Position))
    case Some(m) =>
      var token := line[m.start..m.end];
      var rest :- SubstringFrom(line, |token| + 1);
      var position :- DecodeCoordinates(token);
      Success(Popped(position, rest))
  }

  /** The field is missing exactly when no coordinate token stands in the line. */
  lemma PopCoordinatesNoMatch(line: string)
    ensures PopCoordinates(line) == Failure(NoMatch(Position)) <==>
      forall i, e :: 0 <= i <= e <= |line| ==> !IsCoordinateToken(line[i..e])
  {
  }

  /** The token is the leftmost coordinate token of the line, whose end is
      the only one possible at its start. The line loses the token's length
      plus one characters from its FRONT, wherever the token started, and
      that cut is made before the token is decoded: a token that fills the
      whole line fails as String.substring does, whatever it holds. */
  lemma PopCoordinatesTakesFirstMatch(line: string, i: nat, e: nat)
    requires i <= e <= |line| && IsCoordinateToken(line[i..e])
    requires forall i', e' :: 0 <= i' < i && i' <= e' <= |line| ==> !IsCoordinateToken(line[i'..e'])
    ensures e - i + 1 > |line| ==> PopCoordinates(line) == Failure(IndexOutOfBounds)
    ensures e - i + 1 <= |line| && DecodeCoordinates(line[i..e]).Failure? ==>
      PopCoordinates(line) == Failure(DecodeCoordinates(line[i..e]).error)
    ensures e - i + 1 <= |line| && DecodeCoordinates(line[i..e]).Success? ==>
      PopCoordinates(line) == Success(Popped(DecodeCoordinates(line[i..e]).value, line[e - i + 1..]))
  {
    FirstCoordinateToken(line, i, e);
    PopCoordinatesOfSpan(line, i, e);
  }

  /** The pop once find() has reported the span i..e. */
  lemma PopCoordinatesOfSpan(line: string, i: nat, e: nat)
    requires i <= e <= |line| && FindCoordinates(line) == Some(Span(i, e))
    ensures e - i + 1 > |line| ==> PopCoordinates(line) == Failure(IndexOutOfBounds)
    ensures e - i + 1 <= |line| && DecodeCoordinates(line[i..e]).Failure? ==>
      PopCoordinates(line) == Failure(DecodeCoordinates(line[i..e]).error)
    ensures e - i + 1 <= |line| && DecodeCoordinates(line[i..e]).Success? ==>
      PopCoordinates(line) == Success(Popped(DecodeCoordinates(line[i..e]).value, line[e - i + 1..]))
  {
    if e - i + 1 > |line| {
      PopCoordinatesCutTooLong(line, i, e);
    } else if DecodeCoordinates(line[i..e]).Failure? {
      PopCoordinatesDecodeFails(line, i, e);
    } else {
      PopCoordinatesDecoded(line, i, e);
    }
  }

  lemma PopCoordinatesCutTooLong(line: string, i: nat, e: nat)
    requires i <= e <= |line| && FindCoordinates(line) == Some(Span(i, e)) && e - i + 1 > |line|
    ensures PopCoordinates(line) == Failure(IndexOutOfBounds)
  {
    assert |line[i..e]| == e - i;
  }

  lemma PopCoordinatesDecodeFails(line: string, i: nat, e: nat)
    requires i <= e <= |line| && FindCoordinates(line) == Some(Span(i, e)) && e - i + 1 <= |line|
    requires DecodeCoordinates(line[i..e]).Failure?
    ensures PopCoordinates(line) == Failure(DecodeCoordinates(line[i..e]).error)
  {
    assert |line[i..e]| == e - i;
  }

  lemma PopCoordinatesDecoded(line: string, i: nat, e: nat)
    requires i <= e <= |line| && FindCoordinates(line) == Some(Span(i, e)) && e - i + 1 <= |line|
    requires DecodeCoordinates(line[i..e]).Success?
    ensures PopCoordinates(line) == Success(Popped(DecodeCoordinates(line[i..e]).value, line[e - i + 1..]))
  {
    assert |line[i..e]| == e - i;
  }

  /** The match find() reports is the leftmost token. */
  lemma FirstCoordinateToken(line: string, i: nat, e: nat)
    requires i <= e <= |line| && IsCoordinateToken(line[i..e])
    requires forall i', e' :: 0 <= i' < i && i' <= e' <= |line| ==> !IsCoordinateToken(line[i'..e'])
    ensures FindCoordinates(line) == Some(Span(i, e))
  {
    var m := FindCoordinates(line).value;
    if m.start < i {
      assert false;
    }
    if m.start > i {
      assert false;
    }
    assert m.end == e;
  }

  /** A printed position after text with no digit in it: the position is
      decoded, and the line loses as many characters from its front as the
      token has, plus one, wherever the token started. So in
      "AB 551212N 0131212E 45" the cut of 17 leaves "2E 45" for the height. */
  lemma PopCoordinatesAfterWord(w: string, lat: Angle, lon: Angle, rest: string)
    requires ValidPosition(lat, lon) && forall k :: 0 <= k < |w| ==> !IsDigit(w[k])
    ensures var t := CoordinatesText(lat, lon);
      var line := w + t + rest;
      && (|w| + |rest| == 0 ==> PopCoordinates(line) == Failure(IndexOutOfBounds))
      && (|w| + |rest| > 0 ==>
            PopCoordinates(line) == Success(Popped(Coordinates(AngleValue(lat), AngleValue(lon)), line[|t| + 1..])))
  {
    var t := CoordinatesText(lat, lon);
    var line := w + t + rest;
    assert line[|w|..|w| + |t|] == t;
    PrintedIsCoordinateToken(lat, lon);
    assert forall k :: 0 <= k < |w| ==> line[k] == w[k];
    NoTokenInFirstWord(line, |w|);
    DecodePrinted(lat, lon);
    PopCoordinatesTakesFirstMatch(line, |w|, |w| + |t|);
  }

  /** A coordinate token starts with a digit. */
  lemma NoCoordinateTokenWithoutDigit(t: string)
    requires t == [] || !IsDigit(t[0])
    ensures !IsCoordinateToken(t)
  {
  }

  /** No coordinate token starts among the first characters of a line when
      none of them is a digit. */
  lemma NoTokenInFirstWord(line: string, i: nat)
    requires i <= |line| && forall k :: 0 <= k < i ==> !IsDigit(line[k])
    ensures forall i', e' :: 0 <= i' < i && i' <= e' <= |line| ==> !IsCoordinateToken(line[i'..e'])
  {
    forall i', e' | 0 <= i' < i && i' <= e' <= |line|
      ensures !IsCoordinateToken(line[i'..e'])
    {
      assert line[i'..e'] == [] || line[i'..e'][0] == line[i'];
      NoCoordinateTokenWithoutDigit(line[i'..e']);
    }
  }

  /** A printed position followed by a space pops back as its value. */
  lemma PopCoordinatesPrinted(lat: Angle, lon: Angle, rest: string)
    requires ValidPosition(lat, lon)
    ensures PopCoordinates(CoordinatesText(lat, lon) + " " + rest) ==
      Success(Popped(Coordinates(AngleValue(lat), AngleValue(lon)), rest))
  {
    var t := CoordinatesText(lat, lon);
    var s := t + " " + rest;
    PrintedIsCoordinateToken(lat, lon);
    assert s[0..|t|] == t;
    var m := FindCoordinates(s).value;
    if m.start > 0 {
      assert false;
    }
    assert m.end == |t|;
    assert s[|t| + 1..] == rest;
    DecodePrinted(lat, lon);
  }

  // ---------------------------------------------------------------------------
  // Light and type (lines 162-170)

  /** Find `[FLRGW/\s-]*\s`, take the match without its final whitespace
      character, and cut that text's length plus one characters off the front
      of the line. */
  function PopLight(line: string): (r: Result<Popped<string>, LineFailure>)
    ensures r.Failure? ==> r.error == NoMatch(Light)
    ensures r.Success? ==> |r.value.rest| < |line|
  {
    match FindLight(line)
    case None => Failure(NoMatch(Light))
    case Some(m) =>
      var light := line[m.start..m.end - 1];
      // |light| + 1 never exceeds the line, so this String.substring cannot throw
      Success(Popped(light, line[|light| + 1..]))
  }

  /** The field is missing exactly when the line holds no whitespace. */
  lemma PopLightNoMatch(line: string)
    ensures PopLight(line).Failure? <==> forall k :: 0 <= k < |line| ==> !IsSpace(line[k])
  {
    if PopLight(line).Failure? {
      forall k | 0 <= k < |line|
        ensures !IsSpace(line[k])
      {
        assert !IsLightText(line[k..k + 1]);
        assert line[k..k + 1] == [line[k]];
      }
    } else {
      var m := FindLight(line).value;
      assert line[m.start..m.end][m.end - m.start - 1] == line[m.end - 1];
    }
  }

  /** The light is the leftmost, longest match of the pattern without its
      final whitespace, which may leave it empty; the type is what is left
      once the light's length plus one characters are cut from the front. */
  lemma PopLightTakesFirstMatch(line: string, i: nat, e: nat)
    requires i <= e <= |line| && IsLightText(line[i..e])
    requires forall i', e' :: 0 <= i' < i && i' <= e' <= |line| ==> !IsLightText(line[i'..e'])
    requires forall e' :: e < e' <= |line| ==> !IsLightText(line[i..e'])
    ensures PopLight(line) == Success(Popped(line[i..e - 1], line[e - i..]))
  {
    FirstLightMatch(line, i, e);
    assert PopLight(line) == Success(Popped(line[i..e - 1], line[e - 1 - i + 1..]));
  }

  /** The match find() reports is the leftmost, longest one. */
  lemma FirstLightMatch(line: string, i: nat, e: nat)
    requires i <= e <= |line| && IsLightText(line[i..e])
    requires forall i', e' :: 0 <= i' < i && i' <= e' <= |line| ==> !IsLightText(line[i'..e'])
    requires forall e' :: e < e' <= |line| ==> !IsLightText(line[i..e'])
    ensures FindLight(line) == Some(Span(i, e))
  {
    assert FindLight(line).Some?;
    var m := FindLight(line).value;
    if m.start > i {
      assert false;
    }
    if m.start < i {
      assert false;
    }
    if m.end < e {
      assert false;
    }
    if m.end > e {
      assert false;
    }
  }

  /** A light made of light characters, a space and a type that does not
      start with one pop back as the light and the type. */
  lemma PopLightPrinted(light: string, obstacleType: string)
    requires AllLightChars(light)
    requires obstacleType == [] || !IsLightChar(obstacleType[0])
    ensures PopLight(light + " " + obstacleType) == Success(Popped(light, obstacleType))
  {
    var s := light + " " + obstacleType;
    var e := |light| + 1;
    assert s[0..e] == light + " ";
    forall e' | e < e' <= |s|
      ensures !IsLightText(s[0..e'])
    {
      assert s[0..e'][e] == obstacleType[0];
    }
    PopLightTakesFirstMatch(s, 0, e);
    assert s[0..e - 1] == light;
    assert s[e..] == obstacleType;
  }

  /** A line with no light before its type: once the elevation is popped
      only the type is left, and the pattern then matches the first space
      inside it. The light comes out empty and, since the cut is still one
      character from the front, the type loses its first character. */
  lemma PopLightWithoutLight(word: string, rest: string)
    requires word != [] && (forall k :: 0 <= k < |word| ==> !IsSpace(word[k])) && !IsLightChar(word[|word| - 1])
    requires rest == [] || !IsLightChar(rest[0])
    ensures PopLight(word + " " + rest) == Success(Popped("", (word + " " + rest)[1..]))
  {
    var s := word + " " + rest;
    var n := |word|;
    assert s[n..n + 1] == " ";
    forall i', e' | 0 <= i' < n && i' <= e' <= |s|
      ensures !IsLightText(s[i'..e'])
    {
      if n < e' {
        assert s[i'..e'][n - 1 - i'] == word[n - 1];
      } else if i' < e' {
        assert s[i'..e'][e' - 1 - i'] == word[e' - 1];
      }
    }
    forall e' | n + 1 < e' <= |s|
      ensures !IsLightText(s[n..e'])
    {
      assert s[n..e'][1] == rest[0];
    }
    PopLightTakesFirstMatch(s, n, n + 1);
  }

  /** "WIND TURBINE" with no light before it: the light comes out empty and
      the type as "IND TURBINE". */
  lemma PopLightWindTurbine(line: string)
    requires line == "WIND TURBINE"
    ensures PopLight(line) == Success(Popped("", "IND TURBINE"))
  {
    assert line == "WIND" + " " + "TURBINE";
    PopLightWithoutLight("WIND", "TURBINE");
  }

  // ---------------------------------------------------------------------------
  // The seven steps

  /** Lines 74-170 on a normalised line: the first step that fails ends the
      line with its failure; otherwise the fields make an obstacle, the type
      being whatever the light step left. */
  function Tokenise(line: string): (r: Result<Obstacle, LineFailure>)
    ensures r.Success? ==> r.value.number < 100000 && r.value.height < 100000 && r.value.elevation < 100000
  {
    var number :- PopInteger(line, Number);
    var designation :- PopDesignation(number.rest);
    TokeniseFields(number.value, designation)
  }

  /** Lines 97-170, the steps after the designation: the number and the
      designation already popped are passed through as they are. */
  function TokeniseFields(number: nat, designation: Popped<string>): (r: Result<Obstacle, LineFailure>)
    ensures r.Success? ==> r.value.number == number && r.value.designation == designation.value
    ensures r.Success? ==> r.value.height < 100000 && r.value.elevation < 100000
  {
    var position :- PopCoordinates(designation.rest);
    var height :- PopInteger(position.rest, Height);
    var elevation :- PopInteger(height.rest, Elevation);
    var light :- PopLight(elevation.rest);
    Success(Obstacle(number, designation.value, position.value, height.value, elevation.value,
                     light.value, light.rest))
  }

  /** Lines 74-170 exactly as written: Tokenise with the designation step of
      lines 84-94 as the source has it. */
  function TokeniseAsWritten(line: string): (r: Result<Obstacle, LineFailure>)
    ensures r.Success? ==> r.value.number < 100000 && r.value.height < 100000 && r.value.elevation < 100000
  {
    var number :- PopInteger(line, Number);
    var designation :- PopDesignationAsWritten(number.rest);
    TokeniseFields(number.value, designation)
  }

  /** The source and the corrected step tokenise a line alike whenever their
      designation steps agree on what the number step left. */
  lemma TokeniseAsWrittenAgrees(line: string)
    requires PopInteger(line, Number).Success? ==>
      PopDesignationAsWritten(PopInteger(line, Number).value.rest) == PopDesignation(PopInteger(line, Number).value.rest)
    ensures TokeniseAsWritten(line) == Tokenise(line)
  {
  }

  /** One row of the obstacle table, with its position as printed. */
  datatype Row = Row(
    number: nat,
    designation: string,
    latitude: Angle,
    longitude: Angle,
    height: nat,
    elevation: nat,
    light: string,
    obstacleType: string)

  /** The rows whose printed line reads back as the row: numbers of at most
      five digits, a designation within one line, a position in one of the
      two layouts, a light of light characters, and a type that neither
      starts with a light character nor holds a latitude. */
  predicate PrintableRow(row: Row) {
    && row.number < 100000 && row.height < 100000 && row.elevation < 100000
    && NoLineTerminator(row.designation)
    && ValidPosition(row.latitude, row.longitude)
    && AllLightChars(row.light)
    && (row.obstacleType == [] || !IsLightChar(row.obstacleType[0]))
    && NoLatitudeIn(row.obstacleType)
  }

  /** A row printed as one line of the obstacle table: the fields in order,
      one space apart. The line is its own normal form only for the rows of
      PrintedRows.NormalRow; with an empty light it holds two spaces in a
      row, which the clean-up of lines 56-72 never leaves. */
  function FormatRow(row: Row): string
    requires ValidPosition(row.latitude, row.longitude)
  {
    NatToString(row.number) + " " + AfterNumber(row)
  }

  /** What of a printed row is left after each step. */
  function AfterNumber(row: Row): string
    requires ValidPosition(row.latitude, row.longitude)
  {
    row.designation + " " + AfterDesignation(row)
  }

  function AfterDesignation(row: Row): string
    requires ValidPosition(row.latitude, row.longitude)
  {
    CoordinatesText(row.latitude, row.longitude) + " " + AfterPosition(row)
  }

  function AfterPosition(row: Row): string {
    NatToString(row.height) + " " + AfterHeight(row)
  }

  function AfterHeight(row: Row): string {
    NatToString(row.elevation) + " " + AfterElevation(row)
  }

  function AfterElevation(row: Row): string {
    row.light + " " + row.obstacleType
  }

  /** The obstacle a row describes. */
  function RowObstacle(row: Row): Obstacle
    requires ValidPosition(row.latitude, row.longitude)
  {
    Obstacle(row.number, row.designation, Coordinates(AngleValue(row.latitude), AngleValue(row.longitude)),
             row.height, row.elevation, row.light, row.obstacleType)
  }

  /** What follows the latitude in a printed row holds no latitude. */
  lemma PrintedTailNoLatitude(row: Row)
    requires PrintableRow(row)
    ensures NoLatitudeIn(LatitudeText(row.latitude)[1..] + " " + (LongitudeText(row.longitude) + " " + AfterPosition(row)))
  {
    var x := LatitudeText(row.latitude);
    var y := LongitudeText(row.longitude);
    var h := NatToString(row.height);
    var v := NatToString(row.elevation);
    LatitudeTailNoLatitude(row.latitude);
    forall k | 0 <= k < |y|
      ensures !IsNorthSouth(y[k])
    {
      LongitudeChar(row.longitude, k);
    }
    NoNorthSouthNoLatitude(y);
    NoNorthSouthNoLatitude(h);
    NoNorthSouthNoLatitude(v);
    NoNorthSouthNoLatitude(row.light);
    NoLatitudeAcrossSpace(row.light, row.obstacleType);
    NoLatitudeAcrossSpace(v, row.light + " " + row.obstacleType);
    NoLatitudeAcrossSpace(h, v + " " + (row.light + " " + row.obstacleType));
    NoLatitudeAcrossSpace(y, h + " " + (v + " " + (row.light + " " + row.obstacleType)));
    NoLatitudeAcrossSpace(x[1..], y + " " + (h + " " + (v + " " + (row.light + " " + row.obstacleType))));
  }

  /** A printed latitude holds no further latitude after its first character:
      with whole seconds it is too short, with a tenth its '.' is in the way. */
  lemma LatitudeTailNoLatitude(a: Angle)
    requires ValidAngle(a, 2)
    ensures NoLatitudeIn(LatitudeText(a)[1..])
  {
    var x := LatitudeText(a);
    var t := x[1..];
    if a.tenths.Some? {
      LatitudeTextParts(a);
      assert x[6] == x[4..|x| - 1][2];
      forall j, e | 0 <= j <= e <= |t|
        ensures !IsLatitude(t[j..e])
      {
        if j <= 1 && e >= j + 7 {
          assert t[j..e][..6][5 - j] == '.';
        }
      }
    }
  }

  /** No character of a printed longitude is N or S. */
  lemma LongitudeChar(a: Angle, k: nat)
    requires ValidAngle(a, 3) && k < |LongitudeText(a)|
    ensures !IsNorthSouth(LongitudeText(a)[k])
  {
    var y := LongitudeText(a);
    var head := PadDigits(a.degrees, 3) + PadDigits(a.minutes, 2);
    var secs := SecondsText(a);
    assert y == head + secs + [if a.negative then 'W' else 'E'];
    if k < 5 {
      assert y[k] == head[k];
      if k < 3 {
        assert head[k] == PadDigits(a.degrees, 3)[k];
      } else {
        assert head[k] == PadDigits(a.minutes, 2)[k - 3];
      }
    } else if k < 5 + |secs| {
      assert y[k] == secs[k - 5];
      if k < 7 {
        assert secs[k - 5] == PadDigits(a.seconds, 2)[k - 5];
      }
    }
  }

  /** A printed row reads back as the obstacle it describes. */
  lemma TokenisePrinted(row: Row)
    requires PrintableRow(row)
    ensures Tokenise(FormatRow(row)) == Success(RowObstacle(row))
  {
    PopIntegerPrinted(row.number, AfterNumber(row), Number);
    PrintedDesignation(row);
    PopCoordinatesPrinted(row.latitude, row.longitude, AfterPosition(row));
    PopIntegerPrinted(row.height, AfterHeight(row), Height);
    PopIntegerPrinted(row.elevation, AfterElevation(row), Elevation);
    PopLightPrinted(row.light, row.obstacleType);
    TokeniseOfSteps(FormatRow(row), Popped(row.number, AfterNumber(row)),
      Popped(row.designation, AfterDesignation(row)),
      Popped(Coordinates(AngleValue(row.latitude), AngleValue(row.longitude)), AfterPosition(row)),
      Popped(row.height, AfterHeight(row)), Popped(row.elevation, AfterElevation(row)),
      Popped(row.light, row.obstacleType));
  }

  /** The designation of a printed row pops back, leaving the position. */
  lemma PrintedDesignation(row: Row)
    requires PrintableRow(row)
    ensures PopDesignation(AfterNumber(row)) == Success(Popped(row.designation, AfterDesignation(row)))
  {
    PrintedTailNoLatitude(row);
    PrintedIsCoordinateToken(row.latitude, row.longitude);
    PopDesignationOfParts(row.designation, LatitudeText(row.latitude), LongitudeText(row.longitude), AfterPosition(row));
  }

  /** PopDesignationPrinted for a designation followed by a latitude, a
      longitude and the rest of a row, each after one space. */
  lemma PopDesignationOfParts(d: string, x: string, y: string, p: string)
    requires NoLineTerminator(d) && IsLatitude(x) && NoLatitudeIn(x[1..] + " " + (y + " " + p))
    ensures PopDesignation(d + " " + ((x + " " + y) + " " + p)) == Success(Popped(d, (x + " " + y) + " " + p))
  {
    var rest := " " + (y + " " + p);
    assert d + " " + ((x + " " + y) + " " + p) == d + " " + x + rest;
    assert x[1..] + rest == x[1..] + " " + (y + " " + p);
    PopDesignationPrinted(d, x, rest);
    assert x + rest == (x + " " + y) + " " + p;
  }

  /** As written, a printed row whose designation holds no '.' still reads
      back as the obstacle it describes: its latitude is printed with 7 or 9
      characters, so the cut of 8 or 10 is the right one. */
  lemma TokeniseAsWrittenPrinted(row: Row)
    requires PrintableRow(row) && '.' !in row.designation
    ensures TokeniseAsWritten(FormatRow(row)) == Success(RowObstacle(row))
  {
    var x := LatitudeText(row.latitude);
    var rest := " " + (LongitudeText(row.longitude) + " " + AfterPosition(row));
    PrintedDesignationParts(row);
    PopDesignationAsWrittenAgrees(row.designation, x, rest);
    PopIntegerPrinted(row.number, AfterNumber(row), Number);
    TokenisePrinted(row);
    TokeniseAsWrittenAgrees(FormatRow(row));
  }

  /** What the designation step of a printed row sees: the designation, a
      space, the latitude and a rest in which no other latitude starts. */
  lemma PrintedDesignationParts(row: Row)
    requires PrintableRow(row)
    ensures var x := LatitudeText(row.latitude);
      var rest := " " + (LongitudeText(row.longitude) + " " + AfterPosition(row));
      && AfterNumber(row) == row.designation + " " + x + rest
      && IsLatitude(x) && NoLatitudeIn(x[1..] + rest)
  {
    var x := LatitudeText(row.latitude);
    var rest := " " + (LongitudeText(row.longitude) + " " + AfterPosition(row));
    var y := LongitudeText(row.longitude);
    assert AfterNumber(row) == row.designation + " " + x + rest by {
      assert AfterDesignation(row) == (x + " " + y) + " " + AfterPosition(row);
      SpacedPartsAssociate(row.designation, x, y, AfterPosition(row));
    }
    assert NoLatitudeIn(x[1..] + rest) by {
      PrintedTailNoLatitude(row);
      assert x[1..] + rest == x[1..] + " " + (y + " " + AfterPosition(row));
    }
    PrintedIsCoordinateToken(row.latitude, row.longitude);
  }

  /** Regrouping the fields of a printed row around its latitude. */
  lemma SpacedPartsAssociate(d: string, x: string, y: string, p: string)
    ensures d + " " + ((x + " " + y) + " " + p) == d + " " + x + (" " + (y + " " + p))
  {
  }

  /** As written, no printed row whose designation holds a '.' before a
      position with whole seconds reads back as itself: the line fails, or
      the designation comes out two characters short. */
  lemma TokeniseAsWrittenLosesDesignation(row: Row)
    requires PrintableRow(row) && '.' in row.designation && |row.designation| >= 2 && row.latitude.tenths.None?
    ensures TokeniseAsWritten(FormatRow(row)).Failure? ||
            TokeniseAsWritten(FormatRow(row)).value.designation == row.designation[..|row.designation| - 2]
    ensures TokeniseAsWritten(FormatRow(row)) != Success(RowObstacle(row))
  {
    PopIntegerPrinted(row.number, AfterNumber(row), Number);
    var after := PrintedDesignationAsWritten(row);
    TokeniseAsWrittenDesignation(FormatRow(row), Popped(row.number, AfterNumber(row)),
      Popped(row.designation[..|row.designation| - 2], after));
  }

  /** As written, the designation of such a row pops two characters short. */
  lemma PrintedDesignationAsWritten(row: Row) returns (after: string)
    requires PrintableRow(row) && '.' in row.designation && |row.designation| >= 2 && row.latitude.tenths.None?
    ensures PopDesignationAsWritten(AfterNumber(row)) == Success(Popped(row.designation[..|row.designation| - 2], after))
  {
    var x := LatitudeText(row.latitude);
    var rest := " " + (LongitudeText(row.longitude) + " " + AfterPosition(row));
    PrintedDesignationParts(row);
    PopDesignationAsWrittenDropsTwo(row.designation, x, rest);
    after := row.designation[|row.designation| - 1..] + " " + x + rest;
  }

  /** Whatever follows, the designation a line ends with is the one its
      designation step popped. */
  lemma TokeniseAsWrittenDesignation(line: string, number: Popped<nat>, designation: Popped<string>)
    requires PopInteger(line, Number) == Success(number)
    requires PopDesignationAsWritten(number.rest) == Success(designation)
    ensures TokeniseAsWritten(line).Failure? || TokeniseAsWritten(line).value.designation == designation.value
  {
  }

  /** The obstacle of a line whose six steps all succeed. */
  lemma TokeniseOfSteps(line: string, number: Popped<nat>, designation: Popped<string>, position: Popped<Coordinates>,
                        height: Popped<nat>, elevation: Popped<nat>, light: Popped<string>)
    requires PopInteger(line, Number) == Success(number)
    requires PopDesignation(number.rest) == Success(designation)
    requires PopCoordinates(designation.rest) == Success(position)
    requires PopInteger(position.rest, Height) == Success(height)
    requires PopInteger(height.rest, Elevation) == Success(elevation)
    requires PopLight(elevation.rest) == Success(light)
    ensures Tokenise(line) == Success(Obstacle(number.value, designation.value, position.value, height.value,
                                               elevation.value, light.value, light.rest))
  {
  }

  /** The failure of a line whose step fails, for each of the six steps. */
  lemma TokeniseStopsAtNumber(line: string)
    requires PopInteger(line, Number).Failure?
    ensures Tokenise(line) == Failure(PopInteger(line, Number).error)
  {
  }

  lemma TokeniseStopsAtDesignation(line: string, number: Popped<nat>)
    requires PopInteger(line, Number) == Success(number)
    requires PopDesignation(number.rest).Failure?
    ensures Tokenise(line) == Failure(PopDesignation(number.rest).error)
  {
  }

  lemma TokeniseStopsAtPosition(line: string, number: Popped<nat>, designation: Popped<string>)
    requires PopInteger(line, Number) == Success(number)
    requires PopDesignation(number.rest) == Success(designation)
    requires PopCoordinates(designation.rest).Failure?
    ensures Tokenise(line) == Failure(PopCoordinates(designation.rest).error)
  {
  }

  lemma TokeniseStopsAtHeight(line: string, number: Popped<nat>, designation: Popped<string>,
                              position: Popped<Coordinates>)
    requires PopInteger(line, Number) == Success(number)
    requires PopDesignation(number.rest) == Success(designation)
    requires PopCoordinates(designation.rest) == Success(position)
    requires PopInteger(position.rest, Height).Failure?
    ensures Tokenise(line) == Failure(PopInteger(position.rest, Height).error)
  {
  }

  lemma TokeniseStopsAtElevation(line: string, number: Popped<nat>, designation: Popped<string>,
                                 position: Popped<Coordinates>, height: Popped<nat>)
    requires PopInteger(line, Number) == Success(number)
    requires PopDesignation(number.rest) == Success(designation)
    requires PopCoordinates(designation.rest) == Success(position)
    requires PopInteger(position.rest, Height) == Success(height)
    requires PopInteger(height.rest, Elevation).Failure?
    ensures Tokenise(line) == Failure(PopInteger(height.rest, Elevation).error)
  {
  }

  lemma TokeniseStopsAtLight(line: string, number: Popped<nat>, designation: Popped<string>,
                             position: Popped<Coordinates>, height: Popped<nat>, elevation: Popped<nat>)
    requires PopInteger(line, Number) == Success(number)
    requires PopDesignation(number.rest) == Success(designation)
    requires PopCoordinates(designation.rest) == Success(position)
    requires PopInteger(position.rest, Height) == Success(height)
    requires PopInteger(height.rest, Elevation) == Success(elevation)
    requires PopLight(elevation.rest).Failure?
    ensures Tokenise(line) == Failure(PopLight(elevation.rest).error)
  {
  }
}
