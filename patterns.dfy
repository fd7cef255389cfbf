/** Hand-written matchers for the regular expressions of
    SwedenObstacleParser.parse(). Each pattern's language is written out as a
    predicate, and each matcher is proved to behave as Matcher.find() does:
    it returns the leftmost start at which the pattern matches and, at that
    start, the longest match. (For every pattern here, greedy backtracking
    yields the longest match; for most of them the match at a start is unique.) */
module Patterns {
  import opened Wrappers
  import opened Text

  /** A match: the characters s[start..end]. */
  datatype Span = Span(start: nat, end: nat)

  predicate IsNorthSouth(c: char) {
    c == 'N' || c == 'S'
  }

  predicate IsEastWest(c: char) {
    c == 'E' || c == 'W'
  }

  // ---------------------------------------------------------------------------
  // `\d{1,5}`: the number, the height and the elevation

  /** The language of `\d{1,5}`. */
  predicate IsShortDigitRun(t: string) {
    1 <= |t| <= 5 && AllDigits(t)
  }

  /** Where `\d{0,n}` stops when matched greedily at i. */
  function DigitRunEnd(s: string, i: nat, n: nat): (e: nat)
    requires i <= |s|
    ensures i <= e <= |s| && e - i <= n
    ensures AllDigits(s[i..e])
    ensures e - i == n || e == |s| || !IsDigit(s[e])
    decreases n
  {
    if n == 0 || i == |s| || !IsDigit(s[i]) then i
    else
      var e := DigitRunEnd(s, i + 1, n - 1);
      assert s[i..e] == [s[i]] + s[i + 1..e];
      e
  }

  /** The first digit at or after `from`. */
  function FirstDigit(s: string, from: nat): (r: Option<nat>)
    requires from <= |s|
    ensures r.Some? ==> from <= r.value < |s| && IsDigit(s[r.value])
    ensures r.Some? ==> forall k :: from <= k < r.value ==> !IsDigit(s[k])
    ensures r.None? ==> forall k :: from <= k < |s| ==> !IsDigit(s[k])
    decreases |s| - from
  {
    if from == |s| then None
    else if IsDigit(s[from]) then Some(from)
    else FirstDigit(s, from + 1)
  }

  /** Matcher.find() for `\d{1,5}`: the first digit and up to four more
      digits after it. */
  function FindDigits(s: string): (r: Option<Span>)
    ensures r.None? <==> forall i, e :: 0 <= i <= e <= |s| ==> !IsShortDigitRun(s[i..e])
    ensures r.Some? ==> r.value.start <= r.value.end <= |s| && IsShortDigitRun(s[r.value.start..r.value.end])
    ensures r.Some? ==> forall i, e :: 0 <= i < r.value.start && i <= e <= |s| ==> !IsShortDigitRun(s[i..e])
    ensures r.Some? ==> forall e :: r.value.end < e <= |s| ==> !IsShortDigitRun(s[r.value.start..e])
  {
    match FirstDigit(s, 0)
    case None =>
      assert forall i, e :: 0 <= i < e <= |s| ==> s[i..e][0] == s[i];
      None
    case Some(i) =>
      var e := DigitRunEnd(s, i, 5);
      assert forall i', e' :: 0 <= i' < e' <= |s| ==> s[i'..e'][0] == s[i'];
      assert forall e' :: e < e' <= |s| ==> s[i..e'][e - i] == s[e];
      Some(Span(i, e))
  }

  // ---------------------------------------------------------------------------
  // `\d{6}\.?\d?[NS]` and `\d{6,7}\.?\d?[EW]`: the two halves of a coordinate
  // token; the first is also the tail of the designation pattern

  /** The language of `\.?\d?`. */
  predicate IsDecimalTail(m: string) {
    m == [] || m == "." || (|m| == 1 && IsDigit(m[0])) || (|m| == 2 && m[0] == '.' && IsDigit(m[1]))
  }

  /** The language of `\d{6}\.?\d?[NS]`. */
  predicate IsLatitude(t: string) {
    |t| >= 7 && AllDigits(t[..6]) && IsDecimalTail(t[6..|t| - 1]) && IsNorthSouth(t[|t| - 1])
  }

  /** The language of `\d{6,7}\.?\d?[EW]`. */
  predicate IsLongitude(t: string) {
    && |t| >= 7 && AllDigits(t[..6]) && IsEastWest(t[|t| - 1])
    && (IsDecimalTail(t[6..|t| - 1]) || (|t| >= 8 && IsDigit(t[6]) && IsDecimalTail(t[7..|t| - 1])))
  }

  /** Where `\.?\d?` stops when matched greedily at p. */
  function DecimalTailEnd(s: string, p: nat): (q: nat)
    requires p <= |s|
    ensures p <= q <= |s| && q <= p + 2
  {
    var p1 := if p < |s| && s[p] == '.' then p + 1 else p;
    if p1 < |s| && IsDigit(s[p1]) then p1 + 1 else p1
  }

  /** A decimal tail followed by a letter is exactly what DecimalTailEnd skips. */
  lemma DecimalTailEndExact(s: string, p: nat, q: nat)
    requires p <= q < |s| && !IsDigit(s[q]) && s[q] != '.'
    ensures IsDecimalTail(s[p..q]) <==> DecimalTailEnd(s, p) == q
  {
    var t := s[p..q];
    if q == p {
      assert t == [];
    } else if q == p + 1 {
      assert t == [s[p]];
    } else if q == p + 2 {
      assert t == [s[p], s[p + 1]];
    } else {
      assert |t| > 2;
    }
  }

  /** IsLatitude on a slice, read off the string itself. */
  lemma LatitudeSlice(s: string, i: nat, e: nat)
    requires i <= e <= |s|
    ensures IsLatitude(s[i..e]) <==>
      e >= i + 7 && AllDigits(s[i..i + 6]) && IsDecimalTail(s[i + 6..e - 1]) && IsNorthSouth(s[e - 1])
  {
    if e >= i + 7 {
      var t := s[i..e];
      assert t[..6] == s[i..i + 6];
      assert t[6..|t| - 1] == s[i + 6..e - 1] by {
        assert t[..|t| - 1] == s[i..e - 1];
      }
    }
  }

  /** IsLongitude on a slice, read off the string itself. */
  lemma LongitudeSlice(s: string, i: nat, e: nat)
    requires i <= e <= |s|
    ensures IsLongitude(s[i..e]) <==>
      && e >= i + 7 && AllDigits(s[i..i + 6]) && IsEastWest(s[e - 1])
      && (IsDecimalTail(s[i + 6..e - 1]) || (e >= i + 8 && IsDigit(s[i + 6]) && IsDecimalTail(s[i + 7..e - 1])))
  {
    if e >= i + 7 {
      var t := s[i..e];
      assert t[..6] == s[i..i + 6];
      assert t[..|t| - 1] == s[i..e - 1];
      assert t[6..|t| - 1] == s[i + 6..e - 1];
      if e >= i + 8 {
        assert t[7..|t| - 1] == s[i + 7..e - 1];
      }
    }
  }

  /** The end of the match of `\d{6}\.?\d?[NS]` that starts at i, if any. */
  function LatitudeEnd(s: string, i: nat): (r: Option<nat>)
    requires i <= |s|
    ensures r.Some? ==> i + 7 <= r.value <= |s|
  {
    if i + 6 <= |s| && AllDigits(s[i..i + 6]) then
      var q := DecimalTailEnd(s, i + 6);
      if q < |s| && IsNorthSouth(s[q]) then Some(q + 1) else None
    else None
  }

  /** LatitudeEnd recognises exactly the latitudes; the match at i is unique. */
  lemma LatitudeEndExact(s: string, i: nat, e: nat)
    requires i <= e <= |s|
    ensures IsLatitude(s[i..e]) <==> LatitudeEnd(s, i) == Some(e)
  {
    LatitudeSlice(s, i, e);
    if e >= i + 7 && IsNorthSouth(s[e - 1]) {
      DecimalTailEndExact(s, i + 6, e - 1);
    }
  }

  /** The end of the match of `\d{6,7}\.?\d?[EW]` that starts at i, if any. */
  function LongitudeEnd(s: string, i: nat): (r: Option<nat>)
    requires i <= |s|
    ensures r.Some? ==> i + 7 <= r.value <= |s|
  {
    if i + 6 <= |s| && AllDigits(s[i..i + 6]) then
      var p := if i + 6 < |s| && IsDigit(s[i + 6]) then i + 7 else i + 6;
      var q := DecimalTailEnd(s, p);
      if q < |s| && IsEastWest(s[q]) then Some(q + 1) else None
    else None
  }

  /** LongitudeEnd recognises exactly the longitudes; the match at i is unique. */
  lemma LongitudeEndExact(s: string, i: nat, e: nat)
    requires i <= e <= |s|
    ensures IsLongitude(s[i..e]) <==> LongitudeEnd(s, i) == Some(e)
  {
    LongitudeSlice(s, i, e);
    if e >= i + 7 && IsEastWest(s[e - 1]) {
      DecimalTailEndExact(s, i + 6, e - 1);
      if e >= i + 8 {
        DecimalTailEndExact(s, i + 7, e - 1);
      }
    }
  }

  // ---------------------------------------------------------------------------
  // `\d{6}\.?\d?[NS]\s*\d{6,7}\.?\d?[EW]`: the coordinate token

  /** Where `\s*` stops when matched greedily at p. */
  function SpacesEnd(s: string, p: nat): (q: nat)
    requires p <= |s|
    ensures p <= q <= |s| && AllSpaces(s[p..q]) && (q == |s| || !IsSpace(s[q]))
    decreases |s| - p
  {
    if p < |s| && IsSpace(s[p]) then
      var q := SpacesEnd(s, p + 1);
      assert s[p..q] == [s[p]] + s[p + 1..q];
      q
    else p
  }

  /** The end of a run of spaces is where the first other character stands. */
  lemma SpacesEndExact(s: string, p: nat, q: nat)
    requires p <= q <= |s| && AllSpaces(s[p..q]) && (q == |s| || !IsSpace(s[q]))
    ensures SpacesEnd(s, p) == q
  {
    var r := SpacesEnd(s, p);
    assert forall k :: p <= k < q ==> s[p..q][k - p] == s[k];
    assert forall k :: p <= k < r ==> s[p..r][k - p] == s[k];
  }

  /** The language of the coordinate pattern: a latitude, any run of
      whitespace, a longitude. */
  ghost predicate IsCoordinateToken(t: string) {
    exists a, b :: 0 <= a <= b <= |t| && IsLatitude(t[..a]) && AllSpaces(t[a..b]) && IsLongitude(t[b..])
  }

  /** A coordinate token s[i..e] split, in the string's own positions, into
      its latitude s[i..a], its whitespace s[a..b] and its longitude s[b..e]. */
  ghost predicate CoordinateSplit(s: string, i: nat, a: nat, b: nat, e: nat) {
    i <= a <= b <= e <= |s| && IsLatitude(s[i..a]) && AllSpaces(s[a..b]) && IsLongitude(s[b..e])
  }

  lemma CoordinateSliceSplit(s: string, i: nat, e: nat)
    requires i <= e <= |s| && IsCoordinateToken(s[i..e])
    ensures exists a, b :: CoordinateSplit(s, i, a, b, e)
  {
    var t := s[i..e];
    var a: nat, b: nat :| a <= b <= |t| && IsLatitude(t[..a]) && AllSpaces(t[a..b]) && IsLongitude(t[b..]);
    SliceOfSlice(s, i, e, 0, a);
    SliceOfSlice(s, i, e, a, b);
    SliceOfSlice(s, i, e, b, e - i);
    assert t[..a] == t[0..a] && t[b..] == t[b..e - i];
    assert CoordinateSplit(s, i, i + a, i + b, e);
  }

  lemma CoordinateSplitSlice(s: string, i: nat, a: nat, b: nat, e: nat)
    requires CoordinateSplit(s, i, a, b, e)
    ensures IsCoordinateToken(s[i..e])
  {
    var t := s[i..e];
    SliceOfSlice(s, i, e, 0, a - i);
    SliceOfSlice(s, i, e, a - i, b - i);
    SliceOfSlice(s, i, e, b - i, e - i);
    assert t[..a - i] == t[0..a - i] && t[b - i..] == t[b - i..e - i];
    assert IsLatitude(t[..a - i]) && AllSpaces(t[a - i..b - i]) && IsLongitude(t[b - i..]);
  }

  /** The end of the match of the coordinate pattern that starts at i, if any. */
  function CoordinatesEnd(s: string, i: nat): (r: Option<nat>)
    requires i <= |s|
    ensures r.Some? ==> i < r.value <= |s|
  {
    match LatitudeEnd(s, i)
    case None => None
    case Some(a) => LongitudeEnd(s, SpacesEnd(s, a))
  }

  /** CoordinatesEnd recognises exactly the coordinate tokens, and the token
      starting at a given position is unique. */
  lemma CoordinatesEndExact(s: string, i: nat, e: nat)
    requires i <= e <= |s|
    ensures IsCoordinateToken(s[i..e]) <==> CoordinatesEnd(s, i) == Some(e)
  {
    if IsCoordinateToken(s[i..e]) {
      CoordinateSliceSplit(s, i, e);
      var a: nat, b: nat :| CoordinateSplit(s, i, a, b, e);
      LatitudeEndExact(s, i, a);
      assert s[b..e][0] == s[b];
      SpacesEndExact(s, a, b);
      LongitudeEndExact(s, b, e);
    }
    if CoordinatesEnd(s, i) == Some(e) {
      assert LatitudeEnd(s, i).Some?;
      var a := LatitudeEnd(s, i).value;
      var b := SpacesEnd(s, a);
      LatitudeEndExact(s, i, a);
      LongitudeEndExact(s, b, e);
      assert CoordinateSplit(s, i, a, b, e);
      CoordinateSplitSlice(s, i, a, b, e);
    }
  }

  /** Matcher.find() for the coordinate pattern, from position `from` on. */
  function FindCoordinatesFrom(s: string, from: nat): (r: Option<Span>)
    requires from <= |s|
    ensures r.Some? ==> from <= r.value.start <= |s| && CoordinatesEnd(s, r.value.start) == Some(r.value.end)
    ensures forall i :: from <= i <= |s| && (r.None? || i < r.value.start) ==> CoordinatesEnd(s, i).None?
    decreases |s| - from
  {
    var here := CoordinatesEnd(s, from);
    if here.Some? then Some(Span(from, here.value))
    else if from == |s| then None
    else
      FindCoordinatesFrom(s, from + 1)
  }

  /** Matcher.find() for `\d{6}\.?\d?[NS]\s*\d{6,7}\.?\d?[EW]`: the leftmost
      coordinate token, which is unique at its start. */
  function FindCoordinates(s: string): (r: Option<Span>)
    ensures r.None? <==> forall i, e :: 0 <= i <= e <= |s| ==> !IsCoordinateToken(s[i..e])
    ensures r.Some? ==> r.value.start <= r.value.end <= |s| && IsCoordinateToken(s[r.value.start..r.value.end])
    ensures r.Some? ==> forall i, e :: 0 <= i < r.value.start && i <= e <= |s| ==> !IsCoordinateToken(s[i..e])
    ensures r.Some? ==> forall e :: r.value.start <= e <= |s| && IsCoordinateToken(s[r.value.start..e]) ==> e == r.value.end
  {
    var r := FindCoordinatesFrom(s, 0);
    forall i, e | 0 <= i <= e <= |s| && (r.None? || i < r.value.start)
      ensures !IsCoordinateToken(s[i..e])
    {
      CoordinatesEndExact(s, i, e);
    }
    if r.Some? then
      CoordinatesEndExact(s, r.value.start, r.value.end);
      forall e | r.value.start <= e <= |s| && IsCoordinateToken(s[r.value.start..e])
        ensures e == r.value.end
      {
        CoordinatesEndExact(s, r.value.start, e);
      }
      r
    else r
  }

  // ---------------------------------------------------------------------------
  // `\d{2}[NS]\s\d{2,3}[EW]`: the area designator at the head of some lines

  /** The language of `\d{2}[NS]\s\d{2,3}[EW]`, for example "55N 013E". */
  predicate IsAreaToken(t: string) {
    && (|t| == 7 || |t| == 8) && AllDigits(t[..2]) && IsNorthSouth(t[2]) && IsSpace(t[3])
    && AllDigits(t[4..|t| - 1]) && IsEastWest(t[|t| - 1])
  }

  /** The end of the match of the area pattern that starts at i, if any. */
  function AreaEnd(s: string, i: nat): (r: Option<nat>)
    requires i <= |s|
    ensures r.Some? ==> i < r.value <= |s|
  {
    if i + 6 <= |s| && AllDigits(s[i..i + 2]) && IsNorthSouth(s[i + 2]) && IsSpace(s[i + 3]) && AllDigits(s[i + 4..i + 6]) then
      var p := if i + 6 < |s| && IsDigit(s[i + 6]) then i + 7 else i + 6;
      if p < |s| && IsEastWest(s[p]) then Some(p + 1) else None
    else None
  }

  /** AreaEnd recognises exactly the area tokens; the token at a position is unique. */
  lemma AreaEndExact(s: string, i: nat, e: nat)
    requires i <= e <= |s|
    ensures IsAreaToken(s[i..e]) <==> AreaEnd(s, i) == Some(e)
  {
    if e == i + 7 || e == i + 8 {
      var t := s[i..e];
      SliceOfSlice(s, i, e, 0, 2);
      SliceOfSlice(s, i, e, 4, e - i - 1);
      assert t[..2] == t[0..2];
      assert t[2] == s[i + 2] && t[3] == s[i + 3] && t[|t| - 1] == s[e - 1];
      var digits := s[i + 4..e - 1];
      if e == i + 8 {
        assert s[i + 4..i + 6] == digits[..2];
        assert digits[2] == s[i + 6];
      }
      if IsAreaToken(t) {
        if e == i + 7 {
          assert !IsDigit(s[i + 6]);
        }
      }
      if AreaEnd(s, i) == Some(e) {
        if e == i + 8 {
          assert IsDigit(s[i + 6]);
          assert digits == s[i + 4..i + 6] + [s[i + 6]];
        }
      }
    }
  }

  /** Matcher.find() for the area pattern, from position `from` on. */
  function FindAreaFrom(s: string, from: nat): (r: Option<Span>)
    requires from <= |s|
    ensures r.Some? ==> from <= r.value.start <= |s| && AreaEnd(s, r.value.start) == Some(r.value.end)
    ensures forall i :: from <= i <= |s| && (r.None? || i < r.value.start) ==> AreaEnd(s, i).None?
    decreases |s| - from
  {
    var here := AreaEnd(s, from);
    if here.Some? then Some(Span(from, here.value))
    else if from == |s| then None
    else FindAreaFrom(s, from + 1)
  }

  /** Matcher.find() for `\d{2}[NS]\s\d{2,3}[EW]`: the leftmost area token,
      which is unique at its start. */
  function FindArea(s: string): (r: Option<Span>)
    ensures r.None? <==> forall i, e :: 0 <= i <= e <= |s| ==> !IsAreaToken(s[i..e])
    ensures r.Some? ==> r.value.start <= r.value.end <= |s| && IsAreaToken(s[r.value.start..r.value.end])
    ensures r.Some? ==> forall i, e :: 0 <= i < r.value.start && i <= e <= |s| ==> !IsAreaToken(s[i..e])
    ensures r.Some? ==> forall e :: r.value.start <= e <= |s| && IsAreaToken(s[r.value.start..e]) ==> e == r.value.end
  {
    var r := FindAreaFrom(s, 0);
    forall i, e | 0 <= i <= e <= |s| && (r.None? || i < r.value.start)
      ensures !IsAreaToken(s[i..e])
    {
      AreaEndExact(s, i, e);
    }
    if r.Some? then
      AreaEndExact(s, r.value.start, r.value.end);
      forall e | r.value.start <= e <= |s| && IsAreaToken(s[r.value.start..e])
        ensures e == r.value.end
      {
        AreaEndExact(s, r.value.start, e);
      }
      r
    else r
  }

  // ---------------------------------------------------------------------------
  // `\s\(\*\)\s`: the footnote marker

  /** The five characters of `\s\(\*\)\s` stand at position i. */
  predicate IsFootnoteAt(s: string, i: nat) {
    i + 5 <= |s| && IsSpace(s[i]) && s[i + 1] == '(' && s[i + 2] == '*' && s[i + 3] == ')' && IsSpace(s[i + 4])
  }

  /** Matcher.find() for `\s\(\*\)\s`, from position `from` on. */
  function FindFootnoteFrom(s: string, from: nat): (r: Option<nat>)
    requires from <= |s|
    ensures r.Some? ==> from <= r.value && IsFootnoteAt(s, r.value)
    ensures forall i :: from <= i <= |s| && (r.None? || i < r.value) ==> !IsFootnoteAt(s, i)
    decreases |s| - from
  {
    if IsFootnoteAt(s, from) then Some(from)
    else if from == |s| then None
    else FindFootnoteFrom(s, from + 1)
  }

  // ---------------------------------------------------------------------------
  // `.*\d{6}\.?\d?[NS]`: the designation followed by the latitude

  /** A designation match: s[start..end], whose last part s[tail..end] is the
      latitude that `\d{6}\.?\d?[NS]` matched after the greedy `.*`. */
  datatype DesignationMatch = DesignationMatch(start: nat, tail: nat, end: nat)

  /** s[start..end] is what `.*\d{6}\.?\d?[NS]` matches greedily from the
      start of a line segment: the part before `tail` holds no line
      terminator, s[tail..end] is a latitude, and no latitude starts later in
      the same segment. */
  predicate IsSegmentMatch(s: string, m: DesignationMatch) {
    && m.start <= m.tail < m.end <= |s|
    && NoLineTerminator(s[m.start..m.tail])
    && IsLatitude(s[m.tail..m.end])
    && (m.start == 0 || IsLineTerminator(s[m.start - 1]))
    && forall j, e :: m.tail < j <= e <= |s| && NoLineTerminator(s[m.start..j]) ==> !IsLatitude(s[j..e])
  }

  /** The first position at or after `from` where a latitude starts. */
  function FirstLatitudeFrom(s: string, from: nat): (r: Option<nat>)
    requires from <= |s|
    ensures r.Some? ==> from <= r.value <= |s| && LatitudeEnd(s, r.value).Some?
    ensures forall j :: from <= j <= |s| && (r.None? || j < r.value) ==> LatitudeEnd(s, j).None?
    decreases |s| - from
  {
    if LatitudeEnd(s, from).Some? then Some(from)
    else if from == |s| then None
    else FirstLatitudeFrom(s, from + 1)
  }

  /** Where the line segment holding position j begins: `.` cannot match a
      line terminator, so a match of `.*` never crosses one. */
  function SegmentStart(s: string, j: nat): (a: nat)
    requires j <= |s|
    ensures a <= j && (a == 0 || IsLineTerminator(s[a - 1])) && NoLineTerminator(s[a..j])
  {
    if j == 0 || IsLineTerminator(s[j - 1]) then j
    else
      var a := SegmentStart(s, j - 1);
      assert s[a..j] == s[a..j - 1] + [s[j - 1]];
      a
  }

  /** Where the line segment holding position i ends. */
  function SegmentEnd(s: string, i: nat): (b: nat)
    requires i <= |s|
    ensures i <= b <= |s| && NoLineTerminator(s[i..b]) && (b == |s| || IsLineTerminator(s[b]))
    decreases |s| - i
  {
    if i == |s| || IsLineTerminator(s[i]) then i
    else
      var b := SegmentEnd(s, i + 1);
      assert s[i..b] == [s[i]] + s[i + 1..b];
      b
  }

  /** The last position in [lo, hi] where a latitude starts. */
  function LastLatitude(s: string, lo: nat, hi: nat): (j: nat)
    requires lo <= hi <= |s| && LatitudeEnd(s, lo).Some?
    ensures lo <= j <= hi && LatitudeEnd(s, j).Some?
    ensures forall k :: j < k <= hi ==> LatitudeEnd(s, k).None?
    decreases hi - lo
  {
    if LatitudeEnd(s, hi).Some? then hi else LastLatitude(s, lo, hi - 1)
  }

  /** Matcher.find() for `.*\d{6}\.?\d?[NS]`. The match starts at the beginning
      of the first line segment that holds a latitude; the greedy `.*` then
      makes it end with the last latitude of that segment. */
  function FindDesignation(s: string): (r: Option<DesignationMatch>)
    ensures r.None? <==> forall j, e :: 0 <= j <= e <= |s| ==> !IsLatitude(s[j..e])
    ensures r.Some? ==> IsSegmentMatch(s, r.value)
    ensures r.Some? ==> forall j, e :: 0 <= j < r.value.start && j <= e <= |s| ==> !IsLatitude(s[j..e])
  {
    var first := FirstLatitudeFrom(s, 0);
    if first.None? then
      NoLatitudeBefore(s, |s| + 1);
      None
    else
      NoLatitudeBefore(s, first.value);
      Some(SegmentMatch(s, first.value))
  }

  /** The match in the segment of the first latitude, which starts at `first`. */
  function SegmentMatch(s: string, first: nat): (m: DesignationMatch)
    requires first <= |s| && LatitudeEnd(s, first).Some?
    ensures m.start <= first <= m.tail && IsSegmentMatch(s, m)
  {
    var start := SegmentStart(s, first);
    var stop := SegmentEnd(s, first);
    var tail := LastLatitude(s, first, stop);
    var end := LatitudeEnd(s, tail).value;
    LatitudeEndExact(s, tail, end);
    SegmentPrefix(s, start, first, stop, tail);
    NoLatitudeLaterInSegment(s, start, stop, tail);
    DesignationMatch(start, tail, end)
  }

  /** A prefix of a line segment holds no line terminator. */
  lemma SegmentPrefix(s: string, start: nat, first: nat, stop: nat, tail: nat)
    requires start <= first <= tail <= stop <= |s|
    requires NoLineTerminator(s[start..first]) && NoLineTerminator(s[first..stop])
    ensures NoLineTerminator(s[start..tail])
  {
    assert s[start..tail] == s[start..first] + s[first..tail];
    assert s[first..tail] == s[first..stop][..tail - first];
  }

  /** No latitude starts before `bound` when LatitudeEnd finds none there. */
  lemma NoLatitudeBefore(s: string, bound: nat)
    requires forall j :: 0 <= j <= |s| && j < bound ==> LatitudeEnd(s, j).None?
    ensures forall j, e :: 0 <= j <= e <= |s| && j < bound ==> !IsLatitude(s[j..e])
  {
    forall j, e | 0 <= j <= e <= |s| && j < bound
      ensures !IsLatitude(s[j..e])
    {
      LatitudeEndExact(s, j, e);
    }
  }

  /** Past the last latitude of a segment, no latitude starts before the next
      line terminator. */
  lemma NoLatitudeLaterInSegment(s: string, start: nat, stop: nat, tail: nat)
    requires start <= tail <= stop <= |s| && (stop == |s| || IsLineTerminator(s[stop]))
    requires forall k :: tail < k <= stop ==> LatitudeEnd(s, k).None?
    ensures forall j, e :: tail < j <= e <= |s| && NoLineTerminator(s[start..j]) ==> !IsLatitude(s[j..e])
  {
    forall j, e | tail < j <= e <= |s| && NoLineTerminator(s[start..j])
      ensures !IsLatitude(s[j..e])
    {
      if j <= stop {
        LatitudeEndExact(s, j, e);
      }
    }
  }

  // ---------------------------------------------------------------------------
  // `[FLRGW/\s-]*\s`: the light characteristic and the space after it

  /** The characters of `[FLRGW/\s-]`. */
  predicate IsLightChar(c: char) {
    c == 'F' || c == 'L' || c == 'R' || c == 'G' || c == 'W' || c == '/' || c == '-' || IsSpace(c)
  }

  predicate AllLightChars(t: string) {
    forall k :: 0 <= k < |t| ==> IsLightChar(t[k])
  }

  /** The language of `[FLRGW/\s-]*\s`. */
  predicate IsLightText(t: string) {
    |t| >= 1 && AllLightChars(t) && IsSpace(t[|t| - 1])
  }

  /** Where the run of light characters that starts at i ends. */
  function LightRunEnd(s: string, i: nat): (e: nat)
    requires i <= |s|
    ensures i <= e <= |s| && AllLightChars(s[i..e]) && (e == |s| || !IsLightChar(s[e]))
    decreases |s| - i
  {
    if i < |s| && IsLightChar(s[i]) then
      var e := LightRunEnd(s, i + 1);
      assert s[i..e] == [s[i]] + s[i + 1..e];
      e
    else i
  }

  /** The last whitespace character in s[lo..hi]. */
  function LastSpace(s: string, lo: nat, hi: nat): (r: Option<nat>)
    requires lo <= hi <= |s|
    ensures r.Some? ==> lo <= r.value < hi && IsSpace(s[r.value])
    ensures forall k :: lo <= k < hi && (r.None? || r.value < k) ==> !IsSpace(s[k])
    decreases hi - lo
  {
    if hi == lo then None
    else if IsSpace(s[hi - 1]) then Some(hi - 1)
    else LastSpace(s, lo, hi - 1)
  }

  /** The end of the longest match of the light pattern that starts at i, if any:
      the greedy star takes the whole run of light characters and gives back
      characters until the last one taken is whitespace. */
  function LightEnd(s: string, i: nat): (r: Option<nat>)
    requires i <= |s|
    ensures r.Some? ==> i < r.value <= |s|
  {
    match LastSpace(s, i, LightRunEnd(s, i))
    case None => None
    case Some(k) => Some(k + 1)
  }

  /** LightEnd gives a match, and every match at i ends no later than it. */
  lemma LightEndExact(s: string, i: nat, e: nat)
    requires i <= e <= |s|
    ensures LightEnd(s, i) == Some(e) ==> IsLightText(s[i..e])
    ensures IsLightText(s[i..e]) ==> LightEnd(s, i).Some? && e <= LightEnd(s, i).value
  {
    var run := LightRunEnd(s, i);
    if LightEnd(s, i) == Some(e) {
      assert s[i..e] == s[i..run][..e - i];
    }
    if IsLightText(s[i..e]) {
      assert s[i..e][e - i - 1] == s[e - 1];
    }
  }

  /** s[m.start..m.end] is in the language of the light pattern, and no
      longer text starting at m.start is. */
  predicate IsLongestLight(s: string, m: Span) {
    && m.start < m.end <= |s|
    && IsLightText(s[m.start..m.end])
    && forall e :: m.end < e <= |s| ==> !IsLightText(s[m.start..e])
  }

  /** Matcher.find() for the light pattern, from position `from` on. */
  function FindLightFrom(s: string, from: nat): (r: Option<Span>)
    requires from <= |s|
    ensures r.Some? ==> from <= r.value.start <= |s| && LightEnd(s, r.value.start) == Some(r.value.end)
    ensures forall i :: from <= i <= |s| && (r.None? || i < r.value.start) ==> LightEnd(s, i).None?
    decreases |s| - from
  {
    var here := LightEnd(s, from);
    if here.Some? then Some(Span(from, here.value))
    else if from == |s| then None
    else FindLightFrom(s, from + 1)
  }

  /** Matcher.find() for `[FLRGW/\s-]*\s`: the leftmost start, and the longest
      match there. */
  function FindLight(s: string): (r: Option<Span>)
    ensures r.None? <==> forall i, e :: 0 <= i <= e <= |s| ==> !IsLightText(s[i..e])
    ensures r.Some? ==> IsLongestLight(s, r.value)
    ensures r.Some? ==> forall i, e :: 0 <= i < r.value.start && i <= e <= |s| ==> !IsLightText(s[i..e])
  {
    var r := FindLightFrom(s, 0);
    forall i, e | 0 <= i <= e <= |s| && (r.None? || i < r.value.start)
      ensures !IsLightText(s[i..e])
    {
      LightEndExact(s, i, e);
    }
    if r.Some? then
      LightEndExact(s, r.value.start, r.value.end);
      forall e | r.value.end < e <= |s|
        ensures !IsLightText(s[r.value.start..e])
      {
        LightEndExact(s, r.value.start, e);
      }
      r
    else r
  }
}
