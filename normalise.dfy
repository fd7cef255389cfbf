/** The clean-up a candidate line goes through before it is tokenised
    (SwedenObstacleParser.parse, lines 56-72): whitespace runs collapsed to
    one space, the period after N, S, U+FFFD, V, E and W deleted, the first
    footnote marker ` (*) ` replaced by a space, everything up to the end of
    the first area token dropped, and the ends trimmed. */
module Normalisation {
  import opened Wrappers
  import opened Text
  import opened Patterns

  // ---------------------------------------------------------------------------
  // replaceAll("\\s+", " ")

  /** Every whitespace character is a plain space and no two stand together. */
  predicate Collapsed(t: string) {
    forall k :: 0 <= k < |t| && IsSpace(t[k]) ==> t[k] == ' ' && (k + 1 == |t| || !IsSpace(t[k + 1]))
  }

  /** The characters of t that are not whitespace, in order. */
  function NonSpaces(t: string): string {
    if t == [] then []
    else (if IsSpace(t[0]) then [] else [t[0]]) + NonSpaces(t[1..])
  }

  /** line.replaceAll("\\s+", " "): each maximal run of whitespace becomes one space. */
  function CollapseSpaces(s: string): (r: string)
    ensures |r| <= |s|
    ensures s != [] ==> r != [] && r[0] == (if IsSpace(s[0]) then ' ' else s[0])
    decreases |s|
  {
    if s == [] then []
    else if IsSpace(s[0]) then [' '] + CollapseSpaces(s[SpacesEnd(s, 0)..])
    else [s[0]] + CollapseSpaces(s[1..])
  }

  /** After the replacement no whitespace run is longer than one space. */
  lemma {:induction false} CollapseSpacesCollapsed(s: string)
    ensures Collapsed(CollapseSpaces(s))
    decreases |s|
  {
    if s != [] {
      var r := CollapseSpaces(s);
      if IsSpace(s[0]) {
        var q := SpacesEnd(s, 0);
        CollapseSpacesCollapsed(s[q..]);
        assert r[1..] == CollapseSpaces(s[q..]);
        if q < |s| {
          assert s[q..][0] == s[q];
        }
      } else {
        CollapseSpacesCollapsed(s[1..]);
        assert r[1..] == CollapseSpaces(s[1..]);
      }
    }
  }

  /** A prefix of whitespace adds nothing to the non-space content. */
  lemma {:induction false} NonSpacesSkip(s: string, k: nat)
    requires k <= |s| && AllSpaces(s[..k])
    ensures NonSpaces(s) == NonSpaces(s[k..])
  {
    if k > 0 {
      assert s[..k][0] == s[0];
      assert s[1..][..k - 1] == s[1..k];
      assert s[1..k] == s[..k][1..];
      NonSpacesSkip(s[1..], k - 1);
      assert s[1..][k - 1..] == s[k..];
    }
  }

  /** The replacement touches only whitespace: the other characters are
      kept, in order. */
  lemma {:induction false} CollapseSpacesKeepsText(s: string)
    ensures NonSpaces(CollapseSpaces(s)) == NonSpaces(s)
    decreases |s|
  {
    if s != [] {
      var r := CollapseSpaces(s);
      if IsSpace(s[0]) {
        var q := SpacesEnd(s, 0);
        assert s[0..q] == s[..q];
        NonSpacesSkip(s, q);
        CollapseSpacesKeepsText(s[q..]);
        assert r[1..] == CollapseSpaces(s[q..]);
      } else {
        CollapseSpacesKeepsText(s[1..]);
        assert r[1..] == CollapseSpaces(s[1..]);
      }
    }
  }

  /** A non-empty whitespace run at the front becomes one space, and the
      rest of the line is collapsed on its own. */
  lemma CollapseSpacesRun(w: string, b: string)
    requires w != [] && AllSpaces(w) && (b == [] || !IsSpace(b[0]))
    ensures CollapseSpaces(w + b) == " " + CollapseSpaces(b)
  {
    var s := w + b;
    assert s[0..|w|] == w;
    SpacesEndExact(s, 0, |w|);
    assert s[|w|..] == b;
  }

  /** Each maximal whitespace run becomes exactly one space: a run w between
      text a that does not end in whitespace and text b that does not start
      with it is replaced by " ", and a and b are collapsed on their own. */
  lemma {:induction false} CollapseSpacesSplit(a: string, w: string, b: string)
    requires a == [] || !IsSpace(a[|a| - 1])
    requires w != [] && AllSpaces(w) && (b == [] || !IsSpace(b[0]))
    ensures CollapseSpaces(a + w + b) == CollapseSpaces(a) + " " + CollapseSpaces(b)
    decreases |a|, 1
  {
    if a == [] {
      assert a + w + b == w + b;
      CollapseSpacesRun(w, b);
    } else {
      CollapseSpacesSplitFront(a, w, b);
    }
  }

  /** The inductive step of CollapseSpacesSplit: emit the front of a, then
      split what is left of it. */
  lemma {:induction false} CollapseSpacesSplitFront(a: string, w: string, b: string)
    requires a != [] && !IsSpace(a[|a| - 1])
    requires w != [] && AllSpaces(w) && (b == [] || !IsSpace(b[0]))
    ensures CollapseSpaces(a + w + b) == CollapseSpaces(a) + " " + CollapseSpaces(b)
    decreases |a|, 0
  {
    var k := FrontLength(a);
    var c := if IsSpace(a[0]) then ' ' else a[0];
    var t := a[k..];
    CollapseSpacesFrontOfJoin(a, w, b);
    CollapseSpacesFront(a, []);
    assert t == [] || !IsSpace(t[|t| - 1]) by {
      assert t == [] || t[|t| - 1] == a[|a| - 1];
    }
    CollapseSpacesSplit(t, w, b);
    JoinAfterFront(CollapseSpaces(a + w + b), CollapseSpaces(a), [c], CollapseSpaces(t), CollapseSpaces(b));
  }

  /** CollapseSpacesFront with the run and the text after it following a. */
  lemma CollapseSpacesFrontOfJoin(a: string, w: string, b: string)
    requires a != [] && !IsSpace(a[|a| - 1])
    ensures CollapseSpaces(a + w + b) ==
            [if IsSpace(a[0]) then ' ' else a[0]] + CollapseSpaces(a[FrontLength(a)..] + w + b)
  {
    CollapseSpacesFront(a, w + b);
    assert a + w + b == a + (w + b);
    assert a[FrontLength(a)..] + (w + b) == a[FrontLength(a)..] + w + b;
  }

  /** The sequence step of CollapseSpacesSplitFront, kept apart from the
      collapse itself. */
  lemma JoinAfterFront(whole: string, left: string, front: string, rest: string, right: string)
    requires whole == front + (rest + " " + right) && left == front + rest
    ensures whole == left + " " + right
  {
  }

  /** How many characters one step of the collapse consumes: the leading
      whitespace run, or the one leading character. */
  function FrontLength(a: string): (k: nat)
    requires a != []
    ensures 1 <= k <= |a|
  {
    if IsSpace(a[0]) then SpacesEnd(a, 0) else 1
  }

  /** One step of the collapse on text that does not end in whitespace,
      whatever follows it: the leading character, or the leading whitespace
      run as one space, is emitted, and the same characters are consumed
      with or without what follows. */
  lemma CollapseSpacesFront(a: string, x: string)
    requires a != [] && !IsSpace(a[|a| - 1])
    ensures var k := FrontLength(a);
      && CollapseSpaces(a) == [if IsSpace(a[0]) then ' ' else a[0]] + CollapseSpaces(a[k..])
      && CollapseSpaces(a + x) == [if IsSpace(a[0]) then ' ' else a[0]] + CollapseSpaces(a[k..] + x)
  {
    var s := a + x;
    var k := FrontLength(a);
    if IsSpace(a[0]) {
      SpacesEndWithin(a, x);
    }
    assert s[k..] == a[k..] + x;
  }

  /** A leading whitespace run of text that does not end in whitespace stops
      inside it, whatever follows. */
  lemma SpacesEndWithin(a: string, x: string)
    requires a != [] && !IsSpace(a[|a| - 1])
    ensures SpacesEnd(a, 0) < |a| && SpacesEnd(a + x, 0) == SpacesEnd(a, 0)
  {
    var q := SpacesEnd(a, 0);
    assert a[0..q] == a[..q];
    assert (a + x)[0..q] == a[0..q];
    SpacesEndExact(a + x, 0, q);
  }

  /** A line that is already collapsed is left as it is. */
  lemma {:induction false} CollapseSpacesIdentity(s: string)
    requires Collapsed(s)
    ensures CollapseSpaces(s) == s
    decreases |s|
  {
    if s != [] {
      assert Collapsed(s[1..]) by {
        forall k | 0 <= k < |s[1..]| && IsSpace(s[1..][k])
          ensures s[1..][k] == ' ' && (k + 1 == |s[1..]| || !IsSpace(s[1..][k + 1]))
        {
          assert s[1..][k] == s[k + 1];
        }
      }
      if IsSpace(s[0]) {
        if |s| > 1 {
          assert !IsSpace(s[1]);
          assert s[0..1] == [s[0]];
          SpacesEndExact(s, 0, 1);
        } else {
          SpacesEndExact(s, 0, 1);
        }
      }
      CollapseSpacesIdentity(s[1..]);
    }
  }

  // ---------------------------------------------------------------------------
  // replaceAll("N\\.", "N") and its five siblings

  /** line.replaceAll(c + "\\.", c): one left-to-right pass that deletes the
      period of every non-overlapping pair c '.'. */
  function DropDotAfter(s: string, c: char): (r: string)
    ensures |r| <= |s|
    decreases |s|
  {
    if |s| >= 2 && s[0] == c && s[1] == '.' then [c] + DropDotAfter(s[2..], c)
    else if s == [] then []
    else [s[0]] + DropDotAfter(s[1..], c)
  }

  /** The characters of t other than '.', in order. */
  function NonDots(t: string): string {
    if t == [] then []
    else (if t[0] == '.' then [] else [t[0]]) + NonDots(t[1..])
  }

  /** Some pair c '.' stands in t. */
  predicate HasDotAfter(t: string, c: char) {
    exists k :: 0 <= k < |t| - 1 && t[k] == c && t[k + 1] == '.'
  }

  /** The pass removes periods and nothing else. */
  lemma {:induction false} DropDotAfterRemovesOnlyDots(s: string, c: char)
    requires c != '.'
    ensures NonDots(DropDotAfter(s, c)) == NonDots(s)
    decreases |s|
  {
    var r := DropDotAfter(s, c);
    if |s| >= 2 && s[0] == c && s[1] == '.' {
      DropDotAfterRemovesOnlyDots(s[2..], c);
      assert r[1..] == DropDotAfter(s[2..], c);
      assert s[1..][1..] == s[2..];
    } else if s != [] {
      DropDotAfterRemovesOnlyDots(s[1..], c);
      assert r[1..] == DropDotAfter(s[1..], c);
    }
  }

  /** A line without the pair c '.' is left as it is. */
  lemma {:induction false} DropDotAfterIdentity(s: string, c: char)
    requires !HasDotAfter(s, c)
    ensures DropDotAfter(s, c) == s
    decreases |s|
  {
    if s != [] {
      assert !HasDotAfter(s[1..], c) by {
        forall k | 0 <= k < |s[1..]| - 1
          ensures !(s[1..][k] == c && s[1..][k + 1] == '.')
        {
          assert s[1..][k] == s[k + 1] && s[1..][k + 1] == s[k + 2];
        }
      }
      DropDotAfterIdentity(s[1..], c);
    }
  }

  /** The pass does not rescan what it produced: "N.." keeps one period. */
  lemma DropDotAfterSinglePass()
    ensures DropDotAfter("N..", 'N') == "N."
  {
    assert "N.."[2..] == ".";
    assert DropDotAfter(".", 'N') == ".";
  }

  /** The six replacements of lines 57-62, in their order. */
  function DropDots(s: string): (r: string)
    ensures |r| <= |s|
  {
    var s1 := DropDotAfter(s, 'N');
    var s2 := DropDotAfter(s1, 'S');
    var s3 := DropDotAfter(s2, '\U{FFFD}');
    var s4 := DropDotAfter(s3, 'V');
    var s5 := DropDotAfter(s4, 'E');
    DropDotAfter(s5, 'W')
  }

  /** The six replacements together remove periods and nothing else. */
  lemma DropDotsRemovesOnlyDots(s: string)
    ensures NonDots(DropDots(s)) == NonDots(s)
  {
    var s1 := DropDotAfter(s, 'N');
    var s2 := DropDotAfter(s1, 'S');
    var s3 := DropDotAfter(s2, '\U{FFFD}');
    var s4 := DropDotAfter(s3, 'V');
    var s5 := DropDotAfter(s4, 'E');
    DropDotAfterRemovesOnlyDots(s, 'N');
    DropDotAfterRemovesOnlyDots(s1, 'S');
    DropDotAfterRemovesOnlyDots(s2, '\U{FFFD}');
    DropDotAfterRemovesOnlyDots(s3, 'V');
    DropDotAfterRemovesOnlyDots(s4, 'E');
    DropDotAfterRemovesOnlyDots(s5, 'W');
  }

  /** The letters whose period lines 57-62 delete. */
  const DotMarks: set<char> := {'N', 'S', '\U{FFFD}', 'V', 'E', 'W'}

  /** The periods a set of marks stands for, judged in the line as it was:
      a period is dropped exactly when the character before it is one of the
      marks, and every other character is kept, in order. `afterMark` says
      whether the character before s[0] was a mark. */
  function DropMarkedDots(s: string, marks: set<char>, afterMark: bool): string {
    if s == [] then []
    else (if s[0] == '.' && afterMark then [] else [s[0]]) + DropMarkedDots(s[1..], marks, s[0] in marks)
  }

  /** After a character that is not a period, what came before does not matter. */
  lemma DropMarkedDotsAfterAny(s: string, marks: set<char>)
    requires s == [] || s[0] != '.'
    ensures DropMarkedDots(s, marks, true) == DropMarkedDots(s, marks, false)
  {
  }

  /** One pass of replaceAll(c + "\\.", c) drops exactly the periods that
      follow c in the line as it was: since c is not a period, the pairs it
      matches never overlap. */
  lemma {:induction false} DropDotAfterMarked(s: string, c: char)
    requires c != '.'
    ensures DropDotAfter(s, c) == DropMarkedDots(s, {c}, false)
    decreases |s|
  {
    if |s| >= 2 && s[0] == c && s[1] == '.' {
      assert s[1..][1..] == s[2..];
      DropDotAfterMarked(s[2..], c);
    } else if s != [] {
      if s[0] == c {
        DropMarkedDotsAfterAny(s[1..], {c});
      }
      DropDotAfterMarked(s[1..], c);
    }
  }

  /** A pass for c after a pass for the marks A drops the periods that follow
      a mark of A or c in the line as it was: a period the first pass keeps
      stands after the same character in both lines, or after a letter of A
      whose period was dropped, which is not c. */
  lemma {:induction false} DropMarkedDotsCompose(s: string, marks: set<char>, c: char, afterMark: bool, afterC: bool)
    requires '.' !in marks && c != '.' && c !in marks && (afterMark ==> !afterC)
    ensures DropMarkedDots(DropMarkedDots(s, marks, afterMark), {c}, afterC) ==
            DropMarkedDots(s, marks + {c}, afterMark || afterC)
    decreases |s|
  {
    if s != [] {
      var x := s[0];
      var u := DropMarkedDots(s[1..], marks, x in marks);
      if x == '.' && afterMark {
        assert DropMarkedDots(s, marks, afterMark) == u;
        assert DropMarkedDots(s, marks + {c}, afterMark || afterC) == DropMarkedDots(s[1..], marks + {c}, false);
        DropMarkedDotsCompose(s[1..], marks, c, false, afterC);
      } else {
        assert ([x] + u)[0] == x && ([x] + u)[1..] == u;
        DropMarkedDotsCompose(s[1..], marks, c, x in marks, x == c);
      }
    }
  }

  /** The six passes of lines 57-62 together drop exactly the periods that
      follow N, S, U+FFFD, V, E or W in the line as it was before them. */
  lemma DropDotsMarked(s: string)
    ensures DropDots(s) == DropMarkedDots(s, DotMarks, false)
  {
    var s1 := DropDotAfter(s, 'N');
    var s2 := DropDotAfter(s1, 'S');
    var s3 := DropDotAfter(s2, '\U{FFFD}');
    var s4 := DropDotAfter(s3, 'V');
    var s5 := DropDotAfter(s4, 'E');
    DropDotAfterMarked(s, 'N');
    DropDotAfterMarked(s1, 'S');
    DropDotAfterMarked(s2, '\U{FFFD}');
    DropDotAfterMarked(s3, 'V');
    DropDotAfterMarked(s4, 'E');
    DropDotAfterMarked(s5, 'W');
    DropMarkedDotsCompose(s, {'N'}, 'S', false, false);
    DropMarkedDotsCompose(s, {'N', 'S'}, '\U{FFFD}', false, false);
    DropMarkedDotsCompose(s, {'N', 'S', '\U{FFFD}'}, 'V', false, false);
    DropMarkedDotsCompose(s, {'N', 'S', '\U{FFFD}', 'V'}, 'E', false, false);
    DropMarkedDotsCompose(s, {'N', 'S', '\U{FFFD}', 'V', 'E'}, 'W', false, false);
    assert {'N'} + {'S'} == {'N', 'S'};
    assert {'N', 'S'} + {'\U{FFFD}'} == {'N', 'S', '\U{FFFD}'};
    assert {'N', 'S', '\U{FFFD}'} + {'V'} == {'N', 'S', '\U{FFFD}', 'V'};
    assert {'N', 'S', '\U{FFFD}', 'V'} + {'E'} == {'N', 'S', '\U{FFFD}', 'V', 'E'};
    assert {'N', 'S', '\U{FFFD}', 'V', 'E'} + {'W'} == DotMarks;
  }

  /** No period follows any of the six letters. */
  predicate NoMarkedDots(t: string) {
    forall k :: 0 <= k < |t| - 1 && t[k + 1] == '.' ==>
      t[k] != 'N' && t[k] != 'S' && t[k] != '\U{FFFD}' && t[k] != 'V' && t[k] != 'E' && t[k] != 'W'
  }

  /** A line with no period after the six letters is left as it is. */
  lemma DropDotsIdentity(s: string)
    requires NoMarkedDots(s)
    ensures DropDots(s) == s
  {
    DropDotAfterIdentity(s, 'N');
    DropDotAfterIdentity(s, 'S');
    DropDotAfterIdentity(s, '\U{FFFD}');
    DropDotAfterIdentity(s, 'V');
    DropDotAfterIdentity(s, 'E');
    DropDotAfterIdentity(s, 'W');
  }

  // ---------------------------------------------------------------------------
  // replaceFirst("\\s\\(\\*\\)\\s", " ") and the area prefix

  /** line.replaceFirst("\\s\\(\\*\\)\\s", " "): the first footnote marker,
      with the whitespace around it, becomes one space. */
  function ReplaceFootnote(s: string): (r: string)
    ensures FindFootnoteFrom(s, 0).None? ==> r == s
    ensures FindFootnoteFrom(s, 0).Some? ==>
      var i := FindFootnoteFrom(s, 0).value;
      |r| == |s| - 4 && r[..i] == s[..i] && r[i] == ' ' && r[i + 1..] == s[i + 5..]
  {
    match FindFootnoteFrom(s, 0)
    case None => s
    case Some(i) => s[..i] + " " + s[i + 5..]
  }

  /** Lines 67-69: when an area token is found, the line becomes what follows
      its end; otherwise it is unchanged. */
  function StripArea(s: string): (r: string)
    ensures FindArea(s).None? ==> r == s
    ensures FindArea(s).Some? ==> r == s[FindArea(s).value.end..] && IsAreaToken(s[FindArea(s).value.start..FindArea(s).value.end])
  {
    match FindArea(s)
    case None => s
    case Some(m) => s[m.end..]
  }

  /** Lines 56-72 in order. */
  function Normalise(s: string): string {
    Trim(StripArea(ReplaceFootnote(DropDots(CollapseSpaces(s)))))
  }

  /** Text in normal form: no whitespace run longer than one space, no
      period after the six letters, no footnote marker, no area token and
      nothing to trim. */
  predicate NormalText(s: string) {
    && s != [] && Collapsed(s) && NoMarkedDots(s)
    && (forall i :: 0 <= i <= |s| ==> !IsFootnoteAt(s, i))
    && (forall i, e :: 0 <= i <= e <= |s| ==> !IsAreaToken(s[i..e]))
    && !IsTrimmable(s[0]) && !IsTrimmable(s[|s| - 1])
  }

  /** A line that is already in normal form passes through unchanged. */
  lemma NormaliseIdentity(s: string)
    requires NormalText(s)
    ensures Normalise(s) == s
  {
    CollapseSpacesIdentity(s);
    DropDotsIdentity(s);
    TrimKeeps(s);
  }

  // ---------------------------------------------------------------------------
  // Fields joined by one space

  /** a ends with a whitespace character and `(*)`. */
  predicate EndsWithMarker(a: string) {
    |a| >= 4 && IsSpace(a[|a| - 4]) && a[|a| - 3] == '(' && a[|a| - 2] == '*' && a[|a| - 1] == ')'
  }

  /** b starts with `(*)` and a whitespace character. */
  predicate StartsWithMarker(b: string) {
    |b| >= 4 && b[0] == '(' && b[1] == '*' && b[2] == ')' && IsSpace(b[3])
  }

  /** An area token would stand across the space that joins a and b: a ends
      with two digits and N or S, and b starts with two or three digits and
      E or W. */
  predicate AreaAcross(a: string, b: string) {
    && |a| >= 3 && IsDigit(a[|a| - 3]) && IsDigit(a[|a| - 2]) && IsNorthSouth(a[|a| - 1])
    && |b| >= 3 && IsDigit(b[0]) && IsDigit(b[1])
    && (IsEastWest(b[2]) || (|b| >= 4 && IsDigit(b[2]) && IsEastWest(b[3])))
  }

  /** A word with no whitespace in it is in normal form when its ends are
      kept by trim() and no period follows one of the six letters: a
      footnote marker and an area token both need whitespace. */
  lemma WordNormal(t: string)
    requires t != [] && !IsTrimmable(t[0]) && !IsTrimmable(t[|t| - 1]) && NoMarkedDots(t)
    requires forall k :: 0 <= k < |t| ==> !IsSpace(t[k])
    ensures NormalText(t)
  {
    forall i, e | 0 <= i <= e <= |t|
      ensures !IsAreaToken(t[i..e])
    {
      if e - i >= 4 {
        assert t[i..e][3] == t[i + 3];
      }
    }
  }

  /** Two texts in normal form joined by one space are in normal form, unless
      a footnote marker or an area token stands across the space. */
  lemma JoinNormal(a: string, b: string)
    requires NormalText(a) && NormalText(b)
    requires !EndsWithMarker(a) && !StartsWithMarker(b) && !AreaAcross(a, b)
    ensures NormalText(a + " " + b)
  {
    var s := a + " " + b;
    JoinCollapsed(a, b);
    forall k | 0 <= k < |s| - 1 && s[k + 1] == '.'
      ensures s[k] != 'N' && s[k] != 'S' && s[k] != '\U{FFFD}' && s[k] != 'V' && s[k] != 'E' && s[k] != 'W'
    {
      if k < |a| - 1 {
        assert s[k] == a[k] && s[k + 1] == a[k + 1];
      } else if k > |a| {
        assert s[k] == b[k - |a| - 1] && s[k + 1] == b[k - |a|];
      }
    }
    JoinNoFootnote(a, b);
    JoinNoArea(a, b);
  }

  lemma JoinCollapsed(a: string, b: string)
    requires NormalText(a) && NormalText(b)
    ensures Collapsed(a + " " + b)
  {
    var s := a + " " + b;
    forall k | 0 <= k < |s| && IsSpace(s[k])
      ensures s[k] == ' ' && (k + 1 == |s| || !IsSpace(s[k + 1]))
    {
      if k < |a| {
        assert s[k] == a[k];
        if k + 1 < |a| {
          assert s[k + 1] == a[k + 1];
        }
      } else if k > |a| {
        assert s[k] == b[k - |a| - 1];
        if k + 1 < |s| {
          assert s[k + 1] == b[k - |a|];
        }
      }
    }
  }

  lemma JoinNoFootnote(a: string, b: string)
    requires NormalText(a) && NormalText(b) && !EndsWithMarker(a) && !StartsWithMarker(b)
    ensures forall i :: 0 <= i <= |a + " " + b| ==> !IsFootnoteAt(a + " " + b, i)
  {
    var s := a + " " + b;
    forall i | 0 <= i <= |s|
      ensures !IsFootnoteAt(s, i)
    {
      if i + 5 <= |a| {
        assert s[i..i + 5] == a[i..i + 5];
        assert IsFootnoteAt(s, i) == IsFootnoteAt(a, i);
      } else if i > |a| {
        var j := i - |a| - 1;
        assert IsFootnoteAt(s, i) == IsFootnoteAt(b, j) by {
          if i + 5 <= |s| {
            assert s[i..i + 5] == b[j..j + 5];
          }
        }
      } else {
        FootnoteAcross(a, b, i);
      }
    }
  }

  /** A footnote marker over the joining space starts or ends at it. */
  lemma FootnoteAcross(a: string, b: string, i: nat)
    requires i <= |a| < i + 5
    ensures IsFootnoteAt(a + " " + b, i) ==> EndsWithMarker(a) || StartsWithMarker(b)
  {
    var s := a + " " + b;
    if IsFootnoteAt(s, i) {
      assert s[|a|] == ' ';
      if i < |a| {
        assert i + 4 == |a|;
        assert a[|a| - 4] == s[i] && a[|a| - 3] == s[i + 1] && a[|a| - 2] == s[i + 2] && a[|a| - 1] == s[i + 3];
      } else {
        assert b[0] == s[i + 1] && b[1] == s[i + 2] && b[2] == s[i + 3] && b[3] == s[i + 4];
      }
    }
  }

  lemma JoinNoArea(a: string, b: string)
    requires NormalText(a) && NormalText(b) && !AreaAcross(a, b)
    ensures forall i, e :: 0 <= i <= e <= |a + " " + b| ==> !IsAreaToken((a + " " + b)[i..e])
  {
    var s := a + " " + b;
    forall i, e | 0 <= i <= e <= |s|
      ensures !IsAreaToken(s[i..e])
    {
      if e <= |a| {
        assert s[i..e] == a[i..e];
      } else if i > |a| {
        assert s[i..e] == b[i - |a| - 1..e - |a| - 1];
      } else {
        AreaTokenAcross(a, b, i, e);
      }
    }
  }

  /** The one whitespace character of an area token is its fourth. */
  lemma AreaTokenOneSpace(t: string)
    requires IsAreaToken(t)
    ensures forall j :: 0 <= j < |t| && j != 3 ==> !IsSpace(t[j])
  {
    forall j | 0 <= j < |t| && j != 3
      ensures !IsSpace(t[j])
    {
      if j < 2 {
        assert t[..2][j] == t[j];
      } else if 4 <= j < |t| - 1 {
        assert t[4..|t| - 1][j - 4] == t[j];
      }
    }
  }

  /** An area token over the joining space has that space as its fourth
      character. */
  lemma AreaTokenAcross(a: string, b: string, i: nat, e: nat)
    requires i <= |a| < e <= |a| + 1 + |b|
    ensures IsAreaToken((a + " " + b)[i..e]) ==> AreaAcross(a, b)
  {
    var s := a + " " + b;
    var t := s[i..e];
    if IsAreaToken(t) {
      AreaTokenOneSpace(t);
      assert t[|a| - i] == ' ';
      assert i + 3 == |a|;
      assert t[0] == t[..2][0] && t[1] == t[..2][1];
      assert t[4] == t[4..|t| - 1][0] && t[5] == t[4..|t| - 1][1];
      assert a[|a| - 3] == t[0] && a[|a| - 2] == t[1] && a[|a| - 1] == t[2];
      assert b[0] == t[4] && b[1] == t[5];
      if |t| == 7 {
        assert b[2] == t[6];
      } else {
        assert t[6] == t[4..|t| - 1][2];
        assert e == |a| + 5 && t[6] == s[|a| + 3] && t[7] == s[|a| + 4];
      }
    }
  }
}
