/** What parse() makes of each line of the text and of the text as a whole
    (SwedenObstacleParser.parse, lines 51-175): a line without a coordinate
    token is skipped, any other line is normalised and tokenised, and the
    first line that fails ends the run with an exception while the records
    added before it stay. */
module LineDecoding {
  import opened Wrappers
  import opened Text
  import opened Patterns
  import opened Obstacles
  import opened Normalisation
  import opened Tokeniser
  import opened CoordinateDecoding
  import opened PrintedRows

  /** What parse() throws: ParseException(fileName) from fail(), or one of the
      runtime exceptions that String.substring and Float.valueOf raise, or
      the NullPointerException of a parse() before any loadFile(). */
  datatype ParseFailure =
    | ParseException(fileName: string)
    | StringIndexOutOfBounds
    | NumberFormatException(text: string)
    | NullPointerException

  /** The exception a failed line throws out of parse(): a missing field goes
      through fail() and carries the file name; the runtime exceptions pass
      through as they are. */
  function Raised(fileName: string, f: LineFailure): (r: ParseFailure)
    ensures r.ParseException? <==> f.NoMatch?
    ensures r.ParseException? ==> r.fileName == fileName
    ensures r == StringIndexOutOfBounds <==> f == IndexOutOfBounds
    ensures f.NumberFormat? ==> r == NumberFormatException(f.text)
  {
    match f
    case NoMatch(_) => ParseException(fileName)
    case IndexOutOfBounds => StringIndexOutOfBounds
    case NumberFormat(text) => NumberFormatException(text)
  }

  /** The three numbers of a record have at most five digits. */
  predicate Bounded(o: Obstacle) {
    o.number < 100000 && o.height < 100000 && o.elevation < 100000
  }

  /** What happens to one line of the text. */
  datatype LineOutcome = Skipped | Decoded(obstacle: Obstacle) | Failed(failure: LineFailure)

  /** Lines 53-172 for one line: skipped unless the raw line holds a
      coordinate token; otherwise the normalised line is tokenised. */
  function DecodeLine(raw: string): (r: LineOutcome)
    ensures r.Skipped? <==> forall i, e :: 0 <= i <= e <= |raw| ==> !IsCoordinateToken(raw[i..e])
    ensures r.Decoded? ==> Tokenise(Normalise(raw)) == Success(r.obstacle)
    ensures r.Failed? ==> Tokenise(Normalise(raw)) == Failure(r.failure)
    ensures r.Decoded? ==> Bounded(r.obstacle)
  {
    if FindCoordinates(raw).None? then Skipped
    else
      match Tokenise(Normalise(raw))
      case Success(obstacle) => Decoded(obstacle)
      case Failure(failure) => Failed(failure)
  }

  /** The outcome of a line with a coordinate token, from its tokenising. */
  lemma DecodeLineOfTokens(raw: string, normalised: string, r: Result<Obstacle, LineFailure>)
    requires FindCoordinates(raw).Some? && normalised == Normalise(raw) && Tokenise(normalised) == r
    ensures DecodeLine(raw) == if r.Success? then Decoded(r.value) else Failed(r.error)
  {
  }

  /** A printed row, whatever the raw line looked like before normalisation,
      is decoded as the obstacle it describes. */
  lemma DecodePrintedLine(row: Row, raw: string)
    requires PrintableRow(row) && FindCoordinates(raw).Some? && Normalise(raw) == FormatRow(row)
    ensures DecodeLine(raw) == Decoded(RowObstacle(row))
  {
    TokenisePrinted(row);
  }

  /** The printed line of a normal row is a candidate line, is its own
      normal form, and decodes to the row's obstacle. */
  lemma DecodeNormalRow(row: Row)
    requires NormalRow(row)
    ensures DecodeLine(FormatRow(row)) == Decoded(RowObstacle(row))
  {
    var line := FormatRow(row);
    var t := CoordinatesText(row.latitude, row.longitude);
    var i := |NatToString(row.number)| + 1 + |row.designation| + 1;
    assert line[i..i + |t|] == t;
    PrintedIsCoordinateToken(row.latitude, row.longitude);
    FormatRowNormal(row);
    DecodePrintedLine(row, line);
  }

  // ---------------------------------------------------------------------------
  // The run over all lines

  /** The records parse() has added and the exception it ended with, if any. */
  datatype Run = Run(records: seq<Obstacle>, failure: Option<ParseFailure>)

  /** One more line: nothing happens once an exception has been thrown;
      otherwise a skipped line changes nothing, a decoded line appends its
      record and a failed line throws. */
  function Step(fileName: string, run: Run, outcome: LineOutcome): Run {
    if run.failure.Some? then run
    else
      match outcome
      case Skipped => run
      case Decoded(obstacle) => Run(run.records + [obstacle], None)
      case Failed(f) => Run(run.records, Some(Raised(fileName, f)))
  }

  /** The outcome of each line of the text. */
  function Outcomes(lines: seq<string>): (r: seq<LineOutcome>)
    ensures |r| == |lines| && forall k :: 0 <= k < |lines| ==> r[k] == DecodeLine(lines[k])
  {
    seq(|lines|, k requires 0 <= k < |lines| => DecodeLine(lines[k]))
  }

  /** The loop of lines 51-174 over the lines of the text. */
  function ParseLines(fileName: string, lines: seq<string>): Run {
    Replay(fileName, Outcomes(lines))
  }

  /** The loop over the outcomes of the lines, one line at a time. */
  function Replay(fileName: string, outcomes: seq<LineOutcome>): Run
    decreases |outcomes|
  {
    if outcomes == [] then Run([], None)
    else Step(fileName, Replay(fileName, outcomes[..|outcomes| - 1]), outcomes[|outcomes| - 1])
  }

  /** The outcomes of a text with one more line. */
  lemma OutcomesSnoc(lines: seq<string>, raw: string)
    ensures Outcomes(lines + [raw]) == Outcomes(lines) + [DecodeLine(raw)]
  {
    assert forall k :: 0 <= k < |lines| ==> (lines + [raw])[k] == lines[k];
  }

  /** The outcomes of a prefix of the text. */
  lemma OutcomesPrefix(lines: seq<string>, k: nat)
    requires k <= |lines|
    ensures Outcomes(lines[..k]) == Outcomes(lines)[..k]
  {
  }

  /** The run over one more line of the text. */
  lemma ParseLinesNext(fileName: string, lines: seq<string>, i: nat)
    requires i < |lines|
    ensures ParseLines(fileName, lines[..i + 1]) ==
      Step(fileName, ParseLines(fileName, lines[..i]), DecodeLine(lines[i]))
  {
    assert lines[..i + 1] == lines[..i] + [lines[i]];
    OutcomesSnoc(lines[..i], lines[i]);
    ReplaySnoc(fileName, Outcomes(lines[..i]), DecodeLine(lines[i]));
  }

  /** Replaying one more outcome is one more step. */
  lemma ReplaySnoc(fileName: string, outcomes: seq<LineOutcome>, outcome: LineOutcome)
    ensures Replay(fileName, outcomes + [outcome]) == Step(fileName, Replay(fileName, outcomes), outcome)
  {
    assert (outcomes + [outcome])[..|outcomes|] == outcomes;
  }

  /** The run over one more line of the text, for each outcome of that line. */
  lemma ParseLinesAfter(fileName: string, lines: seq<string>, i: nat, outcome: LineOutcome)
    requires i < |lines| && ParseLines(fileName, lines[..i]).failure.None? && DecodeLine(lines[i]) == outcome
    ensures outcome.Skipped? ==> ParseLines(fileName, lines[..i + 1]) == ParseLines(fileName, lines[..i])
    ensures outcome.Decoded? ==>
      ParseLines(fileName, lines[..i + 1]) == Run(ParseLines(fileName, lines[..i]).records + [outcome.obstacle], None)
    ensures outcome.Failed? ==>
      ParseLines(fileName, lines[..i + 1]) == Run(ParseLines(fileName, lines[..i]).records, Some(Raised(fileName, outcome.failure)))
  {
    ParseLinesNext(fileName, lines, i);
  }

  /** A line without a coordinate token leaves the records as they were. */
  lemma SkippedLineChangesNothing(fileName: string, lines: seq<string>, raw: string)
    requires forall i, e :: 0 <= i <= e <= |raw| ==> !IsCoordinateToken(raw[i..e])
    ensures ParseLines(fileName, lines + [raw]) == ParseLines(fileName, lines)
  {
    OutcomesSnoc(lines, raw);
    ReplaySnoc(fileName, Outcomes(lines), DecodeLine(raw));
  }

  /** A decoded line appends exactly its record; the records before it are
      unchanged. */
  lemma DecodedLineAppends(fileName: string, lines: seq<string>, raw: string, obstacle: Obstacle)
    requires ParseLines(fileName, lines).failure.None? && DecodeLine(raw) == Decoded(obstacle)
    ensures ParseLines(fileName, lines + [raw]) == Run(ParseLines(fileName, lines).records + [obstacle], None)
  {
    OutcomesSnoc(lines, raw);
    ReplaySnoc(fileName, Outcomes(lines), DecodeLine(raw));
  }

  /** A failed line throws and appends nothing; a missing field throws
      ParseException with the file name. */
  lemma FailedLineThrows(fileName: string, lines: seq<string>, raw: string, f: LineFailure)
    requires ParseLines(fileName, lines).failure.None? && DecodeLine(raw) == Failed(f)
    ensures ParseLines(fileName, lines + [raw]) == Run(ParseLines(fileName, lines).records, Some(Raised(fileName, f)))
    ensures f.NoMatch? ==> ParseLines(fileName, lines + [raw]).failure == Some(ParseException(fileName))
  {
    OutcomesSnoc(lines, raw);
    ReplaySnoc(fileName, Outcomes(lines), DecodeLine(raw));
  }

  /** Once an exception has been thrown the lines after it change nothing. */
  lemma ParseLinesAborted(fileName: string, lines: seq<string>, k: nat)
    requires k <= |lines| && ParseLines(fileName, lines[..k]).failure.Some?
    ensures ParseLines(fileName, lines) == ParseLines(fileName, lines[..k])
  {
    OutcomesPrefix(lines, k);
    ReplayAborted(fileName, Outcomes(lines), k);
  }

  lemma {:induction false} ReplayAborted(fileName: string, outcomes: seq<LineOutcome>, k: nat)
    requires k <= |outcomes| && Replay(fileName, outcomes[..k]).failure.Some?
    ensures Replay(fileName, outcomes) == Replay(fileName, outcomes[..k])
    decreases |outcomes|
  {
    if k < |outcomes| {
      var n := |outcomes| - 1;
      assert outcomes[..n][..k] == outcomes[..k];
      ReplayAborted(fileName, outcomes[..n], k);
    } else {
      assert outcomes[..k] == outcomes;
    }
  }

  /** The records only grow from line to line: those of a prefix of the text
      begin the records of the whole text. */
  lemma ParseLinesGrows(fileName: string, lines: seq<string>, k: nat)
    requires k <= |lines|
    ensures ParseLines(fileName, lines[..k]).records <= ParseLines(fileName, lines).records
  {
    OutcomesPrefix(lines, k);
    ReplayGrows(fileName, Outcomes(lines), k);
  }

  lemma {:induction false} ReplayGrows(fileName: string, outcomes: seq<LineOutcome>, k: nat)
    requires k <= |outcomes|
    ensures Replay(fileName, outcomes[..k]).records <= Replay(fileName, outcomes).records
    decreases |outcomes|
  {
    if k < |outcomes| {
      var n := |outcomes| - 1;
      assert outcomes[..n][..k] == outcomes[..k];
      ReplayGrows(fileName, outcomes[..n], k);
    } else {
      assert outcomes[..k] == outcomes;
    }
  }

  /** At most one record per line, each with the three numbers below 100000. */
  lemma ParseLinesBounded(fileName: string, lines: seq<string>)
    ensures |ParseLines(fileName, lines).records| <= |lines|
    ensures forall o :: o in ParseLines(fileName, lines).records ==> Bounded(o)
  {
    ReplayBounded(fileName, Outcomes(lines));
  }

  lemma {:induction false} ReplayBounded(fileName: string, outcomes: seq<LineOutcome>)
    requires forall k :: 0 <= k < |outcomes| && outcomes[k].Decoded? ==> Bounded(outcomes[k].obstacle)
    ensures |Replay(fileName, outcomes).records| <= |outcomes|
    ensures forall o :: o in Replay(fileName, outcomes).records ==> Bounded(o)
    decreases |outcomes|
  {
    if outcomes != [] {
      ReplayBounded(fileName, outcomes[..|outcomes| - 1]);
    }
  }

  // ---------------------------------------------------------------------------
  // The same run, read from the front

  /** The records of every decoded line, in the order of the lines. */
  function DecodedRecords(outcomes: seq<LineOutcome>): seq<Obstacle> {
    if outcomes == [] then []
    else Record(outcomes[0]) + DecodedRecords(outcomes[1..])
  }

  /** The record a line outcome contributes: one if decoded, none otherwise. */
  function Record(outcome: LineOutcome): seq<Obstacle> {
    if outcome.Decoded? then [outcome.obstacle] else []
  }

  /** The first line that fails, if any. */
  function FirstFailed(outcomes: seq<LineOutcome>): (r: Option<nat>)
    ensures r.Some? ==> r.value < |outcomes| && outcomes[r.value].Failed?
    ensures forall k :: 0 <= k < |outcomes| && (r.None? || k < r.value) ==> !outcomes[k].Failed?
  {
    if outcomes == [] then None
    else if outcomes[0].Failed? then Some(0)
    else
      match FirstFailed(outcomes[1..])
      case None => None
      case Some(k) => Some(k + 1)
  }

  /** The records of one more line, read from the front. */
  lemma {:induction false} DecodedRecordsSnoc(outcomes: seq<LineOutcome>, outcome: LineOutcome)
    ensures DecodedRecords(outcomes + [outcome]) == DecodedRecords(outcomes) + Record(outcome)
  {
    if outcomes != [] {
      assert (outcomes + [outcome])[1..] == outcomes[1..] + [outcome];
      DecodedRecordsSnoc(outcomes[1..], outcome);
    } else {
      assert [outcome][1..] == [];
    }
  }

  /** The first failing line of a text is that of the text without its last
      line, or else the last line if that one fails. */
  lemma FirstFailedSnoc(outcomes: seq<LineOutcome>, outcome: LineOutcome)
    ensures var init := FirstFailed(outcomes);
      FirstFailed(outcomes + [outcome]) ==
        if init.Some? then init
        else if outcome.Failed? then Some(|outcomes|)
        else None
  {
    var s := outcomes + [outcome];
    var q := FirstFailed(outcomes);
    var v := if q.Some? then q else if outcome.Failed? then Some(|outcomes|) else None;
    forall k | 0 <= k < |outcomes|
      ensures s[k] == outcomes[k]
    {
    }
    assert s[|outcomes|] == outcome;
    FirstFailedCharacterised(s, v);
  }

  /** A line that fails with no failing line before it is the first failing
      line; no failing line at all means there is none. */
  lemma FirstFailedCharacterised(outcomes: seq<LineOutcome>, v: Option<nat>)
    requires v.Some? ==> v.value < |outcomes| && outcomes[v.value].Failed?
    requires forall k :: 0 <= k < |outcomes| && (v.None? || k < v.value) ==> !outcomes[k].Failed?
    ensures FirstFailed(outcomes) == v
  {
  }

  /** The meaning of the run: without a failing line the records are those of
      all decoded lines; otherwise they are those of the decoded lines before
      the first failing line, and the run ends with that line's exception. */
  lemma ParseLinesMeaning(fileName: string, lines: seq<string>)
    ensures var outcomes := Outcomes(lines);
      FirstFailed(outcomes).None? ==> ParseLines(fileName, lines) == Run(DecodedRecords(outcomes), None)
    ensures var outcomes := Outcomes(lines);
      FirstFailed(outcomes).Some? ==>
      var k := FirstFailed(outcomes).value;
      ParseLines(fileName, lines) ==
        Run(DecodedRecords(outcomes[..k]), Some(Raised(fileName, DecodeLine(lines[k]).failure)))
  {
    ReplayMeaning(fileName, Outcomes(lines));
  }

  lemma {:induction false} ReplayMeaning(fileName: string, outcomes: seq<LineOutcome>)
    ensures FirstFailed(outcomes).None? ==> Replay(fileName, outcomes) == Run(DecodedRecords(outcomes), None)
    ensures FirstFailed(outcomes).Some? ==>
      var k := FirstFailed(outcomes).value;
      Replay(fileName, outcomes) == Run(DecodedRecords(outcomes[..k]), Some(Raised(fileName, outcomes[k].failure)))
    decreases |outcomes|
  {
    if outcomes != [] {
      var n := |outcomes| - 1;
      var init := outcomes[..n];
      assert outcomes == init + [outcomes[n]];
      ReplayMeaning(fileName, init);
      FirstFailedSnoc(init, outcomes[n]);
      match FirstFailed(init)
      case Some(k) =>
        assert init[..k] == outcomes[..k];
      case None =>
        DecodedRecordsSnoc(init, outcomes[n]);
        assert outcomes[..n] == init;
    }
  }
}
