/** The parser object of SwedenObstacleParser.java: the file name and the text
    that loadFile() sets, and the list of obstacles that parse() appends to
    and getObstacles() hands out. */
module Parser {
  import opened Wrappers
  import opened Text
  import opened Patterns
  import opened Obstacles
  import opened Normalisation
  import opened Tokeniser
  import opened LineDecoding

  class SwedenObstacleParser {
    /** The name given to loadFile(); empty stands for Java's null. */
    var fileName: string
    /** The text of the PDF, already split into lines; None until loadFile(). */
    var textLines: Option<seq<string>>
    /** Every obstacle added by every parse() so far. */
    var obstacles: seq<Obstacle>

    /** Lines 18-20: an empty list and nothing loaded. */
    constructor()
      ensures fileName == [] && textLines == None && obstacles == []
    {
      fileName := [];
      textLines := None;
      obstacles := [];
    }

    /** Lines 22-29: remember the file name and the lines of its text. The
        text extraction is given as a parameter; the obstacles are kept. */
    method LoadFile(name: string, text: seq<string>)
      modifies this
      ensures fileName == name && textLines == Some(text) && obstacles == old(obstacles)
    {
      fileName := name;
      textLines := Some(text);
    }

    /** Lines 31-175. The obstacles decoded from the text are appended to
        those already held, line by line, until the first line that fails;
        the exception of that line is returned, and the obstacles appended
        before it stay. */
    method Parse() returns (failure: Option<ParseFailure>)
      modifies this`obstacles
      ensures fileName == old(fileName) && textLines == old(textLines)
      ensures old(textLines).None? ==> failure == Some(NullPointerException) && obstacles == old(obstacles)
      ensures old(textLines).Some? ==>
        var run := ParseLines(fileName, textLines.value);
        obstacles == old(obstacles) + run.records && failure == run.failure
    {
      if textLines.None? {
        return Some(NullPointerException);
      }
      var name := fileName;
      var lines := textLines.value;
      for i := 0 to |lines|
        invariant fileName == name && textLines == Some(lines)
        invariant ParseLines(name, lines[..i]).failure.None?
        invariant obstacles == old(obstacles) + ParseLines(name, lines[..i]).records
      {
        var line := lines[i];
        if FindCoordinates(line).Some? {
          var decoded := DecodeCandidate(line);
          DecodeLineOfTokens(line, Normalise(line), decoded);
          if decoded.Failure? {
            failure := Some(Raised(name, decoded.error));
            ParseLinesStopped(name, lines, i, decoded.error);
            return;
          }
          ParseLinesExtended(name, lines, i, old(obstacles), decoded.value);
          obstacles := obstacles + [decoded.value];
        } else {
          ParseLinesAfter(name, lines, i, Skipped);
        }
      }
      assert lines[..|lines|] == lines;
      failure := None;
    }

    /** Lines 55-170 for a line that holds a coordinate token: the line is
        cleaned up step by step and the fields are popped off its front one
        after the other; the first step that fails gives the failure. */
    method DecodeCandidate(raw: string) returns (r: Result<Obstacle, LineFailure>)
      ensures r == Tokenise(Normalise(raw))
    {
      var line := raw;
      line := CollapseSpaces(line);
      line := DropDotAfter(line, 'N');
      line := DropDotAfter(line, 'S');
      line := DropDotAfter(line, '\U{FFFD}');
      line := DropDotAfter(line, 'V');
      line := DropDotAfter(line, 'E');
      line := DropDotAfter(line, 'W');
      line := ReplaceFootnote(line);
      var area := FindArea(line);
      if area.Some? {
        line := line[area.value.end..];
      }
      line := Trim(line);
      ghost var normalised := line;
      assert normalised == Normalise(raw);
      var number := PopInteger(line, Number);
      if number.Failure? {
        TokeniseStopsAtNumber(normalised);
        return Failure(number.error);
      }
      line := number.value.rest;
      var designation := PopDesignation(line);
      if designation.Failure? {
        TokeniseStopsAtDesignation(normalised, number.value);
        return Failure(designation.error);
      }
      line := designation.value.rest;
      var position := PopCoordinates(line);
      if position.Failure? {
        TokeniseStopsAtPosition(normalised, number.value, designation.value);
        return Failure(position.error);
      }
      line := position.value.rest;
      var height := PopInteger(line, Height);
      if height.Failure? {
        TokeniseStopsAtHeight(normalised, number.value, designation.value, position.value);
        return Failure(height.error);
      }
      line := height.value.rest;
      var elevation := PopInteger(line, Elevation);
      if elevation.Failure? {
        TokeniseStopsAtElevation(normalised, number.value, designation.value, position.value, height.value);
        return Failure(elevation.error);
      }
      line := elevation.value.rest;
      var light := PopLight(line);
      if light.Failure? {
        TokeniseStopsAtLight(normalised, number.value, designation.value, position.value, height.value,
                             elevation.value);
        return Failure(light.error);
      }
      line := light.value.rest;
      var obstacleType := line;
      TokeniseOfSteps(normalised, number.value, designation.value, position.value, height.value,
                      elevation.value, light.value);
      r := Success(Obstacle(number.value.value, designation.value.value, position.value.value,
                            height.value.value, elevation.value.value, light.value.value, obstacleType));
    }

    /** Line 177-179: the obstacles held. */
    method GetObstacles() returns (r: seq<Obstacle>)
      ensures r == obstacles
    {
      r := obstacles;
    }
  }

  /** The run of a text whose line `i` is the first to fail. */
  lemma ParseLinesStopped(name: string, lines: seq<string>, i: nat, error: LineFailure)
    requires i < |lines| && ParseLines(name, lines[..i]).failure.None? && DecodeLine(lines[i]) == Failed(error)
    ensures ParseLines(name, lines) == Run(ParseLines(name, lines[..i]).records, Some(Raised(name, error)))
  {
    ParseLinesAfter(name, lines, i, Failed(error));
    ParseLinesAborted(name, lines, i + 1);
  }

  /** The records held after one more decoded line. */
  lemma ParseLinesExtended(name: string, lines: seq<string>, i: nat, held: seq<Obstacle>, obstacle: Obstacle)
    requires i < |lines| && ParseLines(name, lines[..i]).failure.None? && DecodeLine(lines[i]) == Decoded(obstacle)
    ensures ParseLines(name, lines[..i + 1]).failure.None?
    ensures (held + ParseLines(name, lines[..i]).records) + [obstacle] == held + ParseLines(name, lines[..i + 1]).records
  {
    ParseLinesAfter(name, lines, i, Decoded(obstacle));
    AppendAssociates(held, ParseLines(name, lines[..i]).records, obstacle);
  }

  /** Appending one record to the records held after those of earlier runs. */
  lemma AppendAssociates(held: seq<Obstacle>, records: seq<Obstacle>, obstacle: Obstacle)
    ensures (held + records) + [obstacle] == held + (records + [obstacle])
  {
  }
}
