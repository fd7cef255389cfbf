# Sweden obstacle parser

A Dafny model of `SwedenObstacleParser`, the class of aip-sweden that reads
the text of the Swedish AIP obstacle list and turns it into `Obstacle`
records. The model follows `parse()` line by line:

- a line with no coordinate token is skipped;
- every other line is normalised: whitespace runs collapse to one space, a
  period after `N`, `S`, the replacement character, `V`, `E` or `W` is
  dropped, the first `(*)` between two whitespace characters becomes one space, everything up to the end of the first area token is cut off, wherever that token stands,
  and the line is trimmed;
- the fields are then popped off the front of the line one after another:
  number, designation, coordinates, height, elevation and light. Whatever
  remains is the obstacle type;
- the coordinate token is decoded in its two layouts, 16 characters (whole
  seconds) and 20 characters (seconds with a tenth), into signed degrees;
- a missing field throws `ParseException(fileName)` through `fail()`. A
  `String.substring` out of range or a `Float.valueOf` on a bad number throws
  the runtime exception instead. The records added before the failing line
  stay in the list;
- `getObstacles()` returns the records collected so far.

Layout:

| file | module | what it holds |
|---|---|---|
| `wrappers.dfy` | `Wrappers` | `Option` and `Result` |
| `text.dfy` | `Text` | the character classes of `\d`, `\s` and `trim()`, digit values, `trim()` |
| `patterns.dfy` | `Patterns` | each regular expression of `parse()`: its language as a predicate, and a matcher proved to behave like `Matcher.find()` (leftmost start, longest match) |
| `obstacle.dfy` | `Obstacles` | `Obstacle`, `Coordinates`, the ways a line can fail, `String.substring` |
| `normalise.dfy` | `Normalisation` | the clean-up of lines 56-72 |
| `coordinates.dfy` | `CoordinateDecoding` | lines 102-139, with exact reals for `float` |
| `tokeniser.dfy` | `Tokeniser` | the pops of lines 74-170 |
| `lines.dfy` | `LineDecoding` | one line's outcome, and the run over all lines as a function of the text |
| `parser.dfy` | `Parser` | the class, with `parse()` as a loop over the lines that changes only `obstacles` |
| `rows.dfy` | `PrintedRows` | the printed rows that are already in normal form, so the clean-up leaves them unchanged |

Each imperative method is proved against the functions of `LineDecoding`.
`Parse` ends with `obstacles == old(obstacles) + ParseLines(fileName, text).records`
and returns the run's exception. The properties of the run are lemmas about
`ParseLines`.

## Model

| member | source | states |
|---|---|---|
| `Patterns.FindDigits` | src/se/cryodev/aip/SwedenObstacleParser.java:35 | `find()` for `\d{1,5}`: none exactly when the text holds no digit run; otherwise the leftmost run, taken as long as five digits allow |
| `Patterns.FindCoordinates` | src/se/cryodev/aip/SwedenObstacleParser.java:53-54 | `find()` for the coordinate pattern: none exactly when no slice is a coordinate token; otherwise the leftmost token, whose end is the only one possible at that start |
| `Patterns.CoordinatesEndExact` | src/se/cryodev/aip/SwedenObstacleParser.java:37 | the hand-written matcher ends at `e` exactly when `s[i..e]` is a latitude, whitespace and a longitude |
| `Patterns.LatitudeEndExact` | src/se/cryodev/aip/SwedenObstacleParser.java:36 | the latitude matcher ends at `e` exactly when `s[i..e]` is in the language of `\d{6}\.?\d?[NS]` |
| `Patterns.FindArea` | src/se/cryodev/aip/SwedenObstacleParser.java:67-68 | `find()` for the area pattern: none exactly when no area token exists; otherwise the leftmost one and its unique end |
| `Patterns.FindFootnoteFrom` | src/se/cryodev/aip/SwedenObstacleParser.java:63 | the first place, at or after the start, where a whitespace character, `(*)` and a whitespace character follow each other |
| `Patterns.FindDesignation` | src/se/cryodev/aip/SwedenObstacleParser.java:84-85 | `find()` for `.*\d{6}\.?\d?[NS]`: none exactly when no latitude exists. Otherwise the match starts at the start of a line segment, no latitude starts before it, and it ends with the last latitude of that segment (greedy `.*`, where `.` stops at line terminators) |
| `Patterns.SegmentMatch` | src/se/cryodev/aip/SwedenObstacleParser.java:36 | the greedy match in the segment of the first latitude: it ends with a latitude and no later latitude starts in that segment |
| `Patterns.FindLight` | src/se/cryodev/aip/SwedenObstacleParser.java:162-163 | `find()` for `[FLRGW/\s-]*\s`: none exactly when no such text exists; otherwise the leftmost and longest one |
| `Patterns.LightEndExact` | src/se/cryodev/aip/SwedenObstacleParser.java:40 | the light matcher returns the longest text of the light pattern at a start |
| `Text.TrimSlice` | src/se/cryodev/aip/SwedenObstacleParser.java:72 | `trim()` keeps one slice of the line, which begins and ends with a kept character, and drops only characters up to U+0020 around it |
| `Text.TrimKeeps` | src/se/cryodev/aip/SwedenObstacleParser.java:72 | `trim()` leaves a line that begins and ends with a kept character unchanged |
| `Text.DigitsValueBound` | src/se/cryodev/aip/SwedenObstacleParser.java:79 | `n` digits read with `Integer.valueOf` give a value below 10^n, so five digits never overflow an `int` |
| `Text.NatToString` | src/se/cryodev/aip/SwedenObstacleParser.java:79 | the printed form of a number is a digit run that `Integer.valueOf` reads back as that number |
| `Normalisation.CollapseSpacesCollapsed` | src/se/cryodev/aip/SwedenObstacleParser.java:56 | after `replaceAll("\\s+", " ")` every whitespace character is a single space and is not followed by whitespace |
| `Normalisation.CollapseSpacesKeepsText` | src/se/cryodev/aip/SwedenObstacleParser.java:56 | the characters that are not whitespace are kept, in order |
| `Normalisation.CollapseSpacesSplit` | src/se/cryodev/aip/SwedenObstacleParser.java:56 | a maximal whitespace run between text that does not end and text that does not begin with whitespace becomes exactly one space, and the two sides are collapsed on their own |
| `Normalisation.CollapseSpacesIdentity` | src/se/cryodev/aip/SwedenObstacleParser.java:56 | a line that is already collapsed is left unchanged, so collapsing twice is collapsing once |
| `Normalisation.DropDotAfterRemovesOnlyDots` | src/se/cryodev/aip/SwedenObstacleParser.java:57 | `replaceAll("N\\.", "N")` removes periods and nothing else |
| `Normalisation.DropDotAfterIdentity` | src/se/cryodev/aip/SwedenObstacleParser.java:57 | a line with no such pair is left unchanged |
| `Normalisation.DropDotAfterSinglePass` | src/se/cryodev/aip/SwedenObstacleParser.java:57 | one pass of `replaceAll` does not rescan its output: `N..` becomes `N.` |
| `Normalisation.DropDotAfterMarked` | src/se/cryodev/aip/SwedenObstacleParser.java:57 | one pass of `replaceAll("N\\.", "N")` drops exactly the periods whose left neighbour in the line as it was is the letter, and keeps every other character in order |
| `Normalisation.DropDotsRemovesOnlyDots` | src/se/cryodev/aip/SwedenObstacleParser.java:57-62 | the six passes together remove periods and nothing else |
| `Normalisation.DropDotsIdentity` | src/se/cryodev/aip/SwedenObstacleParser.java:57-62 | a line with no period after any of the six letters is left unchanged |
| `Normalisation.DropDotsMarked` | src/se/cryodev/aip/SwedenObstacleParser.java:57-62 | the six passes together drop exactly the periods whose left neighbour in the line as it was is one of the six letters, and keep every other character in order |
| `Normalisation.ReplaceFootnote` | src/se/cryodev/aip/SwedenObstacleParser.java:63 | `replaceFirst`: with no marker the line is unchanged; otherwise the first marker's five characters become one space and the rest of the line is kept |
| `Normalisation.StripArea` | src/se/cryodev/aip/SwedenObstacleParser.java:67-69 | with no area token the line is unchanged; otherwise everything up to the end of the first area token is cut |
| `Normalisation.NormaliseIdentity` | src/se/cryodev/aip/SwedenObstacleParser.java:56-72 | a line already in normal form passes the whole clean-up unchanged |
| `Normalisation.JoinNormal` | src/se/cryodev/aip/SwedenObstacleParser.java:56-72 | two texts in normal form joined by one space are in normal form when no footnote marker or area token forms across the space |
| `CoordinateDecoding.SliceValue` | src/se/cryodev/aip/SwedenObstacleParser.java:105-128 | a `substring` beyond the token's end fails with `StringIndexOutOfBoundsException`, and no decoding failure is a missing field |
| `CoordinateDecoding.DecodeCoordinates` | src/se/cryodev/aip/SwedenObstacleParser.java:102-139 | decoding never reports a missing field (what it computes is stated by the rows below) |
| `CoordinateDecoding.DecodeWholeSeconds` | src/se/cryodev/aip/SwedenObstacleParser.java:103-119 | the 16-character layout reports only runtime exceptions |
| `CoordinateDecoding.DecodeTenths` | src/se/cryodev/aip/SwedenObstacleParser.java:120-137 | the 20-character layout reports only runtime exceptions |
| `CoordinateDecoding.DecodeWholeSecondsValue` | src/se/cryodev/aip/SwedenObstacleParser.java:103-119 | a 16-character token with digits in its fields decodes to latitude `d + m/60 + s/3600` read from characters 0-2, 2-4 and 4-6, negated when character 6 is `S`, and longitude from 8-11, 11-13 and 13-15, negated when character 15 is `W` |
| `CoordinateDecoding.DecodeTenthsValue` | src/se/cryodev/aip/SwedenObstacleParser.java:120-137 | any other token of at least 20 characters with digits in its fields decodes to latitude from characters 0-2, 2-4 and the seconds `ss.t` of 4-8, negated when character 8 is `S`, and longitude from 10-13, 13-15 and 15-19, negated when character 19 is `W` |
| `CoordinateDecoding.ParseDigits` | src/se/cryodev/aip/SwedenObstacleParser.java:105 | `Float.valueOf` of a run of digits is the number they denote |
| `CoordinateDecoding.ParseDigitsWithTenth` | src/se/cryodev/aip/SwedenObstacleParser.java:124 | `Float.valueOf` of digits, a period and one digit is the digits' number plus a tenth of the last digit |
| `CoordinateDecoding.DecodeOnlyTwoLayouts` | src/se/cryodev/aip/SwedenObstacleParser.java:120-128 | a token shorter than 20 characters that is not 16 long fails |
| `CoordinateDecoding.ParseSeconds` | src/se/cryodev/aip/SwedenObstacleParser.java:124 | printed seconds, with or without a tenth, read back as their value |
| `CoordinateDecoding.DecodePrinted` | src/se/cryodev/aip/SwedenObstacleParser.java:102-139 | a printed position decodes back to the signed degrees it denotes, in both layouts and all four hemispheres |
| `CoordinateDecoding.PrintedIsCoordinateToken` | src/se/cryodev/aip/SwedenObstacleParser.java:37 | a printed position is a coordinate token, made of a latitude and a longitude |
| `CoordinateDecoding.DecodeExampleNorthEast` | src/se/cryodev/aip/SwedenObstacleParser.java:104-114 | `551212N 0131212E` decodes to 55°12'12" north, 13°12'12" east |
| `CoordinateDecoding.DecodeExampleSouthWest` | src/se/cryodev/aip/SwedenObstacleParser.java:116-119 | `551212S 0131212W` decodes to the negated values |
| `CoordinateDecoding.DecodeExampleTenths` | src/se/cryodev/aip/SwedenObstacleParser.java:121-131 | `551212.5N 0131212.5E` decodes with 12.5 seconds |
| `Tokeniser.PopInteger` | src/se/cryodev/aip/SwedenObstacleParser.java:75-81 | a pop fails only with a missing field or an index out of range; the value is at most 99999 and the line gets shorter |
| `Tokeniser.PopIntegerNoMatch` | src/se/cryodev/aip/SwedenObstacleParser.java:76-81 | the field is missing exactly when the line holds no digit |
| `Tokeniser.PopIntegerTakesFirstRun` | src/se/cryodev/aip/SwedenObstacleParser.java:75-79 | the value is the first run of up to five digits, and the line becomes `line[len + 1..]`, wherever the run started |
| `Tokeniser.PopIntegerPrinted` | src/se/cryodev/aip/SwedenObstacleParser.java:75-79 | a number below 100000 printed before a space pops back as itself, leaving what follows the space |
| `Tokeniser.PopDesignationAsWritten` | src/se/cryodev/aip/SwedenObstacleParser.java:84-94 | the step as written fails only with a missing designation or an index out of range |
| `Tokeniser.PopDesignation` | src/se/cryodev/aip/SwedenObstacleParser.java:84-94 | the corrected step fails only with a missing designation or an index out of range |
| `Tokeniser.CutDesignation` | src/se/cryodev/aip/SwedenObstacleParser.java:86-92 | cutting fails exactly when the match is shorter than the cut; otherwise the designation is the match without its last `cut` characters and the line loses the designation's length plus one |
| `Tokeniser.PopDesignationNoMatch` | src/se/cryodev/aip/SwedenObstacleParser.java:84-94 | the designation is missing exactly when no latitude stands anywhere in the line, both as written and corrected |
| `Tokeniser.PopDesignationPrinted` | src/se/cryodev/aip/SwedenObstacleParser.java:84-92 | the corrected step pops a designation, a space and a latitude back as the designation, leaving the latitude and the rest |
| `Tokeniser.PopDesignationAsWrittenAgrees` | src/se/cryodev/aip/SwedenObstacleParser.java:88-91 | as written and corrected agree when the designation holds no `.` and the latitude is 7 or 9 characters long |
| `Tokeniser.LatitudePeriod` | src/se/cryodev/aip/SwedenObstacleParser.java:88 | a 7-character latitude holds no `.` and a 9-character one does |
| `Tokeniser.PopDesignationAsWrittenDropsTwo` | src/se/cryodev/aip/SwedenObstacleParser.java:88-92 | as written, a designation with a `.` before a whole-seconds latitude loses its last two characters, and the last one is left at the front of the line |
| `Tokeniser.DesignationWithPeriod` | src/se/cryodev/aip/SwedenObstacleParser.java:88-92 | as written, `ST. PETRI 551212N 0131212E` gives designation `ST. PET` and leaves `I 551212N 0131212E` |
| `Tokeniser.DesignationWithPeriodCorrected` | src/se/cryodev/aip/SwedenObstacleParser.java:84-92 | corrected, the same line gives `ST. PETRI` and leaves `551212N 0131212E` |
| `Tokeniser.PopCoordinates` | src/se/cryodev/aip/SwedenObstacleParser.java:97-100 | a successful pop makes the line shorter |
| `Tokeniser.PopCoordinatesNoMatch` | src/se/cryodev/aip/SwedenObstacleParser.java:97-141 | the position is missing exactly when the line holds no coordinate token; decoding failures are never reported as missing |
| `Tokeniser.PopCoordinatesTakesFirstMatch` | src/se/cryodev/aip/SwedenObstacleParser.java:97-141 | for the leftmost coordinate token `line[i..e]`: an index out of range when `e - i + 1` exceeds the line, otherwise its decoding failure, or its value with the line cut by the token's length plus one from the front, wherever the token started |
| `Tokeniser.PopCoordinatesAfterWord` | src/se/cryodev/aip/SwedenObstacleParser.java:97-100 | a printed position after a word without digits is decoded, yet the cut of its length plus one is taken from the front of the line; with nothing around it the cut runs out of range |
| `Tokeniser.PopCoordinatesPrinted` | src/se/cryodev/aip/SwedenObstacleParser.java:97-139 | a printed position before a space pops back as its signed degrees, leaving what follows the space |
| `Tokeniser.PopLight` | src/se/cryodev/aip/SwedenObstacleParser.java:162-167 | the only failure is a missing light, and a successful pop makes the line shorter |
| `Tokeniser.PopLightNoMatch` | src/se/cryodev/aip/SwedenObstacleParser.java:163-167 | the light is missing exactly when the line holds no whitespace |
| `Tokeniser.PopLightTakesFirstMatch` | src/se/cryodev/aip/SwedenObstacleParser.java:162-165 | the light is the leftmost, longest match without its final space, and the line loses the light's length plus one |
| `Tokeniser.PopLightPrinted` | src/se/cryodev/aip/SwedenObstacleParser.java:162-170 | light characters, a space and a type that does not start with a light character pop back as that light, leaving the type |
| `Tokeniser.PopLightWithoutLight` | src/se/cryodev/aip/SwedenObstacleParser.java:162-170 | when the line left for the light starts with a word without whitespace that does not end in a light character, the leftmost match is the space after that word, so the light comes out empty and the line loses only its first character |
| `Tokeniser.PopLightWindTurbine` | src/se/cryodev/aip/SwedenObstacleParser.java:162-170 | `WIND TURBINE` gives an empty light and leaves `IND TURBINE` |
| `Tokeniser.Tokenise` | src/se/cryodev/aip/SwedenObstacleParser.java:74-172 | with the corrected designation step, every decoded number, height and elevation is at most 99999 |
| `Tokeniser.TokenisePrinted` | src/se/cryodev/aip/SwedenObstacleParser.java:74-172 | with the corrected designation step, a printed row tokenises back to the obstacle it describes |
| `Tokeniser.PrintedDesignation` | src/se/cryodev/aip/SwedenObstacleParser.java:84-92 | in a printed row the designation pops back as itself, leaving the position and what follows |
| `Tokeniser.TokeniseAsWritten` | src/se/cryodev/aip/SwedenObstacleParser.java:74-172 | `parse()`'s pops as written: every decoded number, height and elevation is at most 99999 |
| `Tokeniser.TokeniseFields` | src/se/cryodev/aip/SwedenObstacleParser.java:97-172 | after the number and the designation, the obstacle carries exactly that number and designation, and its height and elevation are at most 99999 |
| `Tokeniser.TokeniseAsWrittenAgrees` | src/se/cryodev/aip/SwedenObstacleParser.java:84-94 | the pops as written and corrected give the same outcome on every line where the two designation steps agree |
| `Tokeniser.TokeniseAsWrittenPrinted` | src/se/cryodev/aip/SwedenObstacleParser.java:74-172 | as written, a printed row whose designation holds no `.` tokenises back to the obstacle it describes |
| `Tokeniser.PrintedDesignationAsWritten` | src/se/cryodev/aip/SwedenObstacleParser.java:88-92 | as written, a printed designation with a `.` before a whole-seconds latitude pops as the designation without its last two characters |
| `Tokeniser.TokeniseAsWrittenDesignation` | src/se/cryodev/aip/SwedenObstacleParser.java:84-172 | as written, a decoded obstacle carries the designation the as-written step popped |
| `Tokeniser.TokeniseAsWrittenLosesDesignation` | src/se/cryodev/aip/SwedenObstacleParser.java:88-92 | as written, a printed row with a `.` in its designation and a whole-seconds latitude never tokenises back to its obstacle: the designation loses its last two characters or the line fails |
| `LineDecoding.Raised` | src/se/cryodev/aip/SwedenObstacleParser.java:181-183 | `fail()` throws `ParseException(fileName)` exactly for a missing field; a substring out of range and a bad number pass through as their own exceptions |
| `LineDecoding.DecodeLine` | src/se/cryodev/aip/SwedenObstacleParser.java:53-172 | a line is skipped exactly when it holds no coordinate token; otherwise its outcome is the tokenising of its normal form with the corrected designation step, and its numbers are at most 99999 |
| `LineDecoding.DecodePrintedLine` | src/se/cryodev/aip/SwedenObstacleParser.java:53-172 | a raw line with a coordinate token whose normal form is a printed row decodes to that row's obstacle |
| `LineDecoding.DecodeNormalRow` | src/se/cryodev/aip/SwedenObstacleParser.java:53-172 | a printed row in normal form, with a non-empty light, decodes as a raw line to the obstacle it describes |
| `PrintedRows.FormatRowNormal` | src/se/cryodev/aip/SwedenObstacleParser.java:56-72 | a printed row whose fields are in normal form and whose light is not empty is its own normal form, so the clean-up leaves it unchanged |
| `LineDecoding.ParseLinesNext` | src/se/cryodev/aip/SwedenObstacleParser.java:51-174 | the run over one more line is one more step of the loop |
| `LineDecoding.ParseLinesAfter` | src/se/cryodev/aip/SwedenObstacleParser.java:51-174 | while no line has failed: a skipped line changes nothing, a decoded one appends one record, a failing one raises its exception |
| `LineDecoding.SkippedLineChangesNothing` | src/se/cryodev/aip/SwedenObstacleParser.java:53-54 | a line without a coordinate token leaves the records and the outcome as they were |
| `LineDecoding.DecodedLineAppends` | src/se/cryodev/aip/SwedenObstacleParser.java:172 | a decoded line appends exactly its obstacle, after the earlier records, which stay as they were |
| `LineDecoding.FailedLineThrows` | src/se/cryodev/aip/SwedenObstacleParser.java:181-183 | a failing line keeps the earlier records and raises its exception; for a missing field that is `ParseException(fileName)` |
| `LineDecoding.ParseLinesAborted` | src/se/cryodev/aip/SwedenObstacleParser.java:31-175 | once a line has failed, the lines after it change nothing |
| `LineDecoding.ParseLinesGrows` | src/se/cryodev/aip/SwedenObstacleParser.java:172 | the records of a prefix of the text are a prefix of the records of the whole text |
| `LineDecoding.ParseLinesBounded` | src/se/cryodev/aip/SwedenObstacleParser.java:79-172 | a text gives at most one record per line, and every number, height and elevation is at most 99999 |
| `LineDecoding.ParseLinesMeaning` | src/se/cryodev/aip/SwedenObstacleParser.java:51-175 | the records are those of the decoded lines before the first failing line, in order, and the exception is that line's; with no failing line they are those of all decoded lines |
| `LineDecoding.FirstFailed` | src/se/cryodev/aip/SwedenObstacleParser.java:51-174 | the first failing line: it failed and no line before it did, or no line failed |
| `Parser.SwedenObstacleParser.constructor` | src/se/cryodev/aip/SwedenObstacleParser.java:18-20 | a new parser holds no obstacles and no text |
| `Parser.SwedenObstacleParser.LoadFile` | src/se/cryodev/aip/SwedenObstacleParser.java:22-29 | the file name and its text are stored and the obstacles kept |
| `Parser.SwedenObstacleParser.Parse` | src/se/cryodev/aip/SwedenObstacleParser.java:31-175 | the records of the text are appended to the obstacles held, the run's exception is returned, and without a loaded text a `NullPointerException` leaves the obstacles as they were |
| `Parser.SwedenObstacleParser.DecodeCandidate` | src/se/cryodev/aip/SwedenObstacleParser.java:55-172 | the step-by-step clean-up and pops of one line, with the corrected designation step, give exactly the tokenising of its normal form |
| `Parser.SwedenObstacleParser.GetObstacles` | src/se/cryodev/aip/SwedenObstacleParser.java:177-179 | the obstacles held |
| `Parser.ParseLinesStopped` | src/se/cryodev/aip/SwedenObstacleParser.java:181-183 | the run of a text whose line `i` is the first to fail is the records before it with that line's exception |
| `Parser.ParseLinesExtended` | src/se/cryodev/aip/SwedenObstacleParser.java:172 | appending one decoded line's obstacle to the list gives the held obstacles followed by the records of one more line |

## Left out

- `loadFile` reads a PDF with PDFBox and prints a message. `LoadFile` takes the extracted text as a parameter instead.
- `parse()` splits the text at `System.lineSeparator()`. The model takes the text already split into lines. A line can still hold other line terminators, and the designation pattern treats them as Java does.
- The `System.out.println` calls are left out.
- `float` arithmetic is modelled with exact reals, so rounding to single precision is not modelled.
- The general `java.util.regex` engine is not modelled. Each of the seven patterns has its own matcher, proved against a predicate of the pattern's language.
- `Obstacle`, `WGS84Coordinates`, `ObstacleParser` and `ParseException` are not part of this model. The first two are datatypes here, `ParseException` is a failure value, and the interface has no counterpart.
- A `fileName` of `null` (a `parse()` before any `loadFile()`) is modelled as the empty string. The text of such a parser is `None`, and `Parse` reports the `NullPointerException` of line 33.
- The letter of line 59 reaches this model as U+FFFD, most likely a mis-encoded letter, and is modelled as U+FFFD.
- `GetObstacles` returns the sequence, not the list object, so a caller that mutates the returned list is not modelled.
- `DecodeCandidate` is a helper method that holds the loop body of lines 55-172 for one line. `Parse` calls it for each line with a coordinate token.
- `Parse`, `DecodeCandidate`, `DecodeLine`, `DecodePrintedLine`, `DecodeNormalRow`, `ParseLinesMeaning`, `Tokenise`, `TokenisePrinted` and `PrintedDesignation` run the corrected designation step from "## Findings", not the step of lines 88-92 as written. The pops as written are `Tokeniser.TokeniseAsWritten`. `TokeniseAsWrittenAgrees` shows that the two agree wherever the two designation steps agree, and `TokeniseAsWrittenPrinted` shows this for every printed row whose designation holds no `.`.
- `DecodeLine`: its outcome is stated for the corrected designation step, as the line above says.
- `DecodeCandidate`: holds of the corrected designation step, as the line above says.
- `DecodePrintedLine`: holds of the corrected designation step, as the line above says.
- `DecodeNormalRow`: holds of the corrected designation step, as the line above says.
- `ParseLinesMeaning`: holds of the corrected designation step, as the line above says.
- `Tokenise`: its own contract states only the bounds of the numbers. The obstacle is stated by `TokenisePrinted` for printed rows and by `TokeniseFields` for the fields after the designation.
- `TokeniseAsWritten`: its own contract states only the bounds of the numbers. The obstacle is stated by `TokeniseAsWrittenPrinted` for printed rows whose designation holds no `.`, by `TokeniseAsWrittenDesignation` for the designation, and by `TokeniseFields`, which it runs for the fields after the designation.
- `TokenisePrinted`, `PrintedDesignation`: both hold of the corrected step. As written, a `.` in the designation costs it two more characters (`TokeniseAsWrittenLosesDesignation`).
- `CoordinateDecoding.DecodeCoordinates`: its own contract states only that it never reports a missing field. The angles it computes are stated by `DecodeWholeSecondsValue`, `DecodeTenthsValue` and `DecodePrinted`.
- `DecodeWholeSeconds`: its own contract states only that it reports runtime exceptions. Its angles are stated by `DecodeWholeSecondsValue`.
- `DecodeTenths`: its own contract states only that it reports runtime exceptions. Its angles are stated by `DecodeTenthsValue`.
- `FloatValue`: `ParseDecimal` reads digits with at most one period, after trimming. `Float.valueOf` also accepts signs, exponents, `NaN`, `Infinity`, the `f`/`d` suffixes and hexadecimal numbers, which the model rejects with `NumberFormatException`. The slices `parse()` reads from a coordinate token hold only digits and periods, so they never contain any of these.
- `PopDesignationAsWritten`: its own contract states only its failures. The cut is stated by `CutDesignation`, the missing field by `PopDesignationNoMatch`, and its effect on printed designations by `PopDesignationAsWrittenAgrees` and `PopDesignationAsWrittenDropsTwo`.
- `PopDesignation`: its own contract states only its failures. The cut is stated by `CutDesignation`, and the value for a printed designation by `PopDesignationPrinted`.
- `Tokeniser.PopCoordinates`: its own contract states only that the line gets shorter. The value and the cut are stated by `PopCoordinatesTakesFirstMatch`, and the missing field by `PopCoordinatesNoMatch`.
- `CollapseSpacesKeepsText`: states only that the text between the whitespace is kept. That each whitespace run becomes exactly one space is stated by `CollapseSpacesSplit`.
- `DropDotAfterRemovesOnlyDots`: states only that periods and nothing else are removed. Which periods are removed is stated by `DropDotAfterMarked`.
- `DropDotsRemovesOnlyDots`: states only that periods and nothing else are removed. Which periods are removed is stated by `DropDotsMarked`.
- Java's `length()` and `substring` count UTF-16 code units, while a Dafny `char` is a Unicode scalar value. A character outside the Basic Multilingual Plane counts twice in Java and once here, which shifts the cuts of the source but not those of the model.
- An empty light is printed with two spaces in a row, which the clean-up never leaves, so `FormatRowNormal` and `DecodeNormalRow` require a non-empty light. What `parse()` does with a line without a light is stated by `PopLightWithoutLight` and `PopLightWindTurbine`: the light comes out empty and the type loses its first character, or the pop fails when no whitespace is left. No corrected light step is modelled, because the table gives no way to tell an empty light from a type word.

## Findings

| source | as written | input that shows it | evidently intended | confidence | as-written member | corrected member |
|---|---|---|---|---|---|---|
| src/se/cryodev/aip/SwedenObstacleParser.java:88-92 | the designation is cut by 10 characters when the whole match holds a `.`, anywhere, including in the designation itself | `ST. PETRI 551212N 0131212E`: the designation becomes `ST. PET`, the `R` is lost and `I 551212N 0131212E` is left, so the `I` stays in front of the coordinates | cut the latitude and its space, 8 characters for whole seconds and 10 with a tenth, whatever the designation holds | not executed | `Tokeniser.DesignationWithPeriod` | `Tokeniser.DesignationWithPeriodCorrected` |
