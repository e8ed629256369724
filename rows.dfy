/**
 * The row parser of the poll: the sheet's CSV text is trimmed, split into
 * lines on "\n", and each line becomes a list of cells by a narrow
 * heuristic. A line matching the pattern ^[^,]*,\s*"([^"]*)" gives the
 * cells [timestamp, quoted contents]; any other line is split on every
 * comma and each cell trimmed.
 */
module Rows {
  import opened Wrappers
  import opened JsText

  /** The lines of the sheet: the whole text trimmed, then split on "\n". */
  function Lines(text: string): (r: seq<string>)
    ensures |r| >= 1
  {
    Split(Trim(text), '\n')
  }

  /** The first index at or after `from` holding `c` (String.prototype.indexOf). */
  function IndexOf(s: string, c: char, from: nat): (r: Option<nat>)
    ensures r.Some? ==> from <= r.value < |s| && s[r.value] == c
    ensures r.Some? ==> forall m :: from <= m < r.value ==> s[m] != c
    ensures r.None? ==> forall m :: from <= m < |s| ==> s[m] != c
    decreases |s| - from
  {
    if from >= |s| then None
    else if s[from] == c then Some(from)
    else IndexOf(s, c, from + 1)
  }

  /** The first index at or after `from` that is not whitespace (or |s|): the greedy \s*. */
  function SkipSpace(s: string, from: nat): (r: nat)
    requires from <= |s|
    ensures from <= r <= |s|
    ensures forall m :: from <= m < r ==> IsSpace(s[m])
    ensures r < |s| ==> !IsSpace(s[r])
    decreases |s| - from
  {
    if from < |s| && IsSpace(s[from]) then SkipSpace(s, from + 1) else from
  }

  /**
   * The line pattern ^[^,]*,\s*"([^"]*)" matched with the comma at i,
   * the opening quote at j and the closing quote at k; group 1 is
   * row[j + 1..k].
   */
  ghost predicate PatternAt(row: string, i: int, j: int, k: int)
  {
    && 0 <= i < j < k < |row|
    && (forall m :: 0 <= m < i ==> row[m] != ',')
    && row[i] == ','
    && (forall m :: i < m < j ==> IsSpace(row[m]))
    && row[j] == '"'
    && (forall m :: j < m < k ==> row[m] != '"')
    && row[k] == '"'
  }

  /** A match of the line pattern: where its first comma is, and what group 1 captured. */
  datatype Match = Match(comma: nat, answer: string)

  /** A scanner for the line pattern. */
  function MatchAnswer(row: string): (r: Option<Match>)
    ensures r.Some? ==> r.value.comma < |row|
  {
    match IndexOf(row, ',', 0)
    case None => None
    case Some(i) =>
      var j := SkipSpace(row, i + 1);
      if j < |row| && row[j] == '"' then
        match IndexOf(row, '"', j + 1)
        case None => None
        case Some(k) => Some(Match(i, row[j + 1..k]))
      else None
  }

  /** The scanner only reports genuine matches of the pattern. */
  lemma MatchSound(row: string)
    requires MatchAnswer(row).Some?
    ensures exists j, k :: PatternAt(row, MatchAnswer(row).value.comma, j, k)
                          && MatchAnswer(row).value.answer == row[j + 1..k]
  {
    var i := IndexOf(row, ',', 0).value;
    var j := SkipSpace(row, i + 1);
    var k := IndexOf(row, '"', j + 1).value;
    assert PatternAt(row, i, j, k);
  }

  /** Whenever the pattern matches, the scanner finds that match. */
  lemma MatchComplete(row: string, i: int, j: int, k: int)
    requires PatternAt(row, i, j, k)
    ensures MatchAnswer(row) == Some(Match(i, row[j + 1..k]))
  {
    assert IndexOf(row, ',', 0) == Some(i);
    assert SkipSpace(row, i + 1) == j;
    assert IndexOf(row, '"', j + 1) == Some(k);
  }

  /** A line without a match of the pattern is not recognised by the scanner. */
  lemma NoMatchComplete(row: string)
    requires forall i, j, k :: !PatternAt(row, i, j, k)
    ensures MatchAnswer(row).None?
  {
    if MatchAnswer(row).Some? {
      MatchSound(row);
    }
  }

  /** The cells of one line. */
  function ParseRow(row: string): seq<string>
  {
    match MatchAnswer(row)
    case Some(m) => [Trim(row[..m.comma]), m.answer]
    case None =>
      var fields := Split(row, ',');
      seq(|fields|, n requires 0 <= n < |fields| => Trim(fields[n]))
  }

  /** The cell lists of every line of the sheet, header included. */
  function ParseRows(text: string): (rows: seq<seq<string>>)
    ensures |rows| == |Lines(text)|
  {
    var lines := Lines(text);
    seq(|lines|, n requires 0 <= n < |lines| => ParseRow(lines[n]))
  }

  /**
   * A line matching the pattern has exactly two cells, the trimmed text
   * before the first comma and the text between the quotes, whatever
   * commas that text holds.
   */
  lemma QuotedAnswerCell(row: string, i: int, j: int, k: int)
    requires PatternAt(row, i, j, k)
    ensures ParseRow(row) == [Trim(row[..i]), row[j + 1..k]]
  {
    MatchComplete(row, i, j, k);
  }

  /**
   * A line not matching the pattern has one cell per comma-separated
   * field, each trimmed: cell 1 is the second field, trimmed.
   */
  lemma UnquotedCells(row: string)
    requires forall i, j, k :: !PatternAt(row, i, j, k)
    ensures |ParseRow(row)| == |Split(row, ',')|
    ensures forall n :: 0 <= n < |ParseRow(row)| ==> ParseRow(row)[n] == Trim(Split(row, ',')[n])
  {
    NoMatchComplete(row);
  }

  /** A text that is empty once trimmed is a single empty line: a header and no data. */
  lemma BlankTextIsHeaderOnly(text: string)
    requires Trim(text) == ""
    ensures ParseRows(text) == [[""]]
  {
    assert Lines(text) == [""];
    assert MatchAnswer("") == None;
    assert Split("", ',') == [""];
    assert ParseRow("") == [Trim("")];
    assert ParseRows(text)[0] == ParseRow("");
  }
}
