/** The line-to-row step of `extract_dataset`: every decompressed line is
    stripped of surrounding whitespace and split on commas, and the fields
    become one row of the normalised CSV file. */
module Extraction {
  import opened Text

  const Delimiter: char := ','

  /** `line.strip().split(",")`. */
  function SplitRow(line: string): (row: seq<string>)
    ensures |row| >= 1
  {
    Split(Strip(line), Delimiter)
  }

  /** A row has one more field than its stripped line has commas, no field
      holds a comma, and joining the fields with commas gives back the
      stripped line. */
  lemma SplitRowRoundTrip(line: string)
    ensures |SplitRow(line)| == CountChar(Strip(line), Delimiter) + 1
    ensures forall k :: 0 <= k < |SplitRow(line)| ==> Delimiter !in SplitRow(line)[k]
    ensures Join(SplitRow(line), Delimiter) == Strip(line)
  {
    SplitShape(Strip(line), Delimiter);
    JoinSplit(Strip(line), Delimiter);
  }

  /** The extraction loop: one row per input line, in input order. */
  method ExtractRows(lines: seq<string>) returns (rows: seq<seq<string>>)
    ensures |rows| == |lines|
    ensures forall i :: 0 <= i < |rows| ==> rows[i] == SplitRow(lines[i])
    ensures forall i :: 0 <= i < |rows| ==>
              |rows[i]| == CountChar(Strip(lines[i]), Delimiter) + 1 &&
              Join(rows[i], Delimiter) == Strip(lines[i])
  {
    rows := [];
    var i := 0;
    while i < |lines|
      invariant 0 <= i <= |lines|
      invariant |rows| == i
      invariant forall k :: 0 <= k < i ==> rows[k] == SplitRow(lines[k])
    {
      rows := rows + [SplitRow(lines[i])];
      i := i + 1;
    }
    forall k | 0 <= k < |rows|
      ensures |rows[k]| == CountChar(Strip(lines[k]), Delimiter) + 1
      ensures Join(rows[k], Delimiter) == Strip(lines[k])
    {
      SplitRowRoundTrip(lines[k]);
    }
  }
}
