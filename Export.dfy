/** The export loop of `export_with_python_docx`: the converted text is cut
    into lines, blank lines are skipped, runs of table-row lines become a
    table, and every other line becomes a paragraph. */
module Export {
  import opened Text
  import opened Formulas
  import opened Tables

  // ---- Classifying a stripped line ----

  /** The table-row test: the line holds a `|` and splits into more than two
      parts. */
  predicate IsTableRow(line: string) {
    '|' in line && |Split(line, '|')| > 2
  }

  /** The separator pattern `^\s*\|[\s\-\:]*\|\s*$` applied to a stripped
      line: a `|`, then only whitespace, `-` and `:`, then a closing `|`
      that ends the line. */
  predicate IsSeparator(line: string) {
    |line| >= 2 && line[0] == '|' && line[|line| - 1] == '|'
    && forall k :: 1 <= k < |line| - 1 ==> IsSpace(line[k]) || line[k] == '-' || line[k] == ':'
  }

  /** A line is a table row exactly when it holds at least two `|`. */
  lemma {:induction false} TableRowIffTwoPipes(line: string)
    ensures IsTableRow(line) <==> Count(line, '|') >= 2
  {
    CountZero(line, '|');
  }

  /** A separator holds exactly two `|`, so it is also a table row. */
  lemma {:induction false} SeparatorHasTwoPipes(line: string)
    requires IsSeparator(line)
    ensures Count(line, '|') == 2 && IsTableRow(line)
  {
    var n := |line|;
    var mid := line[1..n - 1];
    assert '|' !in mid by {
      forall k | 0 <= k < |mid|
        ensures mid[k] != '|'
      {
        assert mid[k] == line[k + 1];
      }
    }
    CountZero(mid, '|');
    assert line == [line[0]] + mid + [line[n - 1]];
    CountConcat([line[0]] + mid, [line[n - 1]], '|');
    CountConcat([line[0]], mid, '|');
    TableRowIffTwoPipes(line);
  }

  // ---- Runs of table lines ----

  /** End of the run of table-row lines that starts at `i`: every line
      before it is a row once stripped, and the line at it, if any, is not. */
  function RunEnd(lines: seq<string>, i: nat): (j: nat)
    requires i <= |lines|
    ensures i <= j <= |lines|
    ensures forall k :: i <= k < j ==> IsTableRow(Strip(lines[k]))
    ensures j == |lines| || !IsTableRow(Strip(lines[j]))
    decreases |lines| - i
  {
    if i == |lines| || !IsTableRow(Strip(lines[i])) then i else RunEnd(lines, i + 1)
  }

  /** `table_lines` after the run has been walked from `i` up to `j`: the
      stripped lines that are not separators, in order. */
  function RunData(lines: seq<string>, i: nat, j: nat): seq<string>
    requires i <= j <= |lines|
    decreases j - i
  {
    if j == i then []
    else
      var prev := RunData(lines, i, j - 1);
      var current := Strip(lines[j - 1]);
      if IsSeparator(current) then prev else prev + [current]
  }

  /** The blocks the export loop emits from line `i` on. */
  function SegmentFrom(lines: seq<string>, i: nat): seq<Block>
    requires i <= |lines|
    decreases |lines| - i
  {
    if i == |lines| then []
    else
      var line := Strip(lines[i]);
      if line == "" then SegmentFrom(lines, i + 1)
      else if IsTableRow(line) then
        var j := RunEnd(lines, i);
        var tableLines := RunData(lines, i, j);
        if tableLines != [] then TableBlocks(tableLines) + SegmentFrom(lines, j)
        else [Paragraph(line)] + SegmentFrom(lines, i + 1)
      else [Paragraph(line)] + SegmentFrom(lines, i + 1)
  }

  /** The blocks exported for a converted text. */
  function Segment(text: string): seq<Block> {
    SegmentFrom(Split(text, '\n'), 0)
  }

  // ---- The converter ----

  /** The part of `PDFToTextConverter` the export reads: the converted text. */
  class Converter {
    var pdfText: string

    constructor ()
      ensures pdfText == ""
    {
      pdfText := "";
    }

    /** `on_conversion_finished`: the text received is stored after its
        formulas are rewritten. */
    method OnConversionFinished(text: string)
      modifies this
      ensures pdfText == ProcessFormulas(text)
    {
      pdfText := ProcessFormulas(text);
    }

    /** The line-walking loop of `export_with_python_docx`, returning the
        blocks it adds to the document. */
    method ExportWithPythonDocx() returns (blocks: seq<Block>)
      ensures blocks == Segment(pdfText)
    {
      var lines := Split(pdfText, '\n');
      var i := 0;
      blocks := [];
      while i < |lines|
        invariant 0 <= i <= |lines|
        invariant blocks + SegmentFrom(lines, i) == SegmentFrom(lines, 0)
        decreases |lines| - i
      {
        var emitted, next := ExportLine(lines, i);
        assert blocks + SegmentFrom(lines, i) == (blocks + emitted) + SegmentFrom(lines, next);
        blocks := blocks + emitted;
        i := next;
      }
    }
  }

  /** One turn of the export loop at line `i`: the blocks it adds and the
      line it continues from. */
  method ExportLine(lines: seq<string>, i: nat) returns (emitted: seq<Block>, next: nat)
    requires i < |lines|
    ensures i < next <= |lines|
    ensures emitted + SegmentFrom(lines, next) == SegmentFrom(lines, i)
  {
    var line := Strip(lines[i]);
    if line == "" {
      emitted, next := [], i + 1;
      assert emitted + SegmentFrom(lines, next) == SegmentFrom(lines, i) by {
        SegmentBlank(lines, i);
      }
      return;
    }
    if IsTableRow(line) {
      var tableLines, j := CollectTableLines(lines, i);
      if tableLines != [] {
        emitted := CreateWordTable(tableLines);
        next := j;
        assert emitted + SegmentFrom(lines, next) == SegmentFrom(lines, i) by {
          SegmentTable(lines, i);
        }
        return;
      }
    }
    emitted, next := [Paragraph(line)], i + 1;
    assert emitted + SegmentFrom(lines, next) == SegmentFrom(lines, i) by {
      SegmentParagraph(lines, i);
    }
  }

  /** The inner loop of the export: walk the run of table-row lines from
      `i`, collecting the stripped lines that are not separators. */
  method CollectTableLines(lines: seq<string>, i: nat) returns (tableLines: seq<string>, j: nat)
    requires i <= |lines|
    ensures j == RunEnd(lines, i) && tableLines == RunData(lines, i, j)
  {
    tableLines := [];
    j := i;
    while j < |lines|
      invariant i <= j <= RunEnd(lines, i)
      invariant tableLines == RunData(lines, i, j)
      decreases |lines| - j
    {
      var currentLine := Strip(lines[j]);
      RunStep(lines, i, j);
      if IsTableRow(currentLine) {
        if !IsSeparator(currentLine) {
          tableLines := tableLines + [currentLine];
        }
        j := j + 1;
      } else {
        break;
      }
    }
  }

  /** One line further along a run. */
  lemma {:induction false} RunStep(lines: seq<string>, i: nat, j: nat)
    requires j < |lines| && i <= j <= RunEnd(lines, i)
    ensures var current := Strip(lines[j]);
      if IsTableRow(current) then
        j < RunEnd(lines, i)
        && RunData(lines, i, j + 1)
           == if IsSeparator(current) then RunData(lines, i, j) else RunData(lines, i, j) + [current]
      else j == RunEnd(lines, i)
  {
  }

  /** A blank line adds nothing. */
  lemma {:induction false} SegmentBlank(lines: seq<string>, i: nat)
    requires i < |lines| && Strip(lines[i]) == ""
    ensures SegmentFrom(lines, i) == SegmentFrom(lines, i + 1)
  {
  }

  /** A non-blank line that does not start a table with data becomes a
      paragraph. */
  lemma {:induction false} SegmentParagraph(lines: seq<string>, i: nat)
    requires i < |lines| && Strip(lines[i]) != ""
    requires !IsTableRow(Strip(lines[i])) || RunData(lines, i, RunEnd(lines, i)) == []
    ensures SegmentFrom(lines, i) == [Paragraph(Strip(lines[i]))] + SegmentFrom(lines, i + 1)
  {
  }

  /** A run of table lines with data becomes the blocks of its table. */
  lemma {:induction false} SegmentTable(lines: seq<string>, i: nat)
    requires i < |lines| && Strip(lines[i]) != "" && IsTableRow(Strip(lines[i]))
    requires RunData(lines, i, RunEnd(lines, i)) != []
    ensures SegmentFrom(lines, i)
      == TableBlocks(RunData(lines, i, RunEnd(lines, i))) + SegmentFrom(lines, RunEnd(lines, i))
  {
  }

  // ---- What the export produces ----

  /** Every line collected for a table is one of the run's lines, stripped. */
  lemma {:induction false} RunDataFrom(lines: seq<string>, i: nat, j: nat)
    requires i <= j <= |lines|
    ensures forall t :: t in RunData(lines, i, j) ==> exists k :: i <= k < j && t == Strip(lines[k])
    decreases j - i
  {
    if j > i {
      RunDataFrom(lines, i, j - 1);
    }
  }

  /** A block the export may emit from line `i` on: a well-formed table, the
      empty spacing paragraph, or a paragraph holding one stripped input
      line. */
  predicate EmittedFrom(lines: seq<string>, i: nat, b: Block) {
    (b.Paragraph? ==> b.text == "" || exists k :: i <= k < |lines| && b.text == Strip(lines[k]))
    && (b.Table? ==> WellFormedTable(b.cells))
  }

  /** The export invents no text: every paragraph is the spacing paragraph
      after a table or a stripped input line, and every table is
      well-formed. */
  lemma {:induction false} SegmentShape(lines: seq<string>, i: nat)
    requires i <= |lines|
    ensures forall b :: b in SegmentFrom(lines, i) ==> EmittedFrom(lines, i, b)
    decreases |lines| - i
  {
    if i < |lines| {
      var head, next := SegmentHead(lines, i);
      SegmentShape(lines, next);
      EmittedConcat(lines, i, next, head, SegmentFrom(lines, next));
    }
  }

  /** The blocks one line (or one table run) contributes, and where the
      segmenter goes on. */
  lemma {:induction false} SegmentHead(lines: seq<string>, i: nat) returns (head: seq<Block>, next: nat)
    requires i < |lines|
    ensures i < next <= |lines| && SegmentFrom(lines, i) == head + SegmentFrom(lines, next)
    ensures forall b :: b in head ==> EmittedFrom(lines, i, b)
  {
    var line := Strip(lines[i]);
    var j := RunEnd(lines, i);
    if line == "" {
      head, next := [], i + 1;
      assert SegmentFrom(lines, i) == head + SegmentFrom(lines, next) by {
        SegmentBlank(lines, i);
      }
    } else if IsTableRow(line) && RunData(lines, i, j) != [] {
      head, next := TableBlocks(RunData(lines, i, j)), j;
      assert SegmentFrom(lines, i) == head + SegmentFrom(lines, next) by {
        SegmentTable(lines, i);
      }
      TableEmitted(lines, i, j);
    } else {
      head, next := [Paragraph(line)], i + 1;
      assert SegmentFrom(lines, i) == head + SegmentFrom(lines, next) by {
        SegmentParagraph(lines, i);
      }
      assert EmittedFrom(lines, i, Paragraph(line));
    }
  }

  /** Blocks emitted from line `i` followed by blocks emitted from a later
      line are all blocks emitted from line `i`. */
  lemma {:induction false} EmittedConcat(lines: seq<string>, i: nat, next: nat, head: seq<Block>, rest: seq<Block>)
    requires i <= next
    requires forall b :: b in head ==> EmittedFrom(lines, i, b)
    requires forall b :: b in rest ==> EmittedFrom(lines, next, b)
    ensures forall b :: b in head + rest ==> EmittedFrom(lines, i, b)
  {
    forall b | b in head + rest
      ensures EmittedFrom(lines, i, b)
    {
      if b !in head {
        EmittedLift(lines, i, next, b);
      }
    }
  }

  /** The blocks of a run's table are blocks the export may emit. */
  lemma {:induction false} TableEmitted(lines: seq<string>, i: nat, j: nat)
    requires i <= j <= |lines|
    ensures forall b :: b in TableBlocks(RunData(lines, i, j)) ==> EmittedFrom(lines, i, b)
  {
    var tableLines := RunData(lines, i, j);
    TableBlocksShape(tableLines);
    RunDataFrom(lines, i, j);
    forall b | b in TableBlocks(tableLines)
      ensures EmittedFrom(lines, i, b)
    {
      if b.Paragraph? && b.text != "" {
        assert b.text in tableLines;
      }
    }
  }

  /** What may be emitted from a later line may be emitted from an earlier one. */
  lemma {:induction false} EmittedLift(lines: seq<string>, i: nat, j: nat, b: Block)
    requires i <= j && EmittedFrom(lines, j, b)
    ensures EmittedFrom(lines, i, b)
  {
  }

  /** Every paragraph the export emits is stripped. */
  lemma {:induction false} ParagraphsStripped(text: string)
    ensures forall b :: b in Segment(text) && b.Paragraph? ==> IsStripped(b.text)
  {
    SegmentShape(Split(text, '\n'), 0);
    forall b | b in Segment(text) && b.Paragraph?
      ensures IsStripped(b.text)
    {
      assert EmittedFrom(Split(text, '\n'), 0, b);
    }
  }

  /** `table_lines` stays empty over a run of separators. */
  lemma {:induction false} RunDataSeparators(lines: seq<string>, i: nat, j: nat)
    requires i <= j <= |lines|
    requires forall k :: i <= k < j ==> IsSeparator(Strip(lines[k]))
    ensures RunData(lines, i, j) == []
    decreases j - i
  {
    if j > i {
      RunDataSeparators(lines, i, j - 1);
    }
  }

  /** Each line from `i` up to `j`, stripped, as a paragraph of its own. */
  function LineParagraphs(lines: seq<string>, i: nat, j: nat): (bs: seq<Block>)
    requires i <= j <= |lines|
    ensures |bs| == j - i
    decreases j - i
  {
    if i == j then [] else [Paragraph(Strip(lines[i]))] + LineParagraphs(lines, i + 1, j)
  }

  /** Inside a run, the run from the next line ends where this one does. */
  lemma {:induction false} RunEndNext(lines: seq<string>, i: nat)
    requires i <= |lines| && i < RunEnd(lines, i)
    ensures RunEnd(lines, i + 1) == RunEnd(lines, i)
  {
  }

  /** A run made only of separators is not made into a table: each of its
      lines comes out as a paragraph of its own, and the segmentation goes
      on after the run. */
  lemma {:induction false} SeparatorsBecomeParagraphs(lines: seq<string>, i: nat)
    requires i <= |lines|
    requires forall k :: i <= k < RunEnd(lines, i) ==> IsSeparator(Strip(lines[k]))
    ensures var e := RunEnd(lines, i);
      SegmentFrom(lines, i) == LineParagraphs(lines, i, e) + SegmentFrom(lines, e)
    decreases |lines| - i
  {
    SeparatorsUpTo(lines, i, RunEnd(lines, i));
  }

  /** The same, with the end of the run given. */
  lemma {:induction false} SeparatorsUpTo(lines: seq<string>, i: nat, e: nat)
    requires i <= e <= |lines| && e == RunEnd(lines, i)
    requires forall k :: i <= k < e ==> IsSeparator(Strip(lines[k]))
    ensures SegmentFrom(lines, i) == LineParagraphs(lines, i, e) + SegmentFrom(lines, e)
    decreases e - i
  {
    if i < e {
      RunEndNext(lines, i);
      SeparatorsUpTo(lines, i + 1, e);
      SeparatorsStep(lines, i, e);
    } else {
      assert LineParagraphs(lines, i, e) == [];
    }
  }

  /** One step of the run: the first separator's paragraph goes in front of
      what the rest of the run yields. */
  lemma {:induction false} SeparatorsStep(lines: seq<string>, i: nat, e: nat)
    requires i <= |lines| && e == RunEnd(lines, i) && i < e
    requires forall k :: i <= k < e ==> IsSeparator(Strip(lines[k]))
    requires SegmentFrom(lines, i + 1) == LineParagraphs(lines, i + 1, e) + SegmentFrom(lines, e)
    ensures SegmentFrom(lines, i) == LineParagraphs(lines, i, e) + SegmentFrom(lines, e)
  {
    var p := Paragraph(Strip(lines[i]));
    SeparatorLine(lines, i);
    assert LineParagraphs(lines, i, e) == [p] + LineParagraphs(lines, i + 1, e);
    ConsChain(SegmentFrom(lines, i), SegmentFrom(lines, i + 1), SegmentFrom(lines, e),
              LineParagraphs(lines, i, e), LineParagraphs(lines, i + 1, e), p);
  }

  /** Putting an element in front commutes with appending a tail. */
  lemma {:induction false} ConsChain<T>(a: seq<T>, b: seq<T>, c: seq<T>, l: seq<T>, r: seq<T>, p: T)
    requires a == [p] + b && b == r + c && l == [p] + r
    ensures a == l + c
  {
    assert [p] + (r + c) == ([p] + r) + c;
  }

  /** The first line of a run of separators becomes a paragraph. */
  lemma {:induction false} SeparatorLine(lines: seq<string>, i: nat)
    requires i <= |lines| && i < RunEnd(lines, i)
    requires forall k :: i <= k < RunEnd(lines, i) ==> IsSeparator(Strip(lines[k]))
    ensures SegmentFrom(lines, i) == [Paragraph(Strip(lines[i]))] + SegmentFrom(lines, i + 1)
  {
    var line := Strip(lines[i]);
    assert IsSeparator(line);
    SeparatorHasTwoPipes(line);
    RunDataSeparators(lines, i, RunEnd(lines, i));
    SegmentParagraph(lines, i);
  }

  // ---- Examples of the line tests ----

  /** A bordered one-cell line and a bare `||` are rows; a line with a single
      `|` or none is not. */
  lemma {:induction false} RowExamples(a: string, b: string, c: string, d: string)
    requires a == "|a|" && b == "||" && c == "a|b" && d == "x"
    ensures IsTableRow(a) && IsTableRow(b) && !IsTableRow(c) && !IsTableRow(d)
  {
    TableRowIffTwoPipes(a);
    TableRowIffTwoPipes(b);
    TableRowIffTwoPipes(c);
    assert a == [a[0]] + [a[1]] + [a[2]];
    CountConcat([a[0]] + [a[1]], [a[2]], '|');
    CountConcat([a[0]], [a[1]], '|');
    assert b == [b[0]] + [b[1]];
    CountConcat([b[0]], [b[1]], '|');
    assert c == [c[0]] + [c[1]] + [c[2]];
    CountConcat([c[0]] + [c[1]], [c[2]], '|');
    CountConcat([c[0]], [c[1]], '|');
  }

  /** `|---|` is a separator; `|---|---|` is not, since the pattern allows no
      `|` inside. */
  lemma {:induction false} SeparatorExamples(s: string, t: string)
    requires s == "|---|" && t == "|---|---|"
    ensures IsSeparator(s) && !IsSeparator(t)
  {
    assert t[4] == '|';
  }
}
