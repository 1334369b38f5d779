/** `create_word_table`: the Markdown table lines of one run are parsed into
    rows of cells and laid out as a rows-by-columns grid, or, when no row
    survives parsing, emitted as plain paragraphs. */
module Tables {
  import opened Text

  /** What the exporter adds to the document, in order. A `Table` is the
      grid of cell texts of a `doc.add_table` call once it is filled. */
  datatype Block = Paragraph(text: string) | Table(cells: seq<seq<string>>)

  // ---- Parsing one line into cells ----

  /** Every part stripped, as `cell.strip()` does to each raw cell. */
  function StripAll(parts: seq<string>): (cl: seq<string>)
    ensures |cl| == |parts|
    ensures forall k :: 0 <= k < |cl| ==> cl[k] == Strip(parts[k])
  {
    seq(|parts|, k requires 0 <= k < |parts| => Strip(parts[k]))
  }

  /** Number of empty cells at the front. */
  function LeadingEmpty(c: seq<string>): (n: nat)
    ensures n <= |c|
    ensures forall k :: 0 <= k < n ==> c[k] == ""
    ensures n == |c| || c[n] != ""
  {
    if c == [] || c[0] != "" then 0 else 1 + LeadingEmpty(c[1..])
  }

  /** Number of empty cells at the back. */
  function TrailingEmpty(c: seq<string>): (n: nat)
    ensures n <= |c|
    ensures forall k :: |c| - n <= k < |c| ==> c[k] == ""
    ensures n == |c| || c[|c| - 1 - n] != ""
  {
    if c == [] || c[|c| - 1] != "" then 0 else 1 + TrailingEmpty(c[..|c| - 1])
  }

  /** The cells with the empty ones at both ends removed: nothing when
      every cell is empty, otherwise the slice from the first to the last
      non-empty cell. */
  function Trim(c: seq<string>): (r: seq<string>)
    ensures r == [] <==> LeadingEmpty(c) == |c|
    ensures r == [] || (r[0] != "" && r[|r| - 1] != "")
  {
    var rest := c[LeadingEmpty(c)..];
    var r := rest[..|rest| - TrailingEmpty(rest)];
    assert r != [] ==> r[0] == rest[0];
    r
  }

  /** The cells the parsing loop appends: a stripped cell is kept when it is
      non-empty, or, except on the last line of the table, when some cell was
      already kept. */
  function Kept(cl: seq<string>, isLast: bool): seq<string>
  {
    if cl == [] then []
    else
      var p := Kept(cl[..|cl| - 1], isLast);
      var x := cl[|cl| - 1];
      if x != "" || (p != [] && !isLast) then p + [x] else p
  }

  /** Every kept cell is one of the cells. */
  lemma {:induction false} KeptFrom(cl: seq<string>, isLast: bool)
    ensures forall k :: 0 <= k < |Kept(cl, isLast)| ==> Kept(cl, isLast)[k] in cl
  {
    if cl != [] {
      var init := cl[..|cl| - 1];
      KeptFrom(init, isLast);
      forall k | 0 <= k < |Kept(init, isLast)|
        ensures Kept(init, isLast)[k] in cl
      {
        assert Kept(init, isLast)[k] in init;
      }
    }
  }

  /** One more cell through the keep rule. */
  lemma {:induction false} KeptStep(cl: seq<string>, k: nat, isLast: bool)
    requires k < |cl|
    ensures var p := Kept(cl[..k], isLast);
      Kept(cl[..k + 1], isLast) == if cl[k] != "" || (p != [] && !isLast) then p + [cl[k]] else p
  {
    assert cl[..k + 1][..k] == cl[..k];
  }

  /** The non-empty cells, in order. */
  function NonEmpty(c: seq<string>): (r: seq<string>)
    ensures forall k :: 0 <= k < |r| ==> r[k] != ""
  {
    if c == [] then [] else (if c[0] == "" then [] else [c[0]]) + NonEmpty(c[1..])
  }

  lemma {:induction false} NonEmptyConcat(a: seq<string>, b: seq<string>)
    ensures NonEmpty(a + b) == NonEmpty(a) + NonEmpty(b)
  {
    if a == [] {
      assert a + b == b;
    } else {
      assert (a + b)[0] == a[0] && (a + b)[1..] == a[1..] + b;
      NonEmptyConcat(a[1..], b);
    }
  }

  /** On the last line of a table only the non-empty cells are kept. */
  lemma {:induction false} KeptLastLine(cl: seq<string>)
    ensures Kept(cl, true) == NonEmpty(cl)
  {
    if cl != [] {
      var n := |cl| - 1;
      KeptLastLine(cl[..n]);
      assert cl == cl[..n] + [cl[n]];
      NonEmptyConcat(cl[..n], [cl[n]]);
      assert NonEmpty([cl[n]]) == (if cl[n] == "" then [] else [cl[n]]) + NonEmpty([]);
    }
  }

  /** On any other line every cell from the first non-empty one on is kept,
      empty or not. */
  lemma {:induction false} KeptMidTable(cl: seq<string>)
    ensures Kept(cl, false) == cl[LeadingEmpty(cl)..]
  {
    KeptMidPrefix(cl, |cl|);
    assert cl[..|cl|] == cl;
  }

  lemma {:induction false} KeptMidPrefix(cl: seq<string>, n: nat)
    requires n <= |cl|
    ensures var a := LeadingEmpty(cl);
      Kept(cl[..n], false) == if a < n then cl[a..n] else []
  {
    if n > 0 {
      KeptMidPrefix(cl, n - 1);
      assert cl[..n][..n - 1] == cl[..n - 1];
      assert cl[..n][n - 1] == cl[n - 1];
      var a := LeadingEmpty(cl);
      if a < n - 1 {
        assert cl[a..n] == cl[a..n - 1] + [cl[n - 1]];
      } else if a == n - 1 {
        assert cl[a..n] == [cl[n - 1]];
      }
    }
  }

  /** The cells of one table line; `isLast` tells whether it is the last
      line of the table. */
  function RowCells(line: string, isLast: bool): seq<string> {
    Trim(Kept(StripAll(Split(line, '|')), isLast))
  }

  /** `while cells and not cells[0]: cells.pop(0)` */
  method DropLeadingEmpty(cells: seq<string>) returns (r: seq<string>)
    ensures r == cells[LeadingEmpty(cells)..]
  {
    r := cells;
    while r != [] && r[0] == ""
      invariant |r| <= |cells| && r == cells[|cells| - |r|..]
      invariant |cells| - |r| <= LeadingEmpty(cells)
      decreases |r|
    {
      r := r[1..];
    }
  }

  /** `while cells and not cells[-1]: cells.pop()` */
  method DropTrailingEmpty(cells: seq<string>) returns (r: seq<string>)
    ensures r == cells[..|cells| - TrailingEmpty(cells)]
  {
    r := cells;
    while r != [] && r[|r| - 1] == ""
      invariant |r| <= |cells| && r == cells[..|r|]
      invariant |cells| - |r| <= TrailingEmpty(cells)
      decreases |r|
    {
      r := r[..|r| - 1];
    }
  }

  /** Removing the empty cells at both ends, as the two `pop` loops do. */
  method StripEmptyEnds(cells: seq<string>) returns (r: seq<string>)
    ensures r == Trim(cells)
  {
    r := DropLeadingEmpty(cells);
    r := DropTrailingEmpty(r);
  }

  /** The parsing loop over the raw cells of a line: strip each one and
      append it when `Kept` says so. */
  method KeepCells(rawCells: seq<string>, isLast: bool) returns (cells: seq<string>)
    ensures cells == Kept(StripAll(rawCells), isLast)
  {
    ghost var cl := StripAll(rawCells);
    cells := [];
    for k := 0 to |rawCells|
      invariant cells == Kept(cl[..k], isLast)
    {
      var cleanedCell := Strip(rawCells[k]);
      KeptStep(cl, k, isLast);
      if cleanedCell != "" || (cells != [] && !isLast) {
        cells := cells + [cleanedCell];
      }
    }
    assert cl[..|rawCells|] == cl;
  }

  /** Parse one line: split on `|`, strip and keep the cells, then drop the
      empty cells at both ends. */
  method ParseRow(line: string, isLast: bool) returns (cells: seq<string>)
    ensures cells == RowCells(line, isLast)
  {
    var rawCells := Split(line, '|');
    cells := KeepCells(rawCells, isLast);
    cells := StripEmptyEnds(cells);
  }

  // ---- What a parsed row looks like ----

  /** The stripped raw cells of a line hold no `|` and no outer whitespace. */
  lemma {:induction false} StripAllShape(line: string)
    ensures forall x :: x in StripAll(Split(line, '|')) ==> '|' !in x && IsStripped(x)
  {
    var parts := Split(line, '|');
    var cl := StripAll(parts);
    SplitPartsFree(line, '|');
    forall x | x in cl
      ensures '|' !in x && IsStripped(x)
    {
      var j :| 0 <= j < |cl| && cl[j] == x;
      StripKeepsOut(parts[j], '|');
    }
  }

  /** Trimming keeps a slice of the cells, so every cell it keeps was there. */
  lemma {:induction false} TrimElements(c: seq<string>)
    ensures forall k :: 0 <= k < |Trim(c)| ==> Trim(c)[k] in c
  {
    var a := LeadingEmpty(c);
    var rest := c[a..];
    forall k | 0 <= k < |Trim(c)|
      ensures Trim(c)[k] in c
    {
      assert Trim(c)[k] == rest[k] == c[a + k];
    }
  }

  /** A row of a table: at least one cell, a non-empty cell at each end,
      and every cell a stripped text without `|`. */
  predicate IsRow(r: seq<string>) {
    r != [] && r[0] != "" && r[|r| - 1] != ""
    && forall k :: 0 <= k < |r| ==> '|' !in r[k] && IsStripped(r[k])
  }

  /** A parsed line gives no cells or a row. */
  lemma {:induction false} RowCellsShape(line: string, isLast: bool)
    ensures RowCells(line, isLast) == [] || IsRow(RowCells(line, isLast))
  {
    var cl := StripAll(Split(line, '|'));
    var kept := Kept(cl, isLast);
    KeptFrom(cl, isLast);
    StripAllShape(line);
    TrimElements(kept);
  }

  /** Trimming cells none of which is empty changes nothing. */
  lemma {:induction false} TrimNonEmpty(c: seq<string>)
    requires forall k :: 0 <= k < |c| ==> c[k] != ""
    ensures Trim(c) == c
  {
    assert LeadingEmpty(c) == 0;
    assert TrailingEmpty(c) == 0;
  }

  /** Trimming what starts at the first non-empty cell is trimming it all. */
  lemma {:induction false} TrimFromFirst(c: seq<string>)
    ensures Trim(c[LeadingEmpty(c)..]) == Trim(c)
  {
    var a := LeadingEmpty(c);
    var rest := c[a..];
    if a < |c| {
      assert rest[0] == c[a];
      assert LeadingEmpty(rest) == 0;
      assert rest[0..] == rest;
    }
  }

  /** On the last line of a table a row is exactly its non-empty cells. */
  lemma {:induction false} LastRowCells(line: string)
    ensures RowCells(line, true) == NonEmpty(StripAll(Split(line, '|')))
  {
    var cl := StripAll(Split(line, '|'));
    KeptLastLine(cl);
    TrimNonEmpty(NonEmpty(cl));
  }

  /** On any other line a row keeps the empty cells between its first and
      last non-empty cell. */
  lemma {:induction false} MidRowCells(line: string)
    ensures RowCells(line, false) == Trim(StripAll(Split(line, '|')))
  {
    var cl := StripAll(Split(line, '|'));
    KeptMidTable(cl);
    TrimFromFirst(cl);
  }

  // ---- The rows of a table ----

  /** The cells line `i` of the table contributes: none for a blank line,
      otherwise its parse, with the last-line rule for the last line. */
  function LineCells(lines: seq<string>, i: nat): (r: seq<string>)
    requires i < |lines|
    ensures r == [] || IsRow(r)
  {
    if Strip(lines[i]) == "" then []
    else
      RowCellsShape(lines[i], i == |lines| - 1);
      RowCells(lines[i], i == |lines| - 1)
  }

  /** The parse of every line. */
  function LineParses(lines: seq<string>): (ps: seq<seq<string>>)
    ensures |ps| == |lines|
    ensures forall i :: 0 <= i < |lines| ==> ps[i] == LineCells(lines, i)
  {
    seq(|lines|, i requires 0 <= i < |lines| => LineCells(lines, i))
  }

  /** The parses that yield cells, in order: `table_data.append(cells)` when
      `cells` is not empty. */
  function KeepRows(ps: seq<seq<string>>): seq<seq<string>> {
    if ps == [] then []
    else
      var prev := KeepRows(ps[..|ps| - 1]);
      var cells := ps[|ps| - 1];
      if cells == [] then prev else prev + [cells]
  }

  /** `table_data` for a list of table lines. */
  function TableData(lines: seq<string>): seq<seq<string>> {
    KeepRows(LineParses(lines))
  }

  /** No more rows than parses. */
  lemma {:induction false} KeepRowsCount(ps: seq<seq<string>>)
    ensures |KeepRows(ps)| <= |ps|
  {
    if ps != [] {
      KeepRowsCount(ps[..|ps| - 1]);
    }
  }

  /** The kept rows are exactly the non-empty parses: none is kept exactly
      when every parse is empty, and each kept row is one of the parses. */
  lemma {:induction false} KeepRowsSound(ps: seq<seq<string>>)
    ensures KeepRows(ps) == [] <==> forall i :: 0 <= i < |ps| ==> ps[i] == []
    ensures forall k :: 0 <= k < |KeepRows(ps)| ==> KeepRows(ps)[k] != [] && KeepRows(ps)[k] in ps
  {
    if ps != [] {
      var init := ps[..|ps| - 1];
      KeepRowsSound(init);
      assert forall i :: 0 <= i < |init| ==> init[i] == ps[i];
      assert forall x :: x in init ==> x in ps;
    }
  }

  /** Every row of a table's data is a row: at least one cell, non-empty
      cells at both ends, every cell stripped and free of `|`. */
  lemma {:induction false} TableDataShape(lines: seq<string>)
    ensures |TableData(lines)| <= |lines|
    ensures forall k :: 0 <= k < |TableData(lines)| ==> IsRow(TableData(lines)[k])
  {
    var ps := LineParses(lines);
    KeepRowsCount(ps);
    KeepRowsSound(ps);
  }

  /** Number of columns: the length of the longest row, 0 for no rows. */
  function MaxRowLength(rows: seq<seq<string>>): (m: nat)
    ensures forall i :: 0 <= i < |rows| ==> |rows[i]| <= m
    ensures rows == [] ==> m == 0
    ensures rows != [] ==> exists i :: 0 <= i < |rows| && |rows[i]| == m
  {
    if rows == [] then 0
    else
      var rest := MaxRowLength(rows[1..]);
      if |rows[0]| >= rest then |rows[0]| else rest
  }

  /** `str(cell).replace('\n', ' ').replace('\r', '')`. */
  function CellText(cell: string): string {
    DeleteChar(ReplaceChar(cell, '\n', " "), '\r')
  }

  /** A cell text holds no line break; a cell without one is kept as it is;
      the `|` count is kept, so a cell holds a `|` exactly when its text
      does. */
  lemma {:induction false} CellTextClean(cell: string)
    ensures '\n' !in CellText(cell) && '\r' !in CellText(cell)
    ensures '\n' !in cell && '\r' !in cell ==> CellText(cell) == cell
    ensures Count(CellText(cell), '|') == Count(cell, '|')
    ensures '|' in CellText(cell) <==> '|' in cell
  {
    var spaced := ReplaceChar(cell, '\n', " ");
    DeleteCharFacts(spaced, '\r');
    if '\n' !in cell {
      ReplaceCharNone(cell, '\n', " ");
    }
    ReplaceCharCount(cell, '\n', " ", '\r');
    CountZero(spaced, '\n');
    DeleteCharCount(spaced, '\r', '\n');
    CountZero(CellText(cell), '\n');
    ReplaceCharCount(cell, '\n', " ", '|');
    DeleteCharCount(spaced, '\r', '|');
    CountZero(CellText(cell), '|');
    CountZero(cell, '|');
  }

  /** The filled table: `rows` by `cols` cells, cell (i, j) holding the text
      of the j-th cell of row i, or nothing where the row is shorter. */
  function Grid(rows: seq<seq<string>>, cols: nat): (g: seq<seq<string>>)
    ensures |g| == |rows|
    ensures forall i :: 0 <= i < |g| ==> |g[i]| == cols
  {
    seq(|rows|, i requires 0 <= i < |rows| =>
      seq(cols, j requires 0 <= j < cols => if j < |rows[i]| then CellText(rows[i][j]) else ""))
  }

  /** A row of `cols` empty cells, as `doc.add_table` creates it. */
  function EmptyRow(cols: nat): (r: seq<string>)
    ensures |r| == cols && forall j :: 0 <= j < cols ==> r[j] == ""
  {
    seq(cols, j => "")
  }

  /** `doc.add_table(rows, cols)` followed by the loop that sets each cell's
      text. The column index never reaches `cols`, so the source's
      out-of-range warnings cannot occur. */
  method FillTable(rows: seq<seq<string>>) returns (grid: seq<seq<string>>)
    ensures grid == Grid(rows, MaxRowLength(rows))
  {
    var cols := MaxRowLength(rows);
    grid := seq(|rows|, i => EmptyRow(cols));
    for i := 0 to |rows|
      invariant |grid| == |rows|
      invariant forall r :: 0 <= r < i ==> grid[r] == Grid(rows, cols)[r]
      invariant forall r :: i <= r < |rows| ==> grid[r] == EmptyRow(cols)
    {
      var rowData := rows[i];
      ghost var before := grid;
      for j := 0 to |rowData|
        invariant |grid| == |rows| && |grid[i]| == cols
        invariant forall r :: 0 <= r < |rows| && r != i ==> grid[r] == before[r]
        invariant forall c :: 0 <= c < j ==> grid[i][c] == CellText(rowData[c])
        invariant forall c :: j <= c < cols ==> grid[i][c] == ""
      {
        grid := grid[i := grid[i][j := CellText(rowData[j])]];
      }
      assert grid[i] == Grid(rows, cols)[i];
    }
  }

  /** One more line through the row filter. */
  lemma {:induction false} KeepRowsStep(ps: seq<seq<string>>, k: nat)
    requires k < |ps|
    ensures KeepRows(ps[..k + 1]) == if ps[k] == [] then KeepRows(ps[..k]) else KeepRows(ps[..k]) + [ps[k]]
  {
    assert ps[..k + 1][..k] == ps[..k];
  }

  // ---- The blocks a run of table lines becomes ----

  /** One paragraph per line, as the fallback loop adds them. */
  function Paragraphs(lines: seq<string>): (bs: seq<Block>)
    ensures |bs| == |lines|
    ensures forall k :: 0 <= k < |lines| ==> bs[k] == Paragraph(lines[k])
  {
    seq(|lines|, k requires 0 <= k < |lines| => Paragraph(lines[k]))
  }

  /** What `create_word_table` adds: the filled grid and an empty spacing
      paragraph, or the lines as paragraphs when no line yields cells. */
  function TableBlocks(lines: seq<string>): seq<Block> {
    var data := TableData(lines);
    if data == [] then Paragraphs(lines)
    else [Table(Grid(data, MaxRowLength(data))), Paragraph("")]
  }

  /** The parsing loop of `create_word_table`: `table_data`. */
  method ParseTableData(tableLines: seq<string>) returns (tableData: seq<seq<string>>)
    ensures tableData == TableData(tableLines)
  {
    ghost var ps := LineParses(tableLines);
    tableData := [];
    for lineNum := 0 to |tableLines|
      invariant tableData == KeepRows(ps[..lineNum])
    {
      KeepRowsStep(ps, lineNum);
      var line := tableLines[lineNum];
      if Strip(line) != "" {
        var cells := ParseRow(line, lineNum == |tableLines| - 1);
        if cells != [] {
          tableData := tableData + [cells];
        }
      }
    }
    assert ps[..|tableLines|] == ps;
  }

  /** `for line in table_lines: doc.add_paragraph(line)` */
  method AddParagraphs(lines: seq<string>) returns (blocks: seq<Block>)
    ensures blocks == Paragraphs(lines)
  {
    blocks := [];
    for k := 0 to |lines|
      invariant |blocks| == k
      invariant forall j :: 0 <= j < k ==> blocks[j] == Paragraph(lines[j])
    {
      blocks := blocks + [Paragraph(lines[k])];
    }
  }

  /** `create_word_table(doc, table_lines)`, returning the blocks it adds. */
  method CreateWordTable(tableLines: seq<string>) returns (blocks: seq<Block>)
    ensures blocks == TableBlocks(tableLines)
  {
    if tableLines == [] {
      return [];
    }
    var tableData := ParseTableData(tableLines);
    if tableData == [] {
      blocks := AddParagraphs(tableLines);
      return;
    }
    var grid := FillTable(tableData);
    blocks := [Table(grid), Paragraph("")];
  }

  /** When some line yields cells the table is built: at least one row and
      one column, so the source's "invalid dimensions" branch is never
      taken, and no more rows than lines. */
  lemma {:induction false} TableHasCells(lines: seq<string>)
    requires TableData(lines) != []
    ensures var data := TableData(lines);
      1 <= |data| <= |lines| && MaxRowLength(data) >= 1
  {
    TableDataShape(lines);
    var data := TableData(lines);
    assert IsRow(data[0]);
  }

  /** The lines fall back to paragraphs exactly when none of them yields a
      cell. */
  lemma {:induction false} FallbackIff(lines: seq<string>)
    ensures TableBlocks(lines) == Paragraphs(lines)
        <==> forall i :: 0 <= i < |lines| ==> LineCells(lines, i) == []
  {
    var ps := LineParses(lines);
    KeepRowsSound(ps);
    if TableData(lines) != [] {
      assert TableBlocks(lines)[0].Table?;
      if |lines| >= 1 {
        assert Paragraphs(lines)[0].Paragraph?;
      }
    }
  }

  /** Every cell of a built table is a text without `|` or line breaks. */
  lemma {:induction false} GridCellsClean(lines: seq<string>)
    requires TableData(lines) != []
    ensures var data := TableData(lines);
      var g := Grid(data, MaxRowLength(data));
      forall i, j :: 0 <= i < |g| && 0 <= j < |g[i]| ==>
        '|' !in g[i][j] && '\n' !in g[i][j] && '\r' !in g[i][j]
  {
    TableDataShape(lines);
    var data := TableData(lines);
    var g := Grid(data, MaxRowLength(data));
    forall i, j | 0 <= i < |g| && 0 <= j < |g[i]|
      ensures '|' !in g[i][j] && '\n' !in g[i][j] && '\r' !in g[i][j]
    {
      if j < |data[i]| {
        assert IsRow(data[i]);
        CellTextClean(data[i][j]);
      }
    }
  }

  /** A built table: at least one row and one column, every row as wide as
      the first, and no cell holding `|` or a line break. */
  predicate WellFormedTable(cells: seq<seq<string>>) {
    |cells| >= 1 && |cells[0]| >= 1
    && (forall r :: 0 <= r < |cells| ==> |cells[r]| == |cells[0]|)
    && (forall r, c :: 0 <= r < |cells| && 0 <= c < |cells[r]| ==>
          '|' !in cells[r][c] && '\n' !in cells[r][c] && '\r' !in cells[r][c])
  }

  /** Every block `create_word_table` adds is a well-formed table, the empty
      spacing paragraph, or one of its lines as a paragraph. */
  lemma {:induction false} TableBlocksShape(lines: seq<string>)
    ensures forall b :: b in TableBlocks(lines) ==>
      (b.Paragraph? ==> b.text == "" || b.text in lines)
      && (b.Table? ==> WellFormedTable(b.cells))
  {
    var data := TableData(lines);
    if data == [] {
      ParagraphsOfLines(lines);
    } else {
      var g := Grid(data, MaxRowLength(data));
      assert TableBlocks(lines) == [Table(g), Paragraph("")];
      GridWellFormed(lines);
    }
  }

  /** Every fallback block is a paragraph holding one of the lines. */
  lemma {:induction false} ParagraphsOfLines(lines: seq<string>)
    ensures forall b :: b in Paragraphs(lines) ==> b.Paragraph? && b.text in lines
  {
    forall b | b in Paragraphs(lines)
      ensures b.Paragraph? && b.text in lines
    {
      var k :| 0 <= k < |lines| && Paragraphs(lines)[k] == b;
    }
  }

  /** The grid of a table with data is well-formed. */
  lemma {:induction false} GridWellFormed(lines: seq<string>)
    requires TableData(lines) != []
    ensures var data := TableData(lines);
      WellFormedTable(Grid(data, MaxRowLength(data)))
  {
    TableHasCells(lines);
    GridCellsClean(lines);
  }

  // ---- A worked example ----

  lemma {:induction false} ExampleSplit(line: string)
    requires line == "|a||c|"
    ensures Split(line, '|') == ["", "a", "", "c", ""]
  {
    var parts: seq<string> := ["", "a", "", "c", ""];
    assert Join(parts, '|') == line by {
      assert Join(parts[4..], '|') == "";
      assert Join(parts[3..], '|') == "c|";
      assert Join(parts[2..], '|') == "|c|";
      assert Join(parts[1..], '|') == "a||c|";
    }
    assert forall k :: 0 <= k < |parts| ==> '|' !in parts[k];
    SplitJoin(parts, '|');
  }

  /** Cells that are already stripped are kept by `StripAll`. */
  lemma {:induction false} StripAllStripped(parts: seq<string>)
    requires forall k :: 0 <= k < |parts| ==> IsStripped(parts[k])
    ensures StripAll(parts) == parts
  {
    forall k | 0 <= k < |parts|
      ensures StripAll(parts)[k] == parts[k]
    {
      StripStripped(parts[k]);
    }
  }

  lemma {:induction false} ExampleStrip(parts: seq<string>)
    requires parts == ["", "a", "", "c", ""]
    ensures StripAll(parts) == parts
  {
    assert !IsSpace('a') && !IsSpace('c');
    assert parts[1] == ['a'] && parts[3] == ['c'];
    assert forall k :: 0 <= k < |parts| ==> IsStripped(parts[k]);
    StripAllStripped(parts);
  }

  lemma {:induction false} ExampleTrim(parts: seq<string>)
    requires parts == ["", "a", "", "c", ""]
    ensures Trim(parts) == ["a", "", "c"]
  {
    assert LeadingEmpty(parts) == 1;
    var rest := parts[1..];
    assert rest == ["a", "", "c", ""];
    assert TrailingEmpty(rest) == 1;
  }

  lemma {:induction false} ExampleNonEmpty(parts: seq<string>)
    requires parts == ["", "a", "", "c", ""]
    ensures NonEmpty(parts) == ["a", "c"]
  {
    assert NonEmpty(parts[4..]) == [];
    assert NonEmpty(parts[3..]) == ["c"];
    assert NonEmpty(parts[2..]) == ["c"];
    assert NonEmpty(parts[1..]) == ["a", "c"];
  }

  /** An empty cell between two others survives on a middle line of the
      table but is dropped on its last line. */
  lemma {:induction false} InteriorEmptyCell(line: string)
    requires line == "|a||c|"
    ensures RowCells(line, false) == ["a", "", "c"]
    ensures RowCells(line, true) == ["a", "c"]
  {
    var parts: seq<string> := ["", "a", "", "c", ""];
    ExampleSplit(line);
    ExampleStrip(parts);
    MidRowCells(line);
    LastRowCells(line);
    ExampleTrim(parts);
    ExampleNonEmpty(parts);
  }
}
