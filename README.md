# pdf2word text pipeline, modelled in Dafny

pdf2word turns the Markdown-like text that an AI model returns for a PDF
or a set of images into a Word document. This project models the part of
`main.py` that works on that text:

- **Formula rewriting** (`process_formulas` and its inner
  `process_math_content`), in `Formulas.dfy`. Every `$…$` span is found the
  way the non-greedy, newline-crossing regex `\$(.+?)\$` finds it. Inside
  the span, π becomes `\pi`, a root sign before digits becomes
  `\sqrt{digits}`, a root sign before a braced group becomes `\sqrt{…}`,
  ≠ becomes `\neq`, and every `*` is deleted, in that order. The result is
  stored in the converter's `pdf_text`.
- **Export segmentation** (the line loop of `export_with_python_docx`), in
  `Export.dfy`. The text is split into lines and every line is stripped.
  Blank lines are skipped. A run of consecutive lines that look like
  Markdown table rows is collected, with separator lines left out, and
  becomes a table. Every other line becomes a paragraph.
- **Table building** (`create_word_table`), in `Tables.dfy`. Each line is
  split on `|` and its cells are stripped. Empty cells are kept or dropped
  by the source's rule, and leading and trailing empty cells are removed.
  Rows left with no cells are dropped. The grid is rows × widest-row
  cells, with newlines turned into spaces and carriage returns removed,
  and a spacing paragraph follows it. When no row is left, the table
  lines become plain paragraphs.
- `Text.dfy` holds the Python string operations these rely on:
  `str.strip()` with Python's whitespace set, `str.split` on one
  character, and `str.replace` of one character.

The document is modelled as the sequence of `Block`s the loop adds to it:
`Paragraph(text)` or `Table(cells)`. A table block holds the filled grid;
it is always followed by the spacing `Paragraph("")`. The imperative parts
are methods with loops: the export loop, the run collector, the cell loop,
the two `pop` loops, the row loop and the grid fill. Each is proved equal
to a function, and the properties are proved about those functions.

Behaviour of the code that a reader may not expect:

- `|a|` splits into three parts, so it **is** a table row
  (`Export.RowExamples`).
- The separator pattern `^\s*\|[\s\-\:]*\|\s*$` has no `|` in its middle
  class. So `|---|---|` is **not** a separator and becomes a data row of
  dashes, although the code's comment at main.py:899 names it as an example
  of a separator line. Only a single-column rule such as `|---|` or `||` is
  skipped (`Export.SeparatorExamples`).
- On the last line of a table, an interior empty cell is dropped. On the
  other lines it is kept (`Tables.InteriorEmptyCell`).
- A line whose cells are all empty, such as `| | |`, gives no row at all,
  so a table can have fewer rows than it has non-separator lines.
- The Word table is rectangular: a short row leaves empty cells at its
  end (`Tables.Grid`).
- When a run of row lines holds only separators, the loop emits its first
  line as a paragraph and starts again at the next line. In the end each
  line of the run becomes a paragraph of its own, in order, and the
  segmentation goes on after the run (`Export.SeparatorsBecomeParagraphs`).
- `process_formulas` leaves a text without π, √, ≠ and `*` unchanged.
  It is not idempotent in general: `$√*5$` becomes `$√5$`, and a second
  pass turns that into `$\sqrt{5}$` (`Formulas.SecondPassDiffers`).

## Model

| member | source | states |
|---|---|---|
| Text.Strip | main.py:885 | `str.strip()` leaves no whitespace at either end and never lengthens the text |
| Text.StripSlice | main.py:885 | what `strip` keeps is one contiguous slice of the line; everything before and after it is whitespace |
| Text.StripKeepsOut | main.py:951 | stripping never brings in a character the text did not hold |
| Text.StripStripped | main.py:951 | a text with no outer whitespace is its own strip |
| Text.StripIdempotent | main.py:885 | stripping twice is stripping once, so the table code's re-strip of an already stripped line changes nothing |
| Text.Split | main.py:866 | `split(sep)` yields exactly one more part than the text has separators |
| Text.SplitPartsFree | main.py:947 | no part of a split holds the separator |
| Text.JoinSplit | main.py:866 | joining the parts of a split with the separator gives the text back |
| Text.SplitJoin | main.py:947 | splitting a join of separator-free parts gives the parts back |
| Text.SplitNoSep | main.py:866 | a text without the separator splits into itself alone |
| Text.ReplaceChar | main.py:851 | `str.replace` of one character; its properties are stated by `ReplaceCharNone`, `ReplaceOnce`, `ReplaceCharCount` and `ReplaceCharAbsent` |
| Text.ReplaceCharNone | main.py:851 | `replace` leaves a text without the character unchanged |
| Text.ReplaceOnce | main.py:851 | a single occurrence is replaced where it stands |
| Text.ReplaceCharCount | main.py:851 | `replace(c, rep)` keeps the count of every character that is neither `c` nor in `rep`, and leaves no `c` when `rep` has none |
| Text.ReplaceCharAbsent | main.py:854 | replacing never brings in a character absent from both the text and the replacement |
| Text.DeleteChar | main.py:855 | `str.replace(c, '')`; its properties are stated by `DeleteCharFacts`, `DeleteOnce` and `DeleteCharCount` |
| Text.DeleteCharFacts | main.py:855 | `replace(c, '')` leaves no `c`, keeps a `c`-free text as it is, and shortens the text by its number of `c`s |
| Text.DeleteOnce | main.py:855 | a single `c` is deleted where it stands |
| Text.DeleteCharCount | main.py:995 | deleting `c` keeps the count of every other character |
| Formulas.SqrtDigits | main.py:852 | the `√(\d+)` rewrite; its properties are stated by `DigitRunMaximal`, `SqrtDigitsDone`, `SqrtDigitsOnce`, `SqrtDigitsCount`, `RootsUnchanged` and `RootBeforeNonDigit` |
| Formulas.DigitRunMaximal | main.py:852 | `\d+` is greedy: the run is all digits and the character after it is not one |
| Formulas.SqrtBraces | main.py:853 | the `√\{([^}]+)\}` rewrite; its properties are stated by `NonBraceRunMaximal`, `SqrtBracesCount`, `BracedRoot`, `RootsUnchanged`, `RootBeforeNonDigit` and `RootsKeepAbsent` |
| Formulas.NonBraceRunMaximal | main.py:853 | `[^}]+` runs up to the first `}` |
| Formulas.SqrtDigitsDone | main.py:852 | after the digit rewrite, no root sign is directly followed by a digit |
| Formulas.SqrtDigitsOnce | main.py:852 | one root sign before a maximal digit run becomes `\sqrt{digits}` and the rest is copied |
| Formulas.SqrtDigitsCount | main.py:852 | the digit rewrite only removes root signs and adds the letters of `\sqrt{}`: the count of every other character is kept |
| Formulas.SqrtBracesCount | main.py:853 | the braced rewrite only removes root signs and adds the letters of `\sqrt{`: the count of every character other than √, `}` and those letters is kept |
| Formulas.BracedRoot | main.py:853 | `√{x}` becomes `\sqrt{x}` |
| Formulas.RootsUnchanged | main.py:852-853 | both root rewrites leave a text without root signs as it is |
| Formulas.RootBeforeNonDigit | main.py:852-853 | a root sign not followed by a digit is left by the digit rewrite, and also by the braced one unless `{` follows |
| Formulas.RootsKeepAbsent | main.py:852-853 | the root rewrites bring in no character other than those of `\sqrt{}` |
| Formulas.RewriteMath | main.py:849-856 | `process_math_content` on a span interior; its properties are stated by `RewriteMathClean`, `RewriteMathKeepsDollars`, `RewriteMathUnchanged`, `PiRewritten`, `NeqRewritten`, `RootDigit`, `RootBraces`, `OnlyStarRemoved` and `StarThenRoot` |
| Formulas.RewriteMathClean | main.py:849-856 | a rewritten interior holds no π, no ≠ and no `*` |
| Formulas.RewriteMathKeepsDollars | main.py:849-856 | a rewritten interior has as many `$` as before |
| Formulas.RewriteMathUnchanged | main.py:849-856 | an interior without π, √, ≠ and `*` is kept as it is |
| Formulas.PiRewritten | main.py:851 | π becomes `\pi` |
| Formulas.NeqRewritten | main.py:854 | ≠ becomes `\neq` |
| Formulas.RootDigit | main.py:852 | `√d` becomes `\sqrt{d}` for a digit `d` |
| Formulas.RootBraces | main.py:853 | `√{x}` becomes `\sqrt{x}` through all five stages |
| Formulas.OnlyStarRemoved | main.py:855 | a trailing `*` is deleted and nothing else changes |
| Formulas.StarThenRoot | main.py:852-855 | `*` is deleted after the root rewrites: `√*d` ends as `√d`, not `\sqrt{d}` |
| Formulas.ProcessFormulas | main.py:858 | the `re.sub` scan over the whole text; its properties are stated by `ProcessFormulasRendersSpans`, `PlainPrefixKept`, `NoDollarUnchanged`, `UnmatchedDollarPassesThrough`, `DollarCountKept`, `NoSymbolsUnchanged`, `SpanOnly` and `SecondPassDiffers` |
| Formulas.NextDollar | main.py:858 | a closer, when found, is a `$` at or after the start position |
| Formulas.NextDollarFirst | main.py:858 | the closer is the first `$` (the `+?` is non-greedy), and when none is found there is no `$` at all |
| Formulas.NextDollarAt | main.py:858 | the first `$` at or after the start position is the closer found |
| Formulas.TokenizeFlattens | main.py:858 | the regex scan's pieces (copied characters and spans) put back together give the text |
| Formulas.TokenizeWellFormed | main.py:858 | every span interior is non-empty with no `$` after its first character; a piece holding `$` outside a span is the last one and starts with a `$` that has no `$` two or more characters after it |
| Formulas.ProcessFormulasRendersSpans | main.py:848-859 | `process_formulas` equals rewriting the interior of every span the scan finds and copying everything else |
| Formulas.PlainPrefixKept | main.py:858 | text before the first `$` is copied unchanged |
| Formulas.NoDollarUnchanged | main.py:858 | a text without `$` is returned unchanged |
| Formulas.UnmatchedDollarPassesThrough | main.py:858 | a `$` with no closer, and everything after it, is copied unchanged |
| Formulas.DollarCountKept | main.py:848-859 | the output has exactly as many `$` as the input |
| Formulas.SpanDollarCount | main.py:858 | the `$` count splits as interior, the two delimiters and the rest, before and after the rewrite |
| Formulas.NoSymbolsUnchanged | main.py:848-859 | a text without π, √, ≠ and `*` is returned unchanged |
| Formulas.SpanOnly | main.py:856-858 | a text that is one span is that span with its interior rewritten |
| Formulas.FirstPass | main.py:848-859 | `$√*d$` becomes `$√d$` |
| Formulas.SecondPass | main.py:848-859 | `$√d$` becomes `$\sqrt{d}$` |
| Formulas.SecondPassDiffers | main.py:848-859 | rewriting is not idempotent: a second pass over `$√*d$`'s output changes it |
| Tables.LeadingEmpty | main.py:956-957 | counts exactly the empty cells before the first non-empty one |
| Tables.TrailingEmpty | main.py:958-959 | counts exactly the empty cells after the last non-empty one |
| Tables.Trim | main.py:955-959 | the result is empty exactly when every cell is empty; otherwise it starts and ends with a non-empty cell |
| Tables.Kept | main.py:950-953 | the cells the cell loop appends; its properties are stated by `KeptFrom`, `KeptLastLine`, `KeptMidTable`, `KeptMidPrefix` and `KeepCells` |
| Tables.KeptFrom | main.py:950-953 | every appended cell is one of the stripped cells |
| Tables.NonEmpty | main.py:952 | the non-empty cells hold no empty cell |
| Tables.KeptLastLine | main.py:952 | on the table's last line only the non-empty cells are kept |
| Tables.KeptMidTable | main.py:952 | on any other line every cell from the first non-empty one on is kept |
| Tables.KeptMidPrefix | main.py:952 | the same, for every prefix of the cells the loop has walked |
| Tables.DropLeadingEmpty | main.py:956-957 | the `pop(0)` loop leaves the cells from the first non-empty one on |
| Tables.DropTrailingEmpty | main.py:958-959 | the `pop()` loop leaves the cells up to the last non-empty one |
| Tables.StripEmptyEnds | main.py:955-959 | the two loops together give the trimmed cells |
| Tables.KeepCells | main.py:948-953 | the cell loop appends exactly the kept stripped cells |
| Tables.ParseRow | main.py:947-959 | the row parse equals its specification `RowCells` |
| Tables.StripAllShape | main.py:947-951 | every stripped cell is free of `\|` and of outer whitespace |
| Tables.TrimElements | main.py:955-959 | trimming keeps only cells that were there |
| Tables.RowCellsShape | main.py:947-961 | a parsed row is empty or a proper row: non-empty first and last cell, every cell stripped and free of `\|` |
| Tables.TrimNonEmpty | main.py:955-959 | cells with no empty one are not trimmed |
| Tables.RowCells | main.py:947-959 | the cells of one table line; its properties are stated by `RowCellsShape`, `LastRowCells`, `MidRowCells`, `InteriorEmptyCell` and `ParseRow` |
| Tables.LastRowCells | main.py:947-959 | the last line's row is its non-empty stripped cells |
| Tables.MidRowCells | main.py:947-959 | any other line's row is its stripped cells with the empty ends trimmed |
| Tables.LineCells | main.py:942-959 | a blank line gives no cells; any other line gives an empty or proper row |
| Tables.KeepRows | main.py:961-962 | the non-empty parses, in order; its properties are stated by `KeepRowsCount` and `KeepRowsSound` |
| Tables.KeepRowsCount | main.py:961-962 | no more rows than lines |
| Tables.KeepRowsSound | main.py:961-962 | no row is kept exactly when every parse is empty; each kept row is non-empty and one of the parses |
| Tables.TableData | main.py:941-963 | `table_data`; its properties are stated by `TableDataShape`, `ParseTableData` and `FallbackIff` |
| Tables.TableDataShape | main.py:941-963 | `table_data` has at most one row per line and every row is a proper row |
| Tables.ParseTableData | main.py:941-963 | the parsing loop computes `table_data` as specified |
| Tables.MaxRowLength | main.py:973 | `cols` is at least every row's length and equal to some row's, and 0 for no rows |
| Tables.CellText | main.py:995 | the text written into a cell; its properties are stated by `CellTextClean` and `GridCellsClean` |
| Tables.CellTextClean | main.py:995 | a cleaned cell holds no newline and no carriage return, keeps its `\|` count, and a cell with neither is unchanged |
| Tables.Grid | main.py:977-1000 | the table has one row per data row and `cols` cells in each |
| Tables.FillTable | main.py:971-1000 | the fill loops produce the specified grid: cell (i, j) is row i's cleaned j-th cell, or empty past its end |
| Tables.AddParagraphs | main.py:967-968 | the fallback loop adds exactly those paragraphs |
| Tables.TableBlocks | main.py:965-1002 | the blocks `create_word_table` adds; its properties are stated by `CreateWordTable`, `TableHasCells`, `FallbackIff`, `ParagraphsOfLines` and `TableBlocksShape` |
| Tables.CreateWordTable | main.py:931-1003 | `create_word_table` adds exactly the specified blocks |
| Tables.TableHasCells | main.py:971-977 | when some row is left, there are between 1 and \|lines\| rows and at least one column, so the invalid-dimensions branch is never taken |
| Tables.FallbackIff | main.py:965-969 | the table lines become plain paragraphs exactly when no line parses to a row |
| Tables.GridCellsClean | main.py:989-996 | no table cell holds `\|`, a newline or a carriage return |
| Tables.GridWellFormed | main.py:977-1000 | a built table is rectangular, at least 1 × 1, with clean cells |
| Tables.ParagraphsOfLines | main.py:965-969 | every fallback block is a paragraph holding one of the table lines |
| Tables.TableBlocksShape | main.py:931-1003 | every block the table code adds is the spacing paragraph, a paragraph holding one of its lines, or a well-formed table |
| Tables.ExampleSplit | main.py:947 | `\|a\|\|c\|` splits into five parts, three of them empty |
| Tables.StripAllStripped | main.py:951 | already stripped cells are kept as they are |
| Tables.ExampleStrip | main.py:951 | stripping the parts of `\|a\|\|c\|` changes nothing |
| Tables.ExampleTrim | main.py:955-959 | trimming keeps the interior empty cell of `\|a\|\|c\|` |
| Tables.ExampleNonEmpty | main.py:952 | on a last line the interior empty cell of `\|a\|\|c\|` is dropped |
| Tables.InteriorEmptyCell | main.py:947-959 | `\|a\|\|c\|` parses to `a, "", c` inside a table and to `a, c` as its last line |
| Export.IsTableRow | main.py:891 | the table-row test; its properties are stated by `TableRowIffTwoPipes` and `RowExamples` |
| Export.TableRowIffTwoPipes | main.py:891 | the table-row test holds exactly when the line has at least two `\|` |
| Export.IsSeparator | main.py:900-901 | the separator match on a stripped line; its properties are stated by `SeparatorHasTwoPipes` and `SeparatorExamples` |
| Export.SeparatorHasTwoPipes | main.py:898-901 | a separator has exactly two `\|` and passes the table-row test |
| Export.RowExamples | main.py:891 | `\|a\|` and `\|\|` are table rows; `a\|b` and `x` are not |
| Export.SeparatorExamples | main.py:900-901 | `\|---\|` is a separator; `\|---\|---\|` is not |
| Export.RunEnd | main.py:896-905 | the run stops at the first line after it that is not a table row, and every line in it is one |
| Export.RunData | main.py:896-905 | `table_lines` after the inner loop; its properties are stated by `RunDataFrom`, `RunDataSeparators` and `CollectTableLines` |
| Export.RunDataFrom | main.py:897-902 | every collected table line is a stripped line of the run |
| Export.RunDataSeparators | main.py:898-902 | a run of separators collects nothing |
| Export.CollectTableLines | main.py:892-905 | the inner loop stops at the run's end, having collected its non-separator lines |
| Export.SegmentFrom | main.py:884-917 | the blocks the loop adds from a line on; its properties are stated by `ExportLine`, `SegmentHead`, `SegmentShape`, `ParagraphsStripped` and `SeparatorsBecomeParagraphs` |
| Export.Segment | main.py:866-917 | the blocks exported for a text; its properties are stated by `Converter.ExportWithPythonDocx`, `SegmentShape` and `ParagraphsStripped` |
| Export.ExportLine | main.py:885-917 | one turn of the loop adds the blocks the segmentation specifies and moves strictly forward |
| Export.Converter.ExportWithPythonDocx | main.py:866-917 | the export loop adds exactly the specified blocks for the stored text |
| Export.Converter.OnConversionFinished | main.py:824-826 | the stored text is the formula rewrite of the text received |
| Export.Converter.constructor | main.py:656 | the converter starts with an empty text |
| Export.SegmentHead | main.py:884-917 | each loop turn's blocks are ones the export may emit |
| Export.TableEmitted | main.py:907-910 | a run's table blocks are the spacing paragraph, stripped lines of the run or well-formed tables |
| Export.SegmentShape | main.py:884-917 | the export invents no text: every paragraph is empty spacing or a stripped input line, and every table is well-formed |
| Export.ParagraphsStripped | main.py:885-916 | every exported paragraph is stripped |
| Export.LineParagraphs | main.py:911-913 | reference: one paragraph per remaining line |
| Export.SeparatorsBecomeParagraphs | main.py:891-913 | when every line of the run starting at a line is a separator, each line of the run becomes its own paragraph, in order, and the segmentation resumes after the run |

## Left out

- The Qt user interface: windows, tabs, dialogs, progress bars, status labels, buttons and message boxes. It has no effect on the text.
- The conversion threads and the calls to the Gemini model that produce the text. The text they return is a parameter of `OnConversionFinished`.
- Reading and saving the API key, reading PDFs and images, writing files, `doc.save` and the pandoc export path. These are I/O.
- The `Converted Document` heading and the optional `Original Images` section that `export_with_python_docx` adds before the loop. They depend on image files and not on the text.
- The image tab's handler at main.py:509 stores the rewritten text in the same way as main.py:826. Both are modelled by `Export.Converter.OnConversionFinished`.
- The `print` logging in the export and table code. It does not change the document.
- `table.style = 'Table Grid'` and the python-docx objects themselves. A table is modelled by its cell texts.
- The `except` branches of `create_word_table`, for the whole table and for one cell. They catch failures of python-docx, which is not part of this model.
- The row and column overflow warnings in the fill loops. The table is sized from the data, so they cannot fire (`Tables.Grid`, `Tables.FillTable`).
- The `Invalid table dimensions` branch. It cannot be taken, as `Tables.TableHasCells` proves.
- Formulas.DigitRunMaximal: Python's `\d` matches every Unicode decimal digit; the model matches ASCII `0`–`9` only.
- `setup.py` and the packaging. They hold no program logic.
