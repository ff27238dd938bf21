# CsvTable in Dafny

A model of the core of the PHP library `CsvTable`. The library reads CSV text into a header
row and data rows, and renders the table in one of these ways:

- back to CSV (the default renderer);
- as a plain text table (`renderTable`);
- as a padded Markdown table (the `Markdown` class);
- through any callable the caller supplies.

The model has three modules:

- `Php` (`Php.dfy`): the PHP features the code relies on, written out over strings of bytes.
  These are `empty()`, the array union `+`, `str_repeat`, `str_pad`, `implode` and string
  building with `.=`, together with the lemmas about them that the proofs use. `Explode`, a
  model of `explode`, is there only to state how the rendered output splits into lines.
- `CsvTables` (`CsvTables.dfy`): the `CsvTable` class. It is a Dafny `class` with the PHP
  object's fields; `hasHeader`, `noHeader` and `parse` update them in place, and the
  `parse` loop appends one record per step. It also holds the CSV renderer (a method with the
  `foreach` loop of `renderCsv`) and the plain table renderer (a function; the PHP is one
  expression).
  - PHP's `fgetcsv` and `fputcsv` are the two functions of a `Codec` value. The model assumes
    nothing about them.
  - The round-trip lemma takes "the writer's output reads back as the same records" as a
    hypothesis, and proves that the table logic around the codec loses nothing.
- `MarkdownTables` (`MarkdownTables.dfy`): the `Markdown` class with its constructor and its
  loops (`createRow`, `createHeaderSeparator`, `createRows`, `getColWidths`). Each method is
  proved equal to a specification function.
  - A rendered line is described as `Framed(sep, segments)`: the separator, one segment per
    column each ending in the separator, then a newline.
  - The layout lemmas are stated about these lines:
    - every line has the same length;
    - column separators sit at the same offsets in every line;
    - each cell is padded to exactly its column's width;
    - each record is exactly one line of output;
    - the line-break replacement turns each `\n`, `\r` and `\r\n` into one `<br />`, and is
      idempotent.

Some behaviours of the code that the model keeps:

- Line breaks inside Markdown cells become `<br />`.
- A renderer that cannot be called makes `render` fail with `Renderer must be callable`.
- The Markdown renderer takes its column count from the first data row, and 0 when there are
  no rows. It assumes every row and the header are that wide (the comment at
  `Markdown.php:67`). With a column count of 0 and something to draw, `createRow` fails; the
  model returns that failure as a `Result`.
- The only Markdown option is `column_separator`. Rows always end in `\n`.

## Model

| member | source | states |
|---|---|---|
| Php.ArrayUnion | CsvTable.php:146-150 | `$options += defaults` keeps every caller key with its value and adds only the missing default keys |
| Php.StrPad | Markdown.php:115 | `str_pad` pads on the right with spaces up to the width, and a longer string is kept whole, never truncated |
| Php.StrRepeat | Markdown.php:134 | `str_repeat('-', n)` is exactly `n` dashes |
| CsvTables.SplitHeaderKeepsRecords | CsvTable.php:173-174 | the header (when the flag is on and there is a record) followed by the rows is exactly the record list, in order |
| CsvTables.SplitHeaderNonEmptyRecords | CsvTable.php:173-174 | when no record is empty, a non-empty header followed by the rows is the record list, whatever the flag |
| CsvTables.RenderCsv | CsvTable.php:190-209 | the output is the encoded header only when it is non-empty, then every row encoded, in order; an empty table gives "" |
| CsvTables.CsvTextKeepsRecords | CsvTable.php:190-209 | the CSV text of a split record list is the encoding of all the records in order, in both header modes |
| CsvTables.RenderedCsvReparses | CsvTable.php:158-209 | if the writer's output reads back as the same records, decoding the rendered CSV gives back the same header and rows; so does parsing it unless `empty()` rejects the text ("" or "0"), in which case a table with records does not come back |
| CsvTables.RowLinesSplit | CsvTable.php:231-233 | the rows part of the plain table splits at newlines into exactly one line per row, its cells joined by a vertical bar |
| CsvTables.HeadLinesSplit | CsvTable.php:223-226 | the header line and its dash line split off as two lines in front of the rest |
| CsvTables.RenderTableLines | CsvTable.php:222-234 | the plain table's lines are the header line and a dash line of exactly its length (if there is a header), then one line per row; an empty table gives "" |
| CsvTables.RenderOptionsMerge | CsvTable.php:146-150 | the options passed on keep every caller key, and take separator, enclosure and escape from the table only where the caller gave none |
| CsvTables.CsvTable.constructor | CsvTable.php:46-51 | the text and dialect are stored (defaults `,`, `"`, `\`), the header flag is on, and header and rows are the split of the parsed records |
| CsvTables.CsvTable.HasHeader | CsvTable.php:78-82 | turns the flag on and re-parses: the first record becomes the header and the rest the rows |
| CsvTables.CsvTable.NoHeader | CsvTable.php:89-93 | turns the flag off and re-parses: no header, and every record is a row |
| CsvTables.CsvTable.Parse | CsvTable.php:158-175 | reads the records in order; an empty text (null, "" or "0") gives no records; splits off the header as the flag says |
| CsvTables.CsvTable.Render | CsvTable.php:137-153 | a non-callable renderer fails with "Renderer must be callable"; otherwise the renderer gets the header, the rows and the merged options; with the defaults the output encodes every record the text holds |
| MarkdownTables.ProcessValue | Markdown.php:168-170 | the processed value holds no `\n` and no `\r` |
| MarkdownTables.ProcessValueKeepsPlainText | Markdown.php:168-170 | a value without line breaks is unchanged |
| MarkdownTables.ProcessValueIdempotent | Markdown.php:168-170 | processing twice is the same as processing once |
| MarkdownTables.ProcessValueAppend | Markdown.php:168-170 | text not ending in `\r` is processed independently of what follows it |
| MarkdownTables.CrLfIsOneBreak | Markdown.php:168-170 | `\r\n` becomes one `<br />`, not two |
| MarkdownTables.LfIsOneBreak | Markdown.php:168-170 | a lone `\n` becomes one `<br />` |
| MarkdownTables.CrIsOneBreak | Markdown.php:168-170 | a lone `\r` (not followed by `\n`) becomes one `<br />` |
| MarkdownTables.ProcessCells | Markdown.php:60-64 | every cell of a row is replaced by its processed value, and the cell count is kept |
| MarkdownTables.ProcessRows | Markdown.php:62-64 | every row has its cells processed, and the row count is kept |
| MarkdownTables.ColumnSeparator | Markdown.php:65 | the separator in effect is the caller's `column_separator`, else a vertical bar |
| MarkdownTables.ColCountAsWritten | Markdown.php:68 | the column count is the first data row's width, and 0 without rows |
| MarkdownTables.ColCount | Markdown.php:67-68 | the corrected column count: the first data row's width, or the header's without rows |
| MarkdownTables.TableWidths | Markdown.php:181-191 | for a shaped table there is one width per column of the first row, or one per header cell without rows |
| MarkdownTables.RenderOutcome | Markdown.php:85-123 | `render` fails exactly when there is something to draw and the first row has no cells (a header without rows, or rows without cells); otherwise it returns the table's text |
| MarkdownTables.ColumnWidthBounds | Markdown.php:181-191 | a column's width is at least the length of every cell in that column |
| MarkdownTables.ColumnWidthAttained | Markdown.php:181-191 | a column's width is 0 or the length of one of its cells |
| MarkdownTables.HeaderOnlyAsWritten | Markdown.php:68 | as written, a header without rows gives `colCount` 0, so `createRow` reads key -1, which neither the header nor the widths (one per header cell) have, and `render` fails |
| MarkdownTables.HeaderOnlyRenders | Markdown.php:96-100 | with the corrected column count, a header without rows renders as the header row and its separator line, each column as wide as its header cell; that output is the table's text, so the layout lemmas cover it |
| MarkdownTables.RowLineLength | Markdown.php:111-123 | a row whose cells fit the widths is `sum(widths) + 3 * columns + 2` long (one-character separator) |
| MarkdownTables.RuleLineLength | Markdown.php:128-144 | the header separator line is exactly as long as every row line |
| MarkdownTables.ColumnsAligned | Markdown.php:111-144 | the `k`-th column separator starts at the same offset in every fitting row and in the header separator |
| MarkdownTables.RowCellAt | Markdown.php:111-123 | column `k` of a row holds its cell padded to exactly the column's width, right after the separator and a space |
| MarkdownTables.RuleDashesAt | Markdown.php:128-144 | column `k` of the header separator is a run of exactly `width + 2` dashes |
| MarkdownTables.TableTextIsLines | Markdown.php:96-100 | the rendered table is its lines concatenated: header row and separator (if there is a header), then one line per row |
| MarkdownTables.TableLinesWidth | Markdown.php:96-100 | all lines of a table whose cells fit have the same length |
| MarkdownTables.TableLinesAligned | Markdown.php:96-100 | every line of such a table has its `k`-th separator at the same offset |
| MarkdownTables.TableLayout | Markdown.php:96-100 | a fitting table is its lines, all of equal length, so its length is lines times line width |
| MarkdownTables.ProcessedCellsFit | Markdown.php:69 | the widths computed over the processed header and rows fit every processed cell |
| MarkdownTables.MarkdownLayout | Markdown.php:85-100 | the table's text (what `render` returns when it succeeds) is one line per row plus two header lines, all of equal length; an empty table gives "" |
| MarkdownTables.MarkdownColumnsAligned | Markdown.php:85-144 | in the table's text every column separator lines up across all lines |
| MarkdownTables.MarkdownOneLinePerRecord | Markdown.php:85-170 | splitting the table's text at newlines gives back its lines: no cell spills over a line |
| MarkdownTables.Markdown.constructor | Markdown.php:59-70 | cells are processed, caller options win over the default separator (a vertical bar), the column count is the first row's width (0 without rows), and the widths are computed over header and rows |
| MarkdownTables.Markdown.Render | Markdown.php:85-88 | the result is the table's text, or the `str_pad` type error when the column count is 0 and there is something to draw |
| MarkdownTables.Markdown.RenderTable | Markdown.php:96-100 | header row and separator when the header is non-empty, then the rows; it fails with the first failing `createRow` |
| MarkdownTables.Markdown.CreateRow | Markdown.php:111-123 | the loop builds exactly the framed row line of padded cells; with a column count of 0 the read of key -1 fails |
| MarkdownTables.Markdown.CreateHeaderSeparator | Markdown.php:128-144 | the loop builds exactly the framed line of dash runs |
| MarkdownTables.Markdown.CreateRows | Markdown.php:155-163 | the loop builds every row line, in order, or fails when there is a row and the column count is 0 |
| MarkdownTables.Markdown.GetColWidths | Markdown.php:181-191 | the nested loops compute, for each column, the running maximum of its cell lengths over all rows, starting from `colCount` zero widths and adding a width for each cell past the end |
| CsvTables.SplitHeader | CsvTable.php:173-174 | with the flag on and a record, the header and the rows make up the records; otherwise there is no header and every record is a row |
| CsvTables.CsvText | CsvTable.php:190-209 | defines the CSV renderer's output (the encoded header when non-empty, then each encoded row); `RenderCsv` and `CsvTextKeepsRecords` state its properties |
| CsvTables.RenderTable | CsvTable.php:222-234 | defines the plain table: the bar-joined header, a dash line of its length, then the bar-joined rows joined by newlines; `RenderTableLines` states its lines |
| Php.IsEmpty | CsvTable.php:161 | PHP's `empty()` on a nullable string: true for null, "" and "0" |
| Php.Implode | CsvTable.php:224-232 | `implode` gives "" for no parts, and otherwise starts with the first part and ends with the last; `ExplodeImplode` proves that splitting at the glue gives the parts back when no part holds the glue |
| CsvTables.ParsedRecords | CsvTable.php:158-171 | the records `parse` reads: none for a text `empty()` rejects (null, "" or "0"), otherwise everything the reader yields, in order; `CsvTable.Parse` and `RenderedCsvReparses` state its effect on the table |
| CsvTables.DialectOf | CsvTable.php:196-200 | the dialect `renderCsv` passes to the writer: the `separator`, `enclosure` and `escape` options, a missing one reading as ""; `RenderOptionsMerge` proves that after `render`'s merge each is the caller's value or else the table's own |

## Left out

- The quoting rules of `fgetcsv` and `fputcsv` are PHP built-ins. They are the uninterpreted functions of `Codec`.
- CsvTables.RenderedCsvReparses takes the codec round trip as a hypothesis rather than proving it.
- CsvTables.CsvTable.Parse: assumes the `php://memory` stream opens. The branch where `fopen` fails, which leaves no records, is not modelled.
- CsvTables.RenderCsv: assumes the `php://temp` stream opens. Its 5 MB in-memory limit is transparent to the output.
- `fromFile` is not part of this model: it reads the file system and throws when the file is unreadable.
- `getHeader` and `getRows` only return fields. The model's `header` and `rows` fields are readable directly.
- CsvTables.CsvTable.Render:
  - The caller classifies the renderer argument. A falsy value selects `DefaultCsv`. A callable, or a class name resolved to that class's static `render`, is `Callable`. Anything else is `NotCallable`.
  - PHP's `class_exists` and `is_callable` lookups are not modelled.
- Option values are typed `mixed` in PHP. The model takes them as strings, so the `(string)` casts in `renderCsv` are the identity. A missing dialect key reads as "".
- CsvTables.Codec: `fgetcsv` and `fputcsv` throw a `ValueError` when the separator or the enclosure is not exactly one character, or the escape is longer than one. That includes the "" a missing key reads as. The model's codec is total and does not capture this error.
- CsvTables.Record: cells are strings. For a blank line, `fgetcsv` returns a record holding one null cell, which the model cannot hold. In PHP that null makes the Markdown renderer's `processValue(string)` throw a `TypeError`.
- MarkdownTables.Markdown.constructor:
  - Requires the shape the code assumes (`Markdown.php:67`): the header is empty or as wide as the first row, and every row is as wide as the first.
  - Ragged input is not modelled. A header or row wider than the first row only adds widths (with warnings for undefined keys), and its extra cells are dropped from the output. A row narrower than the first row makes `createRow` read undefined keys and pass null to `str_pad`, which strict types reject.
- MarkdownTables.Markdown.GetColWidths: a width created by a cell past `colCount` holds the cell's length. PHP stores null there when that cell is empty, because `max` returns the first of equal values. That only happens for a header without rows, where rendering fails anyway.
- MarkdownTables.Markdown.CreateHeaderSeparator: requires at least one column. Its only caller reaches it after `createRow` has succeeded, which needs one.
- MarkdownTables.ProcessValue: does not model `preg_replace` returning null on a PCRE failure. With this pattern and no `u` flag that does not occur.
- Strings are byte sequences, so `strlen` and `str_pad` count bytes. A multi-byte UTF-8 cell is padded by its byte length, as in PHP.

## Findings

| source | as written | input that shows it | evidently intended | confidence | as-written member | corrected member |
|---|---|---|---|---|---|---|
| Markdown.php:68 | `colCount` is the first data row's width, and 0 when there are no data rows, even with a header | header `["a"]` and no rows, such as a CSV text holding only a header line rendered with `Markdown::class`: `createRow` reads key -1 of the header and of the widths and passes null to `str_pad`, a `TypeError` under strict types | take the header's width when there are no rows, so the header row and its separator render | medium, not executed | MarkdownTables.HeaderOnlyAsWritten | MarkdownTables.HeaderOnlyRenders |
