/**
 * The fixed-width Markdown table renderer: line breaks inside cells become `<br />`,
 * every column is padded to the widest cell it holds, and the header is followed by a
 * separator line of dashes.
 *
 * A rendered line is described here as `Framed(sep, segments)`: the column separator, then
 * one segment per column, each ending with the separator, then a newline. The renderer's
 * loops are proved to build exactly these lines, and the layout lemmas (equal lengths,
 * aligned separators, one line per record) are stated about them.
 */
module MarkdownTables {
  import opened Php

  /** What a line break inside a cell becomes. */
  const LineBreakTag := "<br />"

  /** The options the constructor adds when the caller's options lack them. */
  const DefaultOptions := map["column_separator" := "|"]

  /** Whether `value` starts with the two-character break `\r\n`. */
  predicate StartsWithCrLf(value: string)
  {
    |value| >= 2 && value[0] == '\r' && value[1] == '\n'
  }

  /** How many characters the first replacement step consumes. */
  function StepLength(value: string): nat
  {
    if StartsWithCrLf(value) then 2 else 1
  }

  /** What the first replacement step emits: the tag for a line break, else the character. */
  function StepOutput(value: string): string
    requires value != []
  {
    if value[0] == '\n' || value[0] == '\r' then LineBreakTag else [value[0]]
  }

  /**
   * `processValue`: replaces each line break, `\r\n` taken as one unit, `\n` or `\r`,
   * with `<br />`, so that no line break is left.
   */
  function ProcessValue(value: string): (r: string)
    ensures '\n' !in r && '\r' !in r
    decreases |value|
  {
    if value == [] then "" else StepOutput(value) + ProcessValue(value[StepLength(value)..])
  }

  /** A value without line breaks is left as it is. */
  lemma {:induction false} ProcessValueKeepsPlainText(value: string)
    requires '\n' !in value && '\r' !in value
    ensures ProcessValue(value) == value
    decreases |value|
  {
    if value != [] {
      ProcessValueKeepsPlainText(value[1..]);
      assert [value[0]] + value[1..] == value;
    }
  }

  /** Processing twice is processing once. */
  lemma ProcessValueIdempotent(value: string)
    ensures ProcessValue(ProcessValue(value)) == ProcessValue(value)
  {
    ProcessValueKeepsPlainText(ProcessValue(value));
  }

  /** The first step sees the same characters in `a + b` as in `a`, when `a` does not end in `\r`. */
  lemma StepOfAppend(a: string, b: string)
    requires a != [] && a[|a| - 1] != '\r'
    ensures a + b != []
    ensures StepLength(a + b) == StepLength(a) <= |a|
    ensures StepOutput(a + b) == StepOutput(a)
    ensures (a + b)[StepLength(a)..] == a[StepLength(a)..] + b
  {
    var ab := a + b;
    assert ab[0] == a[0];
    if |a| >= 2 {
      assert ab[1] == a[1];
    }
  }

  /** Text that does not end in `\r` is processed independently of what follows it. */
  lemma {:induction false} ProcessValueAppend(a: string, b: string)
    requires a == [] || a[|a| - 1] != '\r'
    ensures ProcessValue(a + b) == ProcessValue(a) + ProcessValue(b)
    decreases |a|
  {
    if a == [] {
      assert a + b == b;
    } else {
      var n := StepLength(a);
      var x, y, z := StepOutput(a), ProcessValue(a[n..]), ProcessValue(b);
      assert ProcessValue(a + b) == x + ProcessValue(a[n..] + b) by {
        StepOfAppend(a, b);
      }
      ProcessValueAppend(a[n..], b);
      AppendAssoc(x, y, z);
    }
  }

  /** A `\r\n` pair becomes a single `<br />`, not two. */
  lemma CrLfIsOneBreak(a: string, b: string)
    requires a == [] || a[|a| - 1] != '\r'
    ensures ProcessValue(a + "\r\n" + b) == ProcessValue(a) + LineBreakTag + ProcessValue(b)
  {
    var rest := "\r\n" + b;
    AppendAssoc(a, "\r\n", b);
    ProcessValueAppend(a, rest);
    assert ProcessValue(rest) == LineBreakTag + ProcessValue(b) by {
      assert StartsWithCrLf(rest) && rest[2..] == b;
    }
    AppendAssoc(ProcessValue(a), LineBreakTag, ProcessValue(b));
  }

  /** A lone `\n` becomes one `<br />`. */
  lemma LfIsOneBreak(a: string, b: string)
    requires a == [] || a[|a| - 1] != '\r'
    ensures ProcessValue(a + "\n" + b) == ProcessValue(a) + LineBreakTag + ProcessValue(b)
  {
    var rest := "\n" + b;
    AppendAssoc(a, "\n", b);
    ProcessValueAppend(a, rest);
    assert ProcessValue(rest) == LineBreakTag + ProcessValue(b) by {
      assert !StartsWithCrLf(rest) && rest[1..] == b;
    }
    AppendAssoc(ProcessValue(a), LineBreakTag, ProcessValue(b));
  }

  /** A lone `\r`, one not followed by `\n`, becomes one `<br />`. */
  lemma CrIsOneBreak(a: string, b: string)
    requires a == [] || a[|a| - 1] != '\r'
    requires b == [] || b[0] != '\n'
    ensures ProcessValue(a + "\r" + b) == ProcessValue(a) + LineBreakTag + ProcessValue(b)
  {
    var rest := "\r" + b;
    AppendAssoc(a, "\r", b);
    ProcessValueAppend(a, rest);
    assert ProcessValue(rest) == LineBreakTag + ProcessValue(b) by {
      assert !StartsWithCrLf(rest) && rest[1..] == b;
    }
    AppendAssoc(ProcessValue(a), LineBreakTag, ProcessValue(b));
  }

  /** `array_map(processValue, row)`. */
  function ProcessCells(row: seq<string>): (r: seq<string>)
    ensures |r| == |row|
    ensures forall j :: 0 <= j < |row| ==> r[j] == ProcessValue(row[j])
  {
    seq(|row|, j requires 0 <= j < |row| => ProcessValue(row[j]))
  }

  /** Every row with its cells processed. */
  function ProcessRows(rows: seq<seq<string>>): (r: seq<seq<string>>)
    ensures |r| == |rows|
    ensures forall i :: 0 <= i < |rows| ==> r[i] == ProcessCells(rows[i])
  {
    seq(|rows|, i requires 0 <= i < |rows| => ProcessCells(rows[i]))
  }

  /**
   * The inputs the renderer is written for, where the header and every row have the same
   * number of cells: no data rows (with or without a header), or data rows that all have
   * as many cells as the first under a header that is empty or as wide.
   */
  predicate Shaped(header: seq<string>, rows: seq<seq<string>>)
  {
    || rows == []
    || (&& (forall i :: 0 <= i < |rows| ==> |rows[i]| == |rows[0]|)
        && (header == [] || |header| == |rows[0]|))
  }

  /** `colCount` as written: the width of the first data row, 0 with no rows; the header is not consulted. */
  function ColCountAsWritten(rows: seq<seq<string>>): nat
  {
    if |rows| > 0 then |rows[0]| else 0
  }

  /** `colCount`, corrected: the width of the first data row, or of the header when there are no rows. */
  function ColCount(header: seq<string>, rows: seq<seq<string>>): nat
  {
    if |rows| > 0 then |rows[0]| else |header|
  }

  /**
   * The message of the `TypeError` that `createRow` ends in when the column count is 0: it
   * reads the undefined key -1 of the row and of the widths, gets null for both, and
   * `str_pad` refuses null under strict types.
   */
  const NullPadMessage := "str_pad(): Argument #1 ($string) must be of type string, null given"

  function Max(a: nat, b: nat): nat
  {
    if a < b then b else a
  }

  /** The running maximum of the lengths of column `k` over the rows of `table`, in order. */
  function ColumnWidth(table: seq<seq<string>>, k: nat): nat
  {
    if table == [] then 0
    else
      var last := table[|table| - 1];
      Max(ColumnWidth(table[..|table| - 1], k), if k < |last| then |last[k]| else 0)
  }

  /**
   * How many widths `getColWidths` ends with: it starts with `n` and every cell past the
   * end creates the next one.
   */
  function Span(table: seq<seq<string>>, n: nat): nat
  {
    if table == [] then n else Max(Span(table[..|table| - 1], n), |table[|table| - 1]|)
  }

  lemma {:induction false} SpanAtLeast(table: seq<seq<string>>, n: nat)
    ensures Span(table, n) >= n
  {
    if table != [] {
      SpanAtLeast(table[..|table| - 1], n);
    }
  }

  lemma {:induction false} SpanAtMost(table: seq<seq<string>>, n: nat, w: nat)
    requires n <= w && forall i :: 0 <= i < |table| ==> |table[i]| <= w
    ensures Span(table, n) <= w
  {
    if table != [] {
      SpanAtMost(table[..|table| - 1], n, w);
    }
  }

  /** A column at or past the span holds no cell, so its width is 0. */
  lemma {:induction false} ColumnWidthPastSpan(table: seq<seq<string>>, n: nat, k: nat)
    requires k >= Span(table, n)
    ensures ColumnWidth(table, k) == 0
  {
    if table != [] {
      ColumnWidthPastSpan(table[..|table| - 1], n, k);
    }
  }

  /** The widths of the first `n` columns. */
  function Widths(table: seq<seq<string>>, n: nat): (w: seq<nat>)
    ensures |w| == n
    ensures forall k :: 0 <= k < n ==> w[k] == ColumnWidth(table, k)
  {
    seq(n, k requires 0 <= k < n => ColumnWidth(table, k))
  }

  /** A column's width is at least the length of every cell in it. */
  lemma {:induction false} ColumnWidthBounds(table: seq<seq<string>>, k: nat, i: nat)
    requires i < |table| && k < |table[i]|
    ensures |table[i][k]| <= ColumnWidth(table, k)
  {
    if i < |table| - 1 {
      ColumnWidthBounds(table[..|table| - 1], k, i);
    }
  }

  /** A column's width is 0 or the length of one of its cells. */
  lemma {:induction false} ColumnWidthAttained(table: seq<seq<string>>, k: nat)
    ensures || ColumnWidth(table, k) == 0
            || exists i :: 0 <= i < |table| && k < |table[i]| && |table[i][k]| == ColumnWidth(table, k)
  {
    if table != [] {
      var init := table[..|table| - 1];
      ColumnWidthAttained(init, k);
      var last := table[|table| - 1];
      if !(k < |last| && |last[k]| == ColumnWidth(table, k)) && ColumnWidth(table, k) != 0 {
        var i :| 0 <= i < |init| && k < |init[i]| && |init[i][k]| == ColumnWidth(init, k);
        assert table[i] == init[i];
      }
    }
  }

  /** Every cell of the row fits its column's width. */
  predicate Fits(row: seq<string>, widths: seq<nat>)
  {
    |row| >= |widths| && forall j :: 0 <= j < |widths| ==> |row[j]| <= widths[j]
  }

  /** A whole line: the separator, the segments, a newline. */
  function Framed(sep: string, segments: seq<string>): string
  {
    sep + Concat(segments) + "\n"
  }

  /** Column `j` of a row: a space, the cell padded to the width, a space, the separator. */
  function RowSegments(sep: string, row: seq<string>, widths: seq<nat>): (segs: seq<string>)
    requires |row| >= |widths|
    ensures |segs| == |widths|
    ensures forall j :: 0 <= j < |widths| ==> segs[j] == " " + StrPad(row[j], widths[j]) + " " + sep
  {
    seq(|widths|, j requires 0 <= j < |widths| => " " + StrPad(row[j], widths[j]) + " " + sep)
  }

  /** Column `j` of the header separator: `width + 2` dashes, then the separator. */
  function RuleSegments(sep: string, widths: seq<nat>): (segs: seq<string>)
    ensures |segs| == |widths|
    ensures forall j :: 0 <= j < |widths| ==> segs[j] == StrRepeat('-', widths[j] + 2) + sep
  {
    seq(|widths|, j requires 0 <= j < |widths| => StrRepeat('-', widths[j] + 2) + sep)
  }

  /** A rendered row. */
  function RowLine(sep: string, row: seq<string>, widths: seq<nat>): string
    requires |row| >= |widths|
  {
    Framed(sep, RowSegments(sep, row, widths))
  }

  /** The rendered header separator. */
  function RuleLine(sep: string, widths: seq<nat>): string
  {
    Framed(sep, RuleSegments(sep, widths))
  }

  /** `s` occurs in `line` starting at position `at`. */
  predicate OccursAt(line: string, s: string, at: nat)
  {
    at + |s| <= |line| && line[at..at + |s|] == s
  }

  /** The length every line of a table with these widths has, newline included. */
  function LineWidth(sep: string, widths: seq<nat>): (w: nat)
    ensures |sep| == 1 ==> w == Sum(widths) + 3 * |widths| + 2
  {
    Sum(widths) + 2 * |widths| + (|widths| + 1) * |sep| + 1
  }

  /** Where the `k`-th column separator starts in every line. */
  function Boundary(sep: string, widths: seq<nat>, k: nat): nat
    requires k <= |widths|
  {
    Sum(widths[..k]) + k * (|sep| + 2)
  }

  /** How many lines a table has: one per row, and two more for a header. */
  function LineCount(header: seq<string>, rows: seq<seq<string>>): nat
  {
    |rows| + if header == [] then 0 else 2
  }

  /** Line `i` of a table: the header row and separator when there is a header, then the rows. */
  function TableLine(sep: string, header: seq<string>, rows: seq<seq<string>>, widths: seq<nat>, i: nat): string
    requires header == [] || |header| >= |widths|
    requires forall i :: 0 <= i < |rows| ==> |rows[i]| >= |widths|
    requires i < LineCount(header, rows)
  {
    if header == [] then RowLine(sep, rows[i], widths)
    else if i == 0 then RowLine(sep, header, widths)
    else if i == 1 then RuleLine(sep, widths)
    else RowLine(sep, rows[i - 2], widths)
  }

  /** The lines of a table, in order. */
  function TableLines(sep: string, header: seq<string>, rows: seq<seq<string>>, widths: seq<nat>): (lines: seq<string>)
    requires header == [] || |header| >= |widths|
    requires forall i :: 0 <= i < |rows| ==> |rows[i]| >= |widths|
    ensures |lines| == LineCount(header, rows)
  {
    seq(LineCount(header, rows), i requires 0 <= i < LineCount(header, rows) => TableLine(sep, header, rows, widths, i))
  }

  /** The rendered data rows, one line each. */
  function RowsText(sep: string, rows: seq<seq<string>>, widths: seq<nat>): string
    requires forall i :: 0 <= i < |rows| ==> |rows[i]| >= |widths|
  {
    Concat(RowLines(sep, rows, widths))
  }

  /** One rendered line per row. */
  function RowLines(sep: string, rows: seq<seq<string>>, widths: seq<nat>): (lines: seq<string>)
    requires forall i :: 0 <= i < |rows| ==> |rows[i]| >= |widths|
    ensures |lines| == |rows|
    ensures forall i :: 0 <= i < |rows| ==> lines[i] == RowLine(sep, rows[i], widths)
  {
    seq(|rows|, i requires 0 <= i < |rows| => RowLine(sep, rows[i], widths))
  }

  /** `renderTable`: header row and separator when the header is non-empty, then the rows. */
  function TableText(sep: string, header: seq<string>, rows: seq<seq<string>>, widths: seq<nat>): string
    requires header == [] || |header| >= |widths|
    requires forall i :: 0 <= i < |rows| ==> |rows[i]| >= |widths|
  {
    (if header != [] then RowLine(sep, header, widths) + RuleLine(sep, widths) else "")
    + RowsText(sep, rows, widths)
  }

  /** The column separator in effect: the caller's, or "|". */
  function ColumnSeparator(options: map<string, string>): string
  {
    ArrayUnion(options, DefaultOptions)["column_separator"]
  }

  /**
   * The column widths the renderer computes for a table: one per column of the first row,
   * or, with no rows, one per header cell (the header's cells create them).
   */
  function TableWidths(header: seq<string>, rows: seq<seq<string>>): (w: seq<nat>)
    ensures Shaped(header, rows) ==> |w| == if |rows| > 0 then |rows[0]| else |header|
  {
    var table := [ProcessCells(header)] + ProcessRows(rows);
    ShapedSpan(header, rows);
    Widths(table, Span(table, ColCountAsWritten(rows)))
  }

  /** For a shaped table, the widths reach as far as the first row, or as the header without rows. */
  lemma ShapedSpan(header: seq<string>, rows: seq<seq<string>>)
    ensures var table := [ProcessCells(header)] + ProcessRows(rows);
            Shaped(header, rows) ==> Span(table, ColCountAsWritten(rows)) == if |rows| > 0 then |rows[0]| else |header|
  {
    var table := [ProcessCells(header)] + ProcessRows(rows);
    if Shaped(header, rows) {
      if rows == [] {
        assert table[..0] == [];
      } else {
        var c := |rows[0]|;
        SpanAtLeast(table, c);
        assert forall i :: 0 <= i < |table| ==> |table[i]| <= c by {
          forall i | 0 <= i < |table|
            ensures |table[i]| <= c
          {
            if i > 0 {
              assert table[i] == ProcessCells(rows[i - 1]);
            }
          }
        }
        SpanAtMost(table, c, c);
      }
    }
  }

  /**
   * What `renderTable` returns, or how it fails: with a column count of 0, the first
   * `createRow` call (for the header, else for the first row) throws.
   */
  function TableResult(sep: string, header: seq<string>, rows: seq<seq<string>>, widths: seq<nat>,
                       colCount: nat): Result<string>
    requires header == [] || |header| >= |widths|
    requires forall i :: 0 <= i < |rows| ==> |rows[i]| >= |widths|
  {
    if colCount == 0 && (header != [] || rows != []) then Failure(NullPadMessage)
    else Ok(TableText(sep, header, rows, widths))
  }

  /** What `Markdown::render` returns, or how it fails. */
  function MarkdownResult(header: seq<string>, rows: seq<seq<string>>, options: map<string, string>): Result<string>
    requires Shaped(header, rows)
  {
    TableResult(ColumnSeparator(options), ProcessCells(header), ProcessRows(rows), TableWidths(header, rows),
                ColCountAsWritten(rows))
  }

  /**
   * `render` fails exactly when there is something to draw but the first row has no cells
   * (a header without rows, or rows without cells); otherwise it returns the table's text.
   */
  lemma RenderOutcome(header: seq<string>, rows: seq<seq<string>>, options: map<string, string>)
    requires Shaped(header, rows)
    ensures MarkdownResult(header, rows, options).Failure? <==>
            (header != [] || rows != []) && (rows == [] || rows[0] == [])
    ensures MarkdownResult(header, rows, options).Ok? ==>
            MarkdownResult(header, rows, options).value == MarkdownText(header, rows, options)
  {
  }

  /**
   * With a header and no data rows, `colCount` as written is 0, so the last cell `createRow`
   * reads from the header, at index `colCount - 1`, is -1: a key that neither the header nor
   * the widths (one per header cell) have, and `render` fails.
   */
  lemma HeaderOnlyAsWritten(header: seq<string>, options: map<string, string>)
    requires header != []
    ensures var last := ColCountAsWritten([]) - 1;
            && last == -1
            && !(0 <= last < |header|)
            && !(0 <= last < |TableWidths(header, [])|)
            && MarkdownResult(header, [], options) == Failure(NullPadMessage)
  {
  }

  /**
   * The lines of a table's text. Where `render` succeeds this is its output; for a header
   * without rows it is what the corrected column count gives.
   */
  function MarkdownLines(header: seq<string>, rows: seq<seq<string>>, options: map<string, string>): seq<string>
    requires Shaped(header, rows)
  {
    TableLines(ColumnSeparator(options), ProcessCells(header), ProcessRows(rows), TableWidths(header, rows))
  }

  /** The text of a table: what `render` returns when it succeeds (see `RenderOutcome`). */
  function MarkdownText(header: seq<string>, rows: seq<seq<string>>, options: map<string, string>): string
    requires Shaped(header, rows)
  {
    TableText(ColumnSeparator(options), ProcessCells(header), ProcessRows(rows), TableWidths(header, rows))
  }

  // ---------------------------------------------------------------------------
  // Layout of a single line

  /** The separator starts at `Boundary(k)` in a framed line whose segments end with it. */
  lemma FramedBoundary(sep: string, segs: seq<string>, k: nat)
    requires k <= |segs|
    requires forall j :: 0 <= j < |segs| ==> EndsWith(segs[j], sep)
    ensures var b := |Concat(segs[..k])|;
            OccursAt(Framed(sep, segs), sep, b)
  {
    var line := Framed(sep, segs);
    var pre := Concat(segs[..k]);
    var lead := sep + pre;
    var rest := Concat(segs[k..]) + "\n";
    FramedSplit(sep, segs, k);
    assert OccursAt(lead + rest, sep, |pre|) by {
      LeadEndsWithSeparator(sep, segs, k);
      OccursBeforeAppend(lead, rest, sep);
    }
  }

  /** A framed line cut before segment `k`. */
  lemma FramedSplit(sep: string, segs: seq<string>, k: nat)
    requires k <= |segs|
    ensures Framed(sep, segs) == (sep + Concat(segs[..k])) + (Concat(segs[k..]) + "\n")
  {
    ConcatAppend(segs[..k], segs[k..]);
    assert segs[..k] + segs[k..] == segs;
  }

  /** A string ending with the separator still holds it there once more text follows. */
  lemma OccursBeforeAppend(lead: string, rest: string, sep: string)
    requires EndsWith(lead, sep)
    ensures OccursAt(lead + rest, sep, |lead| - |sep|)
  {
    var b := |lead| - |sep|;
    assert lead[b..|lead|] == lead[b..];
    SliceOfAppend(lead, rest, b, |lead|);
  }

  /** The separator and the first `k` segments end with the separator. */
  lemma LeadEndsWithSeparator(sep: string, segs: seq<string>, k: nat)
    requires k <= |segs|
    requires forall j :: 0 <= j < |segs| ==> EndsWith(segs[j], sep)
    ensures EndsWith(sep + Concat(segs[..k]), sep)
  {
    if k == 0 {
      assert segs[..k] == [];
      assert sep + Concat(segs[..k]) == sep;
    } else {
      var init := sep + Concat(segs[..k - 1]);
      var seg := segs[k - 1];
      assert sep + Concat(segs[..k]) == init + seg by {
        ConcatPrefixStep(segs, k - 1);
      }
      SuffixOfAppend(init, seg, |sep|);
    }
  }

  /** Segment `k` of a framed line starts right after the separator and the segments before it. */
  lemma FramedSegmentAt(sep: string, segs: seq<string>, k: nat)
    requires k < |segs|
    ensures var start := |sep| + |Concat(segs[..k])|;
            start + |segs[k]| <= |Framed(sep, segs)| && Framed(sep, segs)[start..start + |segs[k]|] == segs[k]
  {
    ConcatPartAt(segs, k);
    var c := Concat(segs);
    var start := |Concat(segs[..k])|;
    assert Framed(sep, segs) == sep + (c + "\n");
    assert (c + "\n")[start..start + |segs[k]|] == c[start..start + |segs[k]|];
  }

  lemma RowSegmentsLengths(sep: string, row: seq<string>, widths: seq<nat>)
    requires Fits(row, widths)
    ensures var segs := RowSegments(sep, row, widths);
            forall j :: 0 <= j < |segs| ==> |segs[j]| == widths[j] + (|sep| + 2) && EndsWith(segs[j], sep)
  {
    var segs := RowSegments(sep, row, widths);
    forall j | 0 <= j < |segs|
      ensures |segs[j]| == widths[j] + (|sep| + 2) && EndsWith(segs[j], sep)
    {
      var front := " " + StrPad(row[j], widths[j]) + " ";
      assert segs[j] == front + sep;
      assert (front + sep)[|front|..] == sep;
    }
  }

  lemma RuleSegmentsLengths(sep: string, widths: seq<nat>)
    ensures var segs := RuleSegments(sep, widths);
            forall j :: 0 <= j < |segs| ==> |segs[j]| == widths[j] + (|sep| + 2) && EndsWith(segs[j], sep)
  {
    var segs := RuleSegments(sep, widths);
    forall j | 0 <= j < |segs|
      ensures |segs[j]| == widths[j] + (|sep| + 2) && EndsWith(segs[j], sep)
    {
      var front := StrRepeat('-', widths[j] + 2);
      assert (front + sep)[|front|..] == sep;
    }
  }

  /** Segments of the right lengths make a framed line of `LineWidth`. */
  lemma FramedLength(sep: string, segs: seq<string>, widths: seq<nat>)
    requires |segs| == |widths|
    requires forall j :: 0 <= j < |segs| ==> |segs[j]| == widths[j] + (|sep| + 2)
    ensures |Framed(sep, segs)| == LineWidth(sep, widths)
  {
    ConcatLength(segs, widths, |sep| + 2);
    var n := |widths|;
    assert n * (|sep| + 2) == n * |sep| + 2 * n;
    assert (n + 1) * |sep| == n * |sep| + |sep|;
  }

  /** A row whose cells fit the widths is `LineWidth` long: padding never truncates. */
  lemma RowLineLength(sep: string, row: seq<string>, widths: seq<nat>)
    requires Fits(row, widths)
    ensures |RowLine(sep, row, widths)| == LineWidth(sep, widths)
  {
    RowSegmentsLengths(sep, row, widths);
    FramedLength(sep, RowSegments(sep, row, widths), widths);
  }

  /** The header separator is `LineWidth` long. */
  lemma RuleLineLength(sep: string, widths: seq<nat>)
    ensures |RuleLine(sep, widths)| == LineWidth(sep, widths)
  {
    RuleSegmentsLengths(sep, widths);
    FramedLength(sep, RuleSegments(sep, widths), widths);
  }

  /** The prefix of the segments before column `k` is `Boundary(k)` long. */
  lemma SegmentsPrefixLength(sep: string, segs: seq<string>, widths: seq<nat>, k: nat)
    requires |segs| == |widths| && k <= |widths|
    requires forall j :: 0 <= j < |segs| ==> |segs[j]| == widths[j] + (|sep| + 2)
    ensures |Concat(segs[..k])| == Boundary(sep, widths, k)
  {
    ConcatLength(segs[..k], widths[..k], |sep| + 2);
  }

  /**
   * The columns line up: the `k`-th column separator starts at `Boundary(k)` both in every
   * row whose cells fit and in the header separator.
   */
  lemma ColumnsAligned(sep: string, row: seq<string>, widths: seq<nat>, k: nat)
    requires Fits(row, widths) && k <= |widths|
    ensures var b := Boundary(sep, widths, k);
            && OccursAt(RowLine(sep, row, widths), sep, b)
            && OccursAt(RuleLine(sep, widths), sep, b)
  {
    var rowSegs, ruleSegs := RowSegments(sep, row, widths), RuleSegments(sep, widths);
    RowSegmentsLengths(sep, row, widths);
    RuleSegmentsLengths(sep, widths);
    SegmentsPrefixLength(sep, rowSegs, widths, k);
    SegmentsPrefixLength(sep, ruleSegs, widths, k);
    FramedBoundary(sep, rowSegs, k);
    FramedBoundary(sep, ruleSegs, k);
  }

  /** A slice of segment `k` is the same slice of the framed line, shifted to where the segment starts. */
  lemma FramedSlice(sep: string, segs: seq<string>, k: nat, i: nat, j: nat)
    requires k < |segs| && i <= j <= |segs[k]|
    ensures OccursAt(Framed(sep, segs), segs[k][i..j], |sep| + |Concat(segs[..k])| + i)
  {
    var start := |sep| + |Concat(segs[..k])|;
    FramedSegmentAt(sep, segs, k);
    SliceOfSlice(Framed(sep, segs), start, start + |segs[k]|, i, j);
  }

  /** Column `k` of a row holds its cell padded to exactly the column's width. */
  lemma RowCellAt(sep: string, row: seq<string>, widths: seq<nat>, k: nat)
    requires Fits(row, widths) && k < |widths|
    ensures |StrPad(row[k], widths[k])| == widths[k]
    ensures OccursAt(RowLine(sep, row, widths), StrPad(row[k], widths[k]), Boundary(sep, widths, k) + |sep| + 1)
  {
    var segs := RowSegments(sep, row, widths);
    RowPrefixLength(sep, row, widths, k);
    RowSegmentCell(sep, row, widths, k);
    FramedSlice(sep, segs, k, 1, 1 + widths[k]);
  }

  /** The row segments before column `k` are `Boundary(k)` long. */
  lemma RowPrefixLength(sep: string, row: seq<string>, widths: seq<nat>, k: nat)
    requires Fits(row, widths) && k < |widths|
    ensures |Concat(RowSegments(sep, row, widths)[..k])| == Boundary(sep, widths, k)
  {
    RowSegmentsLengths(sep, row, widths);
    SegmentsPrefixLength(sep, RowSegments(sep, row, widths), widths, k);
  }

  /** Segment `k` of a row holds the padded cell right after its leading space. */
  lemma RowSegmentCell(sep: string, row: seq<string>, widths: seq<nat>, k: nat)
    requires Fits(row, widths) && k < |widths|
    ensures 1 + widths[k] <= |RowSegments(sep, row, widths)[k]|
    ensures RowSegments(sep, row, widths)[k][1..1 + widths[k]] == StrPad(row[k], widths[k])
  {
    var pad := StrPad(row[k], widths[k]);
    var seg := RowSegments(sep, row, widths)[k];
    assert seg == " " + pad + " " + sep;
  }

  /** Column `k` of the header separator is a run of `width + 2` dashes. */
  lemma RuleDashesAt(sep: string, widths: seq<nat>, k: nat)
    requires k < |widths|
    ensures OccursAt(RuleLine(sep, widths), StrRepeat('-', widths[k] + 2), Boundary(sep, widths, k) + |sep|)
  {
    var segs := RuleSegments(sep, widths);
    RulePrefixLength(sep, widths, k);
    RuleSegmentDashes(sep, widths, k);
    FramedSlice(sep, segs, k, 0, widths[k] + 2);
  }

  /** The separator segments before column `k` are `Boundary(k)` long. */
  lemma RulePrefixLength(sep: string, widths: seq<nat>, k: nat)
    requires k < |widths|
    ensures |Concat(RuleSegments(sep, widths)[..k])| == Boundary(sep, widths, k)
  {
    RuleSegmentsLengths(sep, widths);
    SegmentsPrefixLength(sep, RuleSegments(sep, widths), widths, k);
  }

  /** Segment `k` of the header separator starts with its run of dashes. */
  lemma RuleSegmentDashes(sep: string, widths: seq<nat>, k: nat)
    requires k < |widths|
    ensures widths[k] + 2 <= |RuleSegments(sep, widths)[k]|
    ensures RuleSegments(sep, widths)[k][0..widths[k] + 2] == StrRepeat('-', widths[k] + 2)
  {
    var dashes := StrRepeat('-', widths[k] + 2);
    assert RuleSegments(sep, widths)[k] == dashes + sep;
  }

  /** A row of cells free of line breaks, under a separator free of them, is exactly one line. */
  lemma RowLineIsLine(sep: string, row: seq<string>, widths: seq<nat>)
    requires |row| >= |widths| && '\n' !in sep
    requires forall j :: 0 <= j < |widths| ==> '\n' !in row[j]
    ensures IsLine('\n', RowLine(sep, row, widths))
  {
    var segs := RowSegments(sep, row, widths);
    forall j | 0 <= j < |segs|
      ensures '\n' !in segs[j]
    {
      var pad := StrPad(row[j], widths[j]);
      assert forall i :: 0 <= i < |pad| ==> pad[i] != '\n' by {
        forall i | 0 <= i < |pad|
          ensures pad[i] != '\n'
        {
          if i < |row[j]| {
            assert pad[i] == pad[..|row[j]|][i];
          }
        }
      }
    }
    ConcatExcludes('\n', segs);
    var line := RowLine(sep, row, widths);
    assert line == (sep + Concat(segs)) + "\n";
    assert LineBody(line) == sep + Concat(segs);
  }

  /** The header separator, under a separator free of line breaks, is exactly one line. */
  lemma RuleLineIsLine(sep: string, widths: seq<nat>)
    requires '\n' !in sep
    ensures IsLine('\n', RuleLine(sep, widths))
  {
    var segs := RuleSegments(sep, widths);
    forall j | 0 <= j < |segs|
      ensures '\n' !in segs[j]
    {
      assert segs[j] == StrRepeat('-', widths[j] + 2) + sep;
    }
    ConcatExcludes('\n', segs);
    var line := RuleLine(sep, widths);
    assert line == (sep + Concat(segs)) + "\n";
    assert LineBody(line) == sep + Concat(segs);
  }

  // ---------------------------------------------------------------------------
  // Layout of a whole table

  /** After the header lines, line `j` of a table is row `j` minus their count. */
  lemma TableLineOfRow(sep: string, header: seq<string>, rows: seq<seq<string>>, widths: seq<nat>, j: nat)
    requires header == [] || |header| >= |widths|
    requires forall i :: 0 <= i < |rows| ==> |rows[i]| >= |widths|
    requires LineCount(header, []) <= j < LineCount(header, rows)
    ensures TableLine(sep, header, rows, widths, j) == RowLines(sep, rows, widths)[j - LineCount(header, [])]
  {
    var r := j - LineCount(header, []);
    assert r == if header == [] then j else j - 2;
    var line := RowLine(sep, rows[r], widths);
    assert RowLines(sep, rows, widths)[r] == line;
    assert TableLine(sep, header, rows, widths, j) == line;
  }

  /** Without a header, the lines of a table are its row lines. */
  lemma TableLinesNoHeader(sep: string, rows: seq<seq<string>>, widths: seq<nat>)
    requires forall i :: 0 <= i < |rows| ==> |rows[i]| >= |widths|
    ensures TableLines(sep, [], rows, widths) == RowLines(sep, rows, widths)
  {
    var lines, body := TableLines(sep, [], rows, widths), RowLines(sep, rows, widths);
    assert |lines| == |body|;
    forall j | 0 <= j < |lines|
      ensures lines[j] == body[j]
    {
      assert lines[j] == TableLine(sep, [], rows, widths, j);
      TableLineOfRow(sep, [], rows, widths, j);
    }
  }

  /** With a header, the lines of a table are the header row, the header separator, then the row lines. */
  lemma TableLinesWithHeader(sep: string, header: seq<string>, rows: seq<seq<string>>, widths: seq<nat>)
    requires header != [] && |header| >= |widths|
    requires forall i :: 0 <= i < |rows| ==> |rows[i]| >= |widths|
    ensures TableLines(sep, header, rows, widths) ==
            [RowLine(sep, header, widths), RuleLine(sep, widths)] + RowLines(sep, rows, widths)
  {
    var lines, body := TableLines(sep, header, rows, widths), RowLines(sep, rows, widths);
    var hl, rl := RowLine(sep, header, widths), RuleLine(sep, widths);
    var all := [hl, rl] + body;
    assert |lines| == |all|;
    forall j | 0 <= j < |lines|
      ensures lines[j] == all[j]
    {
      var line := TableLine(sep, header, rows, widths, j);
      assert lines[j] == line;
      if j == 0 {
        assert line == hl;
      } else if j == 1 {
        assert line == rl;
      } else {
        TableLineOfRow(sep, header, rows, widths, j);
        assert all[j] == body[j - 2];
      }
    }
  }

  /** The rendered text is its lines, concatenated in order. */
  lemma TableTextIsLines(sep: string, header: seq<string>, rows: seq<seq<string>>, widths: seq<nat>)
    requires header == [] || |header| >= |widths|
    requires forall i :: 0 <= i < |rows| ==> |rows[i]| >= |widths|
    ensures TableText(sep, header, rows, widths) == Concat(TableLines(sep, header, rows, widths))
  {
    var body := RowLines(sep, rows, widths);
    if header == [] {
      TableLinesNoHeader(sep, rows, widths);
    } else {
      TableLinesWithHeader(sep, header, rows, widths);
      var hl, rl := RowLine(sep, header, widths), RuleLine(sep, widths);
      ConcatPair(hl, rl);
      ConcatAppend([hl, rl], body);
    }
  }

  /** Every cell of the header (when there is one) and of every row fits its column. */
  predicate AllFit(header: seq<string>, rows: seq<seq<string>>, widths: seq<nat>)
  {
    && (header == [] || Fits(header, widths))
    && (forall i :: 0 <= i < |rows| ==> Fits(rows[i], widths))
  }

  /** Every line of a table whose cells fit is `LineWidth` long. */
  lemma TableLineWidth(sep: string, header: seq<string>, rows: seq<seq<string>>, widths: seq<nat>, i: nat)
    requires AllFit(header, rows, widths) && i < LineCount(header, rows)
    ensures |TableLine(sep, header, rows, widths, i)| == LineWidth(sep, widths)
  {
    if header == [] {
      RowLineLength(sep, rows[i], widths);
    } else if i == 0 {
      RowLineLength(sep, header, widths);
    } else if i == 1 {
      RuleLineLength(sep, widths);
    } else {
      RowLineLength(sep, rows[i - 2], widths);
    }
  }

  /** All the lines of a table whose cells fit are `LineWidth` long. */
  lemma TableLinesWidth(sep: string, header: seq<string>, rows: seq<seq<string>>, widths: seq<nat>)
    requires AllFit(header, rows, widths)
    ensures var lines := TableLines(sep, header, rows, widths);
            forall i :: 0 <= i < |lines| ==> |lines[i]| == LineWidth(sep, widths)
  {
    var lines := TableLines(sep, header, rows, widths);
    forall i | 0 <= i < |lines|
      ensures |lines[i]| == LineWidth(sep, widths)
    {
      TableLineWidth(sep, header, rows, widths, i);
    }
  }

  /** In a table whose cells fit, the `k`-th column separator of every line starts at `Boundary(k)`. */
  lemma TableLinesAligned(sep: string, header: seq<string>, rows: seq<seq<string>>, widths: seq<nat>,
                          i: nat, k: nat)
    requires AllFit(header, rows, widths)
    requires i < LineCount(header, rows) && k <= |widths|
    ensures OccursAt(TableLines(sep, header, rows, widths)[i], sep, Boundary(sep, widths, k))
  {
    if header == [] {
      ColumnsAligned(sep, rows[i], widths, k);
    } else if i < 2 {
      ColumnsAligned(sep, header, widths, k);
    } else {
      ColumnsAligned(sep, rows[i - 2], widths, k);
    }
  }

  /** Without line breaks in the cells or the separator, line `i` of a table is exactly one line. */
  lemma TableLineIsLine(sep: string, header: seq<string>, rows: seq<seq<string>>, widths: seq<nat>, i: nat)
    requires header == [] || |header| >= |widths|
    requires forall i :: 0 <= i < |rows| ==> |rows[i]| >= |widths|
    requires NoBreaks(header, rows) && '\n' !in sep
    requires i < LineCount(header, rows)
    ensures IsLine('\n', TableLine(sep, header, rows, widths, i))
  {
    if header == [] {
      RowLineIsLine(sep, rows[i], widths);
    } else if i == 0 {
      RowLineIsLine(sep, header, widths);
    } else if i == 1 {
      RuleLineIsLine(sep, widths);
    } else {
      RowLineIsLine(sep, rows[i - 2], widths);
    }
  }

  /** Every processed cell fits the width computed for its column. */
  lemma ProcessedCellsFit(header: seq<string>, rows: seq<seq<string>>)
    requires Shaped(header, rows)
    ensures AllFit(ProcessCells(header), ProcessRows(rows), TableWidths(header, rows))
  {
    var table := [ProcessCells(header)] + ProcessRows(rows);
    var widths := TableWidths(header, rows);
    forall i | 0 <= i < |table| && |table[i]| >= |widths|
      ensures Fits(table[i], widths)
    {
      forall k | 0 <= k < |widths|
        ensures |table[i][k]| <= widths[k]
      {
        ColumnWidthBounds(table, k, i);
      }
    }
    assert ProcessCells(header) == table[0];
    forall i | 0 <= i < |rows|
      ensures Fits(ProcessRows(rows)[i], widths)
    {
      assert ProcessRows(rows)[i] == table[i + 1];
    }
  }

  /**
   * The Markdown output is its lines in order: the header row and separator when the
   * header is non-empty, then one line per data row; all of them have the same length
   * (`LineWidth`, which is `sum(widths) + 3 * colCount + 2` for a one-character separator),
   * so the output is exactly `|lines| * LineWidth` long. An empty table renders as "".
   */
  lemma MarkdownLayout(header: seq<string>, rows: seq<seq<string>>, options: map<string, string>)
    requires Shaped(header, rows)
    ensures var lines := MarkdownLines(header, rows, options);
            var width := LineWidth(ColumnSeparator(options), TableWidths(header, rows));
            && MarkdownText(header, rows, options) == Concat(lines)
            && |lines| == |rows| + (if header == [] then 0 else 2)
            && (forall i :: 0 <= i < |lines| ==> |lines[i]| == width)
            && |MarkdownText(header, rows, options)| == |lines| * width
            && (header == [] && rows == [] ==> MarkdownText(header, rows, options) == "")
  {
    var sep, h, rs, widths := ColumnSeparator(options), ProcessCells(header), ProcessRows(rows), TableWidths(header, rows);
    ProcessedCellsFit(header, rows);
    TableLayout(sep, h, rs, widths);
  }

  /** A table whose cells fit is its lines, all `LineWidth` long. */
  lemma TableLayout(sep: string, header: seq<string>, rows: seq<seq<string>>, widths: seq<nat>)
    requires AllFit(header, rows, widths)
    ensures var lines := TableLines(sep, header, rows, widths);
            var text := TableText(sep, header, rows, widths);
            && text == Concat(lines)
            && (forall i :: 0 <= i < |lines| ==> |lines[i]| == LineWidth(sep, widths))
            && |text| == |lines| * LineWidth(sep, widths)
  {
    TableTextIsLines(sep, header, rows, widths);
    TableLinesWidth(sep, header, rows, widths);
    ConcatUniformLength(TableLines(sep, header, rows, widths), LineWidth(sep, widths));
  }

  /**
   * Every line of the Markdown output starts its `k`-th column separator at the same
   * position, `Boundary(k)`: header row, header separator and data rows line up.
   */
  lemma MarkdownColumnsAligned(header: seq<string>, rows: seq<seq<string>>, options: map<string, string>,
                               i: nat, k: nat)
    requires Shaped(header, rows)
    requires i < |MarkdownLines(header, rows, options)| && k <= |TableWidths(header, rows)|
    ensures var line := MarkdownLines(header, rows, options)[i];
            var sep := ColumnSeparator(options);
            var b := Boundary(sep, TableWidths(header, rows), k);
            OccursAt(line, sep, b)
  {
    ProcessedCellsFit(header, rows);
    TableLinesAligned(ColumnSeparator(options), ProcessCells(header), ProcessRows(rows), TableWidths(header, rows), i, k);
  }

  /**
   * Each record is exactly one line of output: splitting the Markdown output at newlines
   * gives back the lines without their terminators and a final empty piece, because
   * `ProcessValue` left no line break inside a cell (given a column separator without one).
   */
  lemma MarkdownOneLinePerRecord(header: seq<string>, rows: seq<seq<string>>, options: map<string, string>)
    requires Shaped(header, rows)
    requires '\n' !in ColumnSeparator(options)
    ensures var lines := MarkdownLines(header, rows, options);
            Explode('\n', MarkdownText(header, rows, options)) ==
            LineBodies(lines) + [""]
  {
    var sep, h, rs, widths := ColumnSeparator(options), ProcessCells(header), ProcessRows(rows), TableWidths(header, rows);
    ProcessedCellsFit(header, rows);
    ProcessedCellsHaveNoBreaks(header, rows);
    TableTextSplitsIntoLines(sep, h, rs, widths);
  }

  /** Processing leaves no line break in any cell. */
  lemma ProcessedCellsHaveNoBreaks(header: seq<string>, rows: seq<seq<string>>)
    ensures NoBreaks(ProcessCells(header), ProcessRows(rows))
  {
    var rs := ProcessRows(rows);
    forall i, j | 0 <= i < |rs| && 0 <= j < |rs[i]|
      ensures '\n' !in rs[i][j]
    {
      assert rs[i][j] == ProcessValue(rows[i][j]);
    }
  }

  /**
   * Without line breaks in the cells or the separator, splitting a rendered table at
   * newlines gives its lines without their terminators, then an empty piece.
   */
  lemma TableTextSplitsIntoLines(sep: string, header: seq<string>, rows: seq<seq<string>>, widths: seq<nat>)
    requires header == [] || |header| >= |widths|
    requires forall i :: 0 <= i < |rows| ==> |rows[i]| >= |widths|
    requires NoBreaks(header, rows) && '\n' !in sep
    ensures Explode('\n', TableText(sep, header, rows, widths)) == LineBodies(TableLines(sep, header, rows, widths)) + [""]
  {
    TableTextIsLines(sep, header, rows, widths);
    var lines := TableLines(sep, header, rows, widths);
    forall i | 0 <= i < |lines|
      ensures IsLine('\n', lines[i])
    {
      TableLineIsLine(sep, header, rows, widths, i);
    }
    ExplodeLines('\n', lines);
  }

  /**
   * With the corrected column count, a header without data rows renders as the header row
   * and the header separator, each column as wide as its processed header cell; that output
   * is the table's text, so the layout lemmas hold of it.
   */
  lemma HeaderOnlyRenders(header: seq<string>, options: map<string, string>)
    requires header != []
    ensures var sep, h, widths := ColumnSeparator(options), ProcessCells(header), TableWidths(header, []);
            && ColCount(header, []) == |header| == |widths|
            && (forall k :: 0 <= k < |header| ==> widths[k] == |ProcessValue(header[k])|)
            && TableResult(sep, h, [], widths, ColCount(header, [])) == Ok(RowLine(sep, h, widths) + RuleLine(sep, widths))
            && RowLine(sep, h, widths) + RuleLine(sep, widths) == MarkdownText(header, [], options)
  {
    var sep, h, widths := ColumnSeparator(options), ProcessCells(header), TableWidths(header, []);
    HeaderOnlyWidths(header);
    var text := RowLine(sep, h, widths) + RuleLine(sep, widths);
    assert TableText(sep, h, [], widths) == text by {
      NoRowsText(sep, widths);
    }
    assert ProcessRows([]) == [];
  }

  /** Without rows, the widths are the lengths of the processed header cells. */
  lemma HeaderOnlyWidths(header: seq<string>)
    ensures var widths := TableWidths(header, []);
            && |widths| == |header|
            && forall k :: 0 <= k < |header| ==> widths[k] == |ProcessValue(header[k])|
  {
    var h, widths := ProcessCells(header), TableWidths(header, []);
    var table := [h] + ProcessRows([]);
    assert table == [h];
    assert table[..0] == [];
    forall k | 0 <= k < |header|
      ensures widths[k] == |ProcessValue(header[k])|
    {
      assert ColumnWidth(table, k) == Max(ColumnWidth([], k), |h[k]|);
    }
  }

  /** No rows render as nothing. */
  lemma NoRowsText(sep: string, widths: seq<nat>)
    ensures RowsText(sep, [], widths) == ""
  {
    assert RowLines(sep, [], widths) == [];
  }

  // ---------------------------------------------------------------------------
  // Steps of the rendering loops

  /** One pass of `createRow`'s loop appends segment `i`, keeping the open " " at the end. */
  lemma RowStep(sep: string, segs: seq<string>, i: nat, pad: string)
    requires i < |segs| && segs[i] == " " + pad + " " + sep
    ensures sep + Concat(segs[..i]) + " " + pad + " " + sep + " " == sep + Concat(segs[..i + 1]) + " "
  {
    ConcatPrefixStep(segs, i);
    var c := Concat(segs[..i]);
    assert c + segs[i] == c + " " + pad + " " + sep;
  }

  /** `createRow`'s last cell closes the final segment and the line. */
  lemma RowLast(sep: string, segs: seq<string>, pad: string)
    requires |segs| >= 1 && segs[|segs| - 1] == " " + pad + " " + sep
    ensures sep + Concat(segs[..|segs| - 1]) + " " + pad + " " + sep + "\n" == Framed(sep, segs)
  {
    var n := |segs| - 1;
    ConcatPrefixStep(segs, n);
    assert segs[..n + 1] == segs;
    var c := Concat(segs[..n]);
    assert c + segs[n] == c + " " + pad + " " + sep;
  }

  /** One pass of `createHeaderSeparator`'s loop appends segment `i`. */
  lemma RuleStep(sep: string, segs: seq<string>, i: nat, dashes: string)
    requires i < |segs| && segs[i] == dashes + sep
    ensures sep + Concat(segs[..i]) + dashes + sep == sep + Concat(segs[..i + 1])
  {
    ConcatPrefixStep(segs, i);
  }

  /** `createHeaderSeparator`'s last run of dashes closes the final segment and the line. */
  lemma RuleLast(sep: string, segs: seq<string>, dashes: string)
    requires |segs| >= 1 && segs[|segs| - 1] == dashes + sep
    ensures sep + Concat(segs[..|segs| - 1]) + dashes + sep + "\n" == Framed(sep, segs)
  {
    var n := |segs| - 1;
    RuleStep(sep, segs, n, dashes);
    assert segs[..n + 1] == segs;
  }

  // ---------------------------------------------------------------------------
  // The renderer object

  class Markdown {
    var header: seq<string>
    var rows: seq<seq<string>>
    var options: map<string, string>
    var colCount: nat
    var colWidths: seq<nat>

    /** The shape the rendering methods rely on. */
    ghost predicate Valid()
      reads this
    {
      && "column_separator" in options
      && (forall i :: 0 <= i < |rows| ==> |rows[i]| == colCount)
      && (rows != [] ==> |colWidths| == colCount)
      && (rows == [] ==> colCount == 0)
      && (header == [] || |header| == |colWidths|)
    }

    /**
     * Processes every cell, lets the caller's options win over the default separator,
     * takes the column count from the first row (0 without rows) and computes the column
     * widths over the header and the rows.
     */
    constructor(header: seq<string>, rows: seq<seq<string>>, options: map<string, string> := map[])
      requires Shaped(header, rows)
      ensures this.header == ProcessCells(header) && this.rows == ProcessRows(rows)
      ensures this.options == ArrayUnion(options, DefaultOptions)
      ensures colCount == ColCountAsWritten(rows)
      ensures colWidths == TableWidths(header, rows)
      ensures Valid()
    {
      this.header := ProcessCells(header);
      this.rows := ProcessRows(rows);
      this.options := ArrayUnion(options, DefaultOptions);
      colCount := ColCountAsWritten(rows);
      colWidths := [];
      new;
      colWidths := GetColWidths([this.header] + this.rows);
    }

    /** `Markdown::render`: builds a renderer for the table and renders it. */
    static method Render(header: seq<string>, rows: seq<seq<string>>, options: map<string, string>)
      returns (result: Result<string>)
      requires Shaped(header, rows)
      ensures result == MarkdownResult(header, rows, options)
    {
      var renderer := new Markdown(header, rows, options);
      result := renderer.RenderTable();
    }

    /**
     * `renderTable`: header row and separator when the header is non-empty, then the rows;
     * it stops at the first `createRow` call that fails.
     */
    method RenderTable() returns (result: Result<string>)
      requires Valid()
      ensures result == TableResult(options["column_separator"], header, rows, colWidths, colCount)
    {
      if |header| > 0 {
        var head := CreateRow(header);
        if head.Failure? {
          return head;
        }
        var rule := CreateHeaderSeparator();
        var body := CreateRows(rows);
        result := Ok(head.value + rule + body.value);
      } else {
        result := CreateRows(rows);
        assert TableText(options["column_separator"], header, rows, colWidths)
               == RowsText(options["column_separator"], rows, colWidths);
      }
    }

    /**
     * `createRow`: the cells padded to their columns' widths, between separators. With a
     * column count of 0 it reads key -1 and fails.
     */
    method CreateRow(row: seq<string>) returns (result: Result<string>)
      requires Valid() && |row| >= colCount
      ensures colCount == 0 ==> result == Failure(NullPadMessage)
      ensures colCount >= 1 ==> result == Ok(RowLine(options["column_separator"], row, colWidths))
    {
      var sep := options["column_separator"];
      if colCount == 0 {
        return Failure(NullPadMessage);
      }
      ghost var segs := RowSegments(sep, row, colWidths);
      var output := sep + " ";
      for i := 0 to colCount - 1
        invariant output == sep + Concat(segs[..i]) + " "
      {
        RowStep(sep, segs, i, StrPad(row[i], colWidths[i]));
        output := output + StrPad(row[i], colWidths[i]);
        output := output + " " + sep + " ";
      }
      RowLast(sep, segs, StrPad(row[colCount - 1], colWidths[colCount - 1]));
      output := output + StrPad(row[colCount - 1], colWidths[colCount - 1]);
      output := output + " " + sep + "\n";
      result := Ok(output);
    }

    /**
     * `createHeaderSeparator`: a run of `width + 2` dashes per column, between separators.
     * `renderTable` calls it only after `createRow` succeeded, so with at least one column.
     */
    method CreateHeaderSeparator() returns (output: string)
      requires Valid() && colCount >= 1
      ensures output == RuleLine(options["column_separator"], colWidths)
    {
      var sep, widths := options["column_separator"], colWidths;
      ghost var segs := RuleSegments(sep, widths);
      output := "";
      output := output + sep;
      for i := 0 to colCount - 1
        invariant output == sep + Concat(segs[..i])
      {
        var dashes := StrRepeat('-', widths[i] + 2);
        assert output + dashes + sep == sep + Concat(segs[..i + 1]) by {
          RuleStep(sep, segs, i, dashes);
        }
        output := output + dashes;
        output := output + sep;
      }
      var lastIndex := colCount - 1;
      var dashes := StrRepeat('-', widths[lastIndex] + 2);
      assert output + dashes + sep + "\n" == Framed(sep, segs) by {
        RuleLast(sep, segs, dashes);
      }
      output := output + dashes;
      output := output + sep;
      output := output + "\n";
    }

    /** `createRows`: every row rendered, in order; the first failing `createRow` stops it. */
    method CreateRows(rows: seq<seq<string>>) returns (result: Result<string>)
      requires Valid()
      requires forall i :: 0 <= i < |rows| ==> |rows[i]| >= colCount
      ensures result == if colCount == 0 && rows != [] then Failure(NullPadMessage)
                        else Ok(RowsText(options["column_separator"], rows, colWidths))
    {
      ghost var sep, widths := options["column_separator"], colWidths;
      ghost var lines := if colCount >= 1 then RowLines(sep, rows, widths) else [];
      var output := "";
      for i := 0 to |rows|
        invariant colCount >= 1 || (i == 0 && output == "")
        invariant colCount >= 1 ==> output == Concat(lines[..i])
      {
        var line := CreateRow(rows[i]);
        if line.Failure? {
          return line;
        }
        ConcatPrefixStep(lines, i);
        output := output + line.value;
      }
      if colCount >= 1 {
        assert lines[..|rows|] == lines;
      } else {
        NoRowsText(sep, widths);
      }
      result := Ok(output);
    }

    /**
     * `getColWidths`: starts with `colCount` widths of 0 and raises width `k` to the length
     * of each cell `k` met, row by row; a cell past the end reads the missing width as null,
     * and `max` then gives the cell's length, as a new width.
     */
    method GetColWidths(table: seq<seq<string>>) returns (widths: seq<nat>)
      ensures widths == Widths(table, Span(table, colCount))
    {
      widths := seq(colCount, _ => 0);
      assert table[..0] == [];
      for i := 0 to |table|
        invariant widths == Widths(table[..i], Span(table[..i], colCount))
      {
        var cols := table[i];
        ghost var before, after := table[..i], table[..i + 1];
        assert after[..i] == before && after[i] == cols;
        for k := 0 to |cols|
          invariant |widths| == Max(Span(before, colCount), k)
          invariant forall m :: 0 <= m < k ==> widths[m] == ColumnWidth(after, m)
          invariant forall m :: k <= m < |widths| ==> widths[m] == ColumnWidth(before, m)
        {
          if k < |widths| {
            widths := widths[k := Max(widths[k], |cols[k]|)];
          } else {
            ColumnWidthPastSpan(before, colCount, k);
            widths := widths + [|cols[k]|];
          }
        }
        assert |widths| == Span(after, colCount);
        forall m | |cols| <= m < |widths|
          ensures widths[m] == ColumnWidth(after, m)
        {
        }
      }
      assert table[..|table|] == table;
    }
  }
}
