/**
 * The `CsvTable` object: CSV text, its dialect, a header flag, and the header and rows
 * derived from the text; with the CSV and plain-table renderers.
 *
 * The record reader (`fgetcsv`) and record writer (`fputcsv`) are PHP built-ins whose quoting
 * rules lie outside the model. They enter as the two functions of a `Codec`, about which
 * nothing is assumed; a lemma that needs one of their properties takes it as a hypothesis.
 */
module CsvTables {
  import opened Php

  /**
   * One CSV record: its cells in order. Cells are strings; the single null cell that
   * `fgetcsv` returns for a blank line has no counterpart here.
   */
  type Record = seq<string>

  /** The separator, enclosure and escape strings given to the record reader and writer. */
  datatype Dialect = Dialect(separator: string, enclosure: string, escape: string)

  /**
   * `decode(text, d)` is the list of records that calling `fgetcsv` on `text` until it
   * reports the end yields; `encode(cells, d)` is the text one `fputcsv` call writes,
   * line terminator included.
   */
  datatype Codec = Codec(decode: (string, Dialect) -> seq<Record>, encode: (Record, Dialect) -> string)

  /**
   * The renderer argument of `render`, after PHP has looked at it: a falsy value (null, ""
   * or "0") selects the CSV renderer; a callable, or the name of a class whose static
   * `render` is then used, is called; anything else is not callable.
   */
  datatype Renderer =
    | DefaultCsv
    | Callable(f: (seq<string>, seq<Record>, map<string, string>) -> string)
    | NotCallable

  /** The message of the exception `render` throws for a renderer it cannot call. */
  const NotCallableMessage := "Renderer must be callable"

  /** The derived state of a table: a header (possibly empty) and the data rows. */
  datatype Table = Table(header: Record, rows: seq<Record>)

  /** How `parse` divides the records between the header and the rows. */
  function SplitHeader(records: seq<Record>, useHeader: bool): (t: Table)
    ensures !useHeader || records == [] ==> t.header == [] && t.rows == records
    ensures useHeader && records != [] ==> [t.header] + t.rows == records
  {
    if useHeader && |records| > 0 then Table(records[0], records[1..]) else Table([], records)
  }

  /**
   * Nothing is lost or duplicated: the header (when the flag took one) followed by the
   * rows is the full record list, in both modes.
   */
  lemma SplitHeaderKeepsRecords(records: seq<Record>, useHeader: bool)
    ensures var t := SplitHeader(records, useHeader);
            (if useHeader && |records| > 0 then [t.header] else []) + t.rows == records
  {
  }

  /**
   * When the reader yields no empty record (fgetcsv reads a blank line as a record of one
   * null cell, never as a record without cells), a non-empty header followed by the rows is
   * the full record list, whatever the flag says.
   */
  lemma SplitHeaderNonEmptyRecords(records: seq<Record>, useHeader: bool)
    requires forall i :: 0 <= i < |records| ==> records[i] != []
    ensures var t := SplitHeader(records, useHeader);
            (if t.header != [] then [t.header] else []) + t.rows == records
  {
    SplitHeaderKeepsRecords(records, useHeader);
  }

  /** The keys `render` reads the dialect from, with the empty string for a missing one. */
  function DialectOf(options: map<string, string>): Dialect
  {
    Dialect(
      if "separator" in options then options["separator"] else "",
      if "enclosure" in options then options["enclosure"] else "",
      if "escape" in options then options["escape"] else "")
  }

  /** The records as the writer encodes them, one string per record. */
  function EncodedRecords(records: seq<Record>, encode: (Record, Dialect) -> string, d: Dialect): (r: seq<string>)
    ensures |r| == |records|
    ensures forall i :: 0 <= i < |records| ==> r[i] == encode(records[i], d)
  {
    seq(|records|, i requires 0 <= i < |records| => encode(records[i], d))
  }

  /** What `renderCsv` writes: the header record when there is one, then one record per row. */
  function CsvText(header: Record, rows: seq<Record>, encode: (Record, Dialect) -> string, d: Dialect): string
  {
    (if |header| > 0 then encode(header, d) else "") + Concat(EncodedRecords(rows, encode, d))
  }

  /**
   * `renderCsv`: writes the header record only when the header is non-empty, then every
   * row in order, each through the record writer.
   */
  method RenderCsv(header: Record, rows: seq<Record>, options: map<string, string>,
                   encode: (Record, Dialect) -> string)
    returns (output: string)
    ensures output == CsvText(header, rows, encode, DialectOf(options))
    ensures header == [] && rows == [] ==> output == ""
  {
    var d := DialectOf(options);
    ghost var lines := EncodedRecords(rows, encode, d);
    output := "";
    if |header| > 0 {
      output := output + encode(header, d);
    }
    ghost var head := output;
    assert head == if |header| > 0 then encode(header, d) else "";
    for i := 0 to |rows|
      invariant output == head + Concat(lines[..i])
    {
      assert output + encode(rows[i], d) == head + Concat(lines[..i + 1]) by {
        ConcatPrefixStep(lines, i);
        AppendAssoc(head, Concat(lines[..i]), lines[i]);
      }
      output := output + encode(rows[i], d);
    }
    assert lines[..|rows|] == lines;
  }

  /**
   * Re-rendering loses nothing: the CSV text of a split record list is the encoding of all
   * the records, in order, when the reader yields no empty record.
   */
  lemma {:induction false} CsvTextKeepsRecords(records: seq<Record>, useHeader: bool,
                                               encode: (Record, Dialect) -> string, d: Dialect)
    requires forall i :: 0 <= i < |records| ==> records[i] != []
    ensures var t := SplitHeader(records, useHeader);
            CsvText(t.header, t.rows, encode, d) == Concat(EncodedRecords(records, encode, d))
  {
    var t := SplitHeader(records, useHeader);
    if useHeader && |records| > 0 {
      var all := EncodedRecords(records, encode, d);
      assert all == [encode(records[0], d)] + EncodedRecords(records[1..], encode, d);
      ConcatAppend([encode(records[0], d)], EncodedRecords(records[1..], encode, d));
      assert Concat([encode(records[0], d)]) == encode(records[0], d) by {
        assert [encode(records[0], d)][..0] == [];
      }
    } else {
      assert t.header == [];
    }
  }

  /** The records `parse` reads from a text: none when the text is empty by PHP's `empty()`. */
  function ParsedRecords(text: Option<string>, codec: Codec, d: Dialect): seq<Record>
  {
    if IsEmpty(text) then [] else codec.decode(text.value, d)
  }

  /**
   * Decoding what the CSV renderer wrote gives back the same table, provided the writer and
   * the reader are inverse on the records (the property PHP's built-ins are used for).
   * Parsing it does too, unless the text is one that `empty()` rejects ("" or "0"): then
   * `parse` reads no records, and a table with records does not come back.
   */
  lemma RenderedCsvReparses(records: seq<Record>, useHeader: bool, codec: Codec, d: Dialect)
    requires forall i :: 0 <= i < |records| ==> records[i] != []
    requires codec.decode(Concat(EncodedRecords(records, codec.encode, d)), d) == records
    ensures var t := SplitHeader(records, useHeader);
            SplitHeader(codec.decode(CsvText(t.header, t.rows, codec.encode, d), d), useHeader) == t
    ensures var t := SplitHeader(records, useHeader);
            var text := Some(CsvText(t.header, t.rows, codec.encode, d));
            (!IsEmpty(text) ==> SplitHeader(ParsedRecords(text, codec, d), useHeader) == t)
            && (IsEmpty(text) && records != [] ==> ParsedRecords(text, codec, d) != records)
  {
    CsvTextKeepsRecords(records, useHeader, codec.encode, d);
  }

  /** The cells of every row joined by "|", one string per row. */
  function JoinedRows(rows: seq<Record>): (r: seq<string>)
    ensures |r| == |rows|
    ensures forall i :: 0 <= i < |rows| ==> r[i] == Implode("|", rows[i])
  {
    seq(|rows|, i requires 0 <= i < |rows| => Implode("|", rows[i]))
  }

  /**
   * `renderTable`: the header line (cells joined by "|"), a line of dashes as long as it,
   * then the rows joined by newlines, with no trailing newline.
   */
  function RenderTable(header: Record, rows: seq<Record>): string
  {
    var head :=
      if |header| > 0 then
        var line := Implode("|", header);
        line + "\n" + StrRepeat('-', |line|) + "\n"
      else "";
    head + Implode("\n", JoinedRows(rows))
  }

  /** The rows part of `renderTable`'s output splits back into one line per row. */
  lemma {:induction false} RowLinesSplit(rows: seq<Record>)
    requires NoBreaks([], rows)
    ensures Explode('\n', Implode("\n", JoinedRows(rows))) == if rows == [] then [""] else JoinedRows(rows)
  {
    var joined := JoinedRows(rows);
    forall i | 0 <= i < |rows|
      ensures '\n' !in joined[i]
    {
      ImplodeExcludes('\n', "|", rows[i]);
    }
    if rows != [] {
      ExplodeImplode('\n', joined);
    }
  }

  /** A header line and its dash line split off the front of whatever follows them. */
  lemma HeadLinesSplit(line: string, body: string)
    requires '\n' !in line
    ensures Explode('\n', line + "\n" + StrRepeat('-', |line|) + "\n" + body)
            == [line, StrRepeat('-', |line|)] + Explode('\n', body)
  {
    var dashes := StrRepeat('-', |line|);
    var rest := dashes + ['\n'] + body;
    assert line + "\n" + dashes + "\n" + body == line + ['\n'] + rest;
    assert Explode('\n', line + ['\n'] + rest) == [line] + Explode('\n', rest) by {
      ExplodeAround('\n', line, rest);
      ExplodeWithout('\n', line);
    }
    assert Explode('\n', rest) == [dashes] + Explode('\n', body) by {
      assert '\n' !in dashes;
      ExplodeAround('\n', dashes, body);
      ExplodeWithout('\n', dashes);
    }
  }

  /**
   * The lines of `renderTable`'s output: the header line and a dash line of exactly its
   * length when the header is non-empty, then one line per row; with no rows the text
   * ends at the dash line's newline (a final empty piece), and an empty table is "".
   */
  lemma {:induction false} RenderTableLines(header: Record, rows: seq<Record>)
    requires NoBreaks(header, rows)
    ensures header == [] && rows == [] ==> RenderTable(header, rows) == ""
    ensures Explode('\n', RenderTable(header, rows)) ==
            (if |header| > 0
             then [Implode("|", header), StrRepeat('-', |Implode("|", header)|)]
             else [])
            + (if rows == [] then [""] else JoinedRows(rows))
  {
    var joined := JoinedRows(rows);
    var body := Implode("\n", joined);
    assert Explode('\n', body) == if rows == [] then [""] else joined by {
      assert NoBreaks([], rows);
      RowLinesSplit(rows);
    }
    if |header| > 0 {
      var line := Implode("|", header);
      assert '\n' !in line by {
        ImplodeExcludes('\n', "|", header);
      }
      assert RenderTable(header, rows) == line + "\n" + StrRepeat('-', |line|) + "\n" + body;
      HeadLinesSplit(line, body);
    } else {
      assert RenderTable(header, rows) == body;
    }
  }

  /** The keys `render` adds for the CSV dialect when the caller's options lack them. */
  function DialectDefaults(separator: string, enclosure: string, escape: string): map<string, string>
  {
    map["separator" := separator, "enclosure" := enclosure, "escape" := escape]
  }

  /**
   * The options `render` passes on: the caller's keys are kept unchanged, and only absent
   * dialect keys are filled from the table's own dialect.
   */
  lemma RenderOptionsMerge(options: map<string, string>, separator: string, enclosure: string, escape: string)
    ensures var merged := ArrayUnion(options, DialectDefaults(separator, enclosure, escape));
            && merged.Keys == options.Keys + {"separator", "enclosure", "escape"}
            && (forall k :: k in options ==> merged[k] == options[k])
            && DialectOf(merged) == Dialect(
                 if "separator" in options then options["separator"] else separator,
                 if "enclosure" in options then options["enclosure"] else enclosure,
                 if "escape" in options then options["escape"] else escape)
  {
  }

  class CsvTable {
    /** The CSV text (`null` when the table was built without one). */
    const csvString: Option<string>
    const csvSeparator: string
    const csvEnclosure: string
    const csvEscape: string
    /** PHP's record reader and writer. */
    const codec: Codec

    var header: Record
    var rows: seq<Record>
    var useHeader: bool

    /** The dialect the table reads its text with. */
    function ReadDialect(): Dialect
    {
      Dialect(csvSeparator, csvEnclosure, csvEscape)
    }

    /** The records `parse` reads: none when the text is empty by PHP's `empty()`. */
    function Records(): seq<Record>
    {
      ParsedRecords(csvString, codec, ReadDialect())
    }

    /** The header and rows are the split of the records that the header flag selects. */
    ghost predicate Valid()
      reads this
    {
      Table(header, rows) == SplitHeader(Records(), useHeader)
    }

    /** Stores the text and its dialect (by default `,`, `"` and `\`) and parses with the header flag on. */
    constructor(codec: Codec, csvString: Option<string> := None, csvSeparator: string := ",",
                csvEnclosure: string := "\"", csvEscape: string := "\\")
      ensures this.csvString == csvString && this.codec == codec
      ensures this.csvSeparator == csvSeparator && this.csvEnclosure == csvEnclosure
      ensures this.csvEscape == csvEscape
      ensures useHeader && Valid()
    {
      this.csvString := csvString;
      this.csvSeparator := csvSeparator;
      this.csvEnclosure := csvEnclosure;
      this.csvEscape := csvEscape;
      this.codec := codec;
      header := [];
      rows := [];
      useHeader := true;
      new;
      Parse();
    }

    /** `hasHeader`: turns the header flag on and parses the text again. */
    method HasHeader()
      modifies this
      ensures useHeader && Valid()
      ensures |Records()| > 0 ==> header == Records()[0] && rows == Records()[1..]
      ensures Records() == [] ==> header == [] && rows == []
    {
      useHeader := true;
      Parse();
    }

    /** `noHeader`: turns the header flag off and parses the text again. */
    method NoHeader()
      modifies this
      ensures !useHeader && Valid()
      ensures header == [] && rows == Records()
    {
      useHeader := false;
      Parse();
    }

    /**
     * `parse`: reads the records one at a time, then takes the first as the header when
     * the header flag is on and there is at least one record.
     */
    method Parse()
      modifies this`header, this`rows
      ensures Valid()
      ensures useHeader && |Records()| > 0 ==> header == Records()[0] && rows == Records()[1..]
      ensures !useHeader ==> header == [] && rows == Records()
      ensures IsEmpty(csvString) ==> header == [] && rows == []
    {
      var records: seq<Record> := [];
      if !IsEmpty(csvString) {
        var all := codec.decode(csvString.value, ReadDialect());
        var i := 0;
        while i < |all|
          invariant 0 <= i <= |all|
          invariant records == all[..i]
        {
          records := records + [all[i]];
          i := i + 1;
        }
        assert records == all;
      }
      header := if useHeader && |records| > 0 then records[0] else [];
      rows := if useHeader && |records| > 0 then records[1..] else records;
    }

    /**
     * `render`: refuses a renderer it cannot call; otherwise passes the header, the rows and
     * the options to the renderer, after filling the dialect keys the caller left out from the
     * table's own dialect. With the default renderer and no options, and when no record the
     * text holds is empty, the output is the encoding of every record.
     */
    method Render(renderer: Renderer := DefaultCsv, options: map<string, string> := map[]) returns (result: Result<string>)
      requires Valid()
      ensures var merged := ArrayUnion(options, DialectDefaults(csvSeparator, csvEnclosure, csvEscape));
              result == match renderer
                        case DefaultCsv => Ok(CsvText(header, rows, codec.encode, DialectOf(merged)))
                        case Callable(f) => Ok(f(header, rows, merged))
                        case NotCallable => Failure(NotCallableMessage)
      ensures renderer == DefaultCsv && options == map[]
              && (forall i :: 0 <= i < |Records()| ==> Records()[i] != [])
              ==> result == Ok(Concat(EncodedRecords(Records(), codec.encode, ReadDialect())))
    {
      if renderer.NotCallable? {
        return Failure(NotCallableMessage);
      }
      var merged := ArrayUnion(options, DialectDefaults(csvSeparator, csvEnclosure, csvEscape));
      match renderer
      case DefaultCsv =>
        var output := RenderCsv(header, rows, merged, codec.encode);
        if options == map[] && forall i :: 0 <= i < |Records()| ==> Records()[i] != [] {
          assert DialectOf(merged) == ReadDialect();
          CsvTextKeepsRecords(Records(), useHeader, codec.encode, ReadDialect());
        }
        result := Ok(output);
      case Callable(f) =>
        result := Ok(f(header, rows, merged));
    }
  }
}
