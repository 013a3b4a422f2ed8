/**
 * The format decoder: how an ingested file becomes a table, chosen by the
 * extension of its name. Structured formats (csv, xls, xlsx, json) go to a
 * parser outside this model; text, markup and every other format are wrapped
 * into a one-column table here.
 */
module Decoder {
  import opened Wrappers
  import opened Text

  /** One value of a table. Structured parsers may produce text or numbers; the fallbacks produce text or raw bytes. */
  datatype Cell = Str(s: string) | Raw(bytes: seq<byte>) | Num(n: int)

  /** A table stored row by row: each row holds one cell per column. */
  datatype Table = Table(columns: seq<string>, rows: seq<seq<Cell>>) {

    predicate WellFormed() {
      forall k :: 0 <= k < |rows| ==> |rows[k]| == |columns|
    }

    /** `len(df)`: the number of rows. */
    function RowCount(): nat {
      |rows|
    }

    /** The values of column `j`, top to bottom. */
    function Column(j: nat): (cells: seq<Cell>)
      requires WellFormed() && j < |columns|
      ensures |cells| == |rows|
    {
      seq(|rows|, k requires 0 <= k < |rows| && WellFormed() && j < |columns| => rows[k][j])
    }
  }

  /**
   * What the pipeline can learn about one file's content: its raw bytes, their
   * permissive UTF-8 decoding, and what the parser selected by the file's
   * extension returned (a table, or the message of the exception it raised).
   */
  datatype Payload = Payload(bytes: seq<byte>, text: string, parsed: Result<Table, string>)

  datatype DecodeError =
    | Malformed(cause: string)  // the structured parser raised
    | Unreadable                // the file could not be opened or read

  /** The structured parsers: `read_csv`, `read_excel` and `read_json`. */
  datatype Parser = Csv | Excel | Json

  /** The closed set of ways a file becomes a table. */
  datatype Kind = Structured(parser: Parser) | PlainText | Markup | Binary

  const StructuredExtensions: set<string> := {"csv", "xls", "xlsx", "json"}
  const TextExtensions: set<string> := {"txt", "log", "md"}
  const MarkupExtensions: set<string> := {"html", "htm"}

  /** The column names of the fallback tables. */
  const ContentColumn := "Contenido"
  const HtmlColumn := "HTML"
  const BytesColumn := "Bytes"

  /** `filename.split('.')[-1].lower()`: the lower-cased text after the last dot. */
  function Ext(name: string): string {
    Lower(LastPart(name, '.'))
  }

  /**
   * The extension holds no dot and is the lower-cased suffix of the name after
   * its last dot; a name without a dot is its own extension.
   */
  lemma ExtSpec(name: string)
    ensures var ext := Ext(name);
      && '.' !in ext
      && |ext| <= |name|
      && ext == Lower(name[|name| - |ext|..])
      && (|ext| < |name| ==> name[|name| - |ext| - 1] == '.')
  {
    LastPartIsSuffix(name, '.');
  }

  /** The `if/elif` dispatch on the extension. */
  function KindOf(ext: string): Kind {
    if ext == "csv" then Structured(Csv)
    else if ext in ["xls", "xlsx"] then Structured(Excel)
    else if ext == "json" then Structured(Json)
    else if ext in ["txt", "log", "md"] then PlainText
    else if ext in ["html", "htm"] then Markup
    else Binary
  }

  /** csv, xls, xlsx and json are structured; txt, log and md plain text; html and htm markup; everything else binary. */
  lemma KindOfSpec(ext: string)
    ensures var k := KindOf(ext);
      && (k.Structured? <==> ext in StructuredExtensions)
      && (k == PlainText <==> ext in TextExtensions)
      && (k == Markup <==> ext in MarkupExtensions)
      && (k == Binary <==> ext !in StructuredExtensions + TextExtensions + MarkupExtensions)
  {
  }

  /** `pd.DataFrame({name: cells})`: one column, one row per cell. */
  function SingleColumn(name: string, cells: seq<Cell>): Table {
    Table([name], seq(|cells|, k requires 0 <= k < |cells| => [cells[k]]))
  }

  /** The table has the one column `name`, one row per cell, and that column reads back as the cells. */
  lemma SingleColumnSpec(name: string, cells: seq<Cell>)
    ensures var t := SingleColumn(name, cells);
      t.columns == [name] && t.WellFormed() && t.RowCount() == |cells| && t.Column(0) == cells
  {
  }

  function Strs(lines: seq<string>): (cells: seq<Cell>)
    ensures |cells| == |lines|
    ensures forall k :: 0 <= k < |lines| ==> cells[k] == Str(lines[k])
  {
    seq(|lines|, k requires 0 <= k < |lines| => Str(lines[k]))
  }

  /** Turns one file into a table, or reports why it could not. */
  function Decode(name: string, p: Payload): Result<Table, DecodeError> {
    match KindOf(Ext(name))
    case Structured(_) =>
      (match p.parsed
       case Success(t) => Success(t)
       case Failure(cause) => Failure(Malformed(cause)))
    case PlainText => Success(SingleColumn(ContentColumn, Strs(Lines(p.text))))
    case Markup => Success(SingleColumn(HtmlColumn, [Str(p.text)]))
    case Binary => Success(SingleColumn(BytesColumn, [Raw(p.bytes)]))
  }

  /**
   * A structured format succeeds exactly when its parser did, with the parser's
   * table; every other format succeeds with a well-formed one-column table.
   */
  lemma DecodeSpec(name: string, p: Payload)
    ensures var r := Decode(name, p);
      && (KindOf(Ext(name)).Structured? ==>
            (r.Success? <==> p.parsed.Success?) && (r.Success? ==> r.value == p.parsed.value))
      && (!KindOf(Ext(name)).Structured? ==>
            r.Success? && r.value.WellFormed() && |r.value.columns| == 1)
  {
    match KindOf(Ext(name))
    case Structured(_) =>
    case PlainText => SingleColumnSpec(ContentColumn, Strs(Lines(p.text)));
    case Markup => SingleColumnSpec(HtmlColumn, [Str(p.text)]);
    case Binary => SingleColumnSpec(BytesColumn, [Raw(p.bytes)]);
  }

  /** The text of every cell of a column of strings. */
  function Texts(cells: seq<Cell>): seq<string>
    requires forall k :: 0 <= k < |cells| ==> cells[k].Str?
  {
    seq(|cells|, k requires 0 <= k < |cells| && cells[k].Str? => cells[k].s)
  }

  /**
   * Plain text (txt, log, md) becomes the single column `Contenido`, one row per
   * line; no line is lost: the lines joined back give the decoded text.
   */
  lemma DecodePlainText(name: string, p: Payload)
    requires Ext(name) in TextExtensions
    ensures var r := Decode(name, p);
      && r.Success? && r.value.columns == [ContentColumn]
      && r.value.RowCount() == |Lines(p.text)|
      && (forall k :: 0 <= k < r.value.RowCount() ==> r.value.Column(0)[k].Str?)
      && Texts(r.value.Column(0)) == Lines(p.text)
      && Join(Texts(r.value.Column(0)), '\n') + (if EndsWithNewline(p.text) then "\n" else "") == p.text
  {
    var cells := Strs(Lines(p.text));
    assert Texts(cells) == Lines(p.text);
    LinesRoundTrip(p.text);
  }

  /** Markup (html, htm) becomes the single column `HTML` holding the whole text in one row. */
  lemma DecodeMarkup(name: string, p: Payload)
    requires Ext(name) in MarkupExtensions
    ensures var r := Decode(name, p);
      r.Success? && r.value.columns == [HtmlColumn] && r.value.Column(0) == [Str(p.text)]
  {
  }

  /** Any other extension becomes the single column `Bytes` holding the unchanged payload in one row. */
  lemma DecodeBinary(name: string, p: Payload)
    requires Ext(name) !in StructuredExtensions + TextExtensions + MarkupExtensions
    ensures var r := Decode(name, p);
      r.Success? && r.value.columns == [BytesColumn] && r.value.Column(0) == [Raw(p.bytes)]
  {
  }

  /** Only a structured parser can make decoding fail. */
  lemma DecodeFailsOnlyWhenParserFails(name: string, p: Payload)
    requires Decode(name, p).Failure?
    ensures Ext(name) in StructuredExtensions && p.parsed.Failure?
    ensures Decode(name, p).error == Malformed(p.parsed.error)
  {
  }

  /** A name without a dot is its own (lower-cased) extension, so it falls back to `Bytes` unless it is literally a format name. */
  lemma ExtWithoutDot(name: string)
    requires '.' !in name
    ensures Ext(name) == Lower(name)
  {
    NoSeparatorWhole(name, '.');
  }

  /** A name ending in a dot has the empty extension. */
  lemma ExtOfTrailingDot(name: string)
    requires |name| > 0 && name[|name| - 1] == '.'
    ensures Ext(name) == ""
    ensures KindOf(Ext(name)) == Binary
  {
    TrailingSeparatorEmpty(name, '.');
    assert Lower("") == "";
  }

  lemma ExtExampleUpperCase()
    ensures Ext("Datos.CSV") == "csv"
  {
    assert "Datos.CSV" == Join(["Datos", "CSV"], '.');
    LastPartOfJoin(["Datos", "CSV"], '.');
    assert Lower("CSV") == "csv";
  }

  lemma ExtExampleTwoDots()
    ensures Ext("respaldo.tar.gz") == "gz"
  {
    assert "respaldo.tar.gz" == Join(["respaldo", "tar", "gz"], '.');
    LastPartOfJoin(["respaldo", "tar", "gz"], '.');
    assert Lower("gz") == "gz";
  }

  lemma ExtExampleNoDot()
    ensures Ext("LEEME") == "leeme"
  {
    assert "LEEME" == Join(["LEEME"], '.');
    LastPartOfJoin(["LEEME"], '.');
    assert Lower("LEEME") == "leeme";
  }

  lemma LinesExamples()
    ensures Lines("a\nb\nc") == ["a", "b", "c"]
    ensures Lines("a\nb\n") == ["a", "b"]
    ensures Lines("") == []
  {
    assert "a\nb\nc" == Join(["a", "b", "c"], '\n');
    SplitJoin(["a", "b", "c"], '\n');
    LinesOfTerminated(["a", "b"]);
    assert Terminated(["a", "b"]) == "a\nb\n";
  }
}
