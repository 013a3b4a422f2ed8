/**
 * The upload history: a read-only summary of the catalog, one row per record
 * in catalog order, with a heuristic flag for tables too small to be useful.
 */
module History {
  import opened Wrappers
  import opened Text
  import opened Decoder
  import opened Classifier
  import opened Catalog

  /** One row of the history table (Archivo, Categoría, Formato, Fecha de carga, Variables detectadas, Autor, Unidad, and the warning column). */
  datatype SummaryRow = SummaryRow(
    file: string,
    category: string,
    format: string,
    date: string,
    variableCount: nat,
    author: string,
    unit: string,
    inconsistent: bool)

  /** Shown when a record has no author or unit key at all. */
  const UnknownAuthor := "Desconocido"
  const UnspecifiedUnit := "No especificada"

  /** `name.split('.')[-1].upper()`: the same segment the decoder dispatches on, in capitals. */
  function Format(name: string): (f: string)
    ensures f == Upper(Ext(name))
  {
    UpperOfLower(LastPart(name, '.'));
    Upper(LastPart(name, '.'))
  }

  /** Fewer than two variables or fewer than two rows. */
  predicate Inconsistent(u: Record) {
    |u.variables| < 2 || u.table.RowCount() < 2
  }

  function Row(u: Record, today: string): SummaryRow {
    SummaryRow(
      u.name,
      Label(u.category),
      Format(u.name),
      today,
      |u.variables|,
      u.author.GetOr(UnknownAuthor),
      u.unit.GetOr(UnspecifiedUnit),
      Inconsistent(u))
  }

  /**
   * The history table. The source dates every row with the day the table is
   * shown, not the day the file was loaded; `today` is that day.
   */
  function Summarize(uploads: seq<Record>, today: string): (rows: seq<SummaryRow>)
    ensures |rows| == |uploads|
    ensures forall k :: 0 <= k < |uploads| ==> rows[k] == Row(uploads[k], today)
  {
    seq(|uploads|, k requires 0 <= k < |uploads| => Row(uploads[k], today))
  }

  /** Appending to the catalog appends rows and leaves the earlier rows as they were. */
  lemma SummarizeAppend(a: seq<Record>, b: seq<Record>, today: string)
    ensures Summarize(a + b, today) == Summarize(a, today) + Summarize(b, today)
  {
  }

  /** For a catalogued record the flag reads the table itself: fewer than two columns or fewer than two rows. */
  lemma FlagReadsTable(u: Record, today: string)
    requires Catalogued(u)
    ensures Row(u, today).inconsistent <==> |u.table.columns| < 2 || |u.table.rows| < 2
    ensures Row(u, today).variableCount == |u.table.columns|
  {
  }

  /** Files that are not parsed as structured data (one column) are always flagged. */
  lemma NonStructuredAlwaysFlagged(name: string, p: Payload, author: Option<string>, unit: Option<string>, today: string)
    requires Ext(name) !in StructuredExtensions
    ensures Process(name, p, author, unit).Success?
    ensures Row(Process(name, p, author, unit).value, today).inconsistent
    ensures Row(Process(name, p, author, unit).value, today).variableCount == 1
  {
    KindOfSpec(Ext(name));
    DecodeSpec(name, p);
  }

  /** Manually uploaded records show the form's author and unit as typed, empty strings included. */
  lemma ManualRowsKeepAuthor(batch: seq<UploadedFile>, autor: string, unidad: string, today: string)
    ensures var rows := Summarize(ManualAdded(batch, autor, unidad), today);
      forall k :: 0 <= k < |rows| ==> rows[k].author == autor && rows[k].unit == unidad
  {
    ManualAddedCatalogued(batch, autor, unidad);
  }

  /** Scanned records show the placeholders, because they carry no author or unit key. */
  lemma ScannedRowsShowDefaults(uploads: seq<Record>, listing: seq<DirEntry>, today: string)
    ensures var rows := Summarize(Scanned(uploads, listing), today);
      forall k :: |uploads| <= k < |rows| ==>
        rows[k].author == UnknownAuthor && rows[k].unit == UnspecifiedUnit
  {
  }

  lemma FormatExample()
    ensures Format("ambiental_q1.csv") == "CSV"
  {
    assert "ambiental_q1.csv" == Join(["ambiental_q1", "csv"], '.');
    LastPartOfJoin(["ambiental_q1", "csv"], '.');
    assert Upper("csv") == "CSV";
  }
}
