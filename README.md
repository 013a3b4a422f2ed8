# Sustainability-report prototype: file ingestion pipeline in Dafny

This project models the part of the Streamlit prototype `Maqueta.py` that makes
decisions: how an uploaded or scanned file becomes a table, how it is filed
under a category, how the session's list of processed files (`uploads`) is
filled by the manual-upload form and by the scan of the `input` directory, and
how the upload history table is derived from that list.

Modules (one per component, all in this directory):

- `wrappers.dfy` (`Wrappers`): `Option` and `Result`.
- `text.dfy` (`Text`): ASCII `lower`/`upper`, `split` on a separator with its
  `join` inverse, `splitlines` for `\n`, and substring search.
- `decoder.dfy` (`Decoder`): extension extraction, the closed dispatch over
  formats (`Kind`), and the one-column fallback tables `Contenido`, `HTML` and
  `Bytes`.
- `classifier.dfy` (`Classifier`): the ordered keyword rule giving Impacto
  Social, Indicadores Ambientales or Otros Datos.
- `catalog.dfy` (`Catalog`): the records, the shared processing step, the
  specification functions of both loops, and the `Session` class whose
  `ManualUpload` and `Scan` methods run the two loops over `uploads`. A
  record is *catalogued* when its variables are its table's column names, its
  category is the one its name classifies to, and it has an author exactly
  when it has a unit; the session keeps every record catalogued.
- `history.dfy` (`History`): the history rows and their inconsistency flag.

On these points the code may behave differently from what a reader expects; the model follows the code:

- A name without a dot has the whole (lower-cased) name as its extension, not
  the empty extension.
- The manual-upload loop does not check names, so the catalog can hold two
  records with the same name (`Catalog.ManualAllowsDuplicates`). Only the scan
  keeps names unique (`Catalog.ScanPreservesUniqueNames`).
- The history's date column is the day the table is shown, the same for every
  row. It is not the day the file was loaded.
- A scan skips known names without a warning. An entry that failed is not
  catalogued, so the next scan tries it again and warns again. Rescanning
  appends nothing (`Catalog.ScanIdempotent`), but it is not free of warnings.

## Model

| member | source | states |
|---|---|---|
| `Text.Lower` | Maqueta.py:63 | `lower()` keeps the length and lower-cases each ASCII letter |
| `Text.Upper` | Maqueta.py:218 | `upper()` keeps the length and upper-cases each ASCII letter |
| `Text.UpperOfLower` | Maqueta.py:218 | upper-casing a lower-cased string equals upper-casing the original |
| `Text.LowerOfUpper` | Maqueta.py:81 | lower-casing an upper-cased string equals lower-casing the original |
| `Text.LowerOfLowerCase` | Maqueta.py:81 | a string without capitals is its own lower-case form |
| `Text.Split` | Maqueta.py:63 | `split(sep)` gives at least one part and no part contains the separator |
| `Text.JoinSplit` | Maqueta.py:63 | joining the parts with the separator gives back the string |
| `Text.SplitJoin` | Maqueta.py:63 | splitting a join of separator-free parts gives back the parts |
| `Text.SplitLast` | Maqueta.py:63 | a string is its earlier parts, one separator, then its last part |
| `Text.LastPartIsSuffix` | Maqueta.py:63 | `split(sep)[-1]` is the longest separator-free suffix: a suffix, with no separator, either the whole string or preceded by a separator |
| `Text.LastPartOfJoin` | Maqueta.py:63 | the last part of a join of separator-free parts is the last of them |
| `Text.NoSeparatorWhole` | Maqueta.py:63 | without a separator, `split(sep)[-1]` is the whole string |
| `Text.TrailingSeparatorEmpty` | Maqueta.py:63 | a string ending with the separator has an empty last part |
| `Text.Lines` | Maqueta.py:73 | `splitlines()` gives lines without line breaks |
| `Text.LinesRoundTrip` | Maqueta.py:73 | the lines joined with `\n`, plus the final line break if the text had one, give back the text |
| `Text.LinesOfTerminated` | Maqueta.py:73 | lines written out each followed by `\n` are read back unchanged |
| `Text.Contains` | Maqueta.py:81 | the `in` test on strings, scanning the haystack from the left; its meaning is stated by `Text.ContainsSpec` |
| `Text.StartsWithSpec` | Maqueta.py:81 | a needle is a prefix of the haystack iff it is no longer and equals the haystack's first characters |
| `Text.ContainsSpec` | Maqueta.py:81 | `needle in hay` holds iff the needle occurs at some position of the haystack |
| `Text.MissingCharNotContained` | Maqueta.py:81 | a needle with a character the haystack lacks does not occur in it |
| `Decoder.Ext` | Maqueta.py:63 | `split('.')[-1].lower()`; its meaning is stated by `Decoder.ExtSpec`, `Decoder.ExtWithoutDot` and `Decoder.ExtOfTrailingDot` |
| `Decoder.ExtSpec` | Maqueta.py:63 | the extension is the lower-cased text after the last dot: it holds no dot, it is the lower-cased suffix of the name, and a dot precedes it unless it is the whole name |
| `Decoder.KindOf` | Maqueta.py:65-79 | the `if/elif` chain on the extension; its dispatch is stated by `Decoder.KindOfSpec` |
| `Decoder.KindOfSpec` | Maqueta.py:65-79 | csv, xls, xlsx, json are structured; txt, log, md are plain text; html, htm are markup; every other extension falls back to bytes |
| `Decoder.SingleColumnSpec` | Maqueta.py:73-79 | `DataFrame({name: cells})` has the one column `name`, one row per cell, and that column reads back as the cells |
| `Decoder.Decode` | Maqueta.py:64-79 | the `try` block's decoding of one file; its outcome is stated by `Decoder.DecodeSpec`, `Decoder.DecodePlainText`, `Decoder.DecodeMarkup`, `Decoder.DecodeBinary` and `Decoder.DecodeFailsOnlyWhenParserFails` |
| `Decoder.DecodeSpec` | Maqueta.py:64-79 | a structured format succeeds iff its parser succeeded and then gives the parser's table; every other format succeeds with a well-formed one-column table |
| `Decoder.DecodePlainText` | Maqueta.py:71-73 | txt, log, md give the column `Contenido` with one row per line, and the rows joined back give the decoded text |
| `Decoder.DecodeMarkup` | Maqueta.py:74-76 | html, htm give the column `HTML` holding the whole text in one row |
| `Decoder.DecodeBinary` | Maqueta.py:77-79 | any other extension gives the column `Bytes` holding the unchanged payload in one row |
| `Decoder.DecodeFailsOnlyWhenParserFails` | Maqueta.py:64-70 | decoding fails only for a structured extension whose parser raised, with that parser's message |
| `Decoder.ExtWithoutDot` | Maqueta.py:63 | a name without a dot is its own lower-cased extension |
| `Decoder.ExtOfTrailingDot` | Maqueta.py:63 | a name ending in a dot has the empty extension and falls back to bytes |
| `Decoder.ExtExampleUpperCase` | Maqueta.py:63 | `Datos.CSV` has extension `csv` |
| `Decoder.ExtExampleTwoDots` | Maqueta.py:63 | `respaldo.tar.gz` has extension `gz` |
| `Decoder.ExtExampleNoDot` | Maqueta.py:63 | `LEEME` has extension `leeme` |
| `Decoder.LinesExamples` | Maqueta.py:73 | `a\nb\nc` gives three lines, `a\nb\n` two, the empty text none |
| `Classifier.Classify` | Maqueta.py:81-86 | the ordered keyword rule; its meaning is stated by `Classifier.ClassifySpec` |
| `Classifier.ClassifySpec` | Maqueta.py:81-86 | total: Impacto Social iff the lower-cased name contains `impacto`; Indicadores Ambientales iff it contains `ambiental` but not `impacto`; Otros Datos iff neither |
| `Classifier.LabelInjective` | Maqueta.py:82-86 | the three stored labels are distinct |
| `Classifier.ClassifyIgnoresCase` | Maqueta.py:81-86 | upper-casing a name does not change its category |
| `Classifier.ImpactWinsOverEnvironment` | Maqueta.py:81-84 | a name with both keywords is Impacto Social |
| `Classifier.KeywordInside` | Maqueta.py:81 | a keyword placed anywhere in a name is found |
| `Classifier.LacksKeyword` | Maqueta.py:81 | a lower-case name missing a letter of a keyword does not mention it |
| `Classifier.ClassifyImpactExample` | Maqueta.py:81-86 | `reporte_impacto_ambiental.csv` is Impacto Social |
| `Classifier.ClassifyEnvironmentExample` | Maqueta.py:81-86 | `ambiental_q1.csv` is Indicadores Ambientales |
| `Classifier.ClassifyOtherExample` | Maqueta.py:81-86 | `social_abril.csv` is Otros Datos |
| `Catalog.Names` | Maqueta.py:102 | the names of the records, one per record, in catalog order |
| `Catalog.Process` | Maqueta.py:64-94 | decode, then build the record; its result is stated by `Catalog.ProcessSpec` |
| `Catalog.ProcessSpec` | Maqueta.py:64-94 | processing succeeds iff decoding does; the record carries the name, the decoded table, its column names as variables, the name's category, and the given author and unit |
| `Catalog.Attempt` | Maqueta.py:61-97 | one pass of the manual loop's `try/except`; its outcome is stated by `Catalog.AttemptSpec` |
| `Catalog.AttemptSpec` | Maqueta.py:61-97 | one uploaded file either becomes a catalogued record with its name and the form's author and unit, exactly when it decodes, or a warning with its name and the decoder's error |
| `Catalog.ManualAdded` | Maqueta.py:60-94 | a manual batch appends at most one record per file |
| `Catalog.ManualAddedCatalogued` | Maqueta.py:87-94 | every record a manual batch appends is catalogued and carries the form's author and unit |
| `Catalog.ManualKeepsCatalogued` | Maqueta.py:60-94 | appending a manual batch to a catalog of catalogued records keeps every record catalogued |
| `Catalog.ManualWarnings` | Maqueta.py:96-97 | a manual batch warns at most once per file |
| `Catalog.ManualAccountsForEveryFile` | Maqueta.py:61-97 | the appended records and the warnings add up to the batch size |
| `Catalog.ManualAppend` | Maqueta.py:61-97 | files are handled one by one: a joined batch appends and warns what its two halves append and warn, in order |
| `Catalog.ManualSingleFailure` | Maqueta.py:96-97 | a single file that does not decode appends nothing and gets one warning with the decoder's error |
| `Catalog.ManualSingle` | Maqueta.py:64-97 | a file that decodes appends exactly its processed record and no warning; one that does not appends nothing and is warned about with its error |
| `Catalog.ManualFailureIsSkipped` | Maqueta.py:96-97 | a failing file appends nothing, gets one warning, and the files after it are still processed |
| `Catalog.ManualAllowsDuplicates` | Maqueta.py:87-94 | uploading a processable file twice in a batch catalogues it twice under the same name |
| `Catalog.ProcessEntry` | Maqueta.py:104-136 | one directory entry read and processed without author or unit; its outcome is stated by `Catalog.ProcessEntrySpec` |
| `Catalog.ProcessEntrySpec` | Maqueta.py:104-136 | an unreadable entry fails; a readable one goes through the same decode-and-classify step as an upload, with no author or unit, so it succeeds exactly when its payload decodes and then holds the decoded table; a scanned record is catalogued under the entry's name |
| `Catalog.ScanStep` | Maqueta.py:102-136 | a scan step leaves the catalog unchanged, or appends the entry's record when the name is new and it processes |
| `Catalog.Scanned` | Maqueta.py:100-139 | the old catalog is a prefix of the new one; each appended record has no author or unit and a name not earlier in the catalog |
| `Catalog.ScanWarnings` | Maqueta.py:138-139 | a scan warns at most once per entry |
| `Catalog.ScannedKeepsNames` | Maqueta.py:100-139 | a catalogued name stays catalogued after a scan |
| `Catalog.ScannedCovers` | Maqueta.py:100-136 | after a scan, every entry of the listing is catalogued by name unless it failed to process |
| `Catalog.ScannedNothingNew` | Maqueta.py:102-103 | a listing whose entries are all known or failing leaves the catalog unchanged |
| `Catalog.ScanIdempotent` | Maqueta.py:100-139 | scanning the same listing a second time appends nothing |
| `Catalog.ScanPreservesUniqueNames` | Maqueta.py:102-103 | a catalog with unique names keeps unique names through a scan |
| `Catalog.ScannedFromListing` | Maqueta.py:131-136 | every record a scan appends is the processed form of some entry of the listing |
| `Catalog.ScanWarningsAreFailures` | Maqueta.py:138-139 | every scan warning names an entry of the listing that failed with that error |
| `Catalog.ScanKnownNameIsSilent` | Maqueta.py:102-103 | an entry whose name is already catalogued is skipped: nothing appended, no warning |
| `Catalog.ScanFailureIsWarned` | Maqueta.py:104-139 | an entry with a new name that fails appends nothing and gets exactly one warning with its error |
| `Catalog.ScannedAppend` | Maqueta.py:101-136 | entries are handled in listing order: scanning a joined listing is scanning its halves one after the other |
| `Catalog.ScanWarningsAppend` | Maqueta.py:101-139 | the warnings of a joined listing are the first half's followed by the second half's, so every failing entry with a new name is warned about, wherever it stands in the listing |
| `Catalog.Session.constructor` | Maqueta.py:35-36 | a session starts with an empty catalog, whose records are trivially all catalogued |
| `Catalog.Session.ManualUpload` | Maqueta.py:60-97 | the catalog becomes the old catalog followed by the batch's processed files, and the warnings are the failures, both in batch order; every record stays catalogued |
| `Catalog.Session.Scan` | Maqueta.py:100-139 | the catalog becomes the scanned catalog; the old records stay in place, unchanged, unique names stay unique, and every record stays catalogued |
| `History.Format` | Maqueta.py:218 | the format column is the upper-cased extension the decoder dispatched on |
| `History.Row` | Maqueta.py:215-223 | one history row; its columns are stated by `History.FlagReadsTable`, `History.ManualRowsKeepAuthor`, `History.ScannedRowsShowDefaults` and `History.Format` |
| `History.Inconsistent` | Maqueta.py:223 | the inconsistency flag; stated by `History.FlagReadsTable` and `History.NonStructuredAlwaysFlagged` |
| `History.Summarize` | Maqueta.py:213-225 | one row per record, in catalog order |
| `History.SummarizeAppend` | Maqueta.py:214-225 | appending records appends rows and leaves earlier rows unchanged |
| `History.FlagReadsTable` | Maqueta.py:220-223 | for a catalogued record the variable count is the table's column count, and the flag is set iff the table has fewer than two columns or fewer than two rows |
| `History.NonStructuredAlwaysFlagged` | Maqueta.py:223 | every text, markup or bytes file processes, shows one variable, and is flagged |
| `History.ManualRowsKeepAuthor` | Maqueta.py:221-222 | rows of manual uploads show the form's author and unit as typed, empty strings included |
| `History.ScannedRowsShowDefaults` | Maqueta.py:221-222 | rows of scanned records show `Desconocido` and `No especificada` |
| `History.FormatExample` | Maqueta.py:218 | `ambiental_q1.csv` has format `CSV` |

## Left out

- Streamlit rendering: page set-up, menu, form widgets, toasts, tabs, tables, popovers. `Session.ManualUpload` is the loop body that runs once the form is submitted with at least one file; `Session.Scan` is the directory scan that runs every time the upload page is shown, submitted or not. The warnings are returned as a list of (name, error) entries instead of being shown.
- The structured parsers (`read_csv`, `read_excel`, `read_json`) are foreign library calls. Each payload carries the parser's outcome as an opaque table or error message.
- Permissive UTF-8 decoding (`errors='ignore'`) is not modelled. Each payload carries its decoded text next to its bytes.
- `Text.Lines`: splits on `\n` only. Python's `splitlines` also breaks on `\r`, `\r\n` and the other Unicode line boundaries.
- `Text.Lower`, `Text.Upper`: map ASCII letters only. Python's `lower` and `upper` use full Unicode case mapping.
- Filesystem I/O (`os.listdir`, `open`, creating the input directory and writing the two seed CSV files on first run) is not modelled. The scan takes the listing as a sequence of entries. An entry that cannot be read has no content.
- The dataset tabs use random quality figures and `date.today()`, and make no decisions. The history's date is a parameter.
- The report-generator page is fixed strings, placeholder images and a simulated download.
