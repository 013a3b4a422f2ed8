/**
 * The session catalog: the list of processed files kept for one session, and
 * the two loops that fill it: the manual-upload loop, which appends every file
 * that processes and never looks at names, and the directory scan, which skips
 * names already listed and appends the rest without author or unit.
 */
module Catalog {
  import opened Wrappers
  import opened Text
  import opened Decoder
  import opened Classifier

  /** One catalogued file. Records appended by the scan have neither `author` nor `unit` (the keys are absent). */
  datatype Record = Record(
    name: string,
    table: Table,
    variables: seq<string>,
    category: Category,
    author: Option<string>,
    unit: Option<string>)

  /** A file of a manual-upload batch. Reading an uploaded file cannot fail. */
  datatype UploadedFile = UploadedFile(name: string, payload: Payload)

  /** An entry of the input directory; `content` is None when the entry cannot be opened or read. */
  datatype DirEntry = DirEntry(name: string, content: Option<Payload>)

  /** The warning shown for a file that was skipped because processing it raised. */
  datatype Warning = Warning(name: string, error: DecodeError)

  /** What every record of the catalog satisfies, whichever loop appended it. */
  predicate Catalogued(r: Record) {
    && r.variables == r.table.columns
    && r.category == Classify(r.name)
    && (r.author.Some? <==> r.unit.Some?)
  }

  /** Every record of the catalog is catalogued. */
  predicate AllCatalogued(uploads: seq<Record>) {
    forall k :: 0 <= k < |uploads| ==> Catalogued(uploads[k])
  }

  /** The names of the records, in catalog order (`[u['nombre'] for u in uploads]`). */
  function Names(uploads: seq<Record>): (names: seq<string>)
    ensures |names| == |uploads|
    ensures forall k :: 0 <= k < |uploads| ==> names[k] == uploads[k].name
  {
    seq(|uploads|, k requires 0 <= k < |uploads| => uploads[k].name)
  }

  /** No name appears twice. */
  predicate UniqueNames(uploads: seq<Record>) {
    forall j, k :: 0 <= j < k < |uploads| ==> uploads[j].name != uploads[k].name
  }

  /** The `try` block shared by both loops: decode, take the column names as variables, classify. */
  function Process(name: string, p: Payload, author: Option<string>, unit: Option<string>): Result<Record, DecodeError> {
    match Decode(name, p)
    case Success(table) => Success(Record(name, table, table.columns, Classify(name), author, unit))
    case Failure(e) => Failure(e)
  }

  /**
   * Processing fails exactly when decoding does, with the decoder's error; a
   * success is a catalogued record of the decoded table under the file's name.
   */
  lemma ProcessSpec(name: string, p: Payload, author: Option<string>, unit: Option<string>)
    ensures var r := Process(name, p, author, unit);
      && (r.Success? <==> Decode(name, p).Success?)
      && (r.Failure? ==> r.error == Decode(name, p).error)
      && (r.Success? ==>
            && r.value.name == name && r.value.table == Decode(name, p).value
            && r.value.variables == r.value.table.columns && r.value.category == Classify(name)
            && r.value.author == author && r.value.unit == unit)
  {
  }

  // ---------------------------------------------------------------------------
  // Outcomes of a sequence of attempts
  // ---------------------------------------------------------------------------

  /** The values of the successful outcomes, in order. */
  function Successes<T, E>(outcomes: seq<Result<T, E>>): (values: seq<T>)
    ensures |values| <= |outcomes|
  {
    if |outcomes| == 0 then []
    else
      var last := outcomes[|outcomes| - 1];
      Successes(outcomes[..|outcomes| - 1]) + (if last.Success? then [last.value] else [])
  }

  /** The errors of the failed outcomes, in order. */
  function Failures<T, E>(outcomes: seq<Result<T, E>>): (errors: seq<E>)
    ensures |errors| <= |outcomes|
  {
    if |outcomes| == 0 then []
    else
      var last := outcomes[|outcomes| - 1];
      Failures(outcomes[..|outcomes| - 1]) + (if last.Success? then [] else [last.error])
  }

  /** Each outcome is a success or a failure, never both. */
  lemma {:induction false} SuccessesAndFailuresPartition<T, E>(outcomes: seq<Result<T, E>>)
    ensures |Successes(outcomes)| + |Failures(outcomes)| == |outcomes|
  {
    if |outcomes| > 0 {
      SuccessesAndFailuresPartition(outcomes[..|outcomes| - 1]);
    }
  }

  /** Filtering commutes with concatenation. */
  lemma {:induction false} OutcomesAppend<T, E>(a: seq<Result<T, E>>, b: seq<Result<T, E>>)
    ensures Successes(a + b) == Successes(a) + Successes(b)
    ensures Failures(a + b) == Failures(a) + Failures(b)
    decreases |b|
  {
    if |b| == 0 {
      assert a + b == a;
    } else {
      assert (a + b)[..|a + b| - 1] == a + b[..|b| - 1];
      OutcomesAppend(a, b[..|b| - 1]);
    }
  }

  /** Filtering one more outcome appends its value or its error. */
  lemma OutcomesStep<T, E>(outcomes: seq<Result<T, E>>, i: nat)
    requires i < |outcomes|
    ensures Successes(outcomes[..i + 1]) == Successes(outcomes[..i]) + (if outcomes[i].Success? then [outcomes[i].value] else [])
    ensures Failures(outcomes[..i + 1]) == Failures(outcomes[..i]) + (if outcomes[i].Success? then [] else [outcomes[i].error])
  {
    assert outcomes[..i + 1][..i] == outcomes[..i];
  }

  /** Every success value comes from some outcome. */
  lemma {:induction false} SuccessesFrom<T, E>(outcomes: seq<Result<T, E>>)
    ensures forall v :: v in Successes(outcomes) ==> Success(v) in outcomes
  {
    if |outcomes| > 0 {
      var init := outcomes[..|outcomes| - 1];
      SuccessesFrom(init);
      forall v | v in Successes(outcomes) ensures Success(v) in outcomes {
        if v in Successes(init) {
          assert Success(v) in init;
        }
      }
    }
  }

  // ---------------------------------------------------------------------------
  // Manual uploads
  // ---------------------------------------------------------------------------

  /** The outcome of one uploaded file: its record, or the warning shown for it. */
  function Attempt(f: UploadedFile, autor: string, unidad: string): Result<Record, Warning> {
    match Process(f.name, f.payload, Some(autor), Some(unidad))
    case Success(rec) => Success(rec)
    case Failure(e) => Failure(Warning(f.name, e))
  }

  /** The outcomes of a batch, file by file. */
  function Attempts(batch: seq<UploadedFile>, autor: string, unidad: string): (outcomes: seq<Result<Record, Warning>>)
    ensures |outcomes| == |batch|
    ensures forall k :: 0 <= k < |batch| ==> outcomes[k] == Attempt(batch[k], autor, unidad)
  {
    seq(|batch|, k requires 0 <= k < |batch| => Attempt(batch[k], autor, unidad))
  }

  /** The records a manual batch appends: one per file that processes, in batch order, with the form's author and unit. */
  function ManualAdded(batch: seq<UploadedFile>, autor: string, unidad: string): (added: seq<Record>)
    ensures |added| <= |batch|
  {
    Successes(Attempts(batch, autor, unidad))
  }

  /** The warnings a manual batch raises: one per file that does not process, in batch order. */
  function ManualWarnings(batch: seq<UploadedFile>, autor: string, unidad: string): (warnings: seq<Warning>)
    ensures |warnings| <= |batch|
  {
    Failures(Attempts(batch, autor, unidad))
  }

  /** A file that processes becomes a catalogued record carrying the form's author and unit; one that does not is reported under its own name. */
  lemma AttemptSpec(f: UploadedFile, autor: string, unidad: string)
    ensures var r := Attempt(f, autor, unidad);
      && (r.Success? <==> Decode(f.name, f.payload).Success?)
      && (r.Success? ==> Catalogued(r.value) && r.value.name == f.name && r.value.author == Some(autor) && r.value.unit == Some(unidad))
      && (r.Failure? ==> r.error == Warning(f.name, Decode(f.name, f.payload).error))
  {
    ProcessSpec(f.name, f.payload, Some(autor), Some(unidad));
  }

  /** Every record a manual batch appends is catalogued and carries the form's author and unit. */
  lemma ManualAddedCatalogued(batch: seq<UploadedFile>, autor: string, unidad: string)
    ensures forall r :: r in ManualAdded(batch, autor, unidad) ==>
      Catalogued(r) && r.author == Some(autor) && r.unit == Some(unidad)
  {
    var outcomes := Attempts(batch, autor, unidad);
    SuccessesFrom(outcomes);
    forall r | r in ManualAdded(batch, autor, unidad)
      ensures Catalogued(r) && r.author == Some(autor) && r.unit == Some(unidad)
    {
      var k :| 0 <= k < |outcomes| && outcomes[k] == Success(r);
      AttemptSpec(batch[k], autor, unidad);
    }
  }

  /** Appending a manual batch to a catalog of catalogued records keeps every record catalogued. */
  lemma ManualKeepsCatalogued(uploads: seq<Record>, batch: seq<UploadedFile>, autor: string, unidad: string)
    requires AllCatalogued(uploads)
    ensures AllCatalogued(uploads + ManualAdded(batch, autor, unidad))
  {
    var added := ManualAdded(batch, autor, unidad);
    ManualAddedCatalogued(batch, autor, unidad);
    forall k | 0 <= k < |uploads + added| ensures Catalogued((uploads + added)[k]) {
      if k >= |uploads| {
        assert (uploads + added)[k] == added[k - |uploads|];
      }
    }
  }

  /** Every file of a batch is either appended or warned about, never both. */
  lemma ManualAccountsForEveryFile(batch: seq<UploadedFile>, autor: string, unidad: string)
    ensures |ManualAdded(batch, autor, unidad)| + |ManualWarnings(batch, autor, unidad)| == |batch|
  {
    SuccessesAndFailuresPartition(Attempts(batch, autor, unidad));
  }

  /** Batches are processed file by file: a joined batch appends and warns what its two halves do, in order. */
  lemma ManualAppend(a: seq<UploadedFile>, b: seq<UploadedFile>, autor: string, unidad: string)
    ensures ManualAdded(a + b, autor, unidad) == ManualAdded(a, autor, unidad) + ManualAdded(b, autor, unidad)
    ensures ManualWarnings(a + b, autor, unidad) == ManualWarnings(a, autor, unidad) + ManualWarnings(b, autor, unidad)
  {
    assert Attempts(a + b, autor, unidad) == Attempts(a, autor, unidad) + Attempts(b, autor, unidad);
    OutcomesAppend(Attempts(a, autor, unidad), Attempts(b, autor, unidad));
  }

  /** A single file that does not decode appends nothing and is warned about with the decoder's error. */
  lemma ManualSingleFailure(f: UploadedFile, autor: string, unidad: string)
    requires Decode(f.name, f.payload).Failure?
    ensures ManualAdded([f], autor, unidad) == []
    ensures ManualWarnings([f], autor, unidad) == [Warning(f.name, Decode(f.name, f.payload).error)]
  {
    var outcomes := Attempts([f], autor, unidad);
    AttemptSpec(f, autor, unidad);
    assert outcomes == [Attempt(f, autor, unidad)] && outcomes[..0] == [];
  }

  /** A single file is appended exactly when it processes, and warned about with its error otherwise. */
  lemma ManualSingle(f: UploadedFile, autor: string, unidad: string)
    ensures var d := Decode(f.name, f.payload);
      && (d.Success? ==>
            && ManualAdded([f], autor, unidad) == [Process(f.name, f.payload, Some(autor), Some(unidad)).value]
            && ManualWarnings([f], autor, unidad) == [])
      && (d.Failure? ==> ManualAdded([f], autor, unidad) == [] && ManualWarnings([f], autor, unidad) == [Warning(f.name, d.error)])
  {
    var outcomes := Attempts([f], autor, unidad);
    assert outcomes == [Attempt(f, autor, unidad)];
    assert outcomes[..0] == [];
  }

  /** A file that fails appends nothing, is reported, and does not stop the files after it. */
  lemma ManualFailureIsSkipped(before: seq<UploadedFile>, f: UploadedFile, after: seq<UploadedFile>, autor: string, unidad: string)
    requires Decode(f.name, f.payload).Failure?
    ensures ManualAdded(before + [f] + after, autor, unidad)
      == ManualAdded(before, autor, unidad) + ManualAdded(after, autor, unidad)
    ensures ManualWarnings(before + [f] + after, autor, unidad)
      == ManualWarnings(before, autor, unidad) + [Warning(f.name, Decode(f.name, f.payload).error)] + ManualWarnings(after, autor, unidad)
  {
    var w := Warning(f.name, Decode(f.name, f.payload).error);
    assert ManualAdded([f], autor, unidad) == [] && ManualWarnings([f], autor, unidad) == [w] by {
      ManualSingleFailure(f, autor, unidad);
    }
    assert ManualAdded(before + [f], autor, unidad) == ManualAdded(before, autor, unidad)
        && ManualWarnings(before + [f], autor, unidad) == ManualWarnings(before, autor, unidad) + [w] by {
      ManualAppend(before, [f], autor, unidad);
    }
    ManualAppend(before + [f], after, autor, unidad);
  }

  /** The manual loop does not check names: uploading a processable file twice catalogues it twice. */
  lemma ManualAllowsDuplicates(f: UploadedFile, autor: string, unidad: string)
    requires Decode(f.name, f.payload).Success?
    ensures var added := ManualAdded([f, f], autor, unidad);
      |added| == 2 && added[0].name == added[1].name == f.name && !UniqueNames(added)
  {
    var outcomes := Attempts([f, f], autor, unidad);
    var r := Attempt(f, autor, unidad);
    AttemptSpec(f, autor, unidad);
    assert outcomes == [r, r];
    assert outcomes[..1] == [r] && outcomes[..1][..0] == [];
    assert Successes(outcomes[..1]) == [r.value];
    assert Successes(outcomes) == [r.value, r.value];
  }

  // ---------------------------------------------------------------------------
  // Directory scan
  // ---------------------------------------------------------------------------

  function ProcessEntry(e: DirEntry): Result<Record, DecodeError> {
    match e.content
    case None => Failure(Unreadable)
    case Some(p) => Process(e.name, p, None, None)
  }

  /** An unreadable entry fails; a readable one processes like an upload without author or unit. */
  lemma ProcessEntrySpec(e: DirEntry)
    ensures var r := ProcessEntry(e);
      && (e.content.None? ==> r == Failure(Unreadable))
      && (e.content.Some? ==> r == Process(e.name, e.content.value, None, None))
      && (r.Success? ==> Catalogued(r.value) && r.value.name == e.name && r.value.author.None? && r.value.unit.None?)
  {
    if e.content.Some? {
      ProcessSpec(e.name, e.content.value, None, None);
    }
  }

  /** One step of the scan: skip a known name, otherwise append the entry if it processes. */
  function ScanStep(uploads: seq<Record>, e: DirEntry): (next: seq<Record>)
    ensures next == uploads || (e.name !in Names(uploads) && ProcessEntry(e).Success? && next == uploads + [ProcessEntry(e).value])
  {
    if e.name in Names(uploads) then uploads
    else match ProcessEntry(e)
      case Success(r) => uploads + [r]
      case Failure(_) => uploads
  }

  /** The catalog after scanning `listing` in order, starting from `uploads`. */
  function Scanned(uploads: seq<Record>, listing: seq<DirEntry>): (result: seq<Record>)
    ensures |uploads| <= |result| && result[..|uploads|] == uploads
    ensures forall k :: |uploads| <= k < |result| ==>
      && Catalogued(result[k]) && result[k].author.None? && result[k].unit.None?
      && result[k].name !in Names(result[..k])
  {
    if |listing| == 0 then uploads
    else
      var earlier := Scanned(uploads, listing[..|listing| - 1]);
      var next := ScanStep(earlier, listing[|listing| - 1]);
      assert next[..|uploads|] == uploads by {
        assert next[..|earlier|] == earlier;
      }
      assert forall k :: |earlier| <= k < |next| ==> next[..k] == earlier;
      assert forall k :: |uploads| <= k < |earlier| ==> next[k] == earlier[k] && next[..k] == earlier[..k];
      next
  }

  /** The warnings of a scan: one per entry whose name is new and that does not process. */
  function ScanWarnings(uploads: seq<Record>, listing: seq<DirEntry>): (warnings: seq<Warning>)
    ensures |warnings| <= |listing|
  {
    if |listing| == 0 then []
    else
      var e := listing[|listing| - 1];
      var earlier := Scanned(uploads, listing[..|listing| - 1]);
      var before := ScanWarnings(uploads, listing[..|listing| - 1]);
      if e.name in Names(earlier) then before
      else match ProcessEntry(e)
        case Success(_) => before
        case Failure(err) => before + [Warning(e.name, err)]
  }

  /** A name in the catalog stays in it. */
  lemma ScannedKeepsNames(uploads: seq<Record>, listing: seq<DirEntry>, name: string)
    requires name in Names(uploads)
    ensures name in Names(Scanned(uploads, listing))
  {
    var result := Scanned(uploads, listing);
    var k :| 0 <= k < |uploads| && uploads[k].name == name;
    assert result[k] == uploads[k];
  }

  /** After a scan, every entry is catalogued by name, unless it failed to process. */
  lemma {:induction false} ScannedCovers(uploads: seq<Record>, listing: seq<DirEntry>)
    ensures forall e :: e in listing ==>
      e.name in Names(Scanned(uploads, listing)) || ProcessEntry(e).Failure?
  {
    if |listing| > 0 {
      var init := listing[..|listing| - 1];
      var last := listing[|listing| - 1];
      var earlier := Scanned(uploads, init);
      var result := Scanned(uploads, listing);
      ScannedCovers(uploads, init);
      forall e | e in listing
        ensures e.name in Names(result) || ProcessEntry(e).Failure?
      {
        if e in init {
          if e.name in Names(earlier) {
            ScannedKeepsNames(earlier, [last], e.name);
            assert [last][..0] == [];
          }
        } else {
          assert e == last;
          if ProcessEntry(e).Success? && e.name !in Names(earlier) {
            assert result[|earlier|].name == e.name;
          }
        }
      }
    }
  }

  /** A scan whose every entry is already catalogued or fails leaves the catalog as it was. */
  lemma {:induction false} ScannedNothingNew(uploads: seq<Record>, listing: seq<DirEntry>)
    requires forall e :: e in listing ==> e.name in Names(uploads) || ProcessEntry(e).Failure?
    ensures Scanned(uploads, listing) == uploads
  {
    if |listing| > 0 {
      ScannedNothingNew(uploads, listing[..|listing| - 1]);
      assert listing[|listing| - 1] in listing;
    }
  }

  /** Scanning the same directory twice appends nothing the second time. */
  lemma ScanIdempotent(uploads: seq<Record>, listing: seq<DirEntry>)
    ensures Scanned(Scanned(uploads, listing), listing) == Scanned(uploads, listing)
  {
    ScannedCovers(uploads, listing);
    ScannedNothingNew(Scanned(uploads, listing), listing);
  }

  /** The scan never introduces a second record with a name already catalogued. */
  lemma ScanPreservesUniqueNames(uploads: seq<Record>, listing: seq<DirEntry>)
    requires UniqueNames(uploads)
    ensures UniqueNames(Scanned(uploads, listing))
  {
    var result := Scanned(uploads, listing);
    forall j, k | 0 <= j < k < |result|
      ensures result[j].name != result[k].name
    {
      if k >= |uploads| {
        assert Names(result[..k])[j] == result[j].name;
      } else {
        assert result[j] == uploads[j] && result[k] == uploads[k];
      }
    }
  }

  /** Every record a scan appends is what some entry of the listing processed to. */
  lemma {:induction false} ScannedFromListing(uploads: seq<Record>, listing: seq<DirEntry>)
    ensures var result := Scanned(uploads, listing);
      forall k :: |uploads| <= k < |result| ==>
        exists e :: e in listing && ProcessEntry(e) == Success(result[k])
  {
    if |listing| > 0 {
      var init := listing[..|listing| - 1];
      var last := listing[|listing| - 1];
      ScannedFromListing(uploads, init);
      var earlier := Scanned(uploads, init);
      var result := Scanned(uploads, listing);
      assert result == ScanStep(earlier, last);
      forall k | |uploads| <= k < |result|
        ensures exists e :: e in listing && ProcessEntry(e) == Success(result[k])
      {
        if k < |earlier| {
          assert result[k] == earlier[k];
          assert |uploads| <= k < |Scanned(uploads, init)|;
          assert exists e :: e in init && ProcessEntry(e) == Success(Scanned(uploads, init)[k]);
          var e :| e in init && ProcessEntry(e) == Success(earlier[k]);
          assert e in listing;
        } else {
          assert last in listing && ProcessEntry(last) == Success(result[k]);
        }
      }
    }
  }

  /** Every warning of a scan names an entry of the listing that failed to process, with its error. */
  lemma {:induction false} ScanWarningsAreFailures(uploads: seq<Record>, listing: seq<DirEntry>)
    ensures var warnings := ScanWarnings(uploads, listing);
      forall k :: 0 <= k < |warnings| ==>
        exists e :: e in listing && e.name == warnings[k].name && ProcessEntry(e) == Failure(warnings[k].error)
  {
    if |listing| > 0 {
      var init := listing[..|listing| - 1];
      var last := listing[|listing| - 1];
      ScanWarningsAreFailures(uploads, init);
      var before := ScanWarnings(uploads, init);
      var warnings := ScanWarnings(uploads, listing);
      forall k | 0 <= k < |warnings|
        ensures exists e :: e in listing && e.name == warnings[k].name && ProcessEntry(e) == Failure(warnings[k].error)
      {
        if k < |before| {
          assert warnings[k] == before[k];
          assert k < |ScanWarnings(uploads, init)|;
          assert exists e :: e in init && e.name == ScanWarnings(uploads, init)[k].name && ProcessEntry(e) == Failure(ScanWarnings(uploads, init)[k].error);
          var e :| e in init && e.name == before[k].name && ProcessEntry(e) == Failure(before[k].error);
          assert e in listing;
        } else {
          assert last in listing;
        }
      }
    }
  }

  /** An entry whose name is already catalogued is skipped without a warning. */
  lemma ScanKnownNameIsSilent(uploads: seq<Record>, e: DirEntry)
    requires e.name in Names(uploads)
    ensures Scanned(uploads, [e]) == uploads
    ensures ScanWarnings(uploads, [e]) == []
  {
    assert [e][..0] == [];
  }

  /** An entry with a new name that fails to process is reported once, with its error, and appends nothing. */
  lemma ScanFailureIsWarned(uploads: seq<Record>, e: DirEntry)
    requires e.name !in Names(uploads) && ProcessEntry(e).Failure?
    ensures Scanned(uploads, [e]) == uploads
    ensures ScanWarnings(uploads, [e]) == [Warning(e.name, ProcessEntry(e).error)]
  {
    assert [e][..0] == [];
  }

  /** Entries are handled in listing order: scanning a joined listing is scanning its halves one after the other. */
  lemma {:induction false} ScannedAppend(uploads: seq<Record>, a: seq<DirEntry>, b: seq<DirEntry>)
    ensures Scanned(uploads, a + b) == Scanned(Scanned(uploads, a), b)
    decreases |b|
  {
    if |b| == 0 {
      assert a + b == a;
    } else {
      assert (a + b)[..|a + b| - 1] == a + b[..|b| - 1];
      assert (a + b)[|a + b| - 1] == b[|b| - 1];
      ScannedAppend(uploads, a, b[..|b| - 1]);
    }
  }

  /** The warnings of a joined listing are those of its first half followed by those of its second half, scanned from the catalog the first half leaves. */
  lemma {:induction false} ScanWarningsAppend(uploads: seq<Record>, a: seq<DirEntry>, b: seq<DirEntry>)
    ensures ScanWarnings(uploads, a + b) == ScanWarnings(uploads, a) + ScanWarnings(Scanned(uploads, a), b)
    decreases |b|
  {
    if |b| == 0 {
      assert a + b == a;
    } else {
      assert (a + b)[..|a + b| - 1] == a + b[..|b| - 1];
      assert (a + b)[|a + b| - 1] == b[|b| - 1];
      ScannedAppend(uploads, a, b[..|b| - 1]);
      ScanWarningsAppend(uploads, a, b[..|b| - 1]);
    }
  }

  // ---------------------------------------------------------------------------
  // The session
  // ---------------------------------------------------------------------------

  /** `st.session_state.uploads`: the catalog of one session. */
  class Session {
    var uploads: seq<Record>

    ghost predicate Valid()
      reads this
    {
      AllCatalogued(uploads)
    }

    /** A new session starts with an empty catalog. */
    constructor ()
      ensures Valid() && uploads == []
    {
      uploads := [];
    }

    /** The manual-upload loop: every file that processes is appended with the form's author and unit. */
    method ManualUpload(batch: seq<UploadedFile>, autor: string, unidad: string) returns (warnings: seq<Warning>)
      requires Valid()
      modifies this
      ensures Valid()
      ensures uploads == old(uploads) + ManualAdded(batch, autor, unidad)
      ensures warnings == ManualWarnings(batch, autor, unidad)
    {
      warnings := [];
      ghost var outcomes := Attempts(batch, autor, unidad);
      for i := 0 to |batch|
        invariant uploads == old(uploads) + Successes(outcomes[..i])
        invariant warnings == Failures(outcomes[..i])
      {
        var outcome := Attempt(batch[i], autor, unidad);
        OutcomesStep(outcomes, i);
        if outcome.Success? {
          uploads := uploads + [outcome.value];
        } else {
          warnings := warnings + [outcome.error];
        }
      }
      assert outcomes[..|batch|] == outcomes;
      ManualKeepsCatalogued(old(uploads), batch, autor, unidad);
    }

    /** The directory scan: entries whose name is already catalogued are skipped, the others are appended when they process. */
    method Scan(listing: seq<DirEntry>) returns (warnings: seq<Warning>)
      requires Valid()
      modifies this
      ensures Valid()
      ensures uploads == Scanned(old(uploads), listing)
      ensures warnings == ScanWarnings(old(uploads), listing)
      ensures uploads[..|old(uploads)|] == old(uploads)
      ensures UniqueNames(old(uploads)) ==> UniqueNames(uploads)
    {
      warnings := [];
      for i := 0 to |listing|
        invariant Valid()
        invariant uploads == Scanned(old(uploads), listing[..i])
        invariant warnings == ScanWarnings(old(uploads), listing[..i])
      {
        var entry := listing[i];
        assert listing[..i + 1][..i] == listing[..i] && listing[..i + 1][i] == entry;
        if entry.name in Names(uploads) {
          continue;
        }
        var outcome := ProcessEntry(entry);
        if outcome.Success? {
          uploads := uploads + [outcome.value];
        } else {
          warnings := warnings + [Warning(entry.name, outcome.error)];
        }
      }
      assert listing[..|listing|] == listing;
      if UniqueNames(old(uploads)) {
        ScanPreservesUniqueNames(old(uploads), listing);
      }
    }
  }
}
