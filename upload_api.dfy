/**
 * The `/upload` and `/transactions` endpoints. An upload validates the whole
 * batch (at least one file, every name ending in ".pdf" ignoring case), then
 * extracts each file's rows, turns every row into a stored transaction
 * (category through the keyword fallback, currency "IDR", not recurring, source
 * the file's name), stores them when there are any, and always records the
 * import. Every failure, the validation's own 400s included, is caught and
 * answered as a 500 "Error processing files: ...", and nothing is stored.
 *
 * The PDF-to-rows extraction, the UUIDs behind transaction ids, the clock and
 * the text of a record-validation error are calls the endpoint cannot see; they
 * are parameters here.
 */
module UploadApi {
  import opened Basics
  import opened Text
  import opened Models
  import opened Fallback
  import opened Store

  /** An uploaded file: its client-side name and its bytes. */
  datatype UploadFile = UploadFile(filename: string, content: seq<bv8>)

  /** An HTTP error answer: status code and detail text. */
  datatype ApiError = ApiError(status: nat, detail: string)

  /** The extractor as the endpoint sees it: the rows of a file, or the text of the exception it raised. */
  type Extractor = UploadFile -> Result<seq<ExtractedTxn>, string>

  const ExtractorModel: ExtractedWith := ExtractedWith("gpt-4o-mini", "txn.v1")

  // ---------------------------------------------------------------------------
  // Validation
  // ---------------------------------------------------------------------------

  predicate IsPdfName(name: string)
  {
    EndsWith(Lower(name), ".pdf")
  }

  function NotPdfDetail(name: string): string
  {
    "File " + name + " is not a PDF"
  }

  /** The detail for the first file whose name is not a PDF name, if any. */
  function FirstNonPdf(files: seq<UploadFile>): (r: Option<string>)
    ensures r.None? <==> forall i :: 0 <= i < |files| ==> IsPdfName(files[i].filename)
  {
    if files == [] then None
    else if !IsPdfName(files[0].filename) then Some(NotPdfDetail(files[0].filename))
    else
      assert forall i :: 1 <= i < |files| ==> files[i] == files[1..][i - 1];
      FirstNonPdf(files[1..])
  }

  /** A non-PDF name after only PDF names is the one reported. */
  lemma {:induction false} FirstNonPdfAt(files: seq<UploadFile>, k: nat)
    requires k < |files| && !IsPdfName(files[k].filename)
    requires forall j :: 0 <= j < k ==> IsPdfName(files[j].filename)
    ensures FirstNonPdf(files) == Some(NotPdfDetail(files[k].filename))
  {
    if k > 0 {
      assert forall j :: 0 <= j < k - 1 ==> files[1..][j] == files[j + 1];
      FirstNonPdfAt(files[1..], k - 1);
    }
  }

  /** File `k` is the first whose name is not a PDF name. */
  predicate FirstNonPdfIndex(files: seq<UploadFile>, k: int)
  {
    0 <= k < |files| && !IsPdfName(files[k].filename) && forall j :: 0 <= j < k ==> IsPdfName(files[j].filename)
  }

  /** Why the batch is rejected before anything is read, if it is. */
  function Rejection(files: seq<UploadFile>): Option<string>
  {
    if files == [] then Some("No files provided") else FirstNonPdf(files)
  }

  /** `str()` of an HTTP exception: the status code, a colon and the detail. */
  function ExceptionText(status: nat, detail: string): string
  {
    NatToString(status) + ": " + detail
  }

  /** The answer of the catch-all handler to an exception with text `message`. */
  function Caught(message: string): ApiError
  {
    ApiError(500, "Error processing files: " + message)
  }

  // ---------------------------------------------------------------------------
  // Building transactions
  // ---------------------------------------------------------------------------

  /**
   * A row as a stored transaction, or the validation error the record raises
   * when the category the fallback gives is not one of the six.
   */
  function BuildTransaction(row: ExtractedTxn, file: string, id: string, categorize: ExtractedTxn -> string,
                            describeInvalid: string -> string): Result<Transaction, string>
  {
    var category := categorize(row);
    match ParseCategory(category)
    case None => Err(describeInvalid(category))
    case Some(c) =>
      Ok(NewTransaction(id, row.date, row.description, row.amount, row.merchantCanonical, c, row.confidence,
                        TransactionSource(file), ExtractorModel))
  }

  /** `t` is row `row` of file `file` under id `id`, with the record's defaults. */
  predicate BuiltFrom(t: Transaction, row: ExtractedTxn, file: string, id: string, categorize: ExtractedTxn -> string)
  {
    && t.id == id && t.date == row.date && t.descriptionRaw == row.description && t.amount == row.amount
    && t.merchantCanonical == row.merchantCanonical && CategoryValue(t.category) == categorize(row)
    && t.categoryConfidence == row.confidence && t.currency == "IDR" && !t.isRecurring && t.recurringFrequency == None
    && t.source == TransactionSource(file) && t.extractedWith == ExtractorModel
  }

  /** A row's category is accepted by the record. */
  predicate Accepted(row: ExtractedTxn, categorize: ExtractedTxn -> string)
  {
    ParseCategory(categorize(row)).Some?
  }

  /** A row becomes a transaction exactly when its category is accepted, and then it carries the row's fields. */
  lemma BuildTransactionFacts(row: ExtractedTxn, file: string, id: string, categorize: ExtractedTxn -> string,
                              describeInvalid: string -> string)
    ensures var r := BuildTransaction(row, file, id, categorize, describeInvalid);
      && (r.Ok? <==> Accepted(row, categorize))
      && (r.Ok? ==> BuiltFrom(r.value, row, file, id, categorize))
  {
  }

  /** With the keyword fallback, a row below the confidence threshold is always accepted; above it, exactly when the model's category is one of the six. */
  lemma FallbackAccepted(row: ExtractedTxn)
    ensures row.confidence < ConfidenceThreshold ==> Accepted(row, ApplyFallbackRules)
    ensures row.confidence >= ConfidenceThreshold ==> (Accepted(row, ApplyFallbackRules) <==> ParseCategory(row.category).Some?)
  {
    var category := ApplyFallbackRules(row);
  }

  /** The ids the generator hands out, in order: "t_" and the start of each UUID. */
  function IdsFrom(uuids: nat -> string): nat -> string
  {
    (q: nat) => TransactionId(uuids(q))
  }

  /** A conversion so far followed by one more built row: the first failure wins. */
  function AppendBuilt(r: Result<seq<Transaction>, string>, b: Result<Transaction, string>): Result<seq<Transaction>, string>
  {
    if r.Err? then r else if b.Err? then Err(b.error) else Ok(r.value + [b.value])
  }

  /** The rows of one file as transactions, ids drawn from `ids` from position `start` on; the first rejected row fails them all. */
  function ConvertRows(rows: seq<ExtractedTxn>, file: string, ids: nat -> string, start: nat,
                       categorize: ExtractedTxn -> string, describeInvalid: string -> string): Result<seq<Transaction>, string>
  {
    if rows == [] then Ok([])
    else
      var init := rows[..|rows| - 1];
      AppendBuilt(ConvertRows(init, file, ids, start, categorize, describeInvalid),
                  BuildTransaction(rows[|rows| - 1], file, ids(start + |init|), categorize, describeInvalid))
  }

  /** The rows convert exactly when every row is accepted, one transaction per row, in order. */
  lemma {:induction false} ConvertRowsFacts(rows: seq<ExtractedTxn>, file: string, ids: nat -> string, start: nat,
                                            categorize: ExtractedTxn -> string, describeInvalid: string -> string)
    ensures var r := ConvertRows(rows, file, ids, start, categorize, describeInvalid);
      && (r.Ok? <==> forall i :: 0 <= i < |rows| ==> Accepted(rows[i], categorize))
      && (r.Ok? ==> |r.value| == |rows|)
      && (r.Ok? ==> forall i :: 0 <= i < |rows| ==> BuiltFrom(r.value[i], rows[i], file, ids(start + i), categorize))
  {
    if rows != [] {
      var init, last := rows[..|rows| - 1], rows[|rows| - 1];
      ConvertRowsFacts(init, file, ids, start, categorize, describeInvalid);
      var id := ids(start + |init|);
      BuildTransactionFacts(last, file, id, categorize, describeInvalid);
      var r0 := ConvertRows(init, file, ids, start, categorize, describeInvalid);
      var b := BuildTransaction(last, file, id, categorize, describeInvalid);
      var r := ConvertRows(rows, file, ids, start, categorize, describeInvalid);
      assert r == AppendBuilt(r0, b);
      assert forall i :: 0 <= i < |init| ==> rows[i] == init[i];
      if r0.Err? {
        var i :| 0 <= i < |init| && !Accepted(init[i], categorize);
        assert !Accepted(rows[i], categorize);
      } else if b.Err? {
        assert !Accepted(rows[|init|], categorize);
      } else {
        assert r.value == r0.value + [b.value];
        forall i | 0 <= i < |rows|
          ensures BuiltFrom(r.value[i], rows[i], file, ids(start + i), categorize)
        {
          if i < |init| {
            assert r.value[i] == r0.value[i];
          } else {
            assert r.value[i] == b.value;
          }
        }
      }
    }
  }

  /** Converting one row more: the prefix's transactions followed by the row's, or the row's failure. */
  lemma ConvertRowsPrefixStep(rows: seq<ExtractedTxn>, k: nat, file: string, ids: nat -> string, start: nat,
                              categorize: ExtractedTxn -> string, describeInvalid: string -> string, built: seq<Transaction>)
    requires k < |rows| && ConvertRows(rows[..k], file, ids, start, categorize, describeInvalid) == Ok(built)
    ensures var b := BuildTransaction(rows[k], file, ids(start + k), categorize, describeInvalid);
      ConvertRows(rows[..k + 1], file, ids, start, categorize, describeInvalid) == AppendBuilt(Ok(built), b)
  {
    assert rows[..k + 1][..k] == rows[..k] && rows[..k + 1][k] == rows[k];
  }

  /** A failure among the first `k` rows is the failure of all of them. */
  lemma {:induction false} ConvertRowsFailureExtends(rows: seq<ExtractedTxn>, k: nat, file: string, ids: nat -> string,
                                                     start: nat, categorize: ExtractedTxn -> string,
                                                     describeInvalid: string -> string)
    requires k <= |rows| && ConvertRows(rows[..k], file, ids, start, categorize, describeInvalid).Err?
    ensures ConvertRows(rows, file, ids, start, categorize, describeInvalid) == ConvertRows(rows[..k], file, ids, start, categorize, describeInvalid)
    decreases |rows| - k
  {
    if k < |rows| {
      assert rows[..k + 1][..k] == rows[..k];
      ConvertRowsFailureExtends(rows, k + 1, file, ids, start, categorize, describeInvalid);
    } else {
      assert rows[..k] == rows;
    }
  }

  /** Every file's rows as transactions, file after file; the first failure fails the upload. */
  function ConvertFiles(files: seq<UploadFile>, extract: Extractor, ids: nat -> string,
                        categorize: ExtractedTxn -> string, describeInvalid: string -> string): Result<seq<Transaction>, string>
  {
    if files == [] then Ok([])
    else
      var f := files[|files| - 1];
      match ConvertFiles(files[..|files| - 1], extract, ids, categorize, describeInvalid)
      case Err(e) => Err(e)
      case Ok(ts) =>
        match extract(f)
        case Err(e) => Err(e)
        case Ok(rows) =>
          match ConvertRows(rows, f.filename, ids, |ts|, categorize, describeInvalid)
          case Err(e) => Err(e)
          case Ok(more) => Ok(ts + more)
  }

  lemma {:induction false} ConvertFilesFailureExtends(files: seq<UploadFile>, k: nat, extract: Extractor, ids: nat -> string,
                                                      categorize: ExtractedTxn -> string, describeInvalid: string -> string)
    requires k <= |files| && ConvertFiles(files[..k], extract, ids, categorize, describeInvalid).Err?
    ensures ConvertFiles(files, extract, ids, categorize, describeInvalid) == ConvertFiles(files[..k], extract, ids, categorize, describeInvalid)
    decreases |files| - k
  {
    if k < |files| {
      assert files[..k + 1][..k] == files[..k];
      ConvertFilesFailureExtends(files, k + 1, extract, ids, categorize, describeInvalid);
    } else {
      assert files[..k] == files;
    }
  }

  /** The number of rows extracted from the files, counting only successful extractions. */
  function RowTotal(files: seq<UploadFile>, extract: Extractor): nat
  {
    if files == [] then 0
    else
      var f := files[|files| - 1];
      RowTotal(files[..|files| - 1], extract) + (match extract(f) case Ok(rows) => |rows| case Err(_) => 0)
  }

  /** A transaction as the upload builds it: in "IDR", not recurring, and sourced from one of `files`. */
  ghost predicate ImportedFrom(t: Transaction, files: seq<UploadFile>)
  {
    && t.currency == "IDR" && !t.isRecurring && t.recurringFrequency == None
    && exists j :: 0 <= j < |files| && t.source == TransactionSource(files[j].filename)
  }

  /** The transactions one file's rows convert into are all imported from a batch ending with that file. */
  lemma ConvertedRowsImported(rows: seq<ExtractedTxn>, files: seq<UploadFile>, ids: nat -> string, start: nat,
                              categorize: ExtractedTxn -> string, describeInvalid: string -> string)
    requires files != []
    requires ConvertRows(rows, files[|files| - 1].filename, ids, start, categorize, describeInvalid).Ok?
    ensures var more := ConvertRows(rows, files[|files| - 1].filename, ids, start, categorize, describeInvalid).value;
      |more| == |rows| && forall i :: 0 <= i < |more| ==> ImportedFrom(more[i], files)
  {
    var file := files[|files| - 1].filename;
    ConvertRowsFacts(rows, file, ids, start, categorize, describeInvalid);
    var more := ConvertRows(rows, file, ids, start, categorize, describeInvalid).value;
    forall i | 0 <= i < |more|
      ensures ImportedFrom(more[i], files)
    {
      assert BuiltFrom(more[i], rows[i], file, ids(start + i), categorize);
      assert more[i].source == TransactionSource(files[|files| - 1].filename);
    }
  }

  /** Transactions imported from the first files of a batch are imported from the whole batch. */
  lemma ImportedFromLonger(ts: seq<Transaction>, files: seq<UploadFile>, k: nat)
    requires k <= |files| && forall i :: 0 <= i < |ts| ==> ImportedFrom(ts[i], files[..k])
    ensures forall i :: 0 <= i < |ts| ==> ImportedFrom(ts[i], files)
  {
    forall i | 0 <= i < |ts|
      ensures ImportedFrom(ts[i], files)
    {
      assert ImportedFrom(ts[i], files[..k]);
      var j :| 0 <= j < k && ts[i].source == TransactionSource(files[..k][j].filename);
      assert files[..k][j] == files[j];
    }
  }

  /**
   * A successful conversion builds one transaction per extracted row, so the parsed
   * count is the number of transactions; each is in "IDR", not recurring, and
   * comes from one of the uploaded files.
   */
  lemma {:induction false} ConvertFilesFacts(files: seq<UploadFile>, extract: Extractor, ids: nat -> string,
                                             categorize: ExtractedTxn -> string, describeInvalid: string -> string)
    requires ConvertFiles(files, extract, ids, categorize, describeInvalid).Ok?
    ensures var ts := ConvertFiles(files, extract, ids, categorize, describeInvalid).value;
      && |ts| == RowTotal(files, extract)
      && forall i :: 0 <= i < |ts| ==> ImportedFrom(ts[i], files)
  {
    if files != [] {
      var init, f := files[..|files| - 1], files[|files| - 1];
      var r0 := ConvertFiles(init, extract, ids, categorize, describeInvalid);
      assert r0.Ok? && extract(f).Ok?;
      ConvertFilesFacts(init, extract, ids, categorize, describeInvalid);
      var ts := r0.value;
      var rows := extract(f).value;
      var rm := ConvertRows(rows, f.filename, ids, |ts|, categorize, describeInvalid);
      assert rm.Ok? && ConvertFiles(files, extract, ids, categorize, describeInvalid) == Ok(ts + rm.value);
      ConvertedRowsImported(rows, files, ids, |ts|, categorize, describeInvalid);
      var more := rm.value;
      assert RowTotal(files, extract) == RowTotal(init, extract) + |rows|;
      ImportedFromLonger(ts, files, |files| - 1);
      var all := ts + more;
      forall i | 0 <= i < |all|
        ensures ImportedFrom(all[i], files)
      {
        if i < |ts| {
          assert all[i] == ts[i];
        } else {
          assert all[i] == more[i - |ts|];
        }
      }
    }
  }

  // ---------------------------------------------------------------------------
  // The upload, specified
  // ---------------------------------------------------------------------------

  function FileNames(files: seq<UploadFile>): seq<string>
  {
    seq(|files|, i requires 0 <= i < |files| => files[i].filename)
  }

  function SuccessMessage(fileCount: nat, total: nat): string
  {
    "Successfully processed " + NatToString(fileCount) + " file(s) and extracted " + NatToString(total) + " transactions"
  }

  /** The answer to an upload and the database after it. */
  function Upload(db: DatabaseModel, files: seq<UploadFile>, extract: Extractor, uuids: nat -> string, now: string,
                  describeInvalid: string -> string): (Result<UploadResponse, ApiError>, DatabaseModel)
  {
    match Rejection(files)
    case Some(detail) => (Err(Caught(ExceptionText(400, detail))), db)
    case None =>
      var importId := ImportId(|db.imports|);
      match ConvertFiles(files, extract, IdsFrom(uuids), ApplyFallbackRules, describeInvalid)
      case Err(message) => (Err(Caught(message)), db)
      case Ok(all) =>
        var total := RowTotal(files, extract);
        var stored := if all != [] then db.(transactions := db.transactions + all) else db;
        var record := Import(importId, "u1", Join(FileNames(files), ", "), now, total);
        (Ok(UploadResponse(true, total, importId, SuccessMessage(|files|, total))),
         stored.(imports := stored.imports + [record]))
  }

  /** Every failure is a 500 "Error processing files: ..." that leaves the database as it was. */
  lemma UploadFailureKeepsDatabase(db: DatabaseModel, files: seq<UploadFile>, extract: Extractor, uuids: nat -> string,
                                   now: string, describeInvalid: string -> string)
    ensures var (res, db') := Upload(db, files, extract, uuids, now, describeInvalid);
      res.Err? ==> res.error.status == 500 && db' == db && StartsWith(res.error.detail, "Error processing files: ")
  {
    var (res, db') := Upload(db, files, extract, uuids, now, describeInvalid);
    if res.Err? {
      var m :| res.error == Caught(m);
      assert (("Error processing files: " + m)[..|"Error processing files: "|]) == "Error processing files: ";
    }
  }

  /** An empty batch is answered 500, with the 400 "No files provided" inside the detail. */
  lemma UploadEmptyBatch(db: DatabaseModel, extract: Extractor, uuids: nat -> string, now: string,
                         describeInvalid: string -> string)
    ensures Upload(db, [], extract, uuids, now, describeInvalid).0 == Err(Caught("400: No files provided"))
  {
    assert Rejection([]) == Some("No files provided");
    assert Upload(db, [], extract, uuids, now, describeInvalid).0 == Err(Caught(ExceptionText(400, "No files provided")));
    BadRequestText("No files provided");
    assert "400: " + "No files provided" == "400: No files provided";
  }

  /** The text of a 400 exception. */
  lemma BadRequestText(detail: string)
    ensures ExceptionText(400, detail) == "400: " + detail
  {
    assert NatToString(4) == "4";
    assert NatToString(40) == "40";
    assert NatToString(400) == "400";
  }

  /** A batch whose `k`-th name is the first that is not a PDF name is answered 500, naming that file. */
  lemma UploadNonPdf(db: DatabaseModel, files: seq<UploadFile>, k: nat, extract: Extractor, uuids: nat -> string,
                     now: string, describeInvalid: string -> string)
    requires FirstNonPdfIndex(files, k)
    ensures Upload(db, files, extract, uuids, now, describeInvalid).0 == Err(Caught("400: File " + files[k].filename + " is not a PDF"))
  {
    FirstNonPdfAt(files, k);
    BadRequestText(NotPdfDetail(files[k].filename));
    assert "400: " + NotPdfDetail(files[k].filename) == "400: File " + files[k].filename + " is not a PDF";
  }

  /**
   * A successful upload reports as many parsed rows as transactions it adds, adds
   * them after the stored ones (only when there are any), and appends exactly one
   * import record numbering the imports; users never change.
   */
  lemma UploadSuccess(db: DatabaseModel, files: seq<UploadFile>, extract: Extractor, uuids: nat -> string, now: string,
                      describeInvalid: string -> string)
    requires Upload(db, files, extract, uuids, now, describeInvalid).0.Ok?
    ensures var (res, db') := Upload(db, files, extract, uuids, now, describeInvalid);
      && files != [] && (forall i :: 0 <= i < |files| ==> IsPdfName(files[i].filename))
      && db'.users == db.users
      && |db'.transactions| == |db.transactions| + res.value.parsedCount
      && db'.transactions[..|db.transactions|] == db.transactions
      && db'.imports == db.imports + [Import(res.value.importId, "u1", Join(FileNames(files), ", "), now, res.value.parsedCount)]
      && res.value.importId == ImportId(|db.imports|)
      && res.value.message == SuccessMessage(|files|, res.value.parsedCount)
  {
    ConvertFilesFacts(files, extract, IdsFrom(uuids), ApplyFallbackRules, describeInvalid);
  }

  // ---------------------------------------------------------------------------
  // The endpoints
  // ---------------------------------------------------------------------------

  /** Checks the batch: non-empty, then every name in turn. */
  method ValidateBatch(files: seq<UploadFile>) returns (rejection: Option<string>)
    ensures rejection == Rejection(files)
  {
    if |files| == 0 {
      return Some("No files provided");
    }
    var k := 0;
    while k < |files|
      invariant 0 <= k <= |files|
      invariant forall j :: 0 <= j < k ==> IsPdfName(files[j].filename)
    {
      if !IsPdfName(files[k].filename) {
        FirstNonPdfAt(files, k);
        return Some(NotPdfDetail(files[k].filename));
      }
      k := k + 1;
    }
    return None;
  }

  /** Turns one file's rows into transactions, row by row, stopping at the first rejected row. */
  method ConvertFileRows(rows: seq<ExtractedTxn>, file: string, ids: nat -> string, start: nat,
                         categorize: ExtractedTxn -> string, describeInvalid: string -> string)
    returns (r: Result<seq<Transaction>, string>)
    ensures r == ConvertRows(rows, file, ids, start, categorize, describeInvalid)
  {
    var built: seq<Transaction> := [];
    var idx := 0;
    while idx < |rows|
      invariant 0 <= idx <= |rows|
      invariant ConvertRows(rows[..idx], file, ids, start, categorize, describeInvalid) == Ok(built)
    {
      var row := rows[idx];
      ConvertRowsPrefixStep(rows, idx, file, ids, start, categorize, describeInvalid, built);
      var category := categorize(row);
      var parsed := ParseCategory(category);
      if parsed.None? {
        ConvertRowsFailureExtends(rows, idx + 1, file, ids, start, categorize, describeInvalid);
        return Err(describeInvalid(category));
      }
      var t := NewTransaction(ids(start + idx), row.date, row.description, row.amount,
                              row.merchantCanonical, parsed.value, row.confidence, TransactionSource(file), ExtractorModel);
      built := built + [t];
      idx := idx + 1;
    }
    assert rows[..idx] == rows;
    return Ok(built);
  }

  /** Extracts and converts the files in turn, adding up the extracted row counts. */
  method ConvertAll(files: seq<UploadFile>, extract: Extractor, ids: nat -> string,
                    categorize: ExtractedTxn -> string, describeInvalid: string -> string)
    returns (r: Result<seq<Transaction>, string>, totalParsed: nat)
    ensures r == ConvertFiles(files, extract, ids, categorize, describeInvalid)
    ensures r.Ok? ==> totalParsed == RowTotal(files, extract)
  {
    totalParsed := 0;
    var all: seq<Transaction> := [];
    var i := 0;
    while i < |files|
      invariant 0 <= i <= |files|
      invariant ConvertFiles(files[..i], extract, ids, categorize, describeInvalid) == Ok(all)
      invariant totalParsed == RowTotal(files[..i], extract)
    {
      var f := files[i];
      assert files[..i + 1][..i] == files[..i] && files[..i + 1][i] == f;
      var extracted := extract(f);
      if extracted.Err? {
        ConvertFilesFailureExtends(files, i + 1, extract, ids, categorize, describeInvalid);
        return Err(extracted.error), totalParsed;
      }
      var rows := extracted.value;
      var converted := ConvertFileRows(rows, f.filename, ids, |all|, categorize, describeInvalid);
      if converted.Err? {
        ConvertFilesFailureExtends(files, i + 1, extract, ids, categorize, describeInvalid);
        return Err(converted.error), totalParsed;
      }
      all := all + converted.value;
      totalParsed := totalParsed + |rows|;
      i := i + 1;
    }
    assert files[..i] == files;
    r := Ok(all);
  }

  /** The `/upload` handler, against the store. */
  method UploadPdfs(store: Database, files: seq<UploadFile>, extract: Extractor, uuids: nat -> string, now: string,
                    describeInvalid: string -> string) returns (res: Result<UploadResponse, ApiError>)
    modifies store
    ensures (res, store.db) == Upload(old(store.db), files, extract, uuids, now, describeInvalid)
  {
    var rejection := ValidateBatch(files);
    if rejection.Some? {
      return Err(Caught(ExceptionText(400, rejection.value)));
    }
    var importId := store.GenerateImportId();
    var converted, totalParsed := ConvertAll(files, extract, IdsFrom(uuids), ApplyFallbackRules, describeInvalid);
    if converted.Err? {
      return Err(Caught(converted.error));
    }
    var all := converted.value;
    if |all| > 0 {
      store.AddTransactions(all);
    }
    var record := Import(importId, "u1", Join(FileNames(files), ", "), now, totalParsed);
    store.AddImportRecord(record);
    res := Ok(UploadResponse(true, totalParsed, importId, SuccessMessage(|files|, totalParsed)));
  }

  /** The `/transactions` handler: the store's window query and its length. */
  method GetTransactionsEndpoint(store: Database, start: Option<string>, end: Option<string>)
    returns (resp: TransactionListResponse)
    ensures resp.total == |resp.transactions|
    ensures NewestFirst(resp.transactions)
    ensures forall x :: x in resp.transactions <==> x in store.db.transactions && InWindow(x.date, start, end)
  {
    var ts := store.GetTransactions(start, end);
    resp := TransactionListResponse(ts, |ts|);
  }
}
