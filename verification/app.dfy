/**
 app.py: the upload flow with duplicate-content detection. A file whose hash
 is already in `upload_log` is not processed but answered with a request for
 confirmation; a confirmed upload is processed again as it is.
 */
module App {
  import opened Common
  import Csv
  import Store
  import Responses
  import Uploads

  /** The answer to one request and the database after it. */
  datatype Step = Step(outcome: Responses.Outcome, db: Store.Db)

  /**
   `process_csv`: read the saved file, resolve the columns, insert the
   accepted rows and log the hash, all in one transaction.
   */
  function ProcessCsv(db: Store.Db, filename: string, hash: string, content: Csv.Content): (r: Step)
    ensures r.outcome.Success? <==>
      Csv.ParseSales(content).Ok? && Store.AllFit(Csv.ParseSales(content).value)
    ensures r.outcome.Success? ==>
      && r.db.sales == db.sales + Csv.ParseSales(content).value
      && r.db.log == Store.LogUpload(db.log, hash, filename)
    ensures Csv.ParseSales(content).Err? ==>
      r == Step(Responses.FromParseError(Csv.ParseSales(content).error), db)
    ensures Csv.ParseSales(content).Ok? && !Store.AllFit(Csv.ParseSales(content).value) ==>
      r.outcome == Responses.InternalError
    ensures !r.outcome.Success? ==> r.db == db
    ensures !r.outcome.Confirm?
  {
    match Csv.ParseSales(content)
    case Err(e) => Step(Responses.FromParseError(e), db)
    case Ok(batch) =>
      match Store.InsertSales(db.sales, batch)
      case None => Step(Responses.InternalError, db)
      case Some(sales) => Step(Responses.Success, Store.Db(sales, Store.LogUpload(db.log, hash, filename)))
  }

  /**
   `upload_file`: the request checks, then the duplicate gate. A hash already
   logged is answered with `Confirm` and the database is left alone; a new hash
   is processed under the saved filename.
   */
  function UploadFile(db: Store.Db, file: Option<Uploads.FilePart>, hash: string): (r: Step)
    ensures Uploads.Admit(file).Err? ==> r == Step(Responses.ValidationError(Uploads.Admit(file).error), db)
    ensures Uploads.Admit(file).Ok? && hash in db.log ==>
      r == Step(Responses.Confirm(file.value.savedName, hash), db)
    ensures Uploads.Admit(file).Ok? && hash !in db.log ==>
      r == ProcessCsv(db, file.value.savedName, hash, file.value.content)
    ensures r.outcome.Confirm? <==> Uploads.Admit(file).Ok? && hash in db.log
  {
    match Uploads.Admit(file)
    case Err(reason) => Step(Responses.ValidationError(reason), db)
    case Ok(f) =>
      if hash in db.log then Step(Responses.Confirm(f.savedName, hash), db)
      else ProcessCsv(db, f.savedName, hash, f.content)
  }

  /**
   `confirm_upload`: process the saved file again under the filename and hash
   the client sends back. Nothing is deleted first, so earlier rows stay.
   */
  function ConfirmUpload(db: Store.Db, filename: string, hash: string, content: Csv.Content): (r: Step)
    ensures |r.db.sales| >= |db.sales| && r.db.sales[..|db.sales|] == db.sales
    ensures r.db.log.Keys >= db.log.Keys
    ensures !r.outcome.Confirm?
  {
    ProcessCsv(db, filename, hash, content)
  }

  /** An empty decoded file is refused and nothing is written. */
  lemma EmptyFileRefused(db: Store.Db, filename: string, hash: string, content: Csv.Content)
    requires Csv.ReadRows(content) == Some([])
    ensures ProcessCsv(db, filename, hash, content) == Step(Responses.ValidationError(Responses.EmptyCsv), db)
  {
  }

  /**
   A header without one of the three names is refused, naming the first
   missing one in lookup order, and nothing is written.
   */
  lemma MissingColumnRefused(db: Store.Db, filename: string, hash: string, content: Csv.Content, rows: seq<Csv.Row>)
    requires Csv.ReadRows(content) == Some(rows) && |rows| > 0
    requires Csv.DateColumn !in rows[0] || Csv.ProductColumn !in rows[0] || Csv.UnitsColumn !in rows[0]
    ensures ProcessCsv(db, filename, hash, content) ==
      Step(Responses.ValidationError(Responses.MissingColumn(
        if Csv.DateColumn !in rows[0] then Csv.DateColumn
        else if Csv.ProductColumn !in rows[0] then Csv.ProductColumn
        else Csv.UnitsColumn)), db)
  {
  }

  /**
   A successful run only appends: the earlier sales are a prefix of the new
   table, at most one sale per data row is added, the additions are exactly
   the accepted rows after the header in source order (`idx` gives the row
   each came from, counting from the first data row), and the hash is logged.
   */
  lemma ProcessAppendsAcceptedRows(db: Store.Db, filename: string, hash: string, content: Csv.Content)
    returns (idx: seq<nat>)
    requires ProcessCsv(db, filename, hash, content).outcome.Success?
    ensures var rows := Csv.ReadRows(content).value;
      var after := ProcessCsv(db, filename, hash, content).db;
      && |rows| > 0
      && |db.sales| <= |after.sales| <= |db.sales| + |rows| - 1
      && after.sales[..|db.sales|] == db.sales
      && Csv.IsOrderedSelection(rows[1..], Csv.ResolveColumns(rows[0]).value, after.sales[|db.sales|..], idx)
      && hash in after.log
  {
    var rows := Csv.ReadRows(content).value;
    var cols := Csv.ResolveColumns(rows[0]).value;
    var after := ProcessCsv(db, filename, hash, content).db;
    assert after.sales[|db.sales|..] == Csv.Extract(rows[1..], cols);
    idx := Csv.ExtractSelectsInOrder(rows[1..], cols);
  }

  /** Logging is insert-or-ignore: a hash already logged keeps its entry. */
  lemma ReprocessKeepsLog(db: Store.Db, filename: string, hash: string, content: Csv.Content)
    requires hash in db.log
    ensures ProcessCsv(db, filename, hash, content).db.log == db.log
  {
  }

  /**
   A file with the three columns and no accepted data row still succeeds: no
   sale is added, and the hash is logged.
   */
  lemma HeaderOnlySucceeds(db: Store.Db, filename: string, hash: string, content: Csv.Content, header: Csv.Row)
    requires Csv.ReadRows(content) == Some([header])
    requires Csv.DateColumn in header && Csv.ProductColumn in header && Csv.UnitsColumn in header
    ensures ProcessCsv(db, filename, hash, content) ==
      Step(Responses.Success, Store.Db(db.sales, Store.LogUpload(db.log, hash, filename)))
  {
    assert [header][1..] == [];
    assert db.sales + [] == db.sales;
  }

  /**
   Uploading content that was just accepted again is answered with `Confirm`
   and changes nothing.
   */
  lemma ReuploadAsksConfirmation(db: Store.Db, file: Option<Uploads.FilePart>, hash: string)
    requires UploadFile(db, file, hash).outcome.Success?
    ensures var first := UploadFile(db, file, hash);
      UploadFile(first.db, file, hash) == Step(Responses.Confirm(file.value.savedName, hash), first.db)
  {
  }

  /**
   Confirming a re-upload processes the file a second time and appends its
   sales again: the table ends with the batch twice, and the log is unchanged.
   */
  lemma ConfirmDuplicatesRows(db: Store.Db, file: Option<Uploads.FilePart>, hash: string)
    requires UploadFile(db, file, hash).outcome.Success?
    ensures var first := UploadFile(db, file, hash);
      var batch := Csv.ParseSales(file.value.content).value;
      var second := ConfirmUpload(first.db, file.value.savedName, hash, file.value.content);
      && second.outcome.Success?
      && second.db.sales == db.sales + batch + batch
      && second.db.log == first.db.log
  {
  }
}
