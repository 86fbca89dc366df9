/**
 pbl/app.py: the earlier variant of the upload flow. It has no hash, no
 `upload_log` and no confirmation step; every accepted upload is read and its
 rows inserted straight away, with the same extraction rules as app.py.
 */
module PblApp {
  import opened Common
  import Csv
  import Store
  import Responses
  import Uploads
  import App

  /** The answer to one request and the `sales` table after it. */
  datatype Step = Step(outcome: Responses.Outcome, sales: seq<Csv.Sale>)

  /** `upload_file`: the request checks, then reading and inserting in one transaction. */
  function UploadFile(sales: seq<Csv.Sale>, file: Option<Uploads.FilePart>): (r: Step)
    ensures r.outcome.Success? <==>
      && Uploads.Admit(file).Ok?
      && Csv.ParseSales(file.value.content).Ok?
      && Store.AllFit(Csv.ParseSales(file.value.content).value)
    ensures r.outcome.Success? ==> r.sales == sales + Csv.ParseSales(file.value.content).value
    ensures !r.outcome.Success? ==> r.sales == sales
    ensures Uploads.Admit(file).Err? ==> r.outcome == Responses.ValidationError(Uploads.Admit(file).error)
    ensures Uploads.Admit(file).Ok? && Csv.ParseSales(file.value.content).Err? ==>
      r.outcome == Responses.FromParseError(Csv.ParseSales(file.value.content).error)
    ensures
      && Uploads.Admit(file).Ok?
      && Csv.ParseSales(file.value.content).Ok?
      && !Store.AllFit(Csv.ParseSales(file.value.content).value)
      ==> r.outcome == Responses.InternalError
    ensures !r.outcome.Confirm?
  {
    match Uploads.Admit(file)
    case Err(reason) => Step(Responses.ValidationError(reason), sales)
    case Ok(f) =>
      match Csv.ParseSales(f.content)
      case Err(e) => Step(Responses.FromParseError(e), sales)
      case Ok(batch) =>
        match Store.InsertSales(sales, batch)
        case None => Step(Responses.InternalError, sales)
        case Some(after) => Step(Responses.Success, after)
  }

  /**
   On an admitted file pbl/app.py answers and inserts exactly what app.py's
   `process_csv` does for the same content; only the upload log differs.
   */
  lemma SameExtractionAsApp(sales: seq<Csv.Sale>, log: Store.UploadLog, file: Option<Uploads.FilePart>, hash: string)
    requires Uploads.Admit(file).Ok?
    ensures var mine := UploadFile(sales, file);
      var theirs := App.ProcessCsv(Store.Db(sales, log), file.value.savedName, hash, file.value.content);
      mine.outcome == theirs.outcome && mine.sales == theirs.db.sales
  {
  }

  /** An empty decoded file is refused and nothing is inserted. */
  lemma EmptyFileRefused(sales: seq<Csv.Sale>, file: Option<Uploads.FilePart>)
    requires Uploads.Admit(file).Ok? && Csv.ReadRows(file.value.content) == Some([])
    ensures UploadFile(sales, file) == Step(Responses.ValidationError(Responses.EmptyCsv), sales)
  {
  }

  /** A header without one of the three names is refused and nothing is inserted. */
  lemma MissingColumnRefused(sales: seq<Csv.Sale>, file: Option<Uploads.FilePart>, rows: seq<Csv.Row>)
    requires Uploads.Admit(file).Ok? && Csv.ReadRows(file.value.content) == Some(rows) && |rows| > 0
    requires Csv.DateColumn !in rows[0] || Csv.ProductColumn !in rows[0] || Csv.UnitsColumn !in rows[0]
    ensures UploadFile(sales, file) ==
      Step(Responses.ValidationError(Responses.MissingColumn(
        if Csv.DateColumn !in rows[0] then Csv.DateColumn
        else if Csv.ProductColumn !in rows[0] then Csv.ProductColumn
        else Csv.UnitsColumn)), sales)
  {
  }

  /**
   A successful upload appends exactly the accepted data rows, in order,
   after the existing sales; `idx` gives the data row each came from.
   */
  lemma UploadAppendsAcceptedRows(sales: seq<Csv.Sale>, file: Option<Uploads.FilePart>) returns (idx: seq<nat>)
    requires UploadFile(sales, file).outcome.Success?
    ensures var rows := Csv.ReadRows(file.value.content).value;
      var after := UploadFile(sales, file).sales;
      && |rows| > 0
      && |sales| <= |after| <= |sales| + |rows| - 1
      && after[..|sales|] == sales
      && Csv.IsOrderedSelection(rows[1..], Csv.ResolveColumns(rows[0]).value, after[|sales|..], idx)
  {
    var rows := Csv.ReadRows(file.value.content).value;
    var cols := Csv.ResolveColumns(rows[0]).value;
    var after := UploadFile(sales, file).sales;
    assert after[|sales|..] == Csv.Extract(rows[1..], cols);
    idx := Csv.ExtractSelectsInOrder(rows[1..], cols);
  }

  /** Submitting the same file twice inserts its rows twice. */
  lemma ResubmissionDoubles(sales: seq<Csv.Sale>, file: Option<Uploads.FilePart>)
    requires UploadFile(sales, file).outcome.Success?
    ensures var first := UploadFile(sales, file);
      var batch := Csv.ParseSales(file.value.content).value;
      var second := UploadFile(first.sales, file);
      second.outcome.Success? && second.sales == sales + batch + batch
  {
  }
}
