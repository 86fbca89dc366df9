/**
 The SQLite database as a pure value: the `sales` table in insertion order and
 the `upload_log` table keyed by its UNIQUE `file_hash` column.

 Row ids, the `uploaded_at` timestamp and the connection objects are not
 modelled; the position of a sale in `sales` stands for its id order.
 */
module Store {
  import opened Common
  import Csv

  /** `upload_log`: content hash to the filename it was first logged under. */
  type UploadLog = map<string, string>

  datatype Db = Db(sales: seq<Csv.Sale>, log: UploadLog)

  /**
   The range of SQLite's INTEGER. Binding a Python int outside it raises
   OverflowError, which the row loop does not catch.
   */
  const Int64Min: int := -0x8000_0000_0000_0000
  const Int64Max: int := 0x7FFF_FFFF_FFFF_FFFF

  predicate FitsInteger(n: int) {
    Int64Min <= n <= Int64Max
  }

  predicate AllFit(batch: seq<Csv.Sale>) {
    forall k :: 0 <= k < |batch| ==> FitsInteger(batch[k].units)
  }

  /**
   The `with db:` block's inserts: either every sale of the batch is appended
   and committed, or one of them cannot be bound, the transaction rolls back
   and nothing is appended.
   */
  function InsertSales(sales: seq<Csv.Sale>, batch: seq<Csv.Sale>): (r: Option<seq<Csv.Sale>>)
    ensures r.Some? <==> AllFit(batch)
    ensures r.Some? ==> |r.value| == |sales| + |batch| && r.value[..|sales|] == sales && r.value[|sales|..] == batch
  {
    if AllFit(batch) then Some(sales + batch) else None
  }

  /** `INSERT OR IGNORE INTO upload_log (filename, file_hash)`. */
  function LogUpload(log: UploadLog, hash: string, filename: string): (r: UploadLog)
    ensures r.Keys == log.Keys + {hash}
    ensures hash in log ==> r == log
    ensures hash !in log ==> r[hash] == filename
    ensures forall h :: h in log ==> r[h] == log[h]
  {
    if hash in log then log else log[hash := filename]
  }

  /** Logging the same hash again, under any filename, changes nothing. */
  lemma LogUploadIdempotent(log: UploadLog, hash: string, first: string, second: string)
    ensures LogUpload(LogUpload(log, hash, first), hash, second) == LogUpload(log, hash, first)
  {
  }

  /**
   The row loop of the `with db:` block as the code runs it: one row at a
   time, skipping rejected rows, inserting accepted ones, and rolling the
   whole batch back when a value cannot be bound. It agrees with extracting
   the batch first and inserting it in one step.
   */
  method InsertRows(sales: seq<Csv.Sale>, body: seq<Csv.Row>, cols: Csv.Columns)
    returns (committed: bool, after: seq<Csv.Sale>)
    ensures committed <==> AllFit(Csv.Extract(body, cols))
    ensures committed ==> InsertSales(sales, Csv.Extract(body, cols)) == Some(after)
    ensures !committed ==> after == sales
  {
    var pending := sales;
    var i := 0;
    while i < |body|
      invariant 0 <= i <= |body|
      invariant pending == sales + Csv.Extract(body[..i], cols)
      invariant AllFit(Csv.Extract(body[..i], cols))
    {
      var row := body[i];
      Csv.ExtractConcat(body[..i], [row], cols);
      assert body[..i + 1] == body[..i] + [row];
      if Csv.Accepted(row, cols) {
        var sale := Csv.ToSale(row, cols);
        if !FitsInteger(sale.units) {
          Csv.ExtractConcat(body[..i + 1], body[i + 1..], cols);
          assert body[..i + 1] + body[i + 1..] == body;
          assert Csv.Extract(body, cols)[|Csv.Extract(body[..i], cols)|] == sale;
          return false, sales;
        }
        pending := pending + [sale];
      }
      i := i + 1;
    }
    assert body[..i] == body;
    return true, pending;
  }
}
