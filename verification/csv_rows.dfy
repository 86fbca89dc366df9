/**
 The CSV half of the ingestion shared by app.py (`process_csv`) and
 pbl/app.py (`upload_file`): choosing the decoded text, resolving the three
 required columns by header name, and turning the data rows into sales.

 Byte decoding and CSV tokenising are library behaviour and are taken as
 given: each decoding attempt is an `Attempt` carrying the rows `csv.reader`
 would have produced, or the way it failed.
 */
module Csv {
  import opened Common
  import PyText

  /** One line as `csv.reader` yields it. */
  type Row = seq<string>

  /** One row of the `sales` table: `(date, product_name, units_sold)`. */
  datatype Sale = Sale(date: string, product: string, units: int)

  /** The header names the code looks up, in the order it looks them up. */
  const DateColumn: string := "日付"
  const ProductColumn: string := "商品名"
  const UnitsColumn: string := "販売本数"

  /** Reading the saved file under one text encoding. */
  datatype Attempt =
    | Decoded(rows: seq<Row>)   // the file decoded; the rows `list(csv.reader(f))` gives
    | Undecodable               // UnicodeDecodeError
    | Unreadable                // any other failure: missing file, malformed CSV

  /** The two readings the code may make: `utf-8-sig` first, `shift_jis` after. */
  datatype Content = Content(utf8: Attempt, shiftJis: Attempt)

  /**
   The rows the code ends up with, or None when it raises. Only a
   UnicodeDecodeError under `utf-8-sig` falls back to `shift_jis`; every
   other failure, and any failure of the fallback, escapes to the caller.
   */
  function ReadRows(c: Content): (r: Option<seq<Row>>)
    ensures c.utf8.Decoded? ==> r == Some(c.utf8.rows)
    ensures c.utf8.Undecodable? ==> r == (if c.shiftJis.Decoded? then Some(c.shiftJis.rows) else None)
    ensures c.utf8.Unreadable? ==> r == None
  {
    match c.utf8
    case Decoded(rows) => Some(rows)
    case Unreadable => None
    case Undecodable =>
      match c.shiftJis
      case Decoded(rows) => Some(rows)
      case _ => None
  }

  /** `i` is where `header.index(name)` answers: the first position holding `name`. */
  predicate IsFirstIndex(header: Row, name: string, i: nat) {
    i < |header| && header[i] == name && forall j :: 0 <= j < i ==> header[j] != name
  }

  /** `header.index(name)`, None where Python raises ValueError. */
  function IndexOf(header: Row, name: string): (r: Option<nat>)
    ensures r.None? <==> name !in header
    ensures r.Some? ==> IsFirstIndex(header, name, r.value)
  {
    if |header| == 0 then None
    else if header[0] == name then Some(0)
    else
      match IndexOf(header[1..], name)
      case None => None
      case Some(i) => Some(i + 1)
  }

  /** Positions of the three required columns in the header. */
  datatype Columns = Columns(date: nat, product: nat, units: nat)

  /**
   The three `header.index` lookups in source order; the first that fails
   names the missing column.
   */
  function ResolveColumns(header: Row): (r: Result<Columns, string>)
    ensures r.Ok? <==> DateColumn in header && ProductColumn in header && UnitsColumn in header
    ensures r.Ok? ==> && IsFirstIndex(header, DateColumn, r.value.date)
                      && IsFirstIndex(header, ProductColumn, r.value.product)
                      && IsFirstIndex(header, UnitsColumn, r.value.units)
    ensures r.Err? ==> r.error == (if DateColumn !in header then DateColumn
                                   else if ProductColumn !in header then ProductColumn
                                   else UnitsColumn)
  {
    match (IndexOf(header, DateColumn), IndexOf(header, ProductColumn), IndexOf(header, UnitsColumn))
    case (None, _, _) => Err(DateColumn)
    case (_, None, _) => Err(ProductColumn)
    case (_, _, None) => Err(UnitsColumn)
    case (Some(d), Some(p), Some(u)) => Ok(Columns(d, p, u))
  }

  /**
   A data row survives when it is non-empty, reaches all three columns and its
   units cell is an integer to Python's `int()`. Otherwise the loop body hits
   `continue`, or raises IndexError or ValueError, and the row is skipped.
   */
  predicate Accepted(row: Row, cols: Columns) {
    && |row| > 0
    && cols.date < |row| && cols.product < |row| && cols.units < |row|
    && PyText.ParseInt(row[cols.units]).Some?
  }

  /** The sale an accepted row inserts. */
  function ToSale(row: Row, cols: Columns): (r: Sale)
    requires Accepted(row, cols)
    ensures PyText.ParseInt(row[cols.units]) == Some(r.units)
  {
    Sale(row[cols.date], row[cols.product], PyText.ParseInt(row[cols.units]).value)
  }

  /** The sales the insert loop produces from the rows after the header, in order. */
  function Extract(body: seq<Row>, cols: Columns): (out: seq<Sale>)
    ensures |out| <= |body|
  {
    if |body| == 0 then []
    else (if Accepted(body[0], cols) then [ToSale(body[0], cols)] else []) + Extract(body[1..], cols)
  }

  /** Why reading a file stops before any row is inserted. */
  datatype ParseError =
    | ReadFailed               // both decodings failed, or the file could not be read
    | EmptyFile                // `if not data_rows`
    | MissingColumn(column: string)

  /**
   Everything `process_csv` (and pbl's `upload_file`) decides before touching
   the database: the sales to insert, or why there are none.
   */
  function ParseSales(c: Content): (r: Result<seq<Sale>, ParseError>)
    ensures r == Err(ReadFailed) <==> ReadRows(c).None?
    ensures r == Err(EmptyFile) <==> ReadRows(c) == Some([])
    ensures r.Err? && r.error.MissingColumn? <==>
      (ReadRows(c).Some? && |ReadRows(c).value| > 0 && ResolveColumns(ReadRows(c).value[0]).Err?)
    ensures r.Err? && r.error.MissingColumn? ==>
      r.error.column == ResolveColumns(ReadRows(c).value[0]).error
    ensures r.Ok? ==>
      var rows := ReadRows(c).value;
      |rows| > 0 && ResolveColumns(rows[0]).Ok? &&
      r.value == Extract(rows[1..], ResolveColumns(rows[0]).value)
  {
    match ReadRows(c)
    case None => Err(ReadFailed)
    case Some(rows) =>
      if |rows| == 0 then Err(EmptyFile)
      else
        match ResolveColumns(rows[0])
        case Err(name) => Err(MissingColumn(name))
        case Ok(cols) => Ok(Extract(rows[1..], cols))
  }

  /** Extraction is row by row: it distributes over concatenation of the input. */
  lemma {:induction false} ExtractConcat(a: seq<Row>, b: seq<Row>, cols: Columns)
    ensures Extract(a + b, cols) == Extract(a, cols) + Extract(b, cols)
  {
    if |a| == 0 {
      assert a + b == b;
    } else {
      assert (a + b)[1..] == a[1..] + b;
      ExtractConcat(a[1..], b, cols);
    }
  }

  /** Each `out[k]` is the sale of the accepted row at input position `idx[k]`. */
  ghost predicate SelectsAccepted(body: seq<Row>, cols: Columns, out: seq<Sale>, idx: seq<nat>) {
    && |idx| == |out|
    && forall k :: 0 <= k < |idx| ==>
         idx[k] < |body| && Accepted(body[idx[k]], cols) && out[k] == ToSale(body[idx[k]], cols)
  }

  ghost predicate StrictlyIncreasing(idx: seq<nat>) {
    forall k, l :: 0 <= k < l < |idx| ==> idx[k] < idx[l]
  }

  /** Every accepted input position is listed in `idx`. */
  ghost predicate CoversAccepted(body: seq<Row>, cols: Columns, idx: seq<nat>) {
    forall j :: 0 <= j < |body| && Accepted(body[j], cols) ==> j in idx
  }

  /**
   `out` is the accepted rows of `body`, converted, in source order: `idx`
   lists the input position each output came from, strictly increasing, and
   every accepted row appears in it.
   */
  ghost predicate IsOrderedSelection(body: seq<Row>, cols: Columns, out: seq<Sale>, idx: seq<nat>) {
    SelectsAccepted(body, cols, out, idx) && StrictlyIncreasing(idx) && CoversAccepted(body, cols, idx)
  }

  /** Every position moved one place to the right. */
  function Shift(idx: seq<nat>): (r: seq<nat>)
    ensures |r| == |idx| && forall k :: 0 <= k < |idx| ==> r[k] == idx[k] + 1
  {
    seq(|idx|, k requires 0 <= k < |idx| => idx[k] + 1)
  }

  lemma ShiftSelects(row: Row, body: seq<Row>, cols: Columns, out: seq<Sale>, idx: seq<nat>)
    requires SelectsAccepted(body, cols, out, idx)
    ensures SelectsAccepted([row] + body, cols, out, Shift(idx))
  {
    var whole := [row] + body;
    forall k | 0 <= k < |idx|
      ensures Shift(idx)[k] < |whole| && whole[Shift(idx)[k]] == body[idx[k]]
    {
    }
  }

  lemma ShiftIncreasing(idx: seq<nat>)
    requires StrictlyIncreasing(idx)
    ensures StrictlyIncreasing(Shift(idx)) && StrictlyIncreasing([0] + Shift(idx))
  {
    var sh := [0] + Shift(idx);
    forall k, l | 0 <= k < l < |sh|
      ensures sh[k] < sh[l]
    {
      if k > 0 {
        assert sh[k] == idx[k - 1] + 1 && sh[l] == idx[l - 1] + 1;
      }
    }
  }

  /** Every accepted row after the first is hit by the shifted positions. */
  lemma ShiftCovers(row: Row, body: seq<Row>, cols: Columns, idx: seq<nat>)
    requires CoversAccepted(body, cols, idx)
    ensures !Accepted(row, cols) ==> CoversAccepted([row] + body, cols, Shift(idx))
    ensures CoversAccepted([row] + body, cols, [0] + Shift(idx))
  {
    var whole := [row] + body;
    var sh := Shift(idx);
    forall j | 0 < j < |whole| && Accepted(whole[j], cols)
      ensures j in sh
    {
      assert whole[j] == body[j - 1];
      var k :| 0 <= k < |idx| && idx[k] == j - 1;
      assert sh[k] == j;
    }
    forall j | 0 <= j < |whole| && Accepted(whole[j], cols)
      ensures j in [0] + sh
    {
      if j > 0 {
        assert j in sh;
      }
    }
  }

  /** An accepted row in front of the input is selected first. */
  lemma PrependSelects(row: Row, body: seq<Row>, cols: Columns, out: seq<Sale>, idx: seq<nat>)
    requires SelectsAccepted(body, cols, out, idx)
    requires Accepted(row, cols)
    ensures SelectsAccepted([row] + body, cols, [ToSale(row, cols)] + out, [0] + Shift(idx))
  {
    var whole := [row] + body;
    var sh := [0] + Shift(idx);
    var o := [ToSale(row, cols)] + out;
    forall k | 0 <= k < |sh|
      ensures sh[k] < |whole| && Accepted(whole[sh[k]], cols) && o[k] == ToSale(whole[sh[k]], cols)
    {
      if k == 0 {
        assert sh[0] == 0 && whole[0] == row && o[0] == ToSale(row, cols);
      } else {
        var i := idx[k - 1];
        assert sh[k] == i + 1 && whole[i + 1] == body[i] && o[k] == out[k - 1];
      }
    }
  }

  /** The extracted sales are exactly the accepted rows, converted, in source order. */
  lemma {:induction false} ExtractSelectsInOrder(body: seq<Row>, cols: Columns) returns (idx: seq<nat>)
    ensures IsOrderedSelection(body, cols, Extract(body, cols), idx)
  {
    if |body| == 0 {
      idx := [];
    } else {
      var rest := ExtractSelectsInOrder(body[1..], cols);
      var out := Extract(body[1..], cols);
      ShiftIncreasing(rest);
      ShiftCovers(body[0], body[1..], cols, rest);
      if Accepted(body[0], cols) {
        PrependSelects(body[0], body[1..], cols, out, rest);
      } else {
        ShiftSelects(body[0], body[1..], cols, out, rest);
      }
      assert [body[0]] + body[1..] == body;
      idx := if Accepted(body[0], cols) then [0] + Shift(rest) else Shift(rest);
    }
  }

  /**
   The empty-row test in the loop never changes the outcome: an empty row
   cannot reach any column index, so it would be skipped by the IndexError
   path anyway.
   */
  lemma EmptyRowNeverAccepted(cols: Columns)
    ensures !Accepted([], cols)
  {
  }

  /**
   The header row itself could never pass as data: its units cell is the
   column name, which is not an integer.
   */
  lemma HeaderNeverAccepted(header: Row)
    requires ResolveColumns(header).Ok?
    ensures !Accepted(header, ResolveColumns(header).value)
  {
    var cols := ResolveColumns(header).value;
    assert header[cols.units] == UnitsColumn;
    PyText.StripUnpadded(UnitsColumn);
  }

  /**
   A small file: the columns in a different order with a repeated name, an
   empty line, a row whose units cell is not a number and a row too short to
   reach the units column. Only the first data row becomes a sale, and the
   first `日付` column is the one read.
   */
  lemma ExtractExample()
    ensures var header := [ProductColumn, DateColumn, UnitsColumn, DateColumn];
      var body := [["ビール", "2024-01-05", "3", "x"], [], ["日本酒", "2024-01-05", "三"], ["焼酎", "2024-01-06"]];
      ResolveColumns(header) == Ok(Columns(1, 0, 2))
      && Extract(body, Columns(1, 0, 2)) == [Sale("2024-01-05", "ビール", 3)]
  {
    var header := [ProductColumn, DateColumn, UnitsColumn, DateColumn];
    assert IndexOf(header, DateColumn) == Some(1);
    assert IndexOf(header, ProductColumn) == Some(0);
    assert IndexOf(header, UnitsColumn) == Some(2);
    var cols := Columns(1, 0, 2);
    PyText.StripUnpadded("3");
    PyText.StripUnpadded("三");
    assert PyText.ParseInt("3") == Some(3);
    assert !Accepted(["日本酒", "2024-01-05", "三"], cols);
    var body := [["ビール", "2024-01-05", "3", "x"], [], ["日本酒", "2024-01-05", "三"], ["焼酎", "2024-01-06"]];
    assert Extract(body[3..], cols) == [];
    assert Extract(body[2..], cols) == [];
    assert Extract(body[1..], cols) == [];
  }
}
