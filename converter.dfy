/**
 * The JSON-to-Excel converter: take the array under "data", infer the headers from
 * its first record, and write headers and records into a sheet named "Data".
 */
module JsonToExcel {
  import opened Wrappers
  import opened Json
  import opened Spreadsheet
  import opened Projection

  /** The top-level key whose array holds the records. */
  const DataKey := "data"

  /** The name of the sheet the records are written to. */
  const SheetName := "Data"

  /** Why a conversion stops: no array under "data", or element `index` of it is not an object. */
  datatype Error = DataFieldNotFound | RecordNotObject(index: nat)

  /** A filled sheet with the headers it was written with, or the error that stopped the conversion. */
  datatype Outcome = Written(headers: seq<string>, sheet: Sheet) | Aborted(error: Error)

  /**
   * The records of the "data" array when every element is a JSON object, otherwise
   * the index of the first element that is not.
   */
  function AsRecords(items: seq<Value>): (r: Result<seq<Record>, nat>)
    ensures r.Success? <==> forall i :: 0 <= i < |items| ==> items[i].Object?
    ensures r.Success? ==> |r.value| == |items| && forall i :: 0 <= i < |items| ==> items[i] == Object(r.value[i])
    ensures r.Failure? ==> r.error < |items| && !items[r.error].Object?
    ensures r.Failure? ==> forall i :: 0 <= i < r.error ==> items[i].Object?
  {
    if items == [] then Success([])
    else if !items[0].Object? then Failure(0)
    else match AsRecords(items[1..])
      case Success(rest) => Success([items[0].fields] + rest)
      case Failure(i) => Failure(i + 1)
  }

  /** The keys of the first record, each once, in the unspecified order of Go's map iteration. */
  method InferHeaders(first: Record) returns (headers: seq<string>)
    ensures IsHeaderList(headers, first)
  {
    headers := [];
    var pending := first.Keys;
    while pending != {}
      invariant pending <= first.Keys
      invariant Distinct(headers)
      invariant forall k :: k in headers ==> k in first && k !in pending
      invariant forall k :: k in first ==> k in headers || k in pending
      decreases |pending|
    {
      var key :| key in pending;
      headers := headers + [key];
      pending := pending - {key};
    }
  }

  /** Cell `a` is written before the cell at column `col` of row `row`, in a sheet `width` columns wide. */
  predicate WrittenBefore(a: Address, width: nat, row: nat, col: nat)
  {
    a.col < width && 1 <= a.row && (a.row < row || (a.row == row && a.col < col))
  }

  /**
   * Converts a decoded document. It fails when "data" is missing or not an array, and
   * when any element of that array is not an object; otherwise the sheet holds the
   * header list in row 1 and record i in row i + 2.
   */
  method Convert(doc: map<string, Value>) returns (r: Outcome)
    ensures !(DataKey in doc && doc[DataKey].Array?) ==> r == Aborted(DataFieldNotFound)
    ensures DataKey in doc && doc[DataKey].Array? ==>
      match AsRecords(doc[DataKey].items)
      case Failure(i) => r == Aborted(RecordNotObject(i))
      case Success(records) =>
        && r.Written?
        && fresh(r.sheet)
        && r.sheet.name == SheetName
        && (if records == [] then r.headers == [] else IsHeaderList(r.headers, records[0]))
        && IsProjection(r.sheet.cells, r.headers, records)
  {
    if !(DataKey in doc && doc[DataKey].Array?) {
      return Aborted(DataFieldNotFound);
    }
    var dataArray := doc[DataKey].items;
    var sheet := new Sheet(SheetName);

    var headers: seq<string> := [];
    if |dataArray| > 0 {
      if !dataArray[0].Object? {
        return Aborted(RecordNotObject(0));
      }
      headers := InferHeaders(dataArray[0].fields);
    }

    var col := 0;
    while col < |headers|
      invariant col <= |headers|
      invariant forall a :: a in sheet.cells <==> WrittenBefore(a, |headers|, 1, col)
      invariant forall a :: a in sheet.cells ==> sheet.cells[a] == CellValue(headers, [], a)
    {
      sheet.SetCellValue(Address(col, 1), String(headers[col]));
      col := col + 1;
    }

    ghost var records: seq<Record> := [];
    var row := 0;
    while row < |dataArray|
      invariant row <= |dataArray|
      invariant |records| == row
      invariant forall i :: 0 <= i < row ==> dataArray[i] == Object(records[i])
      invariant forall a :: a in sheet.cells <==> WrittenBefore(a, |headers|, row + 2, 0)
      invariant forall a :: a in sheet.cells ==> sheet.cells[a] == CellValue(headers, records, a)
    {
      if !dataArray[row].Object? {
        return Aborted(RecordNotObject(row));
      }
      var dataMap := dataArray[row].fields;
      col := 0;
      while col < |headers|
        invariant col <= |headers|
        invariant forall a :: a in sheet.cells <==> WrittenBefore(a, |headers|, row + 2, col)
        invariant forall a :: a in sheet.cells ==> sheet.cells[a] == CellValue(headers, records + [dataMap], a)
      {
        sheet.SetCellValue(Address(col, row + 2), Lookup(dataMap, headers[col]));
        col := col + 1;
      }
      records := records + [dataMap];
      row := row + 1;
    }
    assert AsRecords(dataArray).value == records;
    return Written(headers, sheet);
  }
}
