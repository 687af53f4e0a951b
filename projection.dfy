/**
 * What the converter's sheet must hold once every record is written: the header
 * list in row 1, record i in row i + 2, one column per header.
 */
module Projection {
  import opened Json
  import opened Spreadsheet

  /** A decoded JSON object, map[string]interface{} in the source. */
  type Record = map<string, Value>

  predicate Distinct(s: seq<string>)
  {
    forall i, j :: 0 <= i < j < |s| ==> s[i] != s[j]
  }

  /** The headers of a sheet: every key of `record` exactly once, nothing else, in any order. */
  predicate IsHeaderList(headers: seq<string>, record: Record)
  {
    && Distinct(headers)
    && (forall k :: k in headers ==> k in record)
    && (forall k :: k in record ==> k in headers)
  }

  /** Go's index expression on a map[string]interface{}: the stored value, nil when the key is absent. */
  function Lookup(record: Record, key: string): (v: Value)
    ensures key in record ==> v == record[key]
    ensures key !in record ==> v == Null
  {
    if key in record then record[key] else Null
  }

  /** The cells a sheet of `width` headers and `count` records occupies: row 1 and rows 2 .. count + 1. */
  predicate InGrid(a: Address, width: nat, count: nat)
  {
    a.col < width && 1 <= a.row <= count + 1
  }

  /** What the cell at `a` holds: the header name in row 1, the record's value for that header below it. */
  function CellValue(headers: seq<string>, records: seq<Record>, a: Address): (v: Value)
    requires InGrid(a, |headers|, |records|)
    ensures a.row == 1 ==> v == String(headers[a.col])
    ensures a.row >= 2 && headers[a.col] !in records[a.row - 2] ==> v == Null
    ensures a.row >= 2 && headers[a.col] in records[a.row - 2] ==> v == records[a.row - 2][headers[a.col]]
  {
    if a.row == 1 then String(headers[a.col]) else Lookup(records[a.row - 2], headers[a.col])
  }

  /** `cells` is exactly the sheet that `headers` and `records` produce. */
  ghost predicate IsProjection(cells: map<Address, Value>, headers: seq<string>, records: seq<Record>)
  {
    && (forall a :: a in cells <==> InGrid(a, |headers|, |records|))
    && (forall a :: a in cells ==> cells[a] == CellValue(headers, records, a))
  }

  /** The header cells and record cells, stated cell by cell. */
  lemma CellContents(cells: map<Address, Value>, headers: seq<string>, records: seq<Record>)
    requires IsProjection(cells, headers, records)
    ensures forall col :: 0 <= col < |headers| ==>
      Address(col, 1) in cells && cells[Address(col, 1)] == String(headers[col])
    ensures forall i, col :: 0 <= i < |records| && 0 <= col < |headers| ==>
      && Address(col, i + 2) in cells
      && cells[Address(col, i + 2)] == (if headers[col] in records[i] then records[i][headers[col]] else Null)
  {
    forall col | 0 <= col < |headers|
      ensures Address(col, 1) in cells && cells[Address(col, 1)] == String(headers[col])
    {
      assert InGrid(Address(col, 1), |headers|, |records|);
    }
    forall i, col | 0 <= i < |records| && 0 <= col < |headers|
      ensures Address(col, i + 2) in cells
      ensures cells[Address(col, i + 2)] == Lookup(records[i], headers[col])
    {
      assert InGrid(Address(col, i + 2), |headers|, |records|);
    }
  }

  /** The same headers and records always give the same sheet. */
  lemma ProjectionUnique(c1: map<Address, Value>, c2: map<Address, Value>, headers: seq<string>, records: seq<Record>)
    requires IsProjection(c1, headers, records)
    requires IsProjection(c2, headers, records)
    ensures c1 == c2
  {
  }

  /** Record i is written only to row i + 2: replacing it changes no cell outside that row. */
  lemma RecordOnlyInItsRow(c1: map<Address, Value>, c2: map<Address, Value>, headers: seq<string>,
                           records: seq<Record>, i: nat, r: Record)
    requires i < |records|
    requires IsProjection(c1, headers, records)
    requires IsProjection(c2, headers, records[i := r])
    ensures c1.Keys == c2.Keys
    ensures forall a :: a in c1 && a.row != i + 2 ==> c2[a] == c1[a]
  {
  }

  /** Keys of a record that are not headers never reach the sheet. */
  lemma ExtraKeysIgnored(cells: map<Address, Value>, headers: seq<string>, records: seq<Record>, records': seq<Record>)
    requires IsProjection(cells, headers, records)
    requires |records'| == |records|
    requires forall i, k :: 0 <= i < |records| && k in headers ==> Lookup(records'[i], k) == Lookup(records[i], k)
    ensures IsProjection(cells, headers, records')
  {
    forall a | a in cells
      ensures cells[a] == CellValue(headers, records', a)
    {
      if a.row != 1 {
        assert headers[a.col] in headers;
      }
    }
  }

  /** A sheet is empty exactly when it has no headers, whatever the number of records. */
  lemma NoHeadersNoCells(cells: map<Address, Value>, headers: seq<string>, records: seq<Record>)
    requires IsProjection(cells, headers, records)
    ensures cells == map[] <==> headers == []
  {
    if headers != [] {
      assert Address(0, 1) in cells;
    }
  }

  /** The cells of row `row` in columns 0 .. width - 1. */
  function RowCells(row: nat, width: nat): (s: set<Address>)
    ensures forall a :: a in s <==> a.row == row && a.col < width
    ensures |s| == width
  {
    if width == 0 then {} else
      var prev := RowCells(row, width - 1);
      assert Address(width - 1, row) !in prev;
      prev + {Address(width - 1, row)}
  }

  /** The cells of rows 1 .. rows in columns 0 .. width - 1. */
  function Grid(width: nat, rows: nat): (s: set<Address>)
    ensures forall a :: a in s <==> a.col < width && 1 <= a.row <= rows
    ensures |s| == width * rows
  {
    if rows == 0 then {} else
      var prev := Grid(width, rows - 1);
      var last := RowCells(rows, width);
      assert prev * last == {};
      prev + last
  }

  /** A sheet of `w` headers and `n` records has exactly w * (n + 1) cells. */
  lemma ProjectionSize(cells: map<Address, Value>, headers: seq<string>, records: seq<Record>)
    requires IsProjection(cells, headers, records)
    ensures |cells| == |headers| * (|records| + 1)
  {
    assert cells.Keys == Grid(|headers|, |records| + 1);
  }

  /** With at most 26 headers, distinct cells of the sheet get distinct cell names. */
  lemma DistinctCellNames(cells: map<Address, Value>, headers: seq<string>, records: seq<Record>)
    requires IsProjection(cells, headers, records)
    requires |headers| <= 26
    ensures forall a, b :: a in cells && b in cells && a != b ==> CellName(a) != CellName(b)
  {
    forall a, b | a in cells && b in cells && CellName(a) == CellName(b)
      ensures a == b
    {
      CellNameInjective(a, b);
    }
  }

  /** In a duplicate-free sequence every element occurs once. */
  lemma {:induction false} DistinctMultiplicity(s: seq<string>, x: string)
    requires Distinct(s)
    ensures multiset(s)[x] == if x in s then 1 else 0
  {
    if s != [] {
      var init := s[..|s| - 1];
      assert s == init + [s[|s| - 1]];
      assert Distinct(init);
      DistinctMultiplicity(init, x);
      assert s[|s| - 1] !in init;
    }
  }

  /** Two header lists of the same record differ at most in order. */
  lemma HeaderListsAgree(h1: seq<string>, h2: seq<string>, record: Record)
    requires IsHeaderList(h1, record)
    requires IsHeaderList(h2, record)
    ensures multiset(h1) == multiset(h2)
  {
    forall x ensures multiset(h1)[x] == multiset(h2)[x] {
      DistinctMultiplicity(h1, x);
      DistinctMultiplicity(h2, x);
    }
  }

  /** There are as many headers as the record has keys. */
  lemma HeaderCount(headers: seq<string>, record: Record)
    requires IsHeaderList(headers, record)
    ensures |headers| == |record|
  {
    var elements := set x | x in multiset(headers);
    assert elements == record.Keys;
    forall x | x in multiset(headers) ensures multiset(headers)[x] == 1 {
      DistinctMultiplicity(headers, x);
    }
    SizeOfUnitMultiset(multiset(headers), elements);
  }

  /** A multiset holding each of its elements once is as large as its set of elements. */
  lemma {:induction false} SizeOfUnitMultiset(m: multiset<string>, elements: set<string>)
    requires forall x :: x in m <==> x in elements
    requires forall x :: x in m ==> m[x] == 1
    ensures |m| == |elements|
    decreases |elements|
  {
    if elements != {} {
      var x :| x in elements;
      var m' := m[x := 0];
      assert m == m' + multiset{x};
      SizeOfUnitMultiset(m', elements - {x});
    }
  }
}
