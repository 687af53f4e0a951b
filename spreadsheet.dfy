/**
 * The worksheet the converter fills: cells addressed A1-style, each holding the
 * value handed to SetCellValue, and the cell names Sprintf builds for them.
 */
module Spreadsheet {
  import opened Json

  /** A cell position: `col` is the offset of the column letter from 'A', `row` the one-based row. */
  datatype Address = Address(col: nat, row: nat)

  /**
   * The character that Go's %c verb prints for the rune 'A' + col: the code point
   * itself when it is a Unicode scalar value, U+FFFD otherwise. Only the first 26
   * offsets give an upper-case letter; offsets 32 to 57 give the lower-case
   * letters 'a' to 'z'.
   */
  function ColumnChar(col: nat): (c: char)
    ensures 'A' <= c <= 'Z' <==> col < 26
    ensures col < 26 ==> c as int == 'A' as int + col
    ensures 'a' <= c <= 'z' <==> 32 <= col < 58
  {
    var r := 'A' as int + col;
    if r < 0xD800 || 0xE000 <= r < 0x11_0000 then r as char else '\U{FFFD}'
  }

  function Digit(d: nat): (c: char)
    requires d < 10
    ensures '0' <= c <= '9' && c as int - '0' as int == d
  {
    ('0' as int + d) as char
  }

  /** The text Go's %d verb prints for a non-negative integer: decimal digits, no sign, no leading zero. */
  function Decimal(n: nat): (s: string)
    ensures |s| >= 1
    ensures forall i :: 0 <= i < |s| ==> '0' <= s[i] <= '9'
    ensures s[0] == '0' ==> n == 0
    decreases n
  {
    if n < 10 then [Digit(n)] else Decimal(n / 10) + [Digit(n % 10)]
  }

  /** The number a string of decimal digits denotes. */
  function DigitsValue(s: string): nat
    requires forall i :: 0 <= i < |s| ==> '0' <= s[i] <= '9'
  {
    if s == [] then 0 else DigitsValue(s[..|s| - 1]) * 10 + (s[|s| - 1] as int - '0' as int)
  }

  /** Reading back the digits of a row number gives that row number. */
  lemma {:induction false} DecimalRoundTrip(n: nat)
    ensures DigitsValue(Decimal(n)) == n
  {
    if n >= 10 {
      var s := Decimal(n);
      assert s[..|s| - 1] == Decimal(n / 10);
      DecimalRoundTrip(n / 10);
    }
  }

  /** The cell name `fmt.Sprintf("%c%d", 'A'+col, row)` that the converter passes to SetCellValue. */
  function CellName(a: Address): (name: string)
    ensures |name| >= 2 && name[0] == ColumnChar(a.col)
    ensures forall i :: 1 <= i < |name| ==> '0' <= name[i] <= '9'
    ensures DigitsValue(name[1..]) == a.row
  {
    DecimalRoundTrip(a.row);
    var name := [ColumnChar(a.col)] + Decimal(a.row);
    assert name[1..] == Decimal(a.row);
    name
  }

  /** Within columns A to Z, distinct addresses have distinct cell names. */
  lemma CellNameInjective(a: Address, b: Address)
    requires a.col < 26 && b.col < 26
    requires CellName(a) == CellName(b)
    ensures a == b
  {
  }

  /** A named worksheet of an excelize workbook, reduced to the values stored in its cells. */
  class Sheet {
    const name: string
    var cells: map<Address, Value>

    /** NewSheet: an empty sheet with the given name. */
    constructor (name: string)
      ensures this.name == name && cells == map[]
    {
      this.name := name;
      cells := map[];
    }

    /** SetCellValue: the cell at `a` now holds `v`; every other cell is unchanged. */
    method SetCellValue(a: Address, v: Value)
      modifies this
      ensures cells == old(cells)[a := v]
    {
      cells := cells[a := v];
    }
  }
}
