/** The in-memory table that the wrangling stages share and update in place:
    ordered named columns of equal length. */
module Frames {
  import opened Errors
  import opened Text
  import opened Integers

  /** One cell of a column read from the CSV file: empty, text, or a number. */
  datatype Cell = Missing | Str(s: string) | Int(n: int)

  /** A snapshot of a table: column order, the cells of each column, and the
      number of rows. */
  datatype Frame = Frame(columns: seq<string>, data: map<string, seq<Cell>>, rows: nat) {

    ghost predicate WellFormed() {
      && (forall i, j :: 0 <= i < j < |columns| ==> columns[i] != columns[j])
      && (forall c :: c in data <==> c in columns)
      && (forall c :: c in data ==> |data[c]| == rows)
    }

    /** `df[name] = cells`: an existing column is replaced where it stands,
        a new one is appended at the end. */
    function With(name: string, cells: seq<Cell>): (r: Frame)
      ensures r.rows == rows && r.data == data[name := cells]
      ensures r.columns == if name in columns then columns else columns + [name]
      ensures WellFormed() && |cells| == rows ==> r.WellFormed()
    {
      Frame(if name in columns then columns else columns + [name], data[name := cells], rows)
    }
  }

  /** Setting the same column twice keeps only the second value. */
  lemma WithTwice(f: Frame, name: string, first: seq<Cell>, second: seq<Cell>)
    ensures f.With(name, first).With(name, second) == f.With(name, second)
  {
  }

  /** Writing a column's own cells back leaves the table as it was. */
  lemma WithSame(f: Frame, name: string)
    requires name in f.columns && name in f.data
    ensures f.With(name, f.data[name]) == f
  {
  }

  /** `fillna(filler)`: every missing cell becomes the given text. */
  function FillMissing(cells: seq<Cell>, filler: string): (r: seq<Cell>)
    ensures |r| == |cells|
    ensures forall i :: 0 <= i < |r| ==> !r[i].Missing?
    ensures forall i :: 0 <= i < |cells| && !cells[i].Missing? ==> r[i] == cells[i]
  {
    seq(|cells|, i requires 0 <= i < |cells| => if cells[i].Missing? then Str(filler) else cells[i])
  }

  predicate AllText(cells: seq<Cell>) {
    forall i :: 0 <= i < |cells| ==> cells[i].Str?
  }

  /** `.str.contains(pattern, flags=re.IGNORECASE)` used as a row mask; a cell
      that is not text yields no usable mask (`None`). */
  function Matches(cells: seq<Cell>, pattern: string): (r: Option<seq<bool>>)
    ensures r.Some? <==> AllText(cells)
    ensures r.Some? ==> |r.value| == |cells|
  {
    if AllText(cells) then
      Some(seq(|cells|, i requires 0 <= i < |cells| && cells[i].Str? => ContainsIgnoreCase(cells[i].s, pattern)))
    else None
  }

  /** `df.loc[mask, column] = value`. */
  function Overwrite(cells: seq<Cell>, mask: seq<bool>, value: Cell): (r: seq<Cell>)
    ensures |r| == |cells|
    ensures forall i :: 0 <= i < |r| ==> r[i] == value || r[i] == cells[i]
  {
    seq(|cells|, i requires 0 <= i < |cells| => if i < |mask| && mask[i] then value else cells[i])
  }

  /** A column holding the same value in every row (`df[column] = "0"`). */
  function Constant(rows: nat, value: Cell): seq<Cell> {
    seq(rows, _ => value)
  }

  /** One cell of `astype(int)`. */
  function CellInt(c: Cell): (r: Option<int>)
    ensures c.Missing? ==> r.None?
    ensures r.Some? ==> InInt64(r.value)
  {
    match c
    case Missing => None
    case Str(s) => ParseInt(s)
    case Int(n) => if InInt64(n) then Some(n) else None
  }

  /** `astype(int)`: the whole column converts, or the call raises. */
  function ParseColumn(cells: seq<Cell>): (r: Option<seq<Cell>>)
    ensures r.Some? <==> forall i :: 0 <= i < |cells| ==> CellInt(cells[i]).Some?
    ensures r.Some? ==> |r.value| == |cells|
    ensures r.Some? ==> forall i :: 0 <= i < |r.value| ==> r.value[i].Int? && InInt64(r.value[i].n)
  {
    if forall i :: 0 <= i < |cells| ==> CellInt(cells[i]).Some? then
      Some(seq(|cells|, i requires 0 <= i < |cells| && CellInt(cells[i]).Some? => Int(CellInt(cells[i]).value)))
    else None
  }

  /** The pandas DataFrame that the stages receive and update in place. */
  class Table {
    var columns: seq<string>
    var data: map<string, seq<Cell>>
    var rows: nat

    ghost predicate Valid()
      reads this
    {
      Copy().WellFormed()
    }

    /** `df.copy()`: the table's current contents as a value. */
    function Copy(): Frame
      reads this
    {
      Frame(columns, data, rows)
    }

    constructor (f: Frame)
      requires f.WellFormed()
      ensures Valid() && Copy() == f
    {
      columns, data, rows := f.columns, f.data, f.rows;
    }

    /** `df[name] = cells`. */
    method SetColumn(name: string, cells: seq<Cell>)
      requires Valid() && |cells| == rows
      modifies this
      ensures Valid() && Copy() == old(Copy()).With(name, cells)
    {
      if name !in columns {
        columns := columns + [name];
      }
      data := data[name := cells];
    }
  }
}
