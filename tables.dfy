/**
 * Tables as the parser hands them over, and the column-ordered frame the
 * backend builds. A cell is Option<string>: None stands for pandas' NaN,
 * which is what an empty CSV cell becomes.
 */
module Tables {
  import opened Wrappers

  type Cell = Option<string>
  type Row = seq<Cell>

  /** A parsed CSV file: its first line is the header, every later line a row. */
  datatype Table = Table(header: seq<string>, rows: seq<Row>)

  predicate Distinct(names: seq<string>) {
    forall i, j :: 0 <= i < j < |names| ==> names[i] != names[j]
  }

  /** Every row has one cell per header column (the parser pads short lines). */
  predicate Rectangular(t: Table) {
    forall k :: 0 <= k < |t.rows| ==> |t.rows[k]| == |t.header|
  }

  /** What the parser guarantees: rectangular, and repeated header names made unique. */
  predicate Parsed(t: Table) {
    Rectangular(t) && Distinct(t.header)
  }

  /** A table is empty when either of its axes has length zero. */
  predicate Empty(t: Table) {
    |t.rows| == 0 || |t.header| == 0
  }

  /** Position of the first occurrence of name. */
  function IndexOf(names: seq<string>, name: string): (i: nat)
    requires name in names
    ensures i < |names| && names[i] == name
    ensures forall j :: 0 <= j < i ==> names[j] != name
  {
    if names[0] == name then 0 else 1 + IndexOf(names[1..], name)
  }

  /** `t[name]`: the cells of the column headed name, top to bottom. */
  function Column(t: Table, name: string): (cells: seq<Cell>)
    requires Parsed(t) && name in t.header
    ensures |cells| == |t.rows|
    ensures forall j, k :: 0 <= j < |t.header| && t.header[j] == name && 0 <= k < |t.rows|
              ==> cells[k] == t.rows[k][j]
  {
    var j := IndexOf(t.header, name);
    seq(|t.rows|, k requires 0 <= k < |t.rows| => t.rows[k][j])
  }

  /** One named column of a frame under construction. */
  datatype Series = Series(name: string, cells: seq<Cell>)

  /** A frame as its columns, left to right. */
  type Frame = seq<Series>

  function Names(f: Frame): (names: seq<string>)
    ensures |names| == |f|
    ensures forall p :: 0 <= p < |f| ==> names[p] == f[p].name
  {
    if f == [] then [] else [f[0].name] + Names(f[1..])
  }

  /** Overwriting a column with one of the same name keeps the names. */
  lemma NamesOverwrite(f: Frame, p: nat, s: Series)
    requires p < |f| && s.name == f[p].name
    ensures Names(f[p := s]) == Names(f)
  {
    assert forall q :: 0 <= q < |f| ==> Names(f[p := s])[q] == Names(f)[q];
  }

  /** Appending a column appends its name. */
  lemma NamesAppend(f: Frame, s: Series)
    ensures Names(f + [s]) == Names(f) + [s.name]
  {
    assert forall q :: 0 <= q <= |f| ==> Names(f + [s])[q] == (Names(f) + [s.name])[q];
  }

  /**
   * Column assignment `f[name] = cells`: an existing column of that name is
   * overwritten where it stands, otherwise the column is added at the right.
   */
  function Assign(f: Frame, name: string, cells: seq<Cell>): (r: Frame)
    requires Distinct(Names(f))
    ensures Distinct(Names(r))
    ensures Names(r) == if name in Names(f) then Names(f) else Names(f) + [name]
    ensures forall p :: 0 <= p < |f| && f[p].name != name ==> r[p] == f[p]
    ensures forall p :: 0 <= p < |r| && r[p].name == name ==> r[p].cells == cells
  {
    if name in Names(f) then
      var p := IndexOf(Names(f), name);
      NamesOverwrite(f, p, Series(name, cells));
      f[p := Series(name, cells)]
    else
      NamesAppend(f, Series(name, cells));
      f + [Series(name, cells)]
  }
}
