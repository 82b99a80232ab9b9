/**
 * basis_array: the Fock basis as a rectangular numeric table, one row per
 * basis element and one column per mode, stored row by row as a dense
 * array would be.
 */
module BasisTable {
  import opened BasisGenerator

  /** A rows-by-cols table of naturals, its cells stored row by row. */
  datatype Table = Table(rows: nat, cols: nat, cells: seq<nat>)
  {
    /** The storage holds exactly rows * cols cells. */
    predicate Rectangular()
    {
      |cells| == rows * cols
    }

    /** The entry in row i and column j. */
    function At(i: nat, j: nat): nat
      requires Rectangular() && i < rows && j < cols
    {
      CellInRange(i, j, rows, cols);
      cells[i * cols + j]
    }
  }

  lemma CellInRange(i: nat, j: nat, rows: nat, cols: nat)
    requires i < rows && j < cols
    ensures i * cols + j < rows * cols
  {
    assert i * cols + j < i * cols + cols == (i + 1) * cols;
    assert (i + 1) * cols <= rows * cols;
  }

  /** The rows of rs laid end to end. */
  function Flatten(rs: seq<seq<nat>>): seq<nat>
  {
    if rs == [] then [] else rs[0] + Flatten(rs[1..])
  }

  /** Every row of rs has cols entries. */
  predicate RowsOfWidth(rs: seq<seq<nat>>, cols: nat)
  {
    forall i :: 0 <= i < |rs| ==> |rs[i]| == cols
  }

  /** The table whose rows are rs. */
  function FromRows(rs: seq<seq<nat>>, cols: nat): Table
  {
    Table(|rs|, cols, Flatten(rs))
  }

  /** basis_array(n, m): Basis(n, m) as a table with m columns. */
  function BasisArray(n: nat, m: nat): Table
    requires m >= 1
  {
    FromRows(Basis(n, m), m)
  }

  lemma {:induction false} FlattenLength(rs: seq<seq<nat>>, cols: nat)
    requires RowsOfWidth(rs, cols)
    ensures |Flatten(rs)| == |rs| * cols
  {
    if rs != [] {
      FlattenLength(rs[1..], cols);
      assert |rs| * cols == cols + (|rs| - 1) * cols;
    }
  }

  /** Entry j of row i sits at position i * cols + j of the flattened rows. */
  lemma {:induction false} FlattenAt(rs: seq<seq<nat>>, cols: nat, i: nat, j: nat)
    requires RowsOfWidth(rs, cols) && i < |rs| && j < cols
    ensures i * cols + j < |Flatten(rs)| && Flatten(rs)[i * cols + j] == rs[i][j]
  {
    FlattenLength(rs, cols);
    CellInRange(i, j, |rs|, cols);
    if i > 0 {
      FlattenAt(rs[1..], cols, i - 1, j);
      assert i * cols + j == cols + ((i - 1) * cols + j);
      assert |rs[0]| == cols;
    }
  }

  /**
   * basis_array(n, m) agrees with basis(n, m): it is rectangular with one row
   * per basis element and m columns, and each entry equals the corresponding
   * occupation number.
   */
  lemma BasisArrayMatchesBasis(n: nat, m: nat)
    requires m >= 1
    ensures BasisArray(n, m).Rectangular()
    ensures BasisArray(n, m).rows == |Basis(n, m)| && BasisArray(n, m).cols == m
    ensures forall i :: 0 <= i < |Basis(n, m)| ==> |Basis(n, m)[i]| == m
    ensures forall i: nat, j: nat :: i < |Basis(n, m)| && j < m ==>
      BasisArray(n, m).At(i, j) == Basis(n, m)[i][j]
  {
    var b := Basis(n, m);
    BasisSound(n, m);
    forall i | 0 <= i < |b|
      ensures |b[i]| == m
    {
      assert b[i] in b;
    }
    FlattenLength(b, m);
    forall i: nat, j: nat | i < |b| && j < m
      ensures BasisArray(n, m).At(i, j) == b[i][j]
    {
      FlattenAt(b, m, i, j);
    }
  }
}
