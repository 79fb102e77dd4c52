// The switch matrix of keyboards/sanderling/matrix.c: rows are selected
// through a 3-to-8 line decoder, and columns are read as pulled-up inputs
// that a pressed key pulls low.

module SanderlingMatrix {
  import opened Bits

  /** select_row: the PCB numbers the decoder outputs backwards from the
      layout's rows, so row `row` is decoder address `7 - row`. */
  function SelectRow(row: nat): (addr: nat)
    requires row < 8
    ensures addr < 8
  {
    7 - row
  }

  /** Selecting is its own inverse, so distinct rows drive distinct decoder
      outputs and every output belongs to exactly one row. */
  lemma SelectRowInvolution(row: nat)
    requires row < 8
    ensures SelectRow(SelectRow(row)) == row
    ensures forall other :: 0 <= other < 8 && other != row ==> SelectRow(other) != SelectRow(row)
  {
  }

  /** The row word built from the first `n` column levels: a column whose
      pin reads low is pressed, and sets its bit. */
  function RowWord(levels: seq<bool>, n: nat): bv32
    requires n <= |levels| && n <= MaxCols
  {
    if n == 0 then 0
    else if levels[n - 1] then RowWord(levels, n - 1)
    else RowWord(levels, n - 1) | Mask(n - 1)
  }

  /** Bit `c` of the row word is set exactly when column `c` was read and
      its pin was low. */
  lemma {:induction false} RowWordBits(levels: seq<bool>, n: nat, c: nat)
    requires n <= |levels| && n <= MaxCols && c < MaxCols
    ensures Bit(RowWord(levels, n), c) <==> c < n && !levels[c]
  {
    if n > 0 {
      RowWordBits(levels, n - 1, c);
      var w := RowWord(levels, n - 1);
      if !levels[n - 1] {
        BitOfOr(w, n - 1, c);
        assert Bit(w | Mask(n - 1), c) <==> (c == n - 1 || Bit(w, c));
      }
    }
  }

  /** Reading one more column sets that column's bit when its pin is low. */
  lemma RowWordStep(levels: seq<bool>, n: nat, w: bv32, m: bv32)
    requires n < |levels| && n < MaxCols && w == RowWord(levels, n) && m == Mask(n)
    ensures RowWord(levels, n + 1) == (if levels[n] then w else w | m)
  {
  }

  /** The matrix a scan builds: row `r` is the row word read while decoder
      address SelectRow(r) is driven. `pins[a][c]` is the level of column
      `c` while address `a` is selected. */
  function NewMatrix(pins: seq<seq<bool>>, rows: nat, cols: nat): (m: seq<bv32>)
    requires rows <= 8 && cols <= MaxCols && |pins| == 8
    requires forall a :: 0 <= a < 8 ==> |pins[a]| == cols
  {
    seq(rows, r requires 0 <= r < rows => RowWord(pins[SelectRow(r)], cols))
  }

  /** A key reads as pressed exactly when its column pin is low while its
      row is selected; columns beyond the matrix never read as pressed. */
  lemma PressedIffLow(pins: seq<seq<bool>>, rows: nat, cols: nat, r: nat, c: nat)
    requires rows <= 8 && cols <= MaxCols && |pins| == 8
    requires forall a :: 0 <= a < 8 ==> |pins[a]| == cols
    requires r < rows && c < MaxCols
    ensures Bit(NewMatrix(pins, rows, cols)[r], c) <==> c < cols && !pins[SelectRow(r)][c]
  {
    RowWordBits(pins[SelectRow(r)], cols, c);
  }

  /** matrix_read_cols_on_row: select the row, read every column, store the
      row word. */
  method ReadColsOnRow(m: array<bv32>, row: nat, pins: seq<seq<bool>>, cols: nat)
    requires row < m.Length && row < 8 && cols <= MaxCols && |pins| == 8
    requires forall a :: 0 <= a < 8 ==> |pins[a]| == cols
    modifies m
    ensures m[..] == old(m[..])[row := RowWord(pins[SelectRow(row)], cols)]
  {
    var currentRowValue: bv32 := 0;
    var addr := SelectRow(row);
    var rowShifter: bv32 := 1;
    var colIndex := 0;
    while colIndex < cols
      modifies {}
      invariant 0 <= colIndex <= cols
      invariant currentRowValue == RowWord(pins[addr], colIndex)
      invariant colIndex < cols ==> rowShifter == Mask(colIndex)
    {
      var pinState := pins[addr][colIndex];
      RowWordStep(pins[addr], colIndex, currentRowValue, rowShifter);
      if !pinState {
        currentRowValue := currentRowValue | rowShifter;
      }
      var nextShifter := rowShifter << 1;
      if colIndex + 1 < cols {
        MaskStep(colIndex);
        assert nextShifter == Mask(colIndex + 1);
      }
      colIndex, rowShifter := colIndex + 1, nextShifter;
    }
    m[row] := currentRowValue;
  }

  /** matrix_scan_custom: read every row into a fresh matrix, and copy it
      over the current one only when they differ. */
  method Scan(currentMatrix: array<bv32>, pins: seq<seq<bool>>, rows: nat, cols: nat) returns (changed: bool)
    requires currentMatrix.Length == rows && rows <= 8 && cols <= MaxCols && |pins| == 8
    requires forall a :: 0 <= a < 8 ==> |pins[a]| == cols
    modifies currentMatrix
    ensures currentMatrix[..] == NewMatrix(pins, rows, cols)
    ensures changed <==> old(currentMatrix[..]) != NewMatrix(pins, rows, cols)
  {
    var newMatrix := new bv32[rows](_ => 0);
    var currentRow := 0;
    while currentRow < rows
      modifies newMatrix
      invariant 0 <= currentRow <= rows
      invariant newMatrix[..currentRow] == NewMatrix(pins, rows, cols)[..currentRow]
    {
      ReadColsOnRow(newMatrix, currentRow, pins, cols);
      currentRow := currentRow + 1;
    }
    assert newMatrix[..] == NewMatrix(pins, rows, cols) by {
      assert newMatrix[..] == newMatrix[..rows];
    }
    changed := currentMatrix[..] != newMatrix[..];
    if changed {
      forall i | 0 <= i < rows {
        currentMatrix[i] := newMatrix[i];
      }
    }
  }
}
