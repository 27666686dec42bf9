/**
 * The first generation: a row of dead cells with one live cell in the
 * middle.
 */
module StartingRow {
  import opened Formatting
  import opened RowTransition

  /** The number of cells in every row. */
  const StartingRowSize: nat := 125

  /** `row` has `size` cells, all 0 except a 1 at index `size / 2`. */
  ghost predicate IsSingleSeed(row: seq<U32>, size: nat) {
    && |row| == size
    && forall i :: 0 <= i < size ==> row[i] == if i == size / 2 then 1 else 0
  }

  /**
   * `generate_starting_row` with its random branch switched off: a vector
   * of zeros, then the midpoint cell set to 1 in place.
   */
  method GenerateStartingRow() returns (startingRow: seq<U32>)
    ensures IsSingleSeed(startingRow, StartingRowSize)
    ensures startingRow[62] == 1
  {
    var size := StartingRowSize;
    var cells := new U32[size](_ => 0);
    var midpoint := cells.Length / 2;
    cells[midpoint] := 1;
    startingRow := cells[..];
  }

  /** A single-seed row is binary, and its one live cell is the only one. */
  lemma SingleSeedIsBinary(row: seq<U32>, size: nat)
    requires IsSingleSeed(row, size)
    ensures IsBinaryRow(row)
    ensures forall i :: 0 <= i < |row| && row[i] != 0 ==> i == size / 2
  {
  }
}
