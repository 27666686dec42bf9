/**
 * The row transition: the next generation of a row of cells read as a
 * circle, each cell looked up in the rule table under the string key of its
 * (left, centre, right) neighbourhood.
 */
module RowTransition {
  import opened Wrappers
  import opened Formatting
  import opened RuleTable

  /** Every cell is 0 or 1. */
  predicate IsBinaryRow(row: seq<U32>) {
    forall i :: 0 <= i < |row| ==> row[i] <= 1
  }

  /** The left neighbour of cell `i` in a circular row of `n` cells. */
  function LeftIndex(n: nat, i: nat): nat
    requires i < n
  {
    (i + n - 1) % n
  }

  /** The right neighbour of cell `i` in a circular row of `n` cells. */
  function RightIndex(n: nat, i: nat): nat
    requires i < n
  {
    (i + 1) % n
  }

  /**
   * The circular neighbours are the adjacent cells, except that the first
   * cell's left neighbour is the last cell and the last cell's right
   * neighbour is the first cell.
   */
  lemma WraparoundNeighbours(n: nat, i: nat)
    requires i < n
    ensures LeftIndex(n, i) == if i == 0 then n - 1 else i - 1
    ensures RightIndex(n, i) == if i == n - 1 then 0 else i + 1
  {
    if i > 0 {
      DivUnique(i + n - 1, n, 1, i - 1);
    } else {
      DivUnique(n - 1, n, 0, n - 1);
    }
    if i == n - 1 {
      DivUnique(i + 1, n, 1, 0);
    } else {
      DivUnique(i + 1, n, 0, i + 1);
    }
  }

  /** The table key of cell `i`'s neighbourhood. */
  function NeighbourhoodAt(row: seq<U32>, i: nat): (key: string)
    requires i < |row|
    ensures IsBinaryRow(row) ==> key in NeighbourhoodKeys
  {
    KeyOfMembership(row[LeftIndex(|row|, i)], row[i], row[RightIndex(|row|, i)]);
    KeyOf(row[LeftIndex(|row|, i)], row[i], row[RightIndex(|row|, i)])
  }

  /** In a row of one cell, that cell is its own left and right neighbour. */
  lemma SingleCellNeighbourhood(row: seq<U32>)
    requires |row| == 1
    ensures NeighbourhoodAt(row, 0) == KeyOf(row[0], row[0], row[0])
  {
  }

  /**
   * The next generation: cell `i` is the table entry of its neighbourhood's
   * key, every key read from the old row; `None` when some key is missing
   * from the table, where the source's `unwrap` panics.
   */
  function Step(row: seq<U32>, table: map<string, U32>): Option<seq<U32>> {
    if forall i :: 0 <= i < |row| ==> NeighbourhoodAt(row, i) in table then
      Some(seq(|row|, i requires 0 <= i < |row| && NeighbourhoodAt(row, i) in table => table[NeighbourhoodAt(row, i)]))
    else
      None
  }

  /**
   * The elementary cellular automaton of Wolfram rule `rule`: cell `i`
   * becomes bit `4 * left + 2 * centre + right` of the rule.
   */
  function ElementaryStep(row: seq<U32>, rule: nat): (next: seq<U32>)
    ensures |next| == |row| && IsBinaryRow(next)
  {
    seq(|row|, i requires 0 <= i < |row| => RuleOutput(rule, row[LeftIndex(|row|, i)], row[i], row[RightIndex(|row|, i)]))
  }

  /** The next value of a cell under rule `rule`: bit `4 * left + 2 * centre + right` of the rule. */
  function RuleOutput(rule: nat, left: nat, centre: nat, right: nat): (b: U32)
    ensures b <= 1
  {
    Bit(rule, 4 * left + 2 * centre + right)
  }

  /**
   * `calc_new_row`: walks the old row, builds each cell's key from the
   * `to_string` of its left, centre and right neighbours, and pushes the
   * table entry for that key.
   */
  method CalcNewRow(oldRow: seq<U32>, ruleSet: map<string, U32>) returns (newRow: Option<seq<U32>>)
    ensures newRow == Step(oldRow, ruleSet)
    ensures newRow.Some? ==> |newRow.value| == |oldRow|
    ensures oldRow == [] ==> newRow == Some([])
  {
    var row: seq<U32> := [];
    for i := 0 to |oldRow|
      invariant |row| == i
      invariant forall j :: 0 <= j < i ==> NeighbourhoodAt(oldRow, j) in ruleSet && row[j] == ruleSet[NeighbourhoodAt(oldRow, j)]
    {
      var currKey := "";
      if i == 0 {
        currKey := currKey + DecimalString(oldRow[|oldRow| - 1]);
      } else {
        currKey := currKey + DecimalString(oldRow[i - 1]);
      }
      currKey := currKey + DecimalString(oldRow[i]);
      if i == |oldRow| - 1 {
        currKey := currKey + DecimalString(oldRow[0]);
      } else {
        currKey := currKey + DecimalString(oldRow[i + 1]);
      }
      WraparoundNeighbours(|oldRow|, i);
      assert currKey == NeighbourhoodAt(oldRow, i);
      if currKey !in ruleSet {
        return None;
      }
      row := row + [ruleSet[currKey]];
    }
    assert forall i :: 0 <= i < |oldRow| ==> NeighbourhoodAt(oldRow, i) in ruleSet;
    assert row == Step(oldRow, ruleSet).value;
    return Some(row);
  }

  /**
   * With a complete table (the eight keys), the transition succeeds exactly
   * on rows whose cells are all 0 or 1; any other cell makes a key the table
   * does not have.
   */
  lemma StepDefinedIff(row: seq<U32>, table: map<string, U32>)
    requires table.Keys == NeighbourhoodKeys
    ensures Step(row, table).Some? <==> IsBinaryRow(row)
  {
    if IsBinaryRow(row) {
      forall i | 0 <= i < |row|
        ensures NeighbourhoodAt(row, i) in table
      {
        KeyOfMembership(row[LeftIndex(|row|, i)], row[i], row[RightIndex(|row|, i)]);
      }
    } else {
      var i :| 0 <= i < |row| && row[i] > 1;
      KeyOfMembership(row[LeftIndex(|row|, i)], row[i], row[RightIndex(|row|, i)]);
      assert NeighbourhoodAt(row, i) !in table;
    }
  }

  /**
   * On a binary row, looking keys up in the table of rule `rule` is the
   * elementary automaton of that rule, so the result is again binary and
   * as long as the input.
   */
  lemma StepFollowsRule(row: seq<U32>, table: map<string, U32>, rule: nat)
    requires IsBinaryRow(row) && IsRuleTableOf(table, rule)
    ensures Step(row, table) == Some(ElementaryStep(row, rule))
  {
    StepDefinedIff(row, table);
    var next := Step(row, table).value;
    forall i | 0 <= i < |row|
      ensures next[i] == ElementaryStep(row, rule)[i]
    {
      var left, centre, right := row[LeftIndex(|row|, i)], row[i], row[RightIndex(|row|, i)];
      KeyOfMembership(left, centre, right);
      assert NeighbourhoodAt(row, i) == NeighbourhoodKey(4 * left + 2 * centre + right);
    }
    assert next == ElementaryStep(row, rule);
  }

  /**
   * Any rule that maps 000 to 0 and 001, 010 and 100 to 1 turns a single
   * live cell into three: 0001000 becomes 0011100.
   */
  // The row is a parameter pinned by `requires`, and each cell is spelled out,
  // because a literal row inside the ensures makes the verifier unfold `Bit` too far.
  lemma SingleSeedStep(row: seq<U32>, rule: nat)
    requires row == [0, 0, 0, 1, 0, 0, 0]
    requires Bit(rule, 0) == 0 && Bit(rule, 1) == 1 && Bit(rule, 2) == 1 && Bit(rule, 4) == 1
    ensures ElementaryStep(row, rule) == [0, 0, 1, 1, 1, 0, 0]
  {
    var next := ElementaryStep(row, rule);
    assert next[0] == RuleOutput(rule, row[6], row[0], row[1]);
    assert next[1] == RuleOutput(rule, row[0], row[1], row[2]);
    assert next[2] == RuleOutput(rule, row[1], row[2], row[3]);
    assert next[3] == RuleOutput(rule, row[2], row[3], row[4]);
    assert next[4] == RuleOutput(rule, row[3], row[4], row[5]);
    assert next[5] == RuleOutput(rule, row[4], row[5], row[6]);
    assert next[6] == RuleOutput(rule, row[5], row[6], row[0]);
  }

  /**
   * The same rules on 10000: the first cell's left neighbour is the last
   * cell and the last cell's right neighbour is the first, so 10000 becomes
   * 11001.
   */
  // The row is a parameter pinned by `requires`, and each cell is spelled out,
  // because a literal row inside the ensures makes the verifier unfold `Bit` too far.
  lemma WraparoundStep(row: seq<U32>, rule: nat)
    requires row == [1, 0, 0, 0, 0]
    requires Bit(rule, 0) == 0 && Bit(rule, 1) == 1 && Bit(rule, 2) == 1 && Bit(rule, 4) == 1
    ensures ElementaryStep(row, rule) == [1, 1, 0, 0, 1]
  {
    var next := ElementaryStep(row, rule);
    assert next[0] == RuleOutput(rule, row[4], row[0], row[1]);
    assert next[1] == RuleOutput(rule, row[0], row[1], row[2]);
    assert next[2] == RuleOutput(rule, row[1], row[2], row[3]);
    assert next[3] == RuleOutput(rule, row[2], row[3], row[4]);
    assert next[4] == RuleOutput(rule, row[3], row[4], row[0]);
  }

  /** Rule 30 from a single live cell, looked up in rule 30's table: 0001000 becomes 0011100. */
  lemma Rule30SingleSeed(row: seq<U32>, table: map<string, U32>, rule: nat)
    requires row == [0, 0, 0, 1, 0, 0, 0] && rule == 30 && IsRuleTableOf(table, rule)
    ensures Step(row, table) == Some([0, 0, 1, 1, 1, 0, 0])
  {
    Rule30Bits();
    SingleSeedStep(row, rule);
    StepFollowsRule(row, table, rule);
  }

  /** Rule 30 across the wrap-around, looked up in rule 30's table: 10000 becomes 11001. */
  lemma Rule30Wraparound(row: seq<U32>, table: map<string, U32>, rule: nat)
    requires row == [1, 0, 0, 0, 0] && rule == 30 && IsRuleTableOf(table, rule)
    ensures Step(row, table) == Some([1, 1, 0, 0, 1])
  {
    Rule30Bits();
    WraparoundStep(row, rule);
    StepFollowsRule(row, table, rule);
  }
}
