/**
 * The `App` component's state and the three updates that change it: a tick
 * computes and records the next generation, clear restarts from the seed
 * row, and a new rule number replaces the rule table.
 */
module Automaton {
  import opened Wrappers
  import opened Formatting
  import opened RuleTable
  import opened RowTransition
  import opened StartingRow

  /** The last row of the history, or the seed when nothing has been recorded. */
  function Latest(seed: seq<U32>, rows: seq<seq<U32>>): seq<U32> {
    if rows == [] then seed else rows[|rows| - 1]
  }

  /**
   * The history after one tick per entry of `rules`, tick `j` applying rule
   * `rules[j]` to the row before it, starting from `seed`.
   */
  ghost function Run(seed: seq<U32>, rules: seq<nat>): (rows: seq<seq<U32>>)
    decreases |rules|
  {
    if rules == [] then []
    else
      var earlier := Run(seed, rules[..|rules| - 1]);
      earlier + [ElementaryStep(Latest(seed, earlier), rules[|rules| - 1])]
  }

  /** One more tick appends one row and leaves the earlier rows as they were. */
  lemma RunAppend(seed: seq<U32>, rules: seq<nat>, rule: nat)
    ensures Run(seed, rules + [rule]) == Run(seed, rules) + [ElementaryStep(Latest(seed, Run(seed, rules)), rule)]
  {
    assert (rules + [rule])[..|rules|] == rules;
  }

  /**
   * The history holds one row per tick, every row as long as the seed; when
   * the seed is binary so is every row.
   */
  lemma {:induction false} RunShape(seed: seq<U32>, rules: seq<nat>)
    ensures |Run(seed, rules)| == |rules|
    ensures forall j :: 0 <= j < |rules| ==> |Run(seed, rules)[j]| == |seed| && IsBinaryRow(Run(seed, rules)[j])
    ensures |Latest(seed, Run(seed, rules))| == |seed|
    ensures IsBinaryRow(seed) ==> IsBinaryRow(Latest(seed, Run(seed, rules)))
    decreases |rules|
  {
    if rules != [] {
      var earlier := rules[..|rules| - 1];
      var before, rows := Run(seed, earlier), Run(seed, rules);
      RunShape(seed, earlier);
      var last := ElementaryStep(Latest(seed, before), rules[|rules| - 1]);
      assert rows == before + [last];
      forall j | 0 <= j < |rules|
        ensures |rows[j]| == |seed| && IsBinaryRow(rows[j])
      {
        if j < |before| {
          assert rows[j] == before[j];
        }
      }
    }
  }

  /**
   * A history started from the single-seed row: every recorded row and the
   * current row have the starting row's length and are binary.
   */
  lemma HistoryRowsUniform(seed: seq<U32>, rules: seq<nat>)
    requires IsSingleSeed(seed, StartingRowSize)
    ensures |Run(seed, rules)| == |rules|
    ensures forall j :: 0 <= j < |Run(seed, rules)| ==> |Run(seed, rules)[j]| == StartingRowSize && IsBinaryRow(Run(seed, rules)[j])
    ensures |Latest(seed, Run(seed, rules))| == StartingRowSize && IsBinaryRow(Latest(seed, Run(seed, rules)))
  {
    SingleSeedIsBinary(seed, StartingRowSize);
    RunShape(seed, rules);
  }

  /** The cellular automaton application: its history, its rule table and its current row. */
  class App {
    /** Every row computed since the last clear, oldest first. */
    var messages: seq<seq<U32>>
    var ruleSet: map<string, U32>
    var currentRow: seq<U32>

    /** The rule number `ruleSet` was built from. */
    ghost var rule: nat
    /** The row the history starts from. */
    ghost var seed: seq<U32>
    /** The rule number in force at each recorded tick. */
    ghost var rules: seq<nat>

    /**
     * The table is that of a rule number up to 255, the history is the run
     * from the single-seed row under the rules in force at each tick, and
     * the current row is the last row of the history (the seed if empty).
     */
    ghost predicate Valid()
      reads this
    {
      && rule <= 255
      && IsRuleTableOf(ruleSet, rule)
      && IsSingleSeed(seed, StartingRowSize)
      && messages == Run(seed, rules)
      && currentRow == Latest(seed, messages)
    }

    /** `create`: rule 30, the single-seed row, and no history. */
    constructor ()
      ensures Valid()
      ensures messages == [] && IsSingleSeed(currentRow, StartingRowSize)
      ensures rule == 30 && IsRuleTableOf(ruleSet, 30)
    {
      var table := GetRuleSet(30);
      var row := GenerateStartingRow();
      messages := [];
      ruleSet := table;
      currentRow := row;
      rule := 30;
      seed := row;
      rules := [];
    }

    /**
     * `Tick`: the next generation replaces the current row and is appended
     * to the history. The table lookup cannot fail, and the new row is the
     * elementary automaton of the current rule applied to the old one.
     */
    method Tick()
      requires Valid()
      modifies this
      ensures Valid()
      ensures Step(old(currentRow), old(ruleSet)) == Some(currentRow)
      ensures currentRow == ElementaryStep(old(currentRow), rule)
      ensures messages == old(messages) + [currentRow]
      ensures |currentRow| == |old(currentRow)| == StartingRowSize
      ensures forall j :: 0 <= j < |messages| ==> |messages[j]| == StartingRowSize && IsBinaryRow(messages[j])
      ensures ruleSet == old(ruleSet) && rule == old(rule) && seed == old(seed)
    {
      HistoryRowsUniform(seed, rules);
      StepFollowsRule(currentRow, ruleSet, rule);
      var next := CalcNewRow(currentRow, ruleSet);
      RunAppend(seed, rules, rule);
      currentRow := next.value;
      messages := messages + [currentRow];
      rules := rules + [rule];
      HistoryRowsUniform(seed, rules);
    }

    /** `Clear`: the history is emptied and the current row is the single-seed row again. */
    method Clear()
      requires Valid()
      modifies this
      ensures Valid()
      ensures messages == [] && IsSingleSeed(currentRow, StartingRowSize)
      ensures ruleSet == old(ruleSet) && rule == old(rule)
    {
      messages := [];
      currentRow := GenerateStartingRow();
      seed := currentRow;
      rules := [];
    }

    /**
     * `InputValue`, given the number already read from the input field: a
     * rule number up to 255 replaces the table; any larger number changes
     * nothing. The history and the current row are never touched.
     */
    method InputValue(newRuleSet: U32)
      requires Valid()
      modifies this
      ensures Valid()
      ensures newRuleSet <= 255 ==> rule == newRuleSet && IsRuleTableOf(ruleSet, newRuleSet)
      ensures newRuleSet > 255 ==> rule == old(rule) && ruleSet == old(ruleSet)
      ensures messages == old(messages) && currentRow == old(currentRow)
    {
      if newRuleSet <= 255 {
        ruleSet := GetRuleSet(newRuleSet);
        rule := newRuleSet;
      }
    }
  }
}
