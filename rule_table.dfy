/**
 * Rule-table derivation: a Wolfram rule number becomes a map from the eight
 * neighbourhood keys "111" ... "000" to the next value of the centre cell.
 */
module RuleTable {
  import opened Formatting

  /** The eight keys `get_rule_set` inserts. */
  const NeighbourhoodKeys: set<string> := {"111", "110", "101", "100", "011", "010", "001", "000"}

  /**
   * The key the row transition builds for a neighbourhood: the `to_string`
   * of the left, centre and right cells, concatenated.
   */
  function KeyOf(left: nat, centre: nat, right: nat): (key: string)
    ensures |key| >= 3 && forall i :: 0 <= i < |key| ==> IsDecimalDigit(key[i])
    ensures |key| == 3 <==> left < 10 && centre < 10 && right < 10
  {
    DecimalString(left) + DecimalString(centre) + DecimalString(right)
  }

  /** The key of the neighbourhood whose 3-bit value (left cell most significant) is `k`. */
  function NeighbourhoodKey(k: nat): string
    requires k < 8
  {
    [DigitChar(k / 4), DigitChar(k / 2 % 2), DigitChar(k % 2)]
  }

  /** The keys of the neighbourhoods 0 to 7, written out. */
  lemma NeighbourhoodKeyLiterals()
    ensures NeighbourhoodKey(0) == "000" && NeighbourhoodKey(1) == "001"
    ensures NeighbourhoodKey(2) == "010" && NeighbourhoodKey(3) == "011"
    ensures NeighbourhoodKey(4) == "100" && NeighbourhoodKey(5) == "101"
    ensures NeighbourhoodKey(6) == "110" && NeighbourhoodKey(7) == "111"
  {
  }

  /** The eight keys are exactly the keys of the neighbourhoods 0 to 7. */
  lemma NeighbourhoodKeysEnumerated()
    ensures forall k :: 0 <= k < 8 ==> NeighbourhoodKey(k) in NeighbourhoodKeys
    ensures forall key :: key in NeighbourhoodKeys ==> exists k :: 0 <= k < 8 && key == NeighbourhoodKey(k)
  {
    NeighbourhoodKeyLiterals();
  }

  /** Every table key is three characters, each '0' or '1'. */
  lemma NeighbourhoodKeysAreBinary(key: string)
    requires key in NeighbourhoodKeys
    ensures |key| == 3 && IsBinaryDigit(key[0]) && IsBinaryDigit(key[1]) && IsBinaryDigit(key[2])
  {
  }

  /**
   * A key built from three cells is one of the eight table keys exactly when
   * all three cells are 0 or 1, and then it is the key of the neighbourhood
   * whose 3-bit value is `4 * left + 2 * centre + right`.
   */
  lemma KeyOfMembership(left: nat, centre: nat, right: nat)
    ensures KeyOf(left, centre, right) in NeighbourhoodKeys <==> left <= 1 && centre <= 1 && right <= 1
    ensures left <= 1 && centre <= 1 && right <= 1 ==>
              KeyOf(left, centre, right) == NeighbourhoodKey(4 * left + 2 * centre + right)
  {
    var key := KeyOf(left, centre, right);
    if left <= 1 && centre <= 1 && right <= 1 {
      var k := 4 * left + 2 * centre + right;
      assert key == NeighbourhoodKey(k);
      NeighbourhoodKeysEnumerated();
      assert NeighbourhoodKey(k) in NeighbourhoodKeys;
    } else if key in NeighbourhoodKeys {
      NeighbourhoodKeysAreBinary(key);
      assert false;
    }
  }

  /**
   * The 8-digit binary of a rule number up to 255 has exactly eight
   * characters, each '0' or '1', character `i` being bit `7 - i`; so both
   * unwraps of the digit lookup succeed for indices 0 to 7.
   */
  lemma RuleBinary(rule: nat)
    requires rule <= 255
    ensures |FormatBinary(rule, 8)| == 8
    ensures forall i :: 0 <= i < 8 ==> IsBinaryDigit(FormatBinary(rule, 8)[i])
    ensures forall i :: 0 <= i < 8 ==> FormatBinary(rule, 8)[i] == DigitChar(Bit(rule, 7 - i))
  {
    assert Pow2(8) == 256;
    FormatBinaryBits(rule, 8);
  }

  /**
   * `table` is the table of rule `rule`: its keys are the eight
   * neighbourhood keys and the neighbourhood with 3-bit value `k` maps to bit
   * `k` of the rule.
   */
  ghost predicate IsRuleTableOf(table: map<string, U32>, rule: nat) {
    && table.Keys == NeighbourhoodKeys
    && forall k :: 0 <= k < 8 ==> NeighbourhoodKey(k) in table && table[NeighbourhoodKey(k)] == Bit(rule, k)
  }

  /**
   * Digit `index` of a string of digits. The source unwraps twice here (the
   * character exists, and it is a decimal digit); the requires is exactly
   * what keeps both from panicking.
   */
  function DigitAt(binaryString: string, index: nat): (d: U32)
    requires index < |binaryString| && IsDecimalDigit(binaryString[index])
    ensures d < 10 && DigitChar(d) == binaryString[index]
  {
    ToDigit(binaryString[index])
  }

  /**
   * The map made by inserting `v7` under "111", `v6` under "110", ..., `v0`
   * under "000": its keys are the eight neighbourhood keys and the
   * neighbourhood with 3-bit value `k` maps to `vk`.
   */
  lemma EightInserts(v7: U32, v6: U32, v5: U32, v4: U32, v3: U32, v2: U32, v1: U32, v0: U32)
    ensures var table := map["111" := v7, "110" := v6, "101" := v5, "100" := v4,
                             "011" := v3, "010" := v2, "001" := v1, "000" := v0];
            && table.Keys == NeighbourhoodKeys
            && table[NeighbourhoodKey(7)] == v7 && table[NeighbourhoodKey(6)] == v6
            && table[NeighbourhoodKey(5)] == v5 && table[NeighbourhoodKey(4)] == v4
            && table[NeighbourhoodKey(3)] == v3 && table[NeighbourhoodKey(2)] == v2
            && table[NeighbourhoodKey(1)] == v1 && table[NeighbourhoodKey(0)] == v0
  {
    NeighbourhoodKeyLiterals();
  }

  /**
   * The eight inserts of `get_rule_set`, applied to a string of at least
   * eight binary digits: every key is present, the neighbourhood with 3-bit
   * value `k` gets digit `7 - k`, and every value is 0 or 1.
   */
  lemma InsertedDigits(binaryString: string, table: map<string, U32>)
    requires |binaryString| >= 8 && forall i :: 0 <= i < 8 ==> binaryString[i] == '0' || binaryString[i] == '1'
    requires table == map["111" := DigitAt(binaryString, 0), "110" := DigitAt(binaryString, 1),
                          "101" := DigitAt(binaryString, 2), "100" := DigitAt(binaryString, 3),
                          "011" := DigitAt(binaryString, 4), "010" := DigitAt(binaryString, 5),
                          "001" := DigitAt(binaryString, 6), "000" := DigitAt(binaryString, 7)]
    ensures table.Keys == NeighbourhoodKeys
    ensures forall k :: 0 <= k < 8 ==>
              NeighbourhoodKey(k) in table && DigitChar(table[NeighbourhoodKey(k)]) == binaryString[7 - k]
    ensures forall key :: key in table ==> table[key] <= 1
  {
    forall i | 0 <= i < 8
      ensures DigitAt(binaryString, i) <= 1
    {
    }
    EightInserts(DigitAt(binaryString, 0), DigitAt(binaryString, 1), DigitAt(binaryString, 2), DigitAt(binaryString, 3),
                 DigitAt(binaryString, 4), DigitAt(binaryString, 5), DigitAt(binaryString, 6), DigitAt(binaryString, 7));
    forall k | 0 <= k < 8
      ensures DigitChar(table[NeighbourhoodKey(k)]) == binaryString[7 - k]
    {
      assert k == 0 || k == 1 || k == 2 || k == 3 || k == 4 || k == 5 || k == 6 || k == 7;
    }
  }

  /** A table whose entry `k` is digit `7 - k` of the 8-digit binary of a rule up to 255 is that rule's table. */
  lemma DigitsOfRule(table: map<string, U32>, rule: nat)
    requires rule <= 255 && table.Keys == NeighbourhoodKeys
    requires forall key :: key in table ==> table[key] <= 1
    requires forall k :: 0 <= k < 8 ==>
               NeighbourhoodKey(k) in table && DigitChar(table[NeighbourhoodKey(k)]) == FormatBinary(rule, 8)[7 - k]
    ensures IsRuleTableOf(table, rule)
  {
    RuleBinary(rule);
    forall k | 0 <= k < 8
      ensures table[NeighbourhoodKey(k)] == Bit(rule, k)
    {
      DigitCharInjective(table[NeighbourhoodKey(k)], Bit(rule, k));
    }
  }

  /**
   * The rule table of `ruleSet`, built by eight inserts. Entry "111" is
   * character 0 of the 8-digit binary string, ..., entry "000" character 7,
   * so the neighbourhood with 3-bit value `k` gets character `7 - k`; for a
   * rule number up to 255 that is bit `k` of the rule.
   */
  method GetRuleSet(ruleSet: U32) returns (table: map<string, U32>)
    ensures table.Keys == NeighbourhoodKeys
    ensures forall key :: key in table ==> table[key] <= 1
    ensures forall k :: 0 <= k < 8 ==>
              NeighbourhoodKey(k) in table && DigitChar(table[NeighbourhoodKey(k)]) == FormatBinary(ruleSet, 8)[7 - k]
    ensures ruleSet <= 255 ==> IsRuleTableOf(table, ruleSet)
  {
    var ruleSetBinary := FormatBinary(ruleSet, 8);
    var hashmap: map<string, U32> := map[];
    hashmap := hashmap["111" := DigitAt(ruleSetBinary, 0)];
    hashmap := hashmap["110" := DigitAt(ruleSetBinary, 1)];
    hashmap := hashmap["101" := DigitAt(ruleSetBinary, 2)];
    hashmap := hashmap["100" := DigitAt(ruleSetBinary, 3)];
    hashmap := hashmap["011" := DigitAt(ruleSetBinary, 4)];
    hashmap := hashmap["010" := DigitAt(ruleSetBinary, 5)];
    hashmap := hashmap["001" := DigitAt(ruleSetBinary, 6)];
    hashmap := hashmap["000" := DigitAt(ruleSetBinary, 7)];
    table := hashmap;
    InsertedDigits(ruleSetBinary, table);
    if ruleSet <= 255 {
      DigitsOfRule(table, ruleSet);
    }
  }

  /** Two tables of the same rule are equal: building a table twice gives the same map. */
  lemma RuleTableUnique(table1: map<string, U32>, table2: map<string, U32>, rule: nat)
    requires IsRuleTableOf(table1, rule) && IsRuleTableOf(table2, rule)
    ensures table1 == table2
  {
    NeighbourhoodKeysEnumerated();
    forall key | key in table1
      ensures table1[key] == table2[key]
    {
      var k :| 0 <= k < 8 && key == NeighbourhoodKey(k);
    }
  }

  /** A table determines its rule: distinct rule numbers up to 255 give distinct tables. */
  lemma RuleTableDeterminesRule(table: map<string, U32>, rule1: nat, rule2: nat)
    requires rule1 <= 255 && rule2 <= 255
    requires IsRuleTableOf(table, rule1) && IsRuleTableOf(table, rule2)
    ensures rule1 == rule2
  {
    assert Pow2(8) == 256;
    BitsDetermineNumber(rule1, rule2, 8);
  }

  /** The bits of rule 30, whose binary is 00011110. */
  lemma Rule30Bits()
    ensures Bit(30, 7) == 0 && Bit(30, 6) == 0 && Bit(30, 5) == 0 && Bit(30, 4) == 1
    ensures Bit(30, 3) == 1 && Bit(30, 2) == 1 && Bit(30, 1) == 1 && Bit(30, 0) == 0
  {
  }

  /** The table of rule 30, written out. */
  lemma Rule30Table(table: map<string, U32>)
    requires IsRuleTableOf(table, 30)
    ensures table == map["111" := 0, "110" := 0, "101" := 0, "100" := 1,
                         "011" := 1, "010" := 1, "001" := 1, "000" := 0]
  {
    NeighbourhoodKeysEnumerated();
    assert table[NeighbourhoodKey(7)] == Bit(30, 7);
    assert table[NeighbourhoodKey(6)] == Bit(30, 6);
    assert table[NeighbourhoodKey(5)] == Bit(30, 5);
    assert table[NeighbourhoodKey(4)] == Bit(30, 4);
    assert table[NeighbourhoodKey(3)] == Bit(30, 3);
    assert table[NeighbourhoodKey(2)] == Bit(30, 2);
    assert table[NeighbourhoodKey(1)] == Bit(30, 1);
    assert table[NeighbourhoodKey(0)] == Bit(30, 0);
  }
}
