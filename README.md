# 1D cellular automaton: the engine, modelled in Dafny

The application draws an elementary cellular automaton, one row per tick. It
has four parts, and each becomes one module:

- The Wolfram rule number (0 to 255) becomes a table from the eight
  neighbourhood strings "111" … "000" to the next cell value (`RuleTable`).
  The digits come from the rule's zero-padded binary string (`Formatting`).
- A row's next generation is computed with wrap-around: each cell's
  neighbourhood string is looked up in the table (`RowTransition`).
- The first row is 125 dead cells with one live cell in the middle
  (`StartingRow`).
- The `App` component holds the history of rows, the current row and the
  table. Tick, Clear and InputValue update it (`Automaton`).

How the source's failure points are modelled:

- The `unwrap` of the table lookup in `calc_new_row` is an `Option` result;
  `None` stands for the panic.
- `StepDefinedIff` proves the lookup never panics on a binary row.
- The two `unwrap`s in `get_u32_at_binary_string_index` become the
  precondition of `DigitAt`. `GetRuleSet` discharges it for every `u32`.

The class keeps ghost fields alongside the source's fields: the rule number
of the table, the seed row and the rule in force at each tick. Its
invariant `Valid` says four things:

- the table is the table of a rule number up to 255, so every key a binary
  row produces is present and Tick's lookup cannot panic;
- the seed is the single-seed row of 125 cells;
- the history is exactly the run of the elementary automaton from the seed,
  under the rule in force at each tick;
- the current row is the last row of that history, or the seed when the
  history is empty.

`U32` is Rust's `u32` as a subset of `nat`. Nothing in the engine does
arithmetic on cell values, so no wrap-around arises.

## Model

| member | source | states |
|---|---|---|
| Formatting.ToDigit | src/main.rs:171 | `to_digit(10)` on a decimal digit character gives a value below 10, and that value's character is the input (the inverse of `DigitChar`) |
| Formatting.FormatBinary | src/main.rs:176 | the padded binary string is at least `width` long, never shorter than the unpadded digits, and made only of '0' and '1' |
| Formatting.Binary | src/main.rs:176 | the unpadded binary digits are at least one character, each '0' or '1'; their meaning (character `i` is bit `len - 1 - i`) is `BinaryDigits` |
| Formatting.BinaryDigits | src/main.rs:176 | character `i` of the unpadded binary of `n` is bit `len - 1 - i` of `n`, and `n` is below 2 to the power of the string's length |
| Formatting.FormatBinaryBits | src/main.rs:176 | for `n < 2^w` the zero-padded binary has exactly `w` characters, and character `i` is bit `w - 1 - i` of `n` |
| Formatting.BitIsDivMod | src/main.rs:176-210 | bit `k` of `n` is `(n / 2^k) % 2` |
| Formatting.BitsDetermineNumber | src/main.rs:176-210 | two numbers below `2^w` whose low `w` bits agree are equal |
| Formatting.DecimalString | src/main.rs:221-231 | `to_string` of a cell is non-empty and all decimal digits, and it is a single character exactly when the value is below 10 |
| Formatting.DecimalRoundTrip | src/main.rs:221-231 | parsing the output of `to_string` gives back the number, so the key loses nothing about a cell |
| RuleTable.NeighbourhoodKeysEnumerated | src/main.rs:179-210 | the eight inserted keys are exactly the keys of the 3-bit values 0 to 7 (left cell most significant) |
| RuleTable.KeyOf | src/main.rs:219-232 | the key concatenated from the `to_string` of the left, centre and right cells has at least three characters, all decimal digits, and exactly three when every cell is below 10; which keys the table holds is `KeyOfMembership` |
| RuleTable.KeyOfMembership | src/main.rs:219-234 | a key built from three cells is one of the eight table keys if and only if all three cells are 0 or 1; it is then the key of the value `4*left + 2*centre + right` |
| RuleTable.RuleBinary | src/main.rs:176 | for a rule up to 255, the 8-digit binary has exactly eight characters, each '0' or '1', and character `i` is bit `7 - i` |
| RuleTable.DigitAt | src/main.rs:166-173 | when the index exists and names a decimal digit, so that neither unwrap panics, the result is below 10 and is that digit's value |
| RuleTable.InsertedDigits | src/main.rs:179-210 | after the eight inserts the key set is exactly the eight strings, the key of value `k` holds digit `7 - k` of the binary string, and every value is 0 or 1 |
| RuleTable.DigitsOfRule | src/main.rs:176-210 | for a rule up to 255, a table whose entry `k` is character `7 - k` of the 8-digit binary maps every key of value `k` to bit `k` of the rule |
| RuleTable.GetRuleSet | src/main.rs:175-213 | for every `u32`: the key set is the eight strings, every value is 0 or 1, and entry `k` is character `7 - k` of the padded binary; for a rule up to 255 the result is that rule's table (entry `k` = bit `k`) |
| RuleTable.RuleTableUnique | src/main.rs:175-213 | two tables of the same rule are the same map |
| RuleTable.RuleTableDeterminesRule | src/main.rs:175-213 | distinct rule numbers up to 255 give distinct tables |
| RuleTable.Rule30Table | src/main.rs:58 | rule 30's table is 111→0, 110→0, 101→0, 100→1, 011→1, 010→1, 001→1, 000→0 |
| RowTransition.WraparoundNeighbours | src/main.rs:220-232 | the left neighbour `(i+n-1)%n` and right neighbour `(i+1)%n` are the adjacent cells, except that cell 0's left neighbour is cell `n-1` and cell `n-1`'s right neighbour is cell 0 |
| RowTransition.NeighbourhoodAt | src/main.rs:219-232 | the key built for cell `i` from `old[(i+n-1)%n]`, `old[i]`, `old[(i+1)%n]`; on a binary row it is one of the eight table keys; its neighbours are described by `WraparoundNeighbours` and `SingleCellNeighbourhood` |
| RowTransition.SingleCellNeighbourhood | src/main.rs:218-232 | in a one-cell row the key is that cell's value three times |
| RowTransition.ElementaryStep | src/main.rs:215-240 | the reference automaton of a rule keeps the row length and gives a row of 0s and 1s |
| RowTransition.CalcNewRow | src/main.rs:215-240 | the loop computes `Step`: cell `i` is the table entry of the key of `old[(i+n-1)%n]`, `old[i]`, `old[(i+1)%n]`, all read from the old row; it fails exactly when a key is missing; a successful result has the old length, and an empty row gives an empty row |
| RowTransition.StepDefinedIff | src/main.rs:219-234 | with the eight keys in the table, the lookup `unwrap` succeeds for every cell if and only if the row is binary |
| RowTransition.StepFollowsRule | src/main.rs:215-240 | on a binary row and the table of a rule, the transition equals the elementary automaton of that rule, so the new row is binary and as long as the old |
| RowTransition.SingleSeedStep | src/main.rs:215-240 | a rule with 000→0 and 001, 010, 100→1 turns 0001000 into 0011100 |
| RowTransition.WraparoundStep | src/main.rs:220-232 | the same rules turn 10000 into 11001: the first and last cells see each other |
| RowTransition.Rule30SingleSeed | src/main.rs:215-240 | with rule 30's table, 0001000 becomes 0011100 |
| RowTransition.Rule30Wraparound | src/main.rs:215-240 | with rule 30's table, 10000 becomes 11001 |
| StartingRow.GenerateStartingRow | src/main.rs:145-164 | the starting row has 125 cells, all 0 except a 1 at index 125/2 = 62 |
| StartingRow.SingleSeedIsBinary | src/main.rs:158-161 | a single-seed row is binary, and its only live cell is the midpoint |
| Automaton.RunAppend | src/main.rs:88-91 | one more tick appends exactly one row and leaves the earlier rows unchanged |
| Automaton.RunShape | src/main.rs:88-91 | the history holds one row per tick, and every row is as long as the seed; from a binary seed every row is binary |
| Automaton.HistoryRowsUniform | src/main.rs:88-91 | from the starting row, every recorded row and the current row have 125 binary cells |
| Automaton.App.constructor | src/main.rs:57-67 | `create` gives rule 30's table, the single-seed row and an empty history, and establishes the invariant |
| Automaton.App.Tick | src/main.rs:88-91 | the table lookup succeeds; the new current row is the transition of the old one and equals the rule's elementary automaton step; it is appended to the history and the earlier history is unchanged; the length stays 125; every recorded row has 125 binary cells; the table is unchanged |
| Automaton.App.Clear | src/main.rs:29-32 | the history becomes empty and the current row is the single-seed row again; the table is unchanged |
| Automaton.App.InputValue | src/main.rs:100-103 | a number up to 255 makes the table that number's rule table; a larger number leaves the table unchanged; the history and the current row are never changed |

## Left out

- The Yew plumbing is not modelled: `view` and `get_cells` (HTML rendering) and `main`. It is presentation only.
- `StartInterval`, `Pause` and the `interval` field are not modelled. They schedule timers through `gloo` and never touch the automaton's state.
- InputValue's DOM decoding is not modelled: reading the event target, the `HtmlInputElement` cast and `value_as_number() as u32`. These are browser calls plus a float-to-integer cast. The model takes the number as an already-converted `u32` and keeps only the `<= 255` guard.
- The random branch of `generate_starting_row` is not modelled. It is unreachable, because `random_start` is the constant `false`, and it draws random numbers.
- The midpoint `((len / 2) as f32).floor()` is modelled as the integer division `len / 2`. The integer quotient 62 converts to `f32` and back exactly.
- An empty row is handled as the code handles it. The loop does not run, so `calc_new_row` returns an empty row and `len() - 1` is never evaluated.
- GetRuleSet: for rule numbers above 255 the padded binary string has more than eight characters. The table then holds its first eight digits, which are not the rule's bits. The model states this through the string's digits; InputValue never passes such a number.
- App: the fields `rule`, `seed` and `rules` are ghost. They only state the invariant and do not exist in the source.
