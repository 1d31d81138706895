# PCFG CKY parser, modelled in Dafny

This is a model of the chart parser for a probabilistic context-free grammar
in Chomsky normal form (`hw2/cky.py`), together with the grammar loader that
feeds it (`hw2/grammar.py`).

- **Grammar store** (`Grammar`). A rule file is read line by line into two
  insertion-ordered rule indexes, one keyed by right-hand side and one by
  left-hand symbol, plus the start symbol. The Python string operations the
  loader uses are modelled in `Text`: `strip`, `split(sep)`, `rsplit(";", 1)`,
  `split()` and `sep in s`.
- **Parse trees** (`Derivation`). A tree is a pre-terminal leaf or a binary
  node, the shape `get_tree` builds. `Valid`, `Scored` and `Derives` give the
  meaning both parsing modes are measured against: a symbol derives a span
  when some licensed tree rooted in it yields exactly that span's tokens.
- **Membership** (`Membership`). `is_in_language` fills the CKY table of
  symbol sets. The table is proved to hold exactly the deriving symbols, to
  obey the CKY recurrence, and to give the start-symbol test.
- **Viterbi chart** (`Cells`, `Viterbi`, `ChartFacts`). `parse_with_backpointers`
  builds the chart. Each cell is an insertion-ordered list of entries
  `(symbol, backpointer, log score)`, standing for `table[span]` and
  `probs[span]` together; those two dictionaries always share keys and key
  order. A cell is the left fold of the update "insert if new, or replace if
  strictly better" over the candidates, taken in the loops' order. The chart
  is proved to be determined by the grammar and the sentence. Its entries are
  proved to be:
  - best scores: at least every parse's score, and the first candidate on a
    tie;
  - well-shaped backpointers;
  - exactly the derivable symbols, so the two modes agree.
- **Tree reconstruction** (`Reconstruct`). `get_tree` follows the backpointers.
  On any entry of a Viterbi chart it returns a licensed parse of the span
  whose score is the entry's score. On the whole sentence that parse is a
  best parse.

Probabilities enter as log scores. The loader takes a function `logOf`, which
maps the probability text to its natural log, or to `None` where Python's
`float` raises. Scores are Dafny `real`s.

Three behaviours of the code are worth stating, because a reader might
expect otherwise:

- **Unit rule over a non-terminal.** The code looks up a one-symbol
  right-hand side only under the token itself (`hw2/cky.py:111`,
  `hw2/cky.py:146`). A rule such as `VP -> V` is stored but never fires, so
  a grammar that relies on it to accept "the dog barks" rejects that
  sentence. `Scenarios.UnitRuleNeverFires` proves this on a two-rule grammar.
- **Empty sentence.** `is_in_language` evaluates `startsymbol in s[0][0]`,
  where the cell is `None`, and so raises `TypeError` on an empty sentence
  rather than returning false. `Membership.IsInLanguage` returns an error
  for it.
- **Start line probability.** The number after the `;` of the start line is
  split off and discarded (`hw2/grammar.py:33-34`); the model keeps only the
  start symbol.

## Model

| member | source | states |
|---|---|---|
| Text.TrimLeftSpec | hw2/grammar.py:25 | `lstrip` leaves a suffix; what it drops is white space; the result is empty or starts with a non-space character |
| Text.TrimRightSpec | hw2/grammar.py:25 | `rstrip` leaves a prefix; what it drops is white space; the result is empty or ends with a non-space character |
| Text.Strip | hw2/grammar.py:25 | the stripped text is no longer than the line, and neither of its ends is white space |
| Text.StripSpec | hw2/grammar.py:25 | the stripped text is an infix of the line, and everything before and after that infix is white space |
| Text.StripAllSpace | hw2/grammar.py:25-26 | a line made only of white space strips to the empty string, which `read_rules` skips |
| Text.StripIdempotent | hw2/grammar.py:25-28 | stripping twice, as `read_rules` does before `parse_rule`, equals stripping once |
| Text.StripStartsAt | hw2/grammar.py:25-26 | a line whose first non-space character is `c` strips to text starting with `c`, which is what the `#` test sees |
| Text.StripFramed | hw2/grammar.py:25 | text with no white space at either end, surrounded by white space, strips back to itself |
| Text.FindSpec | hw2/grammar.py:27 | `find` reports the first occurrence of the separator, or none exactly when `sep in s` is false |
| Text.SplitOnSpec | hw2/grammar.py:38 | joining `split`'s pieces with the separator gives back the string, and no piece contains the separator |
| Text.SplitOnlyOccurrence | hw2/grammar.py:38 | a separator that occurs exactly once splits the text into the part before it and the part after it |
| Text.SplitAbsent | hw2/grammar.py:38 | without the separator, `split` yields just the whole string |
| Text.SplitTwice | hw2/grammar.py:38 | two disjoint occurrences of the separator give at least three pieces |
| Text.FindLast | hw2/grammar.py:40 | `rsplit(";", 1)` cuts at a `;` with no `;` after it, or finds none exactly when the text has no `;` |
| Text.Words | hw2/grammar.py:42 | `split()` yields non-empty words without white space, whose concatenation is the text's non-space characters in order; which runs are the words is fixed by `WordsSkipSpace`, `WordsCons` and `WordsSpaced` |
| Text.WordsSkipSpace | hw2/grammar.py:42 | white space in front of the text adds no words to `split()` |
| Text.WordsCons | hw2/grammar.py:42 | a leading word followed by white space or the end is the first word of `split()` |
| Text.WordsSpaced | hw2/grammar.py:42 | a word, then white space, then any text, splits into that word followed by the words of the rest, so no two words separated by white space merge and no word is cut short |
| Text.WordsOfUnwords | hw2/grammar.py:42 | `split()` recovers any list of space-free words joined by single spaces |
| Grammar.ParseRule | hw2/grammar.py:37-43 | a parsed rule has a stripped left-hand symbol and a right-hand side of non-empty, space-free words; a failure names the text it was given and is one of the three `parse_rule` errors (arrow count, missing `;`, bad probability), never a start-line error; `ParseRuleFields` and `ParseRuleRoundTrip` give the exact result |
| Grammar.ClassifyLine | hw2/grammar.py:24-34 | a failing line reports its stripped text; a start line's symbol and a rule line's left-hand symbol are stripped; `RuleLineEffect` and the `StartLine` lemmas give each case |
| Grammar.ReadRules | hw2/grammar.py:22-34 | loading succeeds exactly when every line of the file classifies without error; `ReadRulesOutcome` and `ReadRulesIndexes` give the error and the loaded indexes |
| Grammar.AddRule | hw2/grammar.py:30-31 | a rule is appended to the list of its right-hand side and the list of its left-hand symbol; every other list and the start symbol are unchanged |
| Grammar.LoadOk | hw2/grammar.py:24-34 | the loop over the file finishes exactly when every line classifies without error |
| Grammar.LoadFirstError | hw2/grammar.py:24-34 | a failed loop reports the error of the first line that fails, and every earlier line succeeded |
| Grammar.LoadRhsIndex | hw2/grammar.py:30 | after the loop each right-hand-side list is the old list followed by the file's rules with that right-hand side, in file order |
| Grammar.LoadLhsIndex | hw2/grammar.py:31 | after the loop each left-hand-side list is the old list followed by the file's rules with that left-hand symbol, in file order |
| Grammar.LoadStart | hw2/grammar.py:33-34 | after the loop the start symbol is that of the last start line, or is unchanged if the file has none |
| Grammar.ReadRulesOutcome | hw2/grammar.py:16-34 | loading a file succeeds exactly when every line classifies; on failure, the error is that of the first failing line |
| Grammar.ReadRulesIndexes | hw2/grammar.py:16-34 | a loaded grammar's lists are exactly the file's rules for each key, in file order, and a key no rule has reads as the empty list (`defaultdict`); the start symbol is that of the last start line, or `None` |
| Grammar.LoadedIndexConsistent | hw2/grammar.py:29-31 | in a loaded grammar every rule is listed under its own right-hand side and its own left-hand symbol |
| Grammar.HeadSetOfLoaded | hw2/grammar.py:29-30 | a symbol heads a right-hand side in a loaded grammar exactly when a rule line of the file has that left-hand symbol and that right-hand side |
| Grammar.BlankLineSkipped | hw2/grammar.py:24-26 | a line that is blank once stripped leaves the store unchanged |
| Grammar.CommentLineSkipped | hw2/grammar.py:24-26 | a line whose first non-space character is `#` leaves the store unchanged |
| Grammar.RuleLineEffect | hw2/grammar.py:27-31 | a non-comment line containing `->` is parsed as a rule: it fails exactly when `parse_rule` does, and otherwise adds that rule to both indexes |
| Grammar.SplitAtSemicolon | hw2/grammar.py:33 | `rsplit(";")`, which without a limit yields the same pieces as `split(";")`, of a text with exactly one `;` gives the part before it and the part after it |
| Grammar.StartLineSets | hw2/grammar.py:32-34 | a line without `->` that has exactly one `;` sets the start symbol to the stripped text before the `;` and changes nothing else |
| Grammar.StartLineWithoutSemicolon | hw2/grammar.py:33 | a line that has neither `->` nor `;` makes loading fail |
| Grammar.StartLineWithTwoSemicolons | hw2/grammar.py:33 | a line without `->` that has two or more `;` makes loading fail |
| Grammar.SplitAtArrow | hw2/grammar.py:38 | `split("->")` of a text with exactly one `->` gives the part before it and the part after it |
| Grammar.AfterArrowFields | hw2/grammar.py:40-42 | the text after `->` is cut at its last `;`: the probability is the text after that `;`, a probability `float` rejects fails, and the right-hand side is the words before that `;` |
| Grammar.ParseRuleWithoutArrow | hw2/grammar.py:38 | `parse_rule` fails on text with no `->` |
| Grammar.ParseRuleWithTwoArrows | hw2/grammar.py:38 | `parse_rule` fails on text with two or more `->` |
| Grammar.ParseRuleWithoutSemicolon | hw2/grammar.py:40 | `parse_rule` fails when no `;` follows the `->` |
| Grammar.ParseRuleFields | hw2/grammar.py:37-43 | with one `->` and a last `;` after it, `parse_rule` returns the stripped text before `->`, the words between `->` and that `;`, and the score of the text after it |
| Grammar.FormatRuleArrowFree | hw2/grammar.py:38 | a rule line written from plain symbols has no `->` on either side of its own `->` |
| Grammar.FormatRuleLhs | hw2/grammar.py:39 | the text before a written rule's `->` strips back to its left-hand symbol |
| Grammar.FormatRuleRhs | hw2/grammar.py:42 | the text between a written rule's `->` and its `;` splits back into its right-hand side |
| Grammar.ParseRuleRoundTrip | hw2/grammar.py:37-43 | `parse_rule` reads back a rule line written from plain symbols and a probability text as that rule with that probability's score |
| Derivation.Yield | hw2/cky.py:193-199 | a tree's yield is never empty, and it is a single token exactly at a leaf |
| Derivation.ValidScored | hw2/cky.py:146-176 | a tree is licensed by the rules exactly when it has a score, which is the sum of its rules' log scores |
| Derivation.GeneratesUnit | hw2/cky.py:110-111 | a single token is derived exactly by the left-hand symbols of its unit rules |
| Derivation.GeneratesSplit | hw2/cky.py:114-125 | `A` derives two or more tokens exactly when they split into a prefix derived by some `B` and a suffix derived by some `C`, with a rule `A -> B C` |
| Derivation.DerivesUnit | hw2/cky.py:110-111 | the same single-token fact, for a span `(i, i+1)` of the sentence |
| Derivation.DerivesSplit | hw2/cky.py:114-125 | the same split fact, for a span of the sentence, with split points strictly inside it |
| Membership.Cartesian | hw2/cky.py:89 | `cartesian(x, y)` holds exactly the pairs whose first component is in `x` and second in `y` |
| Membership.GetHead | hw2/cky.py:97-98 | `getHead(x)` has one left-hand symbol per rule for `x`, and its symbols are exactly the heads of `x` |
| Membership.UnionHeads | hw2/cky.py:124-125 | the union loop adds exactly the heads of the pairs, whatever order the set is iterated in |
| Membership.SplitContribution | hw2/cky.py:122-125 | the heads one split point contributes are the `A` with a rule `A -> B C`, where `B` derives the left part and `C` the right part |
| Membership.MembershipChart | hw2/cky.py:106-125 | the table has a cell for exactly the spans `0 <= i < j <= n`, and each cell holds exactly the symbols deriving its span |
| Membership.MembershipRecurrence | hw2/cky.py:110-125 | a single-token cell holds the heads of the token's unit rules; a longer cell holds `A` exactly when some `i < k < j`, `B` in `(i, k)`, `C` in `(k, j)` and a rule `A -> B C` exist |
| Membership.UnknownToken | hw2/cky.py:110-111 | a token with no unit rule gives an empty cell, not an error |
| Membership.IsInLanguage | hw2/cky.py:100-131 | fails exactly on the empty sentence; otherwise returns true exactly when there is a start symbol and it derives the whole sentence |
| Cells.IndexOf | hw2/cky.py:149 | the position found for a key holds that key and no earlier position does; none is found exactly when the cell lacks the key |
| Cells.Lookup | hw2/cky.py:149 | looking a present key up returns an entry of the cell with that key |
| Cells.LookupUnique | hw2/cky.py:149-151 | in a cell whose keys are distinct, each entry is what looking up its own key returns |
| Cells.IndexOfSameKeys | hw2/cky.py:150-151 | two cells with the same keys at the same positions find each key at the same position |
| Cells.KeepIndex | hw2/cky.py:174-176 | an update puts a new key at the end and leaves every other key where it was |
| Cells.KeepAt | hw2/cky.py:149-151 | after an update the candidate's key is present; it holds the candidate unless an entry already there scores at least as high; every other key keeps its entry |
| Cells.KeepKeys | hw2/cky.py:174-176 | an update keeps the key order: a new key goes last, a present key stays in place, and keys stay distinct |
| Cells.KeepSpec | hw2/cky.py:174-176 | the update as a dictionary assignment guarded by `not in or >`, for every key at once |
| Cells.IndexOfPrefix | hw2/cky.py:149 | a key found in a prefix of a cell is found at the same position in the cell; a key that first appears just after the prefix is found there |
| Cells.FoldAppend | hw2/cky.py:166-176 | offering two runs of candidates one after the other equals offering them together |
| Cells.BestOfKeys | hw2/cky.py:149-151 | a cell built from candidates holds a key exactly when some candidate has that symbol |
| Cells.BestOfFrom | hw2/cky.py:150-151 | every entry such a cell holds is one of the candidates |
| Cells.BestOfDistinct | hw2/cky.py:150-151 | such a cell holds each symbol once |
| Cells.BestOfShape | hw2/cky.py:149-151 | a summary of `BestOfKeys`, `BestOfFrom` and `BestOfDistinct` for every symbol |
| Cells.BestOfMax | hw2/cky.py:174 | the stored entry for `A` scores at least as high as every candidate for `A` |
| Cells.BestOfFirst | hw2/cky.py:174 | the stored entry is a candidate that no earlier candidate for `A` equals or beats in score, so the first candidate wins a tie |
| Cells.BestOfBounds | hw2/cky.py:149 | every candidate's symbol gets an entry, scoring at least as high as the candidate |
| Viterbi.UnitCandidates | hw2/cky.py:146-151 | the candidates of a single-token span are exactly `(lhs, token)` for each unit rule of the token, scored by the rule |
| Viterbi.RightLoopMembers | hw2/cky.py:169-175 | the loop over `C` offers exactly the combinations of the left child with an entry of the right cell and a rule for the pair |
| Viterbi.LeftLoopMembers | hw2/cky.py:168-175 | the loop over `B` offers exactly the combinations of an entry of the left cell, an entry of the right cell and a rule for the pair |
| Viterbi.SplitLoopMembers | hw2/cky.py:166-175 | the loop over `k` offers exactly the split candidates over split points below the bound |
| Viterbi.SplitLoopFrame | hw2/cky.py:166-169 | the split loop reads only the cells of the sub-spans it splits into |
| Viterbi.OfferRules | hw2/cky.py:171-176 | the rule loop updates the cell with its candidates in file order |
| Viterbi.OfferRight | hw2/cky.py:169-176 | the loop over the keys of `table[(k, j)]`, in insertion order, updates the cell with that loop's candidates |
| Viterbi.OfferLeft | hw2/cky.py:168-176 | the loop over the keys of `table[(i, k)]`, in insertion order, updates the cell with that loop's candidates |
| Viterbi.FillSplit | hw2/cky.py:158-176 | a span of two or more tokens gets the cell built from all its split candidates, in loop order |
| Viterbi.FillUnit | hw2/cky.py:141-151 | a single-token span gets the cell built from its unit candidates, in file order |
| Viterbi.CellDoneAdd | hw2/cky.py:162-163 | adding a new span's cell leaves every finished cell's candidates, and so the cell, as they were |
| Viterbi.CandidatesFrame | hw2/cky.py:162-169 | a finished span's candidates do not change when a new span is added |
| Viterbi.CellsDoneExtend | hw2/cky.py:158-176 | filling a new span with the cell of its candidates keeps every filled cell finished |
| Viterbi.NewCellDone | hw2/cky.py:162-176 | the new cell is itself the cell of its candidates in the grown chart |
| Viterbi.FillUnits | hw2/cky.py:141-151 | the first loop fills exactly the single-token spans, each with its cell |
| Viterbi.FilledNext | hw2/cky.py:158-166 | the next span of the current length is new, and all its sub-spans are filled |
| Viterbi.FilledAdd | hw2/cky.py:158-163 | filling the next span of the current length advances the fill order |
| Viterbi.FilledLength | hw2/cky.py:154 | once every span of one length is filled, the next length begins |
| Viterbi.FillLength | hw2/cky.py:154-176 | one pass of the `for length` loop fills every span of that length with its cell |
| Viterbi.ParseWithBackpointers | hw2/cky.py:133-182 | the chart has a cell for exactly the spans `0 <= i < j <= n`, and each cell is the result of offering it its candidates in the source's loop order |
| Reconstruct.GetTree | hw2/cky.py:188-199 | the returned tree is rooted in the requested symbol, and a `KeyError` names an entry whose span lies within the requested span; `ChartFacts.GetTreeSound` and `ChartFacts.GetTreeDefined` give its result on a Viterbi chart |
| ChartFacts.EntryOrigin | hw2/cky.py:146-176 | an entry of a single-token span comes from a unit rule of the token; an entry of a longer span comes from a rule `A -> B C` over entries of two adjacent sub-spans |
| ChartFacts.ChartDistinct | hw2/cky.py:150-151 | each cell of the chart holds every symbol at most once, as a dictionary does |
| ChartFacts.LeafEntry | hw2/cky.py:150 | a leaf backpointer occurs only at a span `(i, i+1)`, names `tokens[i]`, and scores a unit rule for it |
| ChartFacts.SplitEntry | hw2/cky.py:166-176 | a binary backpointer of `A` at `(i, j)` is `((B, i, k), (C, k, j))` with `i < k < j`, `B` a key of `(i, k)`, `C` a key of `(k, j)` and `A -> B C` a rule; its score is the rule's plus those two stored scores |
| ChartFacts.SplitEntryOf | hw2/cky.py:172-175 | the backpointer and score of a candidate built from two stored children |
| ChartFacts.ViterbiWellShaped | hw2/cky.py:175 | every binary backpointer points at two adjacent spans strictly inside its own, so `get_tree` terminates |
| ChartFacts.ScoresAtMostZero | hw2/cky.py:79 | if no rule scores above 0, no entry of the chart does, which is what `check_probs_format` tests |
| ChartFacts.GetTreeLeaf | hw2/cky.py:192-194 | on a leaf entry `get_tree` returns `(A, token)`, which yields that one token and scores the entry's score |
| ChartFacts.JoinParse | hw2/cky.py:196-199 | two adjacent parses joined under a rule `A -> B C` yield the joint span and score the rule's log score plus theirs |
| ChartFacts.GetTreeJoin | hw2/cky.py:196-199 | on a binary entry whose children read back as parses, `get_tree` returns `(A, left, right)`, which yields the span and scores the entry's score |
| ChartFacts.GetTreeSound | hw2/cky.py:188-199 | on any entry `get_tree` succeeds and returns a parse rooted in its symbol that yields exactly `tokens[i..j]`, with the entry's score |
| ChartFacts.ViterbiOptimal | hw2/cky.py:149-176 | every parse of a span, under any choice of rules, scores at most the stored entry for its root symbol, and that entry exists |
| ChartFacts.ViterbiKeys | hw2/cky.py:141-176 | a symbol has an entry for a span exactly when it derives the span |
| ChartFacts.GetTreeDefined | hw2/cky.py:192 | `get_tree` succeeds exactly on the symbols that derive the span, and otherwise reports the missing entry (the `KeyError`) |
| ChartFacts.BestParse | hw2/cky.py:188-199 | the tree `get_tree` returns for the whole sentence is a parse rooted in `A` with the stored score, and no parse rooted in `A` scores more |
| ChartFacts.ViterbiTies | hw2/cky.py:174 | the stored entry is a candidate that scores at least every candidate for `A` and beats every earlier one |
| ChartFacts.ChartsAgreeOn | hw2/cky.py:133-182 | two Viterbi charts for the same grammar and sentence agree on every span |
| ChartFacts.ChartUnique | hw2/cky.py:133-182 | the chart is determined by the grammar and the sentence |
| ChartFacts.EmptySentenceChart | hw2/cky.py:134-136 | an empty sentence gives empty `table` and `probs` |
| Agreement.ViterbiAccepts | hw2/cky.py:128 | the chart has an entry for a symbol over the whole sentence exactly when that symbol derives the sentence |
| Agreement.ParseBoth | hw2/cky.py:100-182 | each span's set in the membership table is the key set of that span's Viterbi cell, so the two modes agree |
| Scenarios.UnitRuleNeverFires | hw2/cky.py:111 | with `V -> barks` and `VP -> V`, `V` derives `barks` but `VP` does not |

## Left out

- `Pcfg.verify_grammar` (`hw2/grammar.py:45-60`): a floating-point check that each symbol's probabilities sum to 1. As written it names an unbound `math` and a global `grammar`.
- `float(prob_s)` and `math.log`: the loader is given `logOf`, which maps the probability text to its log score or to `None`. A probability of zero or below, where `math.log` raises, is not distinguished from a valid one.
- Non-finite probabilities: Python's `float` accepts "nan", "inf" and "1e400", and `math.log` then gives nan or inf. Scores are reals, which cannot hold these, so such grammars are not modelled; with a nan score every `>` comparison of the update is false.
- Floating-point rounding: scores are exact reals, so sums of log scores do not round.
- `check_table_format` and `check_probs_format` (`hw2/cky.py:18-82`): Python type checks that Dafny's types make vacuous. Only their "log score at most 0" intent is kept, as `ChartFacts.ScoresAtMostZero`.
- The membership sets `s` that `parse_with_backpointers` computes (`hw2/cky.py:138-142`, `178-179`): they are never returned.
- I/O: reading the grammar file (a file becomes a sequence of lines), the `__main__` blocks, and the tree and table printers.
- `hw3/decoder.py`: a neural dependency parser outside the CKY core. Its model and feature classes are not part of this model.
- Reads of a missing `defaultdict` key: they insert an empty list into the dictionary. The model reads them as an empty list without changing the store, which is unobservable to the parser.
- Right-hand sides of three or more symbols: they are stored like any other rule but never looked up by the parser. The model neither rejects nor uses them.
- Backpointer names: the backpointer is built from the loop's `B` and `C` rather than from `rhs[0]` and `rhs[1]`. The two are equal because every rule of a loaded grammar is listed under its own right-hand side (`Grammar.LoadedIndexConsistent`).
- Termination of `get_tree`: the model requires every backpointer to point strictly inside its span, so that it terminates. Charts from `parse_with_backpointers` meet this (`ChartFacts.ViterbiWellShaped`). On a table with a cyclic backpointer CPython stops with `RecursionError` at its recursion limit, or with `KeyError` first if a child entry is missing.
