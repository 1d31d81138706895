/** The grammar store (`Pcfg`): a rule file, read line by line, becomes two
    indexes of rules, one keyed by right-hand side and one by left-hand
    symbol, each keeping rules in file order, plus the start symbol.

    A rule's probability is kept as its natural-log score. Reading the number
    and taking its logarithm are outside the model: the loader is given
    `logOf`, which maps the probability text to its log score, or to `None`
    when Python's `float` would reject the text. */
module Grammar {
  import opened Results
  import opened Text

  type Symbol = string

  /** A production `lhs -> rhs` together with the log of its probability. */
  datatype Rule = Rule(lhs: Symbol, rhs: seq<Symbol>, logProb: real)

  /** The two rule indexes and the start symbol (`None` until a start line is read). */
  datatype Pcfg = Pcfg(rhsToRules: map<seq<Symbol>, seq<Rule>>,
                       lhsToRules: map<Symbol, seq<Rule>>,
                       start: Option<Symbol>)

  const EmptyPcfg: Pcfg := Pcfg(map[], map[], None)

  /** Lookup in the right-hand-side index; a missing key reads as the empty
      list, as with the source's `defaultdict(list)`. */
  function RulesFor(g: Pcfg, rhs: seq<Symbol>): seq<Rule> {
    if rhs in g.rhsToRules then g.rhsToRules[rhs] else []
  }

  /** Lookup in the left-hand-side index, empty for a missing key. */
  function RulesOf(g: Pcfg, lhs: Symbol): seq<Rule> {
    if lhs in g.lhsToRules then g.lhsToRules[lhs] else []
  }

  /** The left-hand symbols of the rules with right-hand side `rhs`
      (the parser's `set(getHead(rhs))`). */
  function HeadSet(g: Pcfg, rhs: seq<Symbol>): set<Symbol> {
    set r | r in RulesFor(g, rhs) :: r.lhs
  }

  /** The `ValueError`s the loader can raise, with the offending text. */
  datatype LoadError =
    | ArrowCount(text: string)        // `lhs, other = rule_s.split("->")` does not unpack
    | MissingSemicolon(text: string)  // `other.rsplit(";", 1)` does not unpack
    | BadProbability(text: string)    // `float(prob_s)` rejects the text
    | StartLineShape(text: string)    // `line.rsplit(";")` does not unpack

  /** What one line of the file contributes. */
  datatype LineKind = Skip | RuleLine(rule: Rule) | StartLine(symbol: Symbol)

  const Arrow: string := "->"

  /** `parse_rule`: the text before the only `->` is the left-hand symbol,
      the text after it is cut at its last `;` into the right-hand side
      (split on white space) and the probability. */
  function ParseRule(text: string, logOf: string -> Option<real>): (r: Result<Rule, LoadError>)
    ensures r.Ok? ==> Trimmed(r.value.lhs)
    ensures r.Ok? ==> forall q :: 0 <= q < |r.value.rhs| ==> r.value.rhs[q] != [] && NoSpace(r.value.rhs[q])
    ensures r.Err? ==> !r.error.StartLineShape? && r.error.text == text
  {
    var halves := SplitOn(text, Arrow);
    if |halves| != 2 then Err(ArrowCount(text))
    else ParseAfterArrow(text, Strip(halves[0]), halves[1], logOf)
  }

  /** The part of `parse_rule` after the split at `->`: `other.rsplit(";", 1)`,
      `float(prob_s)` and `tuple(rhs_s.strip().split())`. */
  function ParseAfterArrow(text: string, lhs: Symbol, other: string, logOf: string -> Option<real>)
    : Result<Rule, LoadError>
  {
    match FindLast(other, ';')
    case None => Err(MissingSemicolon(text))
    case Some(p) =>
      match logOf(other[p + 1..])
      case None => Err(BadProbability(text))
      case Some(lp) => Ok(Rule(lhs, Words(Strip(other[..p])), lp))
  }

  /** The classification `read_rules` applies to each (stripped) line. */
  function ClassifyLine(raw: string, logOf: string -> Option<real>): (r: Result<LineKind, LoadError>)
    ensures r.Err? ==> r.error.text == Strip(raw)
    ensures r.Ok? && r.value.StartLine? ==> Trimmed(r.value.symbol)
    ensures r.Ok? && r.value.RuleLine? ==> Trimmed(r.value.rule.lhs)
  {
    StripIdempotent(raw);
    ClassifyStripped(Strip(raw), logOf)
  }

  /** The classification of a line once stripped. */
  function ClassifyStripped(line: string, logOf: string -> Option<real>): Result<LineKind, LoadError> {
    if line == [] || line[0] == '#' then Ok(Skip)
    else if Contains(line, Arrow) then
      match ParseRule(Strip(line), logOf)
      case Err(e) => Err(e)
      case Ok(rule) => Ok(RuleLine(rule))
    else
      // `rsplit(";")` without a limit yields the same pieces as `split(";")`.
      var parts := SplitOn(line, ";");
      if |parts| != 2 then Err(StartLineShape(line)) else Ok(StartLine(Strip(parts[0])))
  }

  /** Appends `rule` to both index lists; every other list and the start
      symbol stay as they were. */
  function AddRule(g: Pcfg, rule: Rule): (g': Pcfg)
    ensures forall rhs :: RulesFor(g', rhs) == RulesFor(g, rhs) + (if rhs == rule.rhs then [rule] else [])
    ensures forall lhs :: RulesOf(g', lhs) == RulesOf(g, lhs) + (if lhs == rule.lhs then [rule] else [])
    ensures g'.start == g.start
  {
    Pcfg(g.rhsToRules[rule.rhs := RulesFor(g, rule.rhs) + [rule]],
         g.lhsToRules[rule.lhs := RulesOf(g, rule.lhs) + [rule]],
         g.start)
  }

  /** The effect of one successfully classified line on the store. */
  function Apply(g: Pcfg, kind: LineKind): Pcfg {
    match kind
    case Skip => g
    case RuleLine(rule) => AddRule(g, rule)
    case StartLine(a) => g.(start := Some(a))
  }

  /** One iteration of the `read_rules` loop on an already classified line. */
  function Step(g: Pcfg, c: Result<LineKind, LoadError>): Result<Pcfg, LoadError> {
    match c
    case Err(e) => Err(e)
    case Ok(kind) => Ok(Apply(g, kind))
  }

  /** One iteration of the `read_rules` loop. */
  function ReadLine(g: Pcfg, raw: string, logOf: string -> Option<real>): Result<Pcfg, LoadError> {
    Step(g, ClassifyLine(raw, logOf))
  }

  /** Classifying a line does not depend on the store, so the loop is a fold
      of `Step` over the classified lines; the first failure aborts it. */
  function ClassifyAll(lines: seq<string>, logOf: string -> Option<real>): (cs: seq<Result<LineKind, LoadError>>)
    ensures |cs| == |lines|
    ensures forall q :: 0 <= q < |lines| ==> cs[q] == ClassifyLine(lines[q], logOf)
  {
    seq(|lines|, q requires 0 <= q < |lines| => ClassifyLine(lines[q], logOf))
  }

  function Load(g: Pcfg, cs: seq<Result<LineKind, LoadError>>): Result<Pcfg, LoadError>
    decreases |cs|
  {
    if cs == [] then Ok(g)
    else
      match Step(g, cs[0])
      case Err(e) => Err(e)
      case Ok(g1) => Load(g1, cs[1..])
  }

  /** `Pcfg(grammar_file)`: read every line into an empty store. */
  function ReadRules(lines: seq<string>, logOf: string -> Option<real>): (r: Result<Pcfg, LoadError>)
    ensures r.Ok? <==> forall q :: 0 <= q < |lines| ==> ClassifyLine(lines[q], logOf).Ok?
  {
    LoadOk(EmptyPcfg, ClassifyAll(lines, logOf));
    Load(EmptyPcfg, ClassifyAll(lines, logOf))
  }

  // ---------------------------------------------------------------------
  // Reference description of a loaded grammar: the rule lines in file
  // order, and the last start line.

  /** The rules of the rule lines, in file order. */
  function KindRules(cs: seq<Result<LineKind, LoadError>>): seq<Rule>
    decreases |cs|
  {
    if cs == [] then []
    else (match cs[0] case Ok(RuleLine(r)) => [r] case _ => []) + KindRules(cs[1..])
  }

  /** The symbol of the last start line, if there is one. */
  function KindStart(cs: seq<Result<LineKind, LoadError>>): Option<Symbol>
    decreases |cs|
  {
    if cs == [] then None
    else
      match cs[|cs| - 1]
      case Ok(StartLine(a)) => Some(a)
      case _ => KindStart(cs[..|cs| - 1])
  }

  /** The rules of `rs` with right-hand side `rhs`, in their order. */
  function WithRhs(rs: seq<Rule>, rhs: seq<Symbol>): (out: seq<Rule>)
    ensures forall r :: r in out <==> r in rs && r.rhs == rhs
    ensures |out| <= |rs|
  {
    if rs == [] then [] else (if rs[0].rhs == rhs then [rs[0]] else []) + WithRhs(rs[1..], rhs)
  }

  /** The rules of `rs` with left-hand symbol `lhs`, in their order. */
  function WithLhs(rs: seq<Rule>, lhs: Symbol): (out: seq<Rule>)
    ensures forall r :: r in out <==> r in rs && r.lhs == lhs
    ensures |out| <= |rs|
  {
    if rs == [] then [] else (if rs[0].lhs == lhs then [rs[0]] else []) + WithLhs(rs[1..], lhs)
  }

  predicate AllOk(cs: seq<Result<LineKind, LoadError>>) {
    forall q :: 0 <= q < |cs| ==> cs[q].Ok?
  }

  /** Peeling the first line off: the last start line of the rest wins over it. */
  lemma {:induction false} KindStartCons(cs: seq<Result<LineKind, LoadError>>)
    requires cs != []
    ensures KindStart(cs) ==
              if KindStart(cs[1..]).Some? then KindStart(cs[1..])
              else match cs[0] case Ok(StartLine(a)) => Some(a) case _ => None
    decreases |cs|
  {
    if |cs| > 1 {
      var init := cs[..|cs| - 1];
      assert init[1..] == cs[1..][..|cs[1..]| - 1];
      assert cs[1..][|cs[1..]| - 1] == cs[|cs| - 1];
      assert init[0] == cs[0];
      KindStartCons(init);
    } else {
      assert cs[..0] == [];
      assert cs[1..] == [];
    }
  }

  /** The loop succeeds exactly when every line classifies. */
  lemma {:induction false} LoadOk(g0: Pcfg, cs: seq<Result<LineKind, LoadError>>)
    ensures Load(g0, cs).Ok? <==> AllOk(cs)
    decreases |cs|
  {
    if cs != [] {
      assert AllOk(cs) <==> cs[0].Ok? && AllOk(cs[1..]) by {
        assert forall q :: 0 <= q < |cs[1..]| ==> cs[1..][q] == cs[q + 1];
        assert forall q :: 0 < q < |cs| ==> cs[q] == cs[1..][q - 1];
      }
      if cs[0].Ok? {
        LoadOk(Apply(g0, cs[0].value), cs[1..]);
      }
    }
  }

  /** On failure the error is that of the first line that does not classify. */
  lemma {:induction false} LoadFirstError(g0: Pcfg, cs: seq<Result<LineKind, LoadError>>)
    ensures Load(g0, cs).Err? ==>
              exists q :: 0 <= q < |cs| && cs[q] == Err(Load(g0, cs).error)
                          && forall q' :: 0 <= q' < q ==> cs[q'].Ok?
    decreases |cs|
  {
    if cs != [] && cs[0].Ok? {
      var rest := cs[1..];
      var g1 := Apply(g0, cs[0].value);
      LoadFirstError(g1, rest);
      if Load(g1, rest).Err? {
        var q :| 0 <= q < |rest| && rest[q] == Err(Load(g1, rest).error)
                 && forall q' :: 0 <= q' < q ==> rest[q'].Ok?;
        assert cs[q + 1] == rest[q];
        assert forall q' :: 0 < q' < q + 1 ==> cs[q'] == rest[q' - 1];
      }
    }
  }

  /** After a successful loop each right-hand-side list is the old list
      followed by the file's rules with that right-hand side, in file order. */
  lemma {:induction false} LoadRhsIndex(g0: Pcfg, cs: seq<Result<LineKind, LoadError>>, rhs: seq<Symbol>)
    requires Load(g0, cs).Ok?
    ensures RulesFor(Load(g0, cs).value, rhs) == RulesFor(g0, rhs) + WithRhs(KindRules(cs), rhs)
    decreases |cs|
  {
    if cs == [] {
      assert RulesFor(g0, rhs) + WithRhs([], rhs) == RulesFor(g0, rhs);
    } else {
      var kind := cs[0].value;
      var g1 := Apply(g0, kind);
      var rest := cs[1..];
      assert Load(g0, cs) == Load(g1, rest);
      LoadRhsIndex(g1, rest, rhs);
      var head := match kind case RuleLine(r) => [r] case _ => [];
      assert KindRules(cs) == head + KindRules(rest);
      WithRhsAppend(head, KindRules(rest), rhs);
      assert RulesFor(g1, rhs) == RulesFor(g0, rhs) + WithRhs(head, rhs);
      var a, b, c := RulesFor(g0, rhs), WithRhs(head, rhs), WithRhs(KindRules(rest), rhs);
      ConcatAssoc(a, b, c);
    }
  }

  /** The same for the left-hand-side index. */
  lemma {:induction false} LoadLhsIndex(g0: Pcfg, cs: seq<Result<LineKind, LoadError>>, lhs: Symbol)
    requires Load(g0, cs).Ok?
    ensures RulesOf(Load(g0, cs).value, lhs) == RulesOf(g0, lhs) + WithLhs(KindRules(cs), lhs)
    decreases |cs|
  {
    if cs == [] {
      assert RulesOf(g0, lhs) + WithLhs([], lhs) == RulesOf(g0, lhs);
    } else {
      var kind := cs[0].value;
      var g1 := Apply(g0, kind);
      var rest := cs[1..];
      assert Load(g0, cs) == Load(g1, rest);
      LoadLhsIndex(g1, rest, lhs);
      var head := match kind case RuleLine(r) => [r] case _ => [];
      assert KindRules(cs) == head + KindRules(rest);
      WithLhsAppend(head, KindRules(rest), lhs);
      assert RulesOf(g1, lhs) == RulesOf(g0, lhs) + WithLhs(head, lhs);
      var a, b, c := RulesOf(g0, lhs), WithLhs(head, lhs), WithLhs(KindRules(rest), lhs);
      ConcatAssoc(a, b, c);
    }
  }

  /** After a successful loop the start symbol is that of the last start
      line, or the old one when there is none. */
  lemma {:induction false} LoadStart(g0: Pcfg, cs: seq<Result<LineKind, LoadError>>)
    requires Load(g0, cs).Ok?
    ensures Load(g0, cs).value.start == if KindStart(cs).Some? then KindStart(cs) else g0.start
    decreases |cs|
  {
    if cs != [] {
      KindStartCons(cs);
      var g1 := Apply(g0, cs[0].value);
      assert Load(g0, cs) == Load(g1, cs[1..]);
      LoadStart(g1, cs[1..]);
    }
  }

  lemma ConcatAssoc<T>(a: seq<T>, b: seq<T>, c: seq<T>)
    ensures (a + b) + c == a + (b + c)
  {
  }

  lemma {:induction false} WithRhsAppend(a: seq<Rule>, b: seq<Rule>, rhs: seq<Symbol>)
    ensures WithRhs(a + b, rhs) == WithRhs(a, rhs) + WithRhs(b, rhs)
    decreases |a|
  {
    if a == [] {
      assert a + b == b;
    } else {
      assert (a + b)[0] == a[0];
      assert (a + b)[1..] == a[1..] + b;
      WithRhsAppend(a[1..], b, rhs);
    }
  }

  lemma {:induction false} WithLhsAppend(a: seq<Rule>, b: seq<Rule>, lhs: Symbol)
    ensures WithLhs(a + b, lhs) == WithLhs(a, lhs) + WithLhs(b, lhs)
    decreases |a|
  {
    if a == [] {
      assert a + b == b;
    } else {
      assert (a + b)[0] == a[0];
      assert (a + b)[1..] == a[1..] + b;
      WithLhsAppend(a[1..], b, lhs);
    }
  }

  // ---------------------------------------------------------------------
  // The whole file.

  /** `Pcfg(grammar_file)` succeeds exactly when every line classifies; when it
      fails, the error is that of the first line that does not. */
  lemma ReadRulesOutcome(lines: seq<string>, logOf: string -> Option<real>)
    ensures ReadRules(lines, logOf).Ok? <==>
              forall q :: 0 <= q < |lines| ==> ClassifyLine(lines[q], logOf).Ok?
    ensures ReadRules(lines, logOf).Err? ==>
              exists q :: 0 <= q < |lines| && ClassifyLine(lines[q], logOf) == Err(ReadRules(lines, logOf).error)
                          && forall q' :: 0 <= q' < q ==> ClassifyLine(lines[q'], logOf).Ok?
  {
    var cs := ClassifyAll(lines, logOf);
    LoadOk(EmptyPcfg, cs);
    LoadFirstError(EmptyPcfg, cs);
  }

  /** A loaded grammar's index lists are the file's rules with that key, in
      file order; a key no rule has reads as the empty list. The start symbol
      is that of the last start line (a later one overwrites an earlier one),
      `None` when the file has none. */
  lemma ReadRulesIndexes(lines: seq<string>, logOf: string -> Option<real>)
    requires ReadRules(lines, logOf).Ok?
    ensures var g := ReadRules(lines, logOf).value;
            var rules := KindRules(ClassifyAll(lines, logOf));
            && (forall rhs :: RulesFor(g, rhs) == WithRhs(rules, rhs))
            && (forall lhs :: RulesOf(g, lhs) == WithLhs(rules, lhs))
            && g.start == KindStart(ClassifyAll(lines, logOf))
  {
    var cs := ClassifyAll(lines, logOf);
    var rules := KindRules(cs);
    forall rhs ensures RulesFor(ReadRules(lines, logOf).value, rhs) == WithRhs(rules, rhs) {
      LoadRhsIndex(EmptyPcfg, cs, rhs);
      assert [] + WithRhs(rules, rhs) == WithRhs(rules, rhs);
    }
    forall lhs ensures RulesOf(ReadRules(lines, logOf).value, lhs) == WithLhs(rules, lhs) {
      LoadLhsIndex(EmptyPcfg, cs, lhs);
      assert [] + WithLhs(rules, lhs) == WithLhs(rules, lhs);
    }
    LoadStart(EmptyPcfg, cs);
  }

  /** In a loaded grammar every rule sits under its own right-hand side and
      its own left-hand symbol, so the parser may read a rule's children off
      the key it looked it up by. */
  lemma LoadedIndexConsistent(lines: seq<string>, logOf: string -> Option<real>)
    requires ReadRules(lines, logOf).Ok?
    ensures var g := ReadRules(lines, logOf).value;
            && (forall rhs, r :: r in RulesFor(g, rhs) ==> r.rhs == rhs)
            && (forall lhs, r :: r in RulesOf(g, lhs) ==> r.lhs == lhs)
  {
    ReadRulesIndexes(lines, logOf);
  }

  /** A symbol heads a right-hand side in a loaded grammar exactly when some
      rule line of the file has that left-hand symbol and right-hand side. */
  lemma HeadSetOfLoaded(lines: seq<string>, logOf: string -> Option<real>, rhs: seq<Symbol>, a: Symbol)
    requires ReadRules(lines, logOf).Ok?
    ensures a in HeadSet(ReadRules(lines, logOf).value, rhs) <==>
              exists r :: r in KindRules(ClassifyAll(lines, logOf)) && r.lhs == a && r.rhs == rhs
  {
    ReadRulesIndexes(lines, logOf);
  }

  // ---------------------------------------------------------------------
  // Single lines.

  /** A line that is blank once stripped changes nothing. */
  lemma BlankLineSkipped(g: Pcfg, raw: string, logOf: string -> Option<real>)
    requires AllSpace(raw)
    ensures ReadLine(g, raw, logOf) == Ok(g)
  {
    StripAllSpace(raw);
  }

  /** A line whose first non-space character is `#` changes nothing. */
  lemma CommentLineSkipped(g: Pcfg, ws: string, rest: string, logOf: string -> Option<real>)
    requires AllSpace(ws)
    ensures ReadLine(g, ws + "#" + rest, logOf) == Ok(g)
  {
    StripStartsAt(ws, '#', rest);
  }

  /** A line holding `->` is a rule line: it fails as `parse_rule` fails,
      and otherwise appends the rule to the list of its right-hand side and
      to the list of its left-hand symbol, changing nothing else. */
  lemma RuleLineEffect(g: Pcfg, raw: string, logOf: string -> Option<real>)
    requires Strip(raw) != [] && Strip(raw)[0] != '#' && Contains(Strip(raw), Arrow)
    ensures ReadLine(g, raw, logOf) ==
              match ParseRule(Strip(raw), logOf)
              case Err(e) => Err(e)
              case Ok(rule) => Ok(AddRule(g, rule))
  {
    var line := Strip(raw);
    assert Strip(line) == line by {
      StripIdempotent(raw);
    }
  }

  /** `split(";")` of a text with exactly one `;`. */
  lemma SplitAtSemicolon(a: string, b: string)
    requires ';' !in a && ';' !in b
    ensures SplitOn(a + ";" + b, ";") == [a, b]
    ensures (a + ";" + b)[0] == if a == [] then ';' else a[0]
  {
    var line := a + ";" + b;
    assert forall q :: 0 <= q < |a| ==> line[q] == a[q];
    assert forall q :: |a| < q < |line| ==> line[q] == b[q - |a| - 1];
    forall q | OccursAt(line, ";", q) ensures q == |a| {
      OccursChar(line, ';', q);
    }
    OccursChar(line, ';', |a|);
    SplitOnlyOccurrence(line, ";", |a|);
    assert line[..|a|] == a && line[|a| + 1..] == b;
    assert line[0] == (if a == [] then ';' else a[0]);
  }

  /** A line without `->` holding exactly one `;` sets the start symbol to
      the stripped text before the `;`, and changes nothing else. */
  lemma StartLineSets(g: Pcfg, raw: string, a: string, b: string, logOf: string -> Option<real>)
    requires Strip(raw) == a + ";" + b
    requires ';' !in a && ';' !in b && (a == [] || a[0] != '#')
    requires !Contains(Strip(raw), Arrow)
    ensures ReadLine(g, raw, logOf) == Ok(g.(start := Some(Strip(a))))
  {
    var line := a + ";" + b;
    SplitAtSemicolon(a, b);
    ClassifyOtherLine(line, logOf);
    assert ClassifyStripped(line, logOf) == Ok(StartLine(Strip(a)));
  }

  /** A non-blank, non-comment line without `->` goes to the start-line branch. */
  lemma ClassifyOtherLine(line: string, logOf: string -> Option<real>)
    requires line != [] && line[0] != '#' && !Contains(line, Arrow)
    ensures |SplitOn(line, ";")| != 2 ==> ClassifyStripped(line, logOf) == Err(StartLineShape(line))
    ensures |SplitOn(line, ";")| == 2 ==>
              ClassifyStripped(line, logOf) == Ok(StartLine(Strip(SplitOn(line, ";")[0])))
  {
  }

  /** A line without `->` and without `;` is rejected. */
  lemma StartLineWithoutSemicolon(g: Pcfg, raw: string, logOf: string -> Option<real>)
    requires Strip(raw) != [] && Strip(raw)[0] != '#' && !Contains(Strip(raw), Arrow)
    requires ';' !in Strip(raw)
    ensures ReadLine(g, raw, logOf) == Err(StartLineShape(Strip(raw)))
  {
    var line := Strip(raw);
    forall q | 0 <= q <= |line| ensures !OccursAt(line, ";", q) {
      OccursChar(line, ';', q);
    }
    SplitAbsent(line, ";");
    ClassifyOtherLine(line, logOf);
  }

  /** A line without `->` holding two or more `;` is rejected. */
  lemma StartLineWithTwoSemicolons(g: Pcfg, raw: string, p: nat, q: nat, logOf: string -> Option<real>)
    requires Strip(raw) != [] && Strip(raw)[0] != '#' && !Contains(Strip(raw), Arrow)
    requires p < q < |Strip(raw)| && Strip(raw)[p] == ';' && Strip(raw)[q] == ';'
    ensures ReadLine(g, raw, logOf) == Err(StartLineShape(Strip(raw)))
  {
    var line := Strip(raw);
    OccursChar(line, ';', p);
    OccursChar(line, ';', q);
    SplitTwice(line, ";", p, q);
    ClassifyOtherLine(line, logOf);
  }

  // ---------------------------------------------------------------------
  // `parse_rule`.

  /** `->` occurs in `pre + "->" + post` only at the visible place when it
      occurs in neither part, so `split("->")` gives the two parts. */
  lemma SplitAtArrow(pre: string, post: string)
    requires !Contains(pre, Arrow) && !Contains(post, Arrow)
    ensures SplitOn(pre + Arrow + post, Arrow) == [pre, post]
  {
    var s := pre + Arrow + post;
    assert s[|pre|] == '-' && s[|pre| + 1] == '>';
    forall q | OccursAt(s, Arrow, q) ensures q == |pre| {
      assert s[q] == '-' && s[q + 1] == '>' by {
        assert s[q..q + 2] == Arrow;
      }
      if q + 2 <= |pre| {
        assert s[q..q + 2] == pre[q..q + 2];
        assert OccursAt(pre, Arrow, q);
      } else if q >= |pre| + 2 {
        assert s[q..q + 2] == post[q - |pre| - 2..q - |pre|];
        assert OccursAt(post, Arrow, q - |pre| - 2);
      }
    }
    assert OccursAt(s, Arrow, |pre|) by { assert s[|pre|..|pre| + 2] == Arrow; }
    SplitOnlyOccurrence(s, Arrow, |pre|);
    assert s[..|pre|] == pre && s[|pre| + 2..] == post;
  }

  /** `other.rsplit(";", 1)` on text whose last `;` is the visible one. */
  lemma AfterArrowFields(text: string, lhs: Symbol, mid: string, prob: string, logOf: string -> Option<real>)
    requires ';' !in prob
    ensures ParseAfterArrow(text, lhs, mid + ";" + prob, logOf) ==
              if logOf(prob).None? then Err(BadProbability(text))
              else Ok(Rule(lhs, Words(Strip(mid)), logOf(prob).value))
  {
    var post := mid + ";" + prob;
    assert post[|mid|] == ';';
    assert forall q :: |mid| < q < |post| ==> post[q] == prob[q - |mid| - 1];
    assert FindLast(post, ';') == Some(|mid|);
    assert post[..|mid|] == mid && post[|mid| + 1..] == prob;
  }

  /** No `->` at all: the unpacking of `split("->")` fails. */
  lemma ParseRuleWithoutArrow(text: string, logOf: string -> Option<real>)
    requires !Contains(text, Arrow)
    ensures ParseRule(text, logOf) == Err(ArrowCount(text))
  {
    SplitAbsent(text, Arrow);
  }

  /** Two or more `->`: the unpacking of `split("->")` fails. */
  lemma ParseRuleWithTwoArrows(text: string, p: int, q: int, logOf: string -> Option<real>)
    requires OccursAt(text, Arrow, p) && OccursAt(text, Arrow, q) && p < q
    ensures ParseRule(text, logOf) == Err(ArrowCount(text))
  {
    assert p + 2 <= q by {
      assert text[p + 1] == '>' by { assert text[p..p + 2] == Arrow; }
      assert text[q] == '-' by { assert text[q..q + 2] == Arrow; }
    }
    SplitTwice(text, Arrow, p, q);
  }

  /** One `->` but no `;` after it: `rsplit(";", 1)` does not unpack. */
  lemma ParseRuleWithoutSemicolon(pre: string, post: string, logOf: string -> Option<real>)
    requires !Contains(pre, Arrow) && !Contains(post, Arrow) && ';' !in post
    ensures ParseRule(pre + Arrow + post, logOf) == Err(MissingSemicolon(pre + Arrow + post))
  {
    SplitAtArrow(pre, post);
  }

  /** One `->`, and a last `;` after it: the left-hand symbol is the stripped
      text before `->`, the right-hand side the white-space separated words
      between `->` and that `;`, and the probability the text after it; a
      probability `float` rejects fails the rule. */
  lemma ParseRuleFields(pre: string, mid: string, prob: string, logOf: string -> Option<real>)
    requires !Contains(pre, Arrow) && !Contains(mid + ";" + prob, Arrow) && ';' !in prob
    ensures var text := pre + Arrow + (mid + ";" + prob);
            ParseRule(text, logOf) ==
              if logOf(prob).None? then Err(BadProbability(text))
              else Ok(Rule(Strip(pre), Words(Strip(mid)), logOf(prob).value))
  {
    SplitAtArrow(pre, mid + ";" + prob);
    AfterArrowFields(pre + Arrow + (mid + ";" + prob), Strip(pre), mid, prob, logOf);
  }

  /** The text of a rule line as a grammar file writes it. */
  function FormatRule(lhs: Symbol, rhs: seq<Symbol>, prob: string): string {
    lhs + " -> " + Unwords(rhs) + " ;" + prob
  }

  /** A symbol the file format can carry: non-empty, no white space, no `->`,
      no `;`. */
  predicate PlainSymbol(w: string) {
    w != [] && NoSpace(w) && !Contains(w, Arrow) && ';' !in w
  }

  /** The pieces of a formatted rule around its `->` hold no `->`. */
  lemma FormatRuleArrowFree(lhs: Symbol, rhs: seq<Symbol>, prob: string)
    requires PlainSymbol(lhs)
    requires forall q :: 0 <= q < |rhs| ==> PlainSymbol(rhs[q])
    requires !Contains(prob, Arrow)
    ensures !Contains(lhs + " ", Arrow)
    ensures !Contains(" " + Unwords(rhs) + " " + ";" + prob, Arrow)
  {
    var u := Unwords(rhs);
    assert !Contains(" ", Arrow) by {
      forall q | 0 <= q <= 1 ensures !OccursAt(" ", Arrow, q) {}
    }
    assert !Contains(";", Arrow) by {
      forall q | 0 <= q <= 1 ensures !OccursAt(";", Arrow, q) {}
    }
    NoPairAppend(lhs, " ", '-', '>');
    UnwordsNoPair(rhs, '-', '>');
    NoPairAppend(" ", u, '-', '>');
    var mid := " " + u + " ";
    NoPairAppend(" " + u, " ", '-', '>');
    NoPairAppend(mid, ";", '-', '>');
    NoPairAppend(mid + ";", prob, '-', '>');
  }

  /** The text before a formatted rule's `->` strips to its left-hand symbol. */
  lemma FormatRuleLhs(lhs: Symbol)
    requires lhs != [] && NoSpace(lhs)
    ensures Strip(lhs + " ") == lhs
  {
    assert AllSpace(" ") by { assert IsSpace(' '); }
    assert lhs[|lhs| - 1] in lhs;
    StripFramed([], lhs, " ");
    assert [] + lhs + " " == lhs + " ";
  }

  /** The text between a formatted rule's `->` and `;` splits to its right-hand side. */
  lemma FormatRuleRhs(rhs: seq<Symbol>)
    requires forall q :: 0 <= q < |rhs| ==> rhs[q] != [] && NoSpace(rhs[q])
    ensures Words(Strip(" " + Unwords(rhs) + " ")) == rhs
  {
    var u := Unwords(rhs);
    assert Strip(" " + u + " ") == u by {
      UnwordsEnds(rhs);
      StripSpaced(u);
    }
    assert Words(u) == rhs by {
      WordsOfUnwords(rhs);
    }
  }

  /** `parse_rule` reads back a formatted rule. */
  lemma ParseRuleRoundTrip(lhs: Symbol, rhs: seq<Symbol>, prob: string, logOf: string -> Option<real>)
    requires PlainSymbol(lhs)
    requires forall q :: 0 <= q < |rhs| ==> PlainSymbol(rhs[q])
    requires ';' !in prob && !Contains(prob, Arrow) && logOf(prob).Some?
    ensures ParseRule(FormatRule(lhs, rhs, prob), logOf) == Ok(Rule(lhs, rhs, logOf(prob).value))
  {
    var pre := lhs + " ";
    var mid := " " + Unwords(rhs) + " ";
    assert FormatRule(lhs, rhs, prob) == pre + Arrow + (mid + ";" + prob);
    FormatRuleArrowFree(lhs, rhs, prob);
    ParseRuleFields(pre, mid, prob, logOf);
    FormatRuleLhs(lhs);
    FormatRuleRhs(rhs);
  }
}
