/** What a chart returned by `parse_with_backpointers` means: its entries
    are the parses of their spans, each holds the best score any parse of
    its symbol over its span reaches, and `get_tree` reads that best parse
    back. */
module ChartFacts {
  import opened Results
  import opened Grammar
  import opened Derivation
  import opened Cells
  import opened Viterbi
  import opened Reconstruct

  /** Where an entry of a Viterbi chart comes from: a single-token span holds
      a rule `A -> token` with its score; a longer span a rule `A -> B C`
      over entries for `B` and `C` in two adjacent sub-spans, scored by the
      rule plus the two children. */
  lemma EntryOrigin(g: Pcfg, tokens: seq<Symbol>, chart: Chart, i: int, j: int, e: Entry)
    requires IsViterbiChart(g, tokens, chart) && 0 <= i < j <= |tokens| && e in chart[(i, j)]
    ensures j == i + 1 ==>
              exists r :: r in RulesFor(g, [tokens[i]]) && e == Entry(r.lhs, Terminal(tokens[i]), r.logProb)
    ensures j > i + 1 ==> FromSplit(g, chart, i, j, j, e)
  {
    var es := Candidates(g, tokens, chart, i, j);
    BestOfShape(es);
    LookupUnique(chart[(i, j)], e);
    assert e in es;
    if j > i + 1 {
      SplitLoopMembers(g, chart, i, j, j, e);
    }
  }

  /** A chart's cells hold each symbol at most once. */
  lemma ChartDistinct(g: Pcfg, tokens: seq<Symbol>, chart: Chart, i: int, j: int)
    requires IsViterbiChart(g, tokens, chart) && 0 <= i < j <= |tokens|
    ensures DistinctKeys(chart[(i, j)])
  {
    BestOfShape(Candidates(g, tokens, chart, i, j));
  }

  /** A leaf backpointer sits only at a single-token span, names that
      token, and scores a unit rule for it. */
  lemma LeafEntry(g: Pcfg, tokens: seq<Symbol>, chart: Chart, i: int, j: int, e: Entry)
    requires IsViterbiChart(g, tokens, chart) && 0 <= i < j <= |tokens| && e in chart[(i, j)]
    requires e.bp.Terminal?
    ensures j == i + 1 && e.bp.token == tokens[i]
    ensures exists r :: r in RulesFor(g, [tokens[i]]) && r.lhs == e.nt && e.score == r.logProb
  {
    EntryOrigin(g, tokens, chart, i, j, e);
  }

  /** A binary backpointer of `A` at `(i, j)` is `((B, i, k), (C, k, j))` with
      `i < k < j`, `B` a key of cell `(i, k)`, `C` a key of cell `(k, j)`, and
      its score is a rule `A -> B C` plus the scores held for the two
      children. */
  lemma SplitEntry(g: Pcfg, tokens: seq<Symbol>, chart: Chart, i: int, j: int, e: Entry)
    requires IsViterbiChart(g, tokens, chart) && 0 <= i < j <= |tokens| && e in chart[(i, j)]
    requires e.bp.Split?
    ensures var l, rt := e.bp.left, e.bp.right;
            && l.lo == i && i < l.hi < j && rt.lo == l.hi && rt.hi == j
            && Has(chart[(i, l.hi)], l.symbol) && Has(chart[(l.hi, j)], rt.symbol)
            && exists r :: r in RulesFor(g, [l.symbol, rt.symbol]) && r.lhs == e.nt
                           && e.score == r.logProb + Lookup(chart[(i, l.hi)], l.symbol).score
                                                   + Lookup(chart[(l.hi, j)], rt.symbol).score
  {
    EntryOrigin(g, tokens, chart, i, j, e);
    assert j > i + 1;
    var m, b, c, r :| i < m < j && (i, m) in chart && (m, j) in chart
                      && b in chart[(i, m)] && c in chart[(m, j)]
                      && r in RulesFor(g, [b.nt, c.nt]) && e == Combine(r, b, c, i, m, j);
    SplitEntryOf(g, tokens, chart, i, m, j, e, b, c, r);
  }

  lemma SplitEntryOf(g: Pcfg, tokens: seq<Symbol>, chart: Chart, i: int, m: int, j: int,
                     e: Entry, b: Entry, c: Entry, r: Rule)
    requires IsViterbiChart(g, tokens, chart) && 0 <= i < m < j <= |tokens|
    requires b in chart[(i, m)] && c in chart[(m, j)]
    requires r in RulesFor(g, [b.nt, c.nt]) && e == Combine(r, b, c, i, m, j)
    ensures var l, rt := e.bp.left, e.bp.right;
            && l.lo == i && i < l.hi < j && rt.lo == l.hi && rt.hi == j
            && Has(chart[(i, l.hi)], l.symbol) && Has(chart[(l.hi, j)], rt.symbol)
            && exists r :: r in RulesFor(g, [l.symbol, rt.symbol]) && r.lhs == e.nt
                           && e.score == r.logProb + Lookup(chart[(i, l.hi)], l.symbol).score
                                                   + Lookup(chart[(l.hi, j)], rt.symbol).score
  {
    ChartDistinct(g, tokens, chart, i, m);
    ChartDistinct(g, tokens, chart, m, j);
    LookupUnique(chart[(i, m)], b);
    LookupUnique(chart[(m, j)], c);
    assert e.bp.left == Ref(b.nt, i, m) && e.bp.right == Ref(c.nt, m, j);
  }

  /** The chart's backpointers point at adjacent sub-spans, as `get_tree`
      needs. */
  lemma ViterbiWellShaped(g: Pcfg, tokens: seq<Symbol>, chart: Chart)
    requires IsViterbiChart(g, tokens, chart)
    ensures WellShaped(chart)
  {
    forall i, j, e | (i, j) in chart && e in chart[(i, j)] && e.bp.Split?
      ensures e.bp.left.lo == i && e.bp.left.hi == e.bp.right.lo && e.bp.right.hi == j
              && i < e.bp.left.hi < j
    {
      EntryOrigin(g, tokens, chart, i, j, e);
    }
  }

  /** With no rule of probability above one, every score in the chart is a
      log probability: at most zero (the source's `prob > 0` format check). */
  lemma {:induction false} ScoresAtMostZero(g: Pcfg, tokens: seq<Symbol>, chart: Chart, i: int, j: int, e: Entry)
    requires IsViterbiChart(g, tokens, chart) && 0 <= i < j <= |tokens| && e in chart[(i, j)]
    requires forall rhs, r :: r in RulesFor(g, rhs) ==> r.logProb <= 0.0
    ensures e.score <= 0.0
    decreases j - i
  {
    EntryOrigin(g, tokens, chart, i, j, e);
    if j > i + 1 {
      var m, b, c, r :| i < m < j && (i, m) in chart && (m, j) in chart
                        && b in chart[(i, m)] && c in chart[(m, j)]
                        && r in RulesFor(g, [b.nt, c.nt]) && e == Combine(r, b, c, i, m, j);
      ScoresAtMostZero(g, tokens, chart, i, m, b);
      ScoresAtMostZero(g, tokens, chart, m, j, c);
    }
  }

  /** `get_tree` on a pre-terminal entry. */
  lemma GetTreeLeaf(g: Pcfg, tokens: seq<Symbol>, chart: Chart, i: int, a: Symbol, r: Rule)
    requires WellShaped(chart) && 0 <= i < |tokens| && (i, i + 1) in chart && Has(chart[(i, i + 1)], a)
    requires r in RulesFor(g, [tokens[i]])
    requires Lookup(chart[(i, i + 1)], a) == Entry(r.lhs, Terminal(tokens[i]), r.logProb)
    ensures GetTree(chart, i, i + 1, a) == Ok(Leaf(a, tokens[i]))
    ensures Yield(Leaf(a, tokens[i])) == tokens[i..i + 1]
    ensures Scored(g, Leaf(a, tokens[i]), Lookup(chart[(i, i + 1)], a).score)
  {
    assert tokens[i..i + 1] == [tokens[i]];
  }

  /** `get_tree` on a split entry whose two children read back. */
  lemma GetTreeNode(chart: Chart, i: int, j: int, a: Symbol, l: Ref, rt: Ref, left: Tree, right: Tree)
    requires WellShaped(chart) && (i, j) in chart && Has(chart[(i, j)], a)
    requires Lookup(chart[(i, j)], a).bp == Split(l, rt)
    requires GetTree(chart, l.lo, l.hi, l.symbol) == Ok(left) && GetTree(chart, rt.lo, rt.hi, rt.symbol) == Ok(right)
    ensures GetTree(chart, i, j, a) == Ok(Node(a, left, right))
  {
  }

  /** Two adjacent parses joined under a rule `A -> B C` parse the joint span. */
  lemma JoinParse(g: Pcfg, tokens: seq<Symbol>, i: int, m: int, j: int, r: Rule, left: Tree, right: Tree, s1: real, s2: real)
    requires 0 <= i < m < j <= |tokens| && r in RulesFor(g, [left.root, right.root])
    requires Yield(left) == tokens[i..m] && Yield(right) == tokens[m..j]
    requires Scored(g, left, s1) && Scored(g, right, s2)
    ensures Yield(Node(r.lhs, left, right)) == tokens[i..j]
    ensures Scored(g, Node(r.lhs, left, right), r.logProb + s1 + s2)
  {
    assert tokens[i..m] + tokens[m..j] == tokens[i..j];
  }

  /** `get_tree` on a split entry whose children read back as parses. */
  lemma GetTreeJoin(g: Pcfg, tokens: seq<Symbol>, chart: Chart, i: int, m: int, j: int, a: Symbol,
                    r: Rule, b: Entry, c: Entry, left: Tree, right: Tree)
    requires WellShaped(chart) && 0 <= i < m < j <= |tokens| && (i, j) in chart && Has(chart[(i, j)], a)
    requires r in RulesFor(g, [b.nt, c.nt]) && Lookup(chart[(i, j)], a) == Combine(r, b, c, i, m, j)
    requires GetTree(chart, i, m, b.nt) == Ok(left) && left.root == b.nt && Yield(left) == tokens[i..m]
    requires Scored(g, left, b.score)
    requires GetTree(chart, m, j, c.nt) == Ok(right) && right.root == c.nt && Yield(right) == tokens[m..j]
    requires Scored(g, right, c.score)
    ensures GetTree(chart, i, j, a) == Ok(Node(a, left, right))
    ensures Yield(Node(a, left, right)) == tokens[i..j]
    ensures Scored(g, Node(a, left, right), Lookup(chart[(i, j)], a).score)
  {
    GetTreeNode(chart, i, j, a, Ref(b.nt, i, m), Ref(c.nt, m, j), left, right);
    JoinParse(g, tokens, i, m, j, r, left, right, b.score, c.score);
  }

  /** `get_tree` on an entry of a Viterbi chart succeeds and yields a parse
      of the span rooted in the entry's symbol whose rules score exactly
      the entry's score. */
  lemma {:induction false} GetTreeSound(g: Pcfg, tokens: seq<Symbol>, chart: Chart, i: int, j: int, a: Symbol)
    requires IsViterbiChart(g, tokens, chart) && 0 <= i < j <= |tokens| && Has(chart[(i, j)], a)
    ensures WellShaped(chart)
    ensures GetTree(chart, i, j, a).Ok?
    ensures var t := GetTree(chart, i, j, a).value;
            t.root == a && Yield(t) == tokens[i..j] && Scored(g, t, Lookup(chart[(i, j)], a).score)
    decreases j - i
  {
    ViterbiWellShaped(g, tokens, chart);
    var e := Lookup(chart[(i, j)], a);
    EntryOrigin(g, tokens, chart, i, j, e);
    if j == i + 1 {
      var r :| r in RulesFor(g, [tokens[i]]) && e == Entry(r.lhs, Terminal(tokens[i]), r.logProb);
      GetTreeLeaf(g, tokens, chart, i, a, r);
    } else {
      var m, b, c, r :| i < m < j && (i, m) in chart && (m, j) in chart
                        && b in chart[(i, m)] && c in chart[(m, j)]
                        && r in RulesFor(g, [b.nt, c.nt]) && e == Combine(r, b, c, i, m, j);
      ChartDistinct(g, tokens, chart, i, m);
      ChartDistinct(g, tokens, chart, m, j);
      LookupUnique(chart[(i, m)], b);
      LookupUnique(chart[(m, j)], c);
      GetTreeSound(g, tokens, chart, i, m, b.nt);
      GetTreeSound(g, tokens, chart, m, j, c.nt);
      GetTreeJoin(g, tokens, chart, i, m, j, a, r, b, c,
                  GetTree(chart, i, m, b.nt).value, GetTree(chart, m, j, c.nt).value);
    }
  }

  /** Viterbi optimality: every parse of a span, with any choice of rules,
      scores at most the chart's entry for its root symbol, and that entry
      exists. */
  lemma {:induction false} ViterbiOptimal(g: Pcfg, tokens: seq<Symbol>, chart: Chart, t: Tree, s: real, i: int, j: int)
    requires IsViterbiChart(g, tokens, chart) && 0 <= i < j <= |tokens|
    requires Scored(g, t, s) && Yield(t) == tokens[i..j]
    ensures Has(chart[(i, j)], t.root) && s <= Lookup(chart[(i, j)], t.root).score
    decreases t
  {
    match t
    case Leaf(a, w) =>
      assert tokens[i..j][0] == tokens[i];
      var r :| r in RulesFor(g, [w]) && r.lhs == a && s == r.logProb;
      var e := Entry(a, Terminal(w), s);
      assert e in UnitCandidates(g, tokens[i]);
      BestOfBounds(Candidates(g, tokens, chart, i, j), e);
    case Node(a, left, right) =>
      var k := i + |Yield(left)|;
      assert Yield(left) == tokens[i..k] && Yield(right) == tokens[k..j] by {
        assert tokens[i..j] == Yield(left) + Yield(right);
        assert tokens[i..j][..k - i] == tokens[i..k] && tokens[i..j][k - i..] == tokens[k..j];
      }
      var r, s1, s2 :| r in RulesFor(g, [left.root, right.root]) && r.lhs == a
                       && Scored(g, left, s1) && Scored(g, right, s2) && s == r.logProb + s1 + s2;
      ViterbiOptimal(g, tokens, chart, left, s1, i, k);
      ViterbiOptimal(g, tokens, chart, right, s2, k, j);
      var b := Lookup(chart[(i, k)], left.root);
      var c := Lookup(chart[(k, j)], right.root);
      var e := Combine(r, b, c, i, k, j);
      assert FromSplit(g, chart, i, j, j, e);
      SplitLoopMembers(g, chart, i, j, j, e);
      BestOfBounds(Candidates(g, tokens, chart, i, j), e);
  }

  /** The two modes agree: a symbol has an entry for a span exactly when it
      derives the span, which is what `is_in_language`'s table holds. */
  lemma ViterbiKeys(g: Pcfg, tokens: seq<Symbol>, chart: Chart, i: int, j: int, a: Symbol)
    requires IsViterbiChart(g, tokens, chart) && 0 <= i < j <= |tokens|
    ensures Has(chart[(i, j)], a) <==> Derives(g, tokens, a, i, j)
  {
    if Has(chart[(i, j)], a) {
      GetTreeSound(g, tokens, chart, i, j, a);
      var t := GetTree(chart, i, j, a).value;
      ScoredIsValid(g, t, Lookup(chart[(i, j)], a).score);
    }
    if Derives(g, tokens, a, i, j) {
      var t :| Valid(g, t) && t.root == a && Yield(t) == tokens[i..j];
      ValidHasScore(g, t);
      var s :| Scored(g, t, s);
      ViterbiOptimal(g, tokens, chart, t, s, i, j);
    }
  }

  /** `get_tree` succeeds exactly on the symbols that derive the span, and
      otherwise reports the missing entry. */
  lemma GetTreeDefined(g: Pcfg, tokens: seq<Symbol>, chart: Chart, i: int, j: int, a: Symbol)
    requires IsViterbiChart(g, tokens, chart)
    ensures WellShaped(chart)
    ensures GetTree(chart, i, j, a).Ok? <==> Derives(g, tokens, a, i, j)
    ensures GetTree(chart, i, j, a).Err? ==> GetTree(chart, i, j, a) == Err(MissingEntry(i, j, a))
  {
    ViterbiWellShaped(g, tokens, chart);
    if 0 <= i < j <= |tokens| {
      ViterbiKeys(g, tokens, chart, i, j, a);
      if Has(chart[(i, j)], a) {
        GetTreeSound(g, tokens, chart, i, j, a);
      }
    }
  }

  /** The tree `get_tree` returns for the whole sentence is a best parse: it
      is a licensed parse rooted in `a`, and no parse rooted in `a` scores
      more. */
  lemma BestParse(g: Pcfg, tokens: seq<Symbol>, chart: Chart, a: Symbol, t': Tree, s': real)
    requires IsViterbiChart(g, tokens, chart) && tokens != [] && Has(chart[(0, |tokens|)], a)
    requires Scored(g, t', s') && t'.root == a && Yield(t') == tokens
    ensures WellShaped(chart) && GetTree(chart, 0, |tokens|, a).Ok?
    ensures var t := GetTree(chart, 0, |tokens|, a).value;
            Valid(g, t) && t.root == a && Yield(t) == tokens
            && exists s :: Scored(g, t, s) && s' <= s
  {
    var n := |tokens|;
    assert tokens[0..n] == tokens;
    GetTreeSound(g, tokens, chart, 0, n, a);
    var t := GetTree(chart, 0, n, a).value;
    var s := Lookup(chart[(0, n)], a).score;
    ScoredIsValid(g, t, s);
    ViterbiOptimal(g, tokens, chart, t', s', 0, n);
  }

  /** Ties: the entry a cell holds for `a` is the first candidate, in the
      source's loop order, with the highest score for `a`. */
  lemma ViterbiTies(g: Pcfg, tokens: seq<Symbol>, chart: Chart, i: int, j: int, a: Symbol)
    requires IsViterbiChart(g, tokens, chart) && 0 <= i < j <= |tokens| && Has(chart[(i, j)], a)
    ensures var es := Candidates(g, tokens, chart, i, j);
            exists q :: 0 <= q < |es| && Lookup(chart[(i, j)], a) == es[q]
                        && (forall p :: 0 <= p < q && es[p].nt == a ==> es[p].score < es[q].score)
                        && (forall p :: 0 <= p < |es| && es[p].nt == a ==> es[p].score <= es[q].score)
  {
    var es := Candidates(g, tokens, chart, i, j);
    BestOfFirst(es, a);
    BestOfMax(es, a);
  }

  /** Two Viterbi charts for the same grammar and sentence agree on a span. */
  lemma {:induction false} ChartsAgreeOn(g: Pcfg, tokens: seq<Symbol>, c1: Chart, c2: Chart, i: int, j: int)
    requires IsViterbiChart(g, tokens, c1) && IsViterbiChart(g, tokens, c2) && 0 <= i < j <= |tokens|
    ensures c1[(i, j)] == c2[(i, j)]
    decreases j - i
  {
    if j > i + 1 {
      forall m | i < m < j ensures c1[(i, m)] == c2[(i, m)] && c1[(m, j)] == c2[(m, j)] {
        ChartsAgreeOn(g, tokens, c1, c2, i, m);
        ChartsAgreeOn(g, tokens, c1, c2, m, j);
      }
      SplitLoopFrame(g, c1, c2, i, j, j);
    }
    assert Candidates(g, tokens, c1, i, j) == Candidates(g, tokens, c2, i, j);
  }

  /** The chart is determined by the grammar and the sentence. */
  lemma ChartUnique(g: Pcfg, tokens: seq<Symbol>, c1: Chart, c2: Chart)
    requires IsViterbiChart(g, tokens, c1) && IsViterbiChart(g, tokens, c2)
    ensures c1 == c2
  {
    forall p | p in c1 ensures p in c2 && c1[p] == c2[p] {
      var (i, j) := p;
      assert (i, j) in c1;
      ChartsAgreeOn(g, tokens, c1, c2, i, j);
    }
    forall p | p in c2 ensures p in c1 {
      var (i, j) := p;
      assert (i, j) in c2;
    }
  }

  /** An empty sentence gives empty `table` and `probs`. */
  lemma EmptySentenceChart(g: Pcfg, chart: Chart)
    requires IsViterbiChart(g, [], chart)
    ensures chart == map[]
  {
    forall p ensures p !in chart {
      var (i, j) := p;
      assert (i, j) !in chart;
    }
  }
}
