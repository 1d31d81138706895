/** The two parsing modes side by side: `is_in_language`'s table and the
    key sets of `parse_with_backpointers`' chart are the same. */
module Agreement {
  import opened Results
  import opened Grammar
  import opened Derivation
  import opened Cells
  import opened Viterbi
  import opened Membership
  import opened ChartFacts

  /** The Viterbi chart accepts a symbol for the whole sentence exactly when
      the symbol derives the sentence. */
  lemma ViterbiAccepts(g: Pcfg, tokens: seq<Symbol>, chart: Chart, a: Symbol)
    requires IsViterbiChart(g, tokens, chart) && tokens != []
    ensures Has(chart[(0, |tokens|)], a) <==> Generates(g, a, tokens)
  {
    assert tokens[0..|tokens|] == tokens;
    ViterbiKeys(g, tokens, chart, 0, |tokens|, a);
  }

  /** Both tables for one sentence: every span's set of symbols in the
      membership table is the key set of its Viterbi cell. */
  method ParseBoth(g: Pcfg, tokens: seq<Symbol>) returns (s: map<(int, int), set<Symbol>>, chart: Chart)
    ensures forall i, j :: (i, j) in s <==> 0 <= i < j <= |tokens|
    ensures forall i, j :: (i, j) in chart <==> 0 <= i < j <= |tokens|
    ensures forall i, j, a :: 0 <= i < j <= |tokens| ==> (a in s[(i, j)] <==> Has(chart[(i, j)], a))
  {
    s := MembershipChart(g, tokens);
    chart := ParseWithBackpointers(g, tokens);
    forall i, j, a | 0 <= i < j <= |tokens| ensures a in s[(i, j)] <==> Has(chart[(i, j)], a) {
      ViterbiKeys(g, tokens, chart, i, j, a);
    }
  }
}
