/** `CkyParser.parse_with_backpointers`: the Viterbi chart. Each span's cell
    is the result of offering it, in the source's loop order, one candidate
    per rule that can head the span: for a single token the rules
    `A -> token`; for a longer span, every split point `k`, every key `B`
    of cell `(i, k)`, every key `C` of cell `(k, j)` (both in insertion
    order) and every rule `A -> B C` in file order, scored by the rule's log
    probability plus the two children's scores. */
module Viterbi {
  import opened Results
  import opened Grammar
  import opened Cells

  type Chart = map<(int, int), Cell>

  /** The candidates of a single-token span: `(lhs, token)` scored by the rule. */
  function UnitCandidates(g: Pcfg, token: Symbol): (es: seq<Entry>)
    ensures forall e :: e in es <==>
              exists r :: r in RulesFor(g, [token]) && e == Entry(r.lhs, Terminal(token), r.logProb)
  {
    var rs := RulesFor(g, [token]);
    var es := seq(|rs|, q requires 0 <= q < |rs| => Entry(rs[q].lhs, Terminal(token), rs[q].logProb));
    assert forall r :: r in rs ==> Entry(r.lhs, Terminal(token), r.logProb) in es by {
      forall r | r in rs ensures Entry(r.lhs, Terminal(token), r.logProb) in es {
        var q :| 0 <= q < |rs| && rs[q] == r;
        assert es[q] == Entry(r.lhs, Terminal(token), r.logProb);
      }
    }
    es
  }

  /** The candidate rule `r` makes from children `b` over `(i, k)` and `c`
      over `(k, j)`: backpointer `((B, i, k), (C, k, j))`, score
      `log(p) + probs[(i,k)][B] + probs[(k,j)][C]`. */
  function Combine(r: Rule, b: Entry, c: Entry, i: int, k: int, j: int): Entry {
    Entry(r.lhs, Split(Ref(b.nt, i, k), Ref(c.nt, k, j)), r.logProb + b.score + c.score)
  }

  /** The rule loop for one pair of children. */
  function RuleCandidates(rs: seq<Rule>, b: Entry, c: Entry, i: int, k: int, j: int): (es: seq<Entry>)
    ensures |es| == |rs| && forall q :: 0 <= q < |rs| ==> es[q] == Combine(rs[q], b, c, i, k, j)
  {
    seq(|rs|, q requires 0 <= q < |rs| => Combine(rs[q], b, c, i, k, j))
  }

  /** The loop over the keys `C` of the right cell, for one left child. */
  function RightLoop(g: Pcfg, b: Entry, rc: Cell, i: int, k: int, j: int): seq<Entry>
    decreases |rc|
  {
    if rc == [] then []
    else
      var c := rc[|rc| - 1];
      RightLoop(g, b, rc[..|rc| - 1], i, k, j) + RuleCandidates(RulesFor(g, [b.nt, c.nt]), b, c, i, k, j)
  }

  /** The loop over the keys `B` of the left cell. */
  function LeftLoop(g: Pcfg, lc: Cell, rc: Cell, i: int, k: int, j: int): seq<Entry>
    decreases |lc|
  {
    if lc == [] then []
    else LeftLoop(g, lc[..|lc| - 1], rc, i, k, j) + RightLoop(g, lc[|lc| - 1], rc, i, k, j)
  }

  /** Every split point `k` below `k0` of span `(i, j)` has both its cells. */
  ghost predicate SplitsIn(chart: Chart, i: int, j: int, k0: int) {
    forall m :: i < m < k0 ==> (i, m) in chart && (m, j) in chart
  }

  /** The loop over the split points `i < m < k0` of span `(i, j)`. */
  function SplitLoop(g: Pcfg, chart: Chart, i: int, j: int, k0: int): seq<Entry>
    requires SplitsIn(chart, i, j, k0)
    decreases k0 - i
  {
    if k0 <= i + 1 then []
    else SplitLoop(g, chart, i, j, k0 - 1) + LeftLoop(g, chart[(i, k0 - 1)], chart[(k0 - 1, j)], i, k0 - 1, j)
  }

  /** All candidates of span `(i, j)` in the order the source offers them. */
  function Candidates(g: Pcfg, tokens: seq<Symbol>, chart: Chart, i: int, j: int): seq<Entry>
    requires 0 <= i < j <= |tokens| && SplitsIn(chart, i, j, j)
  {
    if j == i + 1 then UnitCandidates(g, tokens[i]) else SplitLoop(g, chart, i, j, j)
  }

  /** The chart has a cell for exactly the spans `0 <= i < j <= n`. */
  ghost predicate Spans(chart: Chart, n: int) {
    forall i, j :: (i, j) in chart <==> 0 <= i < j <= n
  }

  /** What `parse_with_backpointers` returns: a cell for every span, each
      the outcome of offering it its candidates. */
  ghost predicate IsViterbiChart(g: Pcfg, tokens: seq<Symbol>, chart: Chart) {
    Spans(chart, |tokens|) &&
    forall i, j {:trigger Candidates(g, tokens, chart, i, j)} ::
      0 <= i < j <= |tokens| ==> chart[(i, j)] == BestOf(Candidates(g, tokens, chart, i, j))
  }

  // ---------------------------------------------------------------------
  // Which candidates there are.

  /** A split candidate of span `(i, j)` with split point below `k0`: a rule
      `A -> B C` over an entry for `B` in `(i, m)` and one for `C` in `(m, j)`. */
  ghost predicate FromSplit(g: Pcfg, chart: Chart, i: int, j: int, k0: int, e: Entry) {
    exists m, b, c, r :: i < m < k0 && (i, m) in chart && (m, j) in chart
                         && b in chart[(i, m)] && c in chart[(m, j)]
                         && r in RulesFor(g, [b.nt, c.nt]) && e == Combine(r, b, c, i, m, j)
  }

  lemma {:induction false} RightLoopMembers(g: Pcfg, b: Entry, rc: Cell, i: int, k: int, j: int, e: Entry)
    ensures e in RightLoop(g, b, rc, i, k, j) <==>
              exists c, r :: c in rc && r in RulesFor(g, [b.nt, c.nt]) && e == Combine(r, b, c, i, k, j)
    decreases |rc|
  {
    if rc != [] {
      var n := |rc| - 1;
      var c := rc[n];
      var rs := RulesFor(g, [b.nt, c.nt]);
      RightLoopMembers(g, b, rc[..n], i, k, j, e);
      assert forall x :: x in rc <==> x in rc[..n] || x == c by {
        assert rc == rc[..n] + [c];
      }
      assert e in RuleCandidates(rs, b, c, i, k, j) <==> exists r :: r in rs && e == Combine(r, b, c, i, k, j) by {
        if e in RuleCandidates(rs, b, c, i, k, j) {
          var q :| 0 <= q < |rs| && RuleCandidates(rs, b, c, i, k, j)[q] == e;
          assert rs[q] in rs;
        }
        forall r | r in rs && e == Combine(r, b, c, i, k, j) ensures e in RuleCandidates(rs, b, c, i, k, j) {
          var q :| 0 <= q < |rs| && rs[q] == r;
          assert RuleCandidates(rs, b, c, i, k, j)[q] == e;
        }
      }
    }
  }

  lemma {:induction false} LeftLoopMembers(g: Pcfg, lc: Cell, rc: Cell, i: int, k: int, j: int, e: Entry)
    ensures e in LeftLoop(g, lc, rc, i, k, j) <==>
              exists b, c, r :: b in lc && c in rc && r in RulesFor(g, [b.nt, c.nt]) && e == Combine(r, b, c, i, k, j)
    decreases |lc|
  {
    if lc != [] {
      var n := |lc| - 1;
      var b := lc[n];
      LeftLoopMembers(g, lc[..n], rc, i, k, j, e);
      RightLoopMembers(g, b, rc, i, k, j, e);
      assert forall x :: x in lc <==> x in lc[..n] || x == b by {
        assert lc == lc[..n] + [b];
      }
    }
  }

  /** The split loop offers exactly the split candidates. */
  lemma {:induction false} SplitLoopMembers(g: Pcfg, chart: Chart, i: int, j: int, k0: int, e: Entry)
    requires SplitsIn(chart, i, j, k0)
    ensures e in SplitLoop(g, chart, i, j, k0) <==> FromSplit(g, chart, i, j, k0, e)
    decreases k0 - i
  {
    if k0 > i + 1 {
      var m := k0 - 1;
      SplitLoopMembers(g, chart, i, j, m, e);
      LeftLoopMembers(g, chart[(i, m)], chart[(m, j)], i, m, j, e);
      if FromSplit(g, chart, i, j, k0, e) && !FromSplit(g, chart, i, j, m, e) {
        var m', b, c, r :| i < m' < k0 && (i, m') in chart && (m', j) in chart
                           && b in chart[(i, m')] && c in chart[(m', j)]
                           && r in RulesFor(g, [b.nt, c.nt]) && e == Combine(r, b, c, i, m', j);
        assert m' == m;
      }
    }
  }

  /** The split loop reads only the cells of the spans it splits into. */
  lemma {:induction false} SplitLoopFrame(g: Pcfg, chart: Chart, chart': Chart, i: int, j: int, k0: int)
    requires SplitsIn(chart, i, j, k0)
    requires forall m :: i < m < k0 ==> (i, m) in chart' && (m, j) in chart'
                                        && chart'[(i, m)] == chart[(i, m)] && chart'[(m, j)] == chart[(m, j)]
    ensures SplitsIn(chart', i, j, k0)
    ensures SplitLoop(g, chart', i, j, k0) == SplitLoop(g, chart, i, j, k0)
    decreases k0 - i
  {
    if k0 > i + 1 {
      SplitLoopFrame(g, chart, chart', i, j, k0 - 1);
    }
  }

  // ---------------------------------------------------------------------
  // The loops of `parse_with_backpointers`.

  /** `for (lhs, rhs, prob) in rhs_to_rules[(B, C)]`. */
  method OfferRules(cell: Cell, rs: seq<Rule>, b: Entry, c: Entry, i: int, k: int, j: int) returns (cell': Cell)
    ensures cell' == Fold(cell, RuleCandidates(rs, b, c, i, k, j))
  {
    cell' := cell;
    var q := 0;
    while q < |rs|
      invariant 0 <= q <= |rs|
      invariant cell' == Fold(cell, RuleCandidates(rs[..q], b, c, i, k, j))
    {
      assert RuleCandidates(rs[..q + 1], b, c, i, k, j) == RuleCandidates(rs[..q], b, c, i, k, j) + [Combine(rs[q], b, c, i, k, j)];
      FoldSnoc(cell, RuleCandidates(rs[..q], b, c, i, k, j), Combine(rs[q], b, c, i, k, j));
      cell' := Keep(cell', Combine(rs[q], b, c, i, k, j));
      q := q + 1;
    }
    assert rs[..|rs|] == rs;
  }

  /** One more key of the right cell. */
  lemma RightLoopSnoc(g: Pcfg, b: Entry, rc: Cell, i: int, k: int, j: int, q: int)
    requires 0 <= q < |rc|
    ensures RightLoop(g, b, rc[..q + 1], i, k, j) ==
              RightLoop(g, b, rc[..q], i, k, j) + RuleCandidates(RulesFor(g, [b.nt, rc[q].nt]), b, rc[q], i, k, j)
  {
    var pre := rc[..q + 1];
    assert pre[..q] == rc[..q] && pre[q] == rc[q];
  }

  /** One more key of the left cell. */
  lemma LeftLoopSnoc(g: Pcfg, lc: Cell, rc: Cell, i: int, k: int, j: int, q: int)
    requires 0 <= q < |lc|
    ensures LeftLoop(g, lc[..q + 1], rc, i, k, j) == LeftLoop(g, lc[..q], rc, i, k, j) + RightLoop(g, lc[q], rc, i, k, j)
  {
    var pre := lc[..q + 1];
    assert pre[..q] == lc[..q] && pre[q] == lc[q];
  }

  /** `for C in table[(k, j)].keys()`. */
  method OfferRight(g: Pcfg, cell: Cell, b: Entry, rc: Cell, i: int, k: int, j: int) returns (cell': Cell)
    ensures cell' == Fold(cell, RightLoop(g, b, rc, i, k, j))
  {
    cell' := cell;
    var q := 0;
    while q < |rc|
      invariant 0 <= q <= |rc|
      invariant cell' == Fold(cell, RightLoop(g, b, rc[..q], i, k, j))
    {
      var c := rc[q];
      var rs := RulesFor(g, [b.nt, c.nt]);
      RightLoopSnoc(g, b, rc, i, k, j, q);
      FoldAppend(cell, RightLoop(g, b, rc[..q], i, k, j), RuleCandidates(rs, b, c, i, k, j));
      cell' := OfferRules(cell', rs, b, c, i, k, j);
      q := q + 1;
    }
    assert rc[..|rc|] == rc;
  }

  /** `for B in table[(i, k)].keys()`. */
  method OfferLeft(g: Pcfg, cell: Cell, lc: Cell, rc: Cell, i: int, k: int, j: int) returns (cell': Cell)
    ensures cell' == Fold(cell, LeftLoop(g, lc, rc, i, k, j))
  {
    cell' := cell;
    var q := 0;
    while q < |lc|
      invariant 0 <= q <= |lc|
      invariant cell' == Fold(cell, LeftLoop(g, lc[..q], rc, i, k, j))
    {
      LeftLoopSnoc(g, lc, rc, i, k, j, q);
      FoldAppend(cell, LeftLoop(g, lc[..q], rc, i, k, j), RightLoop(g, lc[q], rc, i, k, j));
      cell' := OfferRight(g, cell', lc[q], rc, i, k, j);
      q := q + 1;
    }
    assert lc[..|lc|] == lc;
  }

  /** `for k in range(i+1, j)`: the cell of a span of two or more tokens. */
  method FillSplit(g: Pcfg, chart: Chart, i: int, j: int) returns (cell: Cell)
    requires i + 1 < j && SplitsIn(chart, i, j, j)
    ensures cell == BestOf(SplitLoop(g, chart, i, j, j))
  {
    cell := [];
    var k := i + 1;
    while k < j
      invariant i + 1 <= k <= j
      invariant cell == BestOf(SplitLoop(g, chart, i, j, k))
    {
      FoldAppend([], SplitLoop(g, chart, i, j, k), LeftLoop(g, chart[(i, k)], chart[(k, j)], i, k, j));
      cell := OfferLeft(g, cell, chart[(i, k)], chart[(k, j)], i, k, j);
      k := k + 1;
    }
  }

  /** `for (lhs, rhs, prob) in rhs_to_rules[(tokens[i],)]`: the cell of a
      single-token span. */
  method FillUnit(g: Pcfg, token: Symbol) returns (cell: Cell)
    ensures cell == BestOf(UnitCandidates(g, token))
  {
    var rs := RulesFor(g, [token]);
    var es := UnitCandidates(g, token);
    cell := [];
    var q := 0;
    while q < |rs|
      invariant 0 <= q <= |rs|
      invariant cell == BestOf(es[..q])
    {
      FoldSnoc([], es[..q], es[q]);
      assert es[..q + 1] == es[..q] + [es[q]];
      cell := Keep(cell, Entry(rs[q].lhs, Terminal(token), rs[q].logProb));
      q := q + 1;
    }
    assert es[..|rs|] == es;
  }

  /** The spans filled so far: all shorter than `len`, and the first `i0` of
      length `len`. */
  ghost predicate Filled(chart: Chart, n: int, len: int, i0: int) {
    forall i, j :: (i, j) in chart <==> 0 <= i < j <= n && (j - i < len || (j - i == len && i < i0))
  }

  /** Every filled cell is the outcome of offering it its candidates. */
  ghost predicate CellsDone(g: Pcfg, tokens: seq<Symbol>, chart: Chart) {
    forall i, j :: (i, j) in chart ==>
      0 <= i < j <= |tokens| && SplitsIn(chart, i, j, j)
      && chart[(i, j)] == BestOf(Candidates(g, tokens, chart, i, j))
  }

  /** Adding the cell of a new span leaves every filled cell as it was. */
  lemma CellDoneAdd(g: Pcfg, tokens: seq<Symbol>, chart: Chart, p: (int, int), cell: Cell, i: int, j: int)
    requires CellsDone(g, tokens, chart) && p !in chart && (i, j) in chart
    ensures SplitsIn(chart[p := cell], i, j, j)
    ensures chart[(i, j)] == BestOf(Candidates(g, tokens, chart[p := cell], i, j))
  {
    assert 0 <= i < j <= |tokens| && SplitsIn(chart, i, j, j);
    CandidatesFrame(g, tokens, chart, p, cell, i, j);
  }

  /** The candidates of a filled span do not change when a new span is added. */
  lemma CandidatesFrame(g: Pcfg, tokens: seq<Symbol>, chart: Chart, p: (int, int), cell: Cell, i: int, j: int)
    requires 0 <= i < j <= |tokens| && SplitsIn(chart, i, j, j) && p !in chart
    ensures SplitsIn(chart[p := cell], i, j, j)
    ensures Candidates(g, tokens, chart[p := cell], i, j) == Candidates(g, tokens, chart, i, j)
  {
    if j > i + 1 {
      SplitLoopFrame(g, chart, chart[p := cell], i, j, j);
    }
  }

  /** Filling span `(i, j)` with the outcome of its candidates keeps the
      chart's filled cells done. */
  lemma CellsDoneExtend(g: Pcfg, tokens: seq<Symbol>, chart: Chart, i: int, j: int, cell: Cell)
    requires CellsDone(g, tokens, chart) && (i, j) !in chart
    requires 0 <= i < j <= |tokens| && SplitsIn(chart, i, j, j)
    requires cell == BestOf(Candidates(g, tokens, chart, i, j))
    ensures CellsDone(g, tokens, chart[(i, j) := cell])
  {
    var chart' := chart[(i, j) := cell];
    NewCellDone(g, tokens, chart, i, j, cell);
    forall i', j' | (i', j') in chart'
      ensures 0 <= i' < j' <= |tokens| && SplitsIn(chart', i', j', j')
              && chart'[(i', j')] == BestOf(Candidates(g, tokens, chart', i', j'))
    {
      if (i', j') != (i, j) {
        CellDoneAdd(g, tokens, chart, (i, j), cell, i', j');
      }
    }
  }

  lemma NewCellDone(g: Pcfg, tokens: seq<Symbol>, chart: Chart, i: int, j: int, cell: Cell)
    requires 0 <= i < j <= |tokens| && SplitsIn(chart, i, j, j) && (i, j) !in chart
    requires cell == BestOf(Candidates(g, tokens, chart, i, j))
    ensures SplitsIn(chart[(i, j) := cell], i, j, j)
    ensures cell == BestOf(Candidates(g, tokens, chart[(i, j) := cell], i, j))
  {
    CandidatesFrame(g, tokens, chart, (i, j), cell, i, j);
  }

  /** A chart whose every span is filled and done is a Viterbi chart. */
  lemma CellsDoneComplete(g: Pcfg, tokens: seq<Symbol>, chart: Chart)
    requires CellsDone(g, tokens, chart) && Spans(chart, |tokens|)
    ensures IsViterbiChart(g, tokens, chart)
  {
  }

  /** The first loop of `parse_with_backpointers`: the single-token spans. */
  method FillUnits(g: Pcfg, tokens: seq<Symbol>) returns (chart: Chart)
    ensures Filled(chart, |tokens|, 2, 0) && CellsDone(g, tokens, chart)
  {
    var n := |tokens|;
    chart := map[];
    var i := 0;
    while i < n
      invariant 0 <= i <= n
      invariant Filled(chart, n, 1, i) && CellsDone(g, tokens, chart)
    {
      var cell := FillUnit(g, tokens[i]);
      CellsDoneExtend(g, tokens, chart, i, i + 1, cell);
      chart := chart[(i, i + 1) := cell];
      i := i + 1;
    }
  }

  /** The next span of length `len` is new and splits into filled spans. */
  lemma FilledNext(chart: Chart, n: int, len: int, i: int)
    requires 2 <= len && 0 <= i <= n - len && Filled(chart, n, len, i)
    ensures (i, i + len) !in chart && SplitsIn(chart, i, i + len, i + len)
  {
  }

  /** Filling the next span of length `len`. */
  lemma FilledAdd(chart: Chart, n: int, len: int, i: int, cell: Cell)
    requires 1 <= len && 0 <= i <= n - len && Filled(chart, n, len, i)
    ensures Filled(chart[(i, i + len) := cell], n, len, i + 1)
  {
  }

  /** All spans of length `len` filled: on to the next length. */
  lemma FilledLength(chart: Chart, n: int, len: int)
    requires 1 <= len <= n + 1 && Filled(chart, n, len, n - len + 1)
    ensures Filled(chart, n, len + 1, 0)
  {
  }

  /** One pass of the `for length` loop: every span of length `len`. */
  method FillLength(g: Pcfg, tokens: seq<Symbol>, chart0: Chart, len: int) returns (chart: Chart)
    requires 2 <= len <= |tokens|
    requires Filled(chart0, |tokens|, len, 0) && CellsDone(g, tokens, chart0)
    ensures Filled(chart, |tokens|, len + 1, 0) && CellsDone(g, tokens, chart)
  {
    var n := |tokens|;
    chart := chart0;
    var i := 0;
    while i <= n - len
      invariant 0 <= i <= n - len + 1
      invariant Filled(chart, n, len, i) && CellsDone(g, tokens, chart)
    {
      var j := i + len;
      FilledNext(chart, n, len, i);
      var cell := FillSplit(g, chart, i, j);
      CellsDoneExtend(g, tokens, chart, i, j, cell);
      FilledAdd(chart, n, len, i, cell);
      chart := chart[(i, j) := cell];
      i := i + 1;
    }
    FilledLength(chart, n, len);
  }

  /** `parse_with_backpointers(tokens)`: `table` and `probs` together. */
  method ParseWithBackpointers(g: Pcfg, tokens: seq<Symbol>) returns (chart: Chart)
    ensures forall i, j :: (i, j) in chart <==> 0 <= i < j <= |tokens|
    ensures IsViterbiChart(g, tokens, chart)
  {
    var n := |tokens|;
    chart := FillUnits(g, tokens);
    var len := 2;
    while len <= n
      invariant 2 <= len && (len <= n + 1 || len == 2)
      invariant Filled(chart, n, len, 0) && CellsDone(g, tokens, chart)
    {
      chart := FillLength(g, tokens, chart, len);
      len := len + 1;
    }
    CellsDoneComplete(g, tokens, chart);
  }
}
