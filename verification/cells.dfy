/** One cell of the Viterbi chart of `parse_with_backpointers`: for one span,
    the source keeps two dictionaries with the same keys, `table[(i, j)]`
    (symbol to backpointer) and `probs[(i, j)]` (symbol to log score). The
    model keeps them as one sequence of entries in the dictionaries'
    insertion order. A candidate enters a cell when its symbol is new there
    or when its score is strictly greater than the one held; assigning to a
    key that is present keeps the key's position. */
module Cells {
  import opened Results
  import opened Grammar

  /** A child of a split: `(symbol, lo, hi)`. */
  datatype Ref = Ref(symbol: Symbol, lo: int, hi: int)

  /** A `table` value: the token a pre-terminal covers, or the two children. */
  datatype Backpointer = Terminal(token: Symbol) | Split(left: Ref, right: Ref)

  /** A key of the cell with its `table` and its `probs` values. */
  datatype Entry = Entry(nt: Symbol, bp: Backpointer, score: real)

  type Cell = seq<Entry>

  /** The position of the entry for `a`, if any. */
  function IndexOf(c: Cell, a: Symbol): (r: Option<nat>)
    ensures r.Some? ==> r.value < |c| && c[r.value].nt == a
    ensures r.Some? ==> forall q :: 0 <= q < r.value ==> c[q].nt != a
    ensures r.None? ==> forall q :: 0 <= q < |c| ==> c[q].nt != a
  {
    if c == [] then None
    else if c[0].nt == a then Some(0)
    else match IndexOf(c[1..], a)
      case None => None
      case Some(q) => Some(q + 1)
  }

  /** `a in probs[(i, j)]`. */
  predicate Has(c: Cell, a: Symbol) {
    IndexOf(c, a).Some?
  }

  /** The entry for `a`: `table[(i, j)][a]` and `probs[(i, j)][a]`. */
  function Lookup(c: Cell, a: Symbol): (e: Entry)
    requires Has(c, a)
    ensures e in c && e.nt == a
  {
    c[IndexOf(c, a).value]
  }

  /** The keys of the cell in insertion order. */
  function Keys(c: Cell): (ks: seq<Symbol>)
    ensures |ks| == |c| && forall q :: 0 <= q < |c| ==> ks[q] == c[q].nt
  {
    seq(|c|, q requires 0 <= q < |c| => c[q].nt)
  }

  /** No key is held twice, as in a dictionary. */
  ghost predicate DistinctKeys(c: Cell) {
    forall p, q :: 0 <= p < q < |c| ==> c[p].nt != c[q].nt
  }

  /** With distinct keys, the entry of a cell with symbol `a` is its lookup. */
  lemma LookupUnique(c: Cell, e: Entry)
    requires DistinctKeys(c) && e in c
    ensures Has(c, e.nt) && Lookup(c, e.nt) == e
  {
  }

  /** One `if lhs not in probs[(i,j)] or prob > probs[(i,j)][lhs]` update. */
  function Keep(c: Cell, e: Entry): Cell {
    match IndexOf(c, e.nt)
    case None => c + [e]
    case Some(q) => if e.score > c[q].score then c[q := e] else c
  }

  /** Two cells holding the same keys at the same positions find each key at
      the same position. */
  lemma IndexOfSameKeys(c: Cell, d: Cell, a: Symbol)
    requires |c| == |d| && forall q :: 0 <= q < |c| ==> c[q].nt == d[q].nt
    ensures IndexOf(c, a) == IndexOf(d, a)
  {
    var x, y := IndexOf(c, a), IndexOf(d, a);
    if x.Some? && y.Some? {
      assert !(x.value < y.value) && !(y.value < x.value);
    }
  }

  /** Where `Keep` puts each key: a new key at the end, every other key
      where it was. */
  lemma KeepIndex(c: Cell, e: Entry, a: Symbol)
    ensures IndexOf(Keep(c, e), a) == if !Has(c, e.nt) && a == e.nt then Some(|c|) else IndexOf(c, a)
  {
    var d := Keep(c, e);
    if Has(c, e.nt) {
      assert |d| == |c| && forall q :: 0 <= q < |c| ==> c[q].nt == d[q].nt;
      IndexOfSameKeys(c, d, a);
    } else {
      var prefix := d[..|c|];
      assert prefix == c;
      IndexOfSameKeys(c, prefix, a);
      IndexOfPrefix(d, |c|, a);
    }
  }

  /** `Keep` for one symbol: the candidate's key is present afterwards and
      holds the candidate unless an entry already there scores at least as
      high; every other key keeps its entry. */
  lemma KeepAt(c: Cell, e: Entry, a: Symbol)
    ensures Has(Keep(c, e), a) <==> Has(c, a) || a == e.nt
    ensures Has(Keep(c, e), a) ==>
              Lookup(Keep(c, e), a) ==
                if a != e.nt || (Has(c, a) && e.score <= Lookup(c, a).score) then Lookup(c, a) else e
  {
    KeepIndex(c, e, a);
  }

  /** `Keep` keeps the key order: a new key goes last, a present key keeps
      its place, and no key is held twice. */
  lemma KeepKeys(c: Cell, e: Entry)
    ensures Keys(Keep(c, e)) == if Has(c, e.nt) then Keys(c) else Keys(c) + [e.nt]
    ensures DistinctKeys(c) ==> DistinctKeys(Keep(c, e))
  {
    var d := Keep(c, e);
    if !Has(c, e.nt) && DistinctKeys(c) {
      assert forall q :: 0 <= q < |c| ==> d[q] == c[q];
      assert d[|c|] == e;
    }
  }

  /** `Keep` as a dictionary update: `KeepAt` for every symbol, and `KeepKeys`. */
  lemma KeepSpec(c: Cell, e: Entry)
    ensures forall a :: Has(Keep(c, e), a) <==> Has(c, a) || a == e.nt
    ensures Lookup(Keep(c, e), e.nt) ==
              if Has(c, e.nt) && e.score <= Lookup(c, e.nt).score then Lookup(c, e.nt) else e
    ensures forall a :: a != e.nt && Has(c, a) ==> Lookup(Keep(c, e), a) == Lookup(c, a)
    ensures Keys(Keep(c, e)) == if Has(c, e.nt) then Keys(c) else Keys(c) + [e.nt]
    ensures DistinctKeys(c) ==> DistinctKeys(Keep(c, e))
  {
    forall a ensures Has(Keep(c, e), a) <==> Has(c, a) || a == e.nt {
      KeepAt(c, e, a);
    }
    forall a | a != e.nt && Has(c, a) ensures Lookup(Keep(c, e), a) == Lookup(c, a) {
      KeepAt(c, e, a);
    }
    KeepAt(c, e, e.nt);
    KeepKeys(c, e);
  }

  /** The position of a key in a prefix of a cell that holds it. */
  lemma IndexOfPrefix(c: Cell, n: int, a: Symbol)
    requires 0 <= n <= |c|
    ensures IndexOf(c[..n], a).Some? ==> IndexOf(c, a) == IndexOf(c[..n], a)
    ensures IndexOf(c[..n], a).None? && n < |c| && c[n].nt == a ==> IndexOf(c, a) == Some(n)
  {
    var x, y := IndexOf(c[..n], a), IndexOf(c, a);
    if x.Some? {
      assert c[x.value].nt == a;
      assert !(x.value < y.value) && !(y.value < x.value);
    }
    if x.None? && n < |c| && c[n].nt == a {
      assert !(n < y.value) && !(y.value < n);
    }
  }

  /** The cell after offering it the candidates `es` in order. */
  function Fold(c: Cell, es: seq<Entry>): Cell
    decreases |es|
  {
    if es == [] then c else Keep(Fold(c, es[..|es| - 1]), es[|es| - 1])
  }

  /** The cell a span ends with: its candidates offered to an empty cell. */
  function BestOf(es: seq<Entry>): Cell {
    Fold([], es)
  }

  /** Offering two runs of candidates one after the other. */
  lemma {:induction false} FoldAppend(c: Cell, xs: seq<Entry>, ys: seq<Entry>)
    ensures Fold(c, xs + ys) == Fold(Fold(c, xs), ys)
    decreases |ys|
  {
    if ys == [] {
      assert xs + ys == xs;
    } else {
      var n := |ys| - 1;
      assert (xs + ys)[..|xs + ys| - 1] == xs + ys[..n];
      FoldAppend(c, xs, ys[..n]);
    }
  }

  /** Offering one more candidate. */
  lemma FoldSnoc(c: Cell, xs: seq<Entry>, e: Entry)
    ensures Fold(c, xs + [e]) == Keep(Fold(c, xs), e)
  {
    assert (xs + [e])[..|xs|] == xs;
  }

  /** A cell built from candidates holds exactly their symbols. */
  lemma {:induction false} BestOfKeys(es: seq<Entry>, a: Symbol)
    ensures Has(BestOf(es), a) <==> exists q :: 0 <= q < |es| && es[q].nt == a
    decreases |es|
  {
    if es != [] {
      var n := |es| - 1;
      var init := es[..n];
      var c, e := BestOf(init), es[n];
      assert BestOf(es) == Keep(c, e);
      BestOfKeys(init, a);
      KeepAt(c, e, a);
      if Has(c, a) {
        var q :| 0 <= q < n && init[q].nt == a;
        assert es[q] == init[q];
      }
      if exists q :: 0 <= q < |es| && es[q].nt == a {
        var q :| 0 <= q < |es| && es[q].nt == a;
        if q < n {
          assert init[q] == es[q];
        }
      }
    }
  }

  /** Every entry a cell built from candidates holds is one of them. */
  lemma {:induction false} BestOfFrom(es: seq<Entry>, a: Symbol)
    requires Has(BestOf(es), a)
    ensures Lookup(BestOf(es), a) in es
    decreases |es|
  {
    var n := |es| - 1;
    var init := es[..n];
    var c, e := BestOf(init), es[n];
    assert BestOf(es) == Keep(c, e);
    KeepAt(c, e, a);
    assert es == init + [e];
    if Lookup(BestOf(es), a) != e {
      BestOfFrom(init, a);
    }
  }

  /** A cell built from candidates holds each symbol once. */
  lemma {:induction false} BestOfDistinct(es: seq<Entry>)
    ensures DistinctKeys(BestOf(es))
    decreases |es|
  {
    if es != [] {
      var n := |es| - 1;
      BestOfDistinct(es[..n]);
      KeepKeys(BestOf(es[..n]), es[n]);
    }
  }

  /** A cell built from candidates holds exactly their symbols, each once,
      and every entry it holds is one of the candidates. */
  lemma BestOfShape(es: seq<Entry>)
    ensures forall a :: Has(BestOf(es), a) <==> exists q :: 0 <= q < |es| && es[q].nt == a
    ensures forall a :: Has(BestOf(es), a) ==> Lookup(BestOf(es), a) in es
    ensures DistinctKeys(BestOf(es))
  {
    forall a ensures Has(BestOf(es), a) <==> exists q :: 0 <= q < |es| && es[q].nt == a {
      BestOfKeys(es, a);
    }
    forall a | Has(BestOf(es), a) ensures Lookup(BestOf(es), a) in es {
      BestOfFrom(es, a);
    }
    BestOfDistinct(es);
  }

  /** The entry a cell holds for `a` scores at least as high as every
      candidate for `a`. */
  lemma {:induction false} BestOfMax(es: seq<Entry>, a: Symbol)
    requires Has(BestOf(es), a)
    ensures forall q :: 0 <= q < |es| && es[q].nt == a ==> es[q].score <= Lookup(BestOf(es), a).score
    decreases |es|
  {
    var n := |es| - 1;
    var init := es[..n];
    var c, e := BestOf(init), es[n];
    assert BestOf(es) == Keep(c, e);
    KeepAt(c, e, a);
    if Has(c, a) {
      BestOfMax(init, a);
      forall q | 0 <= q < n && es[q].nt == a ensures es[q].score <= Lookup(c, a).score {
        assert init[q] == es[q];
      }
    } else {
      forall q | 0 <= q < n ensures es[q].nt != a {
        assert init[q] == es[q];
        BestOfKeys(init, a);
      }
    }
  }

  /** Ties go to the earliest candidate: the entry held for `a` is a
      candidate that no earlier candidate for `a` matches in score. */
  lemma {:induction false} BestOfFirst(es: seq<Entry>, a: Symbol)
    requires Has(BestOf(es), a)
    ensures exists q :: 0 <= q < |es| && Lookup(BestOf(es), a) == es[q]
                        && forall p :: 0 <= p < q && es[p].nt == a ==> es[p].score < es[q].score
    decreases |es|
  {
    var n := |es| - 1;
    var init := es[..n];
    var c, e := BestOf(init), es[n];
    assert BestOf(es) == Keep(c, e);
    KeepAt(c, e, a);
    if Has(c, a) {
      BestOfFirst(init, a);
      BestOfMax(init, a);
      var q :| 0 <= q < n && Lookup(c, a) == init[q]
               && forall p :: 0 <= p < q && init[p].nt == a ==> init[p].score < init[q].score;
      if Lookup(BestOf(es), a) == Lookup(c, a) {
        assert es[q] == init[q];
        forall p | 0 <= p < q && es[p].nt == a ensures es[p].score < es[q].score {
          assert es[p] == init[p];
        }
      } else {
        forall p | 0 <= p < n && es[p].nt == a ensures es[p].score < es[n].score {
          assert es[p] == init[p];
        }
        assert Lookup(BestOf(es), a) == es[n];
      }
    } else {
      forall p | 0 <= p < n ensures es[p].nt != a {
        assert es[p] == init[p];
        BestOfKeys(init, a);
      }
      assert Lookup(BestOf(es), a) == es[n];
    }
  }

  /** Every candidate's symbol ends up in the cell, with a score at least
      the candidate's. */
  lemma BestOfBounds(es: seq<Entry>, e: Entry)
    requires e in es
    ensures Has(BestOf(es), e.nt) && e.score <= Lookup(BestOf(es), e.nt).score
  {
    var q :| 0 <= q < |es| && es[q] == e;
    BestOfKeys(es, e.nt);
    BestOfMax(es, e.nt);
  }
}
