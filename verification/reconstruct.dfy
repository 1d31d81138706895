/** `get_tree(chart, i, j, nt)`: the parse tree read off the backpointers,
    left child first. */
module Reconstruct {
  import opened Results
  import opened Grammar
  import opened Derivation
  import opened Cells
  import opened Viterbi

  /** Every split backpointer of the chart points at two adjacent spans
      strictly inside its own, so following backpointers ends. */
  ghost predicate WellShaped(chart: Chart) {
    forall i, j, e :: (i, j) in chart && e in chart[(i, j)] && e.bp.Split? ==>
      e.bp.left.lo == i && e.bp.left.hi == e.bp.right.lo && e.bp.right.hi == j
      && i < e.bp.left.hi < j
  }

  /** The `KeyError` of `chart[(i,j)][nt]`. */
  datatype TreeError = MissingEntry(lo: int, hi: int, symbol: Symbol)

  /** The tree comes out rooted in the requested symbol; a `KeyError` names
      an entry whose span lies within the requested one. */
  function GetTree(chart: Chart, i: int, j: int, a: Symbol): (r: Result<Tree, TreeError>)
    requires WellShaped(chart)
    ensures r.Ok? ==> r.value.root == a
    ensures r.Err? ==> i <= r.error.lo && r.error.hi <= j
    decreases j - i
  {
    if (i, j) !in chart || !Has(chart[(i, j)], a) then Err(MissingEntry(i, j, a))
    else
      match Lookup(chart[(i, j)], a).bp
      case Terminal(w) => Ok(Leaf(a, w))
      case Split(l, r) =>
        match GetTree(chart, l.lo, l.hi, l.symbol)
        case Err(err) => Err(err)
        case Ok(left) =>
          match GetTree(chart, r.lo, r.hi, r.symbol)
          case Err(err) => Err(err)
          case Ok(right) => Ok(Node(a, left, right))
  }
}
