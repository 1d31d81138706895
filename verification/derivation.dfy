/** Parse trees of a grammar in Chomsky normal form, as `get_tree` builds
    them: a leaf is a pre-terminal over one token, an inner node a symbol
    over two subtrees. This is the meaning both parsing modes are measured
    against: a symbol derives a span of the sentence when some tree licensed
    by the grammar's rules has that symbol at its root and the span as its
    yield. */
module Derivation {
  import opened Grammar

  /** `(nt, token)` or `(nt, left, right)`. */
  datatype Tree = Leaf(root: Symbol, token: Symbol) | Node(root: Symbol, left: Tree, right: Tree)

  /** The tokens under a tree, left to right. */
  function Yield(t: Tree): (w: seq<Symbol>)
    ensures |w| >= 1
    ensures t.Leaf? <==> |w| == 1
  {
    match t
    case Leaf(_, token) => [token]
    case Node(_, left, right) => Yield(left) + Yield(right)
  }

  /** Every node of the tree is licensed by a rule of `g`: a leaf by a rule
      `root -> token`, an inner node by a rule `root -> left right`. */
  ghost predicate Valid(g: Pcfg, t: Tree) {
    match t
    case Leaf(a, w) => a in HeadSet(g, [w])
    case Node(a, left, right) =>
      a in HeadSet(g, [left.root, right.root]) && Valid(g, left) && Valid(g, right)
  }

  /** `t` is licensed by `g` using rules whose log scores sum to `s`. A tree
      can have several scores when the file lists a rule more than once. */
  ghost predicate Scored(g: Pcfg, t: Tree, s: real) {
    match t
    case Leaf(a, w) => exists r :: r in RulesFor(g, [w]) && r.lhs == a && s == r.logProb
    case Node(a, left, right) =>
      exists r, s1, s2 :: r in RulesFor(g, [left.root, right.root]) && r.lhs == a
                          && Scored(g, left, s1) && Scored(g, right, s2) && s == r.logProb + s1 + s2
  }

  /** Every licensed tree has a score. */
  lemma {:induction false} ValidHasScore(g: Pcfg, t: Tree)
    requires Valid(g, t)
    ensures exists s :: Scored(g, t, s)
  {
    match t
    case Leaf(a, w) =>
      var r :| r in RulesFor(g, [w]) && r.lhs == a;
      assert Scored(g, t, r.logProb);
    case Node(a, left, right) =>
      ValidHasScore(g, left);
      ValidHasScore(g, right);
      var r :| r in RulesFor(g, [left.root, right.root]) && r.lhs == a;
      var s1 :| Scored(g, left, s1);
      var s2 :| Scored(g, right, s2);
      assert Scored(g, t, r.logProb + s1 + s2);
  }

  /** Every scored tree is licensed. */
  lemma {:induction false} ScoredIsValid(g: Pcfg, t: Tree, s: real)
    requires Scored(g, t, s)
    ensures Valid(g, t)
  {
    match t
    case Leaf(a, w) =>
    case Node(a, left, right) =>
      var r, s1, s2 :| r in RulesFor(g, [left.root, right.root]) && r.lhs == a
                       && Scored(g, left, s1) && Scored(g, right, s2) && s == r.logProb + s1 + s2;
      ScoredIsValid(g, left, s1);
      ScoredIsValid(g, right, s2);
      assert a in HeadSet(g, [left.root, right.root]);
  }

  /** A tree is licensed exactly when it has a score. */
  lemma ValidScored(g: Pcfg, t: Tree)
    ensures Valid(g, t) <==> exists s :: Scored(g, t, s)
  {
    if Valid(g, t) {
      ValidHasScore(g, t);
    }
    if exists s :: Scored(g, t, s) {
      var s :| Scored(g, t, s);
      ScoredIsValid(g, t, s);
    }
  }

  /** Symbol `a` derives the token string `w`. */
  ghost predicate Generates(g: Pcfg, a: Symbol, w: seq<Symbol>) {
    exists t :: Valid(g, t) && t.root == a && Yield(t) == w
  }

  /** Symbol `a` derives the span `tokens[i..j]`. */
  ghost predicate Derives(g: Pcfg, tokens: seq<Symbol>, a: Symbol, i: int, j: int) {
    0 <= i < j <= |tokens| && Generates(g, a, tokens[i..j])
  }

  /** One token is derived exactly by the left-hand symbols of its unit rules. */
  lemma GeneratesUnit(g: Pcfg, a: Symbol, w: Symbol)
    ensures Generates(g, a, [w]) <==> a in HeadSet(g, [w])
  {
    if Generates(g, a, [w]) {
      var t :| Valid(g, t) && t.root == a && Yield(t) == [w];
      assert t.Leaf?;
    }
    if a in HeadSet(g, [w]) {
      assert Valid(g, Leaf(a, w)) && Yield(Leaf(a, w)) == [w];
    }
  }

  /** A derivation of two or more tokens splits at its root. */
  lemma GeneratesSplitOut(g: Pcfg, a: Symbol, w: seq<Symbol>)
    requires |w| >= 2 && Generates(g, a, w)
    ensures exists k, b, c :: 0 < k < |w| && a in HeadSet(g, [b, c])
                              && Generates(g, b, w[..k]) && Generates(g, c, w[k..])
  {
    var t :| Valid(g, t) && t.root == a && Yield(t) == w;
    assert t.Node?;
    var k := |Yield(t.left)|;
    assert w[..k] == Yield(t.left) && w[k..] == Yield(t.right);
    assert Generates(g, t.left.root, w[..k]);
    assert Generates(g, t.right.root, w[k..]);
  }

  /** Derivations of the two sides of a split combine under a rule `a -> b c`. */
  lemma GeneratesJoin(g: Pcfg, a: Symbol, b: Symbol, c: Symbol, w: seq<Symbol>, k: int)
    requires 0 < k < |w| && a in HeadSet(g, [b, c]) && Generates(g, b, w[..k]) && Generates(g, c, w[k..])
    ensures Generates(g, a, w)
  {
    var left :| Valid(g, left) && left.root == b && Yield(left) == w[..k];
    var right :| Valid(g, right) && right.root == c && Yield(right) == w[k..];
    assert w[..k] + w[k..] == w;
    assert Valid(g, Node(a, left, right)) && Yield(Node(a, left, right)) == w;
  }

  /** Two or more tokens are derived by `a` exactly when they split into a
      non-empty prefix derived by some `b` and a non-empty suffix derived by
      some `c` with a rule `a -> b c`. */
  lemma GeneratesSplit(g: Pcfg, a: Symbol, w: seq<Symbol>)
    requires |w| >= 2
    ensures Generates(g, a, w) <==>
              exists k, b, c :: 0 < k < |w| && a in HeadSet(g, [b, c])
                                && Generates(g, b, w[..k]) && Generates(g, c, w[k..])
  {
    if Generates(g, a, w) {
      GeneratesSplitOut(g, a, w);
    }
    if exists k, b, c :: 0 < k < |w| && a in HeadSet(g, [b, c])
                         && Generates(g, b, w[..k]) && Generates(g, c, w[k..]) {
      var k, b, c :| 0 < k < |w| && a in HeadSet(g, [b, c])
                     && Generates(g, b, w[..k]) && Generates(g, c, w[k..]);
      GeneratesJoin(g, a, b, c, w, k);
    }
  }

  /** `GeneratesUnit` on a span of a sentence. */
  lemma DerivesUnit(g: Pcfg, tokens: seq<Symbol>, a: Symbol, i: int)
    requires 0 <= i < |tokens|
    ensures Derives(g, tokens, a, i, i + 1) <==> a in HeadSet(g, [tokens[i]])
  {
    assert tokens[i..i + 1] == [tokens[i]];
    GeneratesUnit(g, a, tokens[i]);
  }

  /** `GeneratesSplit` on a span of a sentence: the split points are the
      positions strictly inside the span. */
  lemma DerivesSplit(g: Pcfg, tokens: seq<Symbol>, a: Symbol, i: int, j: int)
    requires 0 <= i && i + 2 <= j <= |tokens|
    ensures Derives(g, tokens, a, i, j) <==>
              exists k, b, c :: i < k < j && a in HeadSet(g, [b, c])
                                && Derives(g, tokens, b, i, k) && Derives(g, tokens, c, k, j)
  {
    var w := tokens[i..j];
    GeneratesSplit(g, a, w);
    forall k | i < k < j ensures w[..k - i] == tokens[i..k] && w[k - i..] == tokens[k..j] {}
    if Derives(g, tokens, a, i, j) {
      var m, b, c :| 0 < m < |w| && a in HeadSet(g, [b, c])
                     && Generates(g, b, w[..m]) && Generates(g, c, w[m..]);
      assert Derives(g, tokens, b, i, i + m) && Derives(g, tokens, c, i + m, j);
    }
    if exists k, b, c :: i < k < j && a in HeadSet(g, [b, c])
                         && Derives(g, tokens, b, i, k) && Derives(g, tokens, c, k, j) {
      var k, b, c :| i < k < j && a in HeadSet(g, [b, c])
                     && Derives(g, tokens, b, i, k) && Derives(g, tokens, c, k, j);
      assert Generates(g, b, w[..k - i]) && Generates(g, c, w[k - i..]);
    }
  }
}
