/** The recognizer `CkyParser.is_in_language`: the CKY table of symbol sets,
    filled bottom-up over span lengths, and the start-symbol test on the
    whole sentence. */
module Membership {
  import opened Results
  import opened Grammar
  import opened Derivation

  /** The module-level `cartesian(x, y)`: every pair with a first component
      from `x` and a second from `y`. */
  function Cartesian(x: set<Symbol>, y: set<Symbol>): (p: set<(Symbol, Symbol)>)
    ensures forall b, c :: (b, c) in p <==> b in x && c in y
  {
    set b, c | b in x && c in y :: (b, c)
  }

  /** `CkyParser.getHead(x)`: the left-hand symbols of the rules for `x`,
      one per rule and in file order, so exactly the symbols of `HeadSet`. */
  function GetHead(g: Pcfg, x: seq<Symbol>): (heads: seq<Symbol>)
    ensures |heads| == |RulesFor(g, x)|
    ensures forall a :: a in heads <==> a in HeadSet(g, x)
  {
    var rs := RulesFor(g, x);
    var heads := seq(|rs|, q requires 0 <= q < |rs| => rs[q].lhs);
    assert forall a :: a in HeadSet(g, x) ==> a in heads by {
      forall a | a in HeadSet(g, x) ensures a in heads {
        var r :| r in rs && r.lhs == a;
        var q :| 0 <= q < |rs| && rs[q] == r;
        assert heads[q] == a;
      }
    }
    heads
  }

  /** The innermost loop: `s[i][j] = s[i][j].union(set(getHead(pair)))` for
      every pair, in whatever order the set yields them. */
  method UnionHeads(g: Pcfg, pairs: set<(Symbol, Symbol)>, acc: set<Symbol>) returns (r: set<Symbol>)
    ensures forall a :: a in r <==> a in acc || exists b, c :: (b, c) in pairs && a in HeadSet(g, [b, c])
  {
    r := acc;
    var rest := pairs;
    while rest != {}
      invariant rest <= pairs
      invariant forall a :: a in r <==>
                  a in acc || exists b, c :: (b, c) in pairs - rest && a in HeadSet(g, [b, c])
      decreases |rest|
    {
      var p :| p in rest;
      r := r + set a | a in GetHead(g, [p.0, p.1]);
      rest := rest - {p};
    }
  }

  /** The spans the table holds once every span shorter than `len`, and the
      first `i0` spans of length `len`, are filled. */
  ghost predicate Filled(s: map<(int, int), set<Symbol>>, n: int, len: int, i0: int) {
    forall i, j :: (i, j) in s <==> 0 <= i < j <= n && (j - i < len || (j - i == len && i < i0))
  }

  /** Every filled cell holds exactly the symbols deriving its span. */
  ghost predicate Correct(g: Pcfg, tokens: seq<Symbol>, s: map<(int, int), set<Symbol>>) {
    forall i, j, a :: (i, j) in s ==> (a in s[(i, j)] <==> Derives(g, tokens, a, i, j))
  }

  /** The symbols the pairs of one split point contribute, read as derivations. */
  lemma SplitContribution(g: Pcfg, tokens: seq<Symbol>, s: map<(int, int), set<Symbol>>, i: int, k: int, j: int, a: Symbol)
    requires Correct(g, tokens, s) && (i, k) in s && (k, j) in s
    ensures (exists b, c :: (b, c) in Cartesian(s[(i, k)], s[(k, j)]) && a in HeadSet(g, [b, c])) <==>
              exists b, c :: a in HeadSet(g, [b, c]) && Derives(g, tokens, b, i, k) && Derives(g, tokens, c, k, j)
  {
  }

  /** The table of `is_in_language`: cell `(i, j)` holds the symbols that
      derive `tokens[i..j]`. */
  method MembershipChart(g: Pcfg, tokens: seq<Symbol>) returns (s: map<(int, int), set<Symbol>>)
    ensures forall i, j :: (i, j) in s <==> 0 <= i < j <= |tokens|
    ensures forall i, j, a :: 0 <= i < j <= |tokens| ==> (a in s[(i, j)] <==> Derives(g, tokens, a, i, j))
  {
    var n := |tokens|;
    s := map[];
    var i := 0;
    while i < n
      invariant 0 <= i <= n
      invariant Filled(s, n, 1, i) && Correct(g, tokens, s)
    {
      forall a ensures a in HeadSet(g, [tokens[i]]) <==> Derives(g, tokens, a, i, i + 1) {
        DerivesUnit(g, tokens, a, i);
      }
      s := s[(i, i + 1) := set a | a in GetHead(g, [tokens[i]])];
      i := i + 1;
    }
    var len := 2;
    while len <= n
      invariant 2 <= len && (len <= n + 1 || len == 2)
      invariant Filled(s, n, len, 0) && Correct(g, tokens, s)
    {
      i := 0;
      while i <= n - len
        invariant 0 <= i <= n - len + 1
        invariant Filled(s, n, len, i) && Correct(g, tokens, s)
      {
        var j := i + len;
        var cur: set<Symbol> := {};
        var k := i + 1;
        while k < j
          invariant i + 1 <= k <= j
          invariant forall a :: a in cur <==>
                      exists m, b, c :: i < m < k && a in HeadSet(g, [b, c])
                                        && Derives(g, tokens, b, i, m) && Derives(g, tokens, c, m, j)
        {
          var cur' := UnionHeads(g, Cartesian(s[(i, k)], s[(k, j)]), cur);
          forall a ensures a in cur' <==>
                      exists m, b, c :: i < m < k + 1 && a in HeadSet(g, [b, c])
                                        && Derives(g, tokens, b, i, m) && Derives(g, tokens, c, m, j) {
            SplitContribution(g, tokens, s, i, k, j, a);
          }
          cur := cur';
          k := k + 1;
        }
        forall a ensures a in cur <==> Derives(g, tokens, a, i, j) {
          DerivesSplit(g, tokens, a, i, j);
        }
        s := s[(i, j) := cur];
        i := i + 1;
      }
      len := len + 1;
    }
  }

  /** A table of spans whose cells hold exactly the deriving symbols. */
  ghost predicate IsMembershipTable(g: Pcfg, tokens: seq<Symbol>, s: map<(int, int), set<Symbol>>) {
    (forall i, j :: (i, j) in s <==> 0 <= i < j <= |tokens|)
    && forall i, j, a :: 0 <= i < j <= |tokens| ==> (a in s[(i, j)] <==> Derives(g, tokens, a, i, j))
  }

  /** The table obeys the CKY recurrence: a single-token cell holds the
      heads of the token's unit rules (none for an unknown token), and a
      longer cell holds `A` exactly when some split `i < k < j`, some `B` in
      cell `(i, k)` and `C` in cell `(k, j)` and a rule `A -> B C` exist. */
  lemma MembershipRecurrence(g: Pcfg, tokens: seq<Symbol>, s: map<(int, int), set<Symbol>>)
    requires IsMembershipTable(g, tokens, s)
    ensures forall i, a :: 0 <= i < |tokens| ==> (a in s[(i, i + 1)] <==> a in HeadSet(g, [tokens[i]]))
    ensures forall i, j, a :: 0 <= i && i + 2 <= j <= |tokens| ==>
              (a in s[(i, j)] <==> exists k, b, c :: i < k < j && b in s[(i, k)] && c in s[(k, j)]
                                                    && a in HeadSet(g, [b, c]))
  {
    forall i, a | 0 <= i < |tokens| ensures a in s[(i, i + 1)] <==> a in HeadSet(g, [tokens[i]]) {
      DerivesUnit(g, tokens, a, i);
    }
    forall i, j, a | 0 <= i && i + 2 <= j <= |tokens|
      ensures a in s[(i, j)] <==> exists k, b, c :: i < k < j && b in s[(i, k)] && c in s[(k, j)]
                                                    && a in HeadSet(g, [b, c])
    {
      DerivesSplit(g, tokens, a, i, j);
    }
  }

  /** A token no unit rule mentions leaves its cell empty: the missing key
      of `rhs_to_rules` reads as no rules, not as an error. */
  lemma UnknownToken(g: Pcfg, tokens: seq<Symbol>, s: map<(int, int), set<Symbol>>, i: int)
    requires IsMembershipTable(g, tokens, s) && 0 <= i < |tokens| && [tokens[i]] !in g.rhsToRules
    ensures s[(i, i + 1)] == {}
  {
    if s[(i, i + 1)] != {} {
      var a :| a in s[(i, i + 1)];
      DerivesUnit(g, tokens, a, i);
      assert false;
    }
  }

  /** Why `is_in_language` cannot answer. */
  datatype RecognizerError =
    | EmptySentence   // `startsymbol in s[0][0]` tests membership in `None`: a `TypeError`

  /** `is_in_language(tokens)`: whether the start symbol derives the whole
      sentence. A grammar without a start line accepts nothing; an empty
      sentence is an error. */
  method IsInLanguage(g: Pcfg, tokens: seq<Symbol>) returns (r: Result<bool, RecognizerError>)
    ensures r.Err? <==> tokens == []
    ensures r.Ok? ==> (r.value <==> g.start.Some? && Generates(g, g.start.value, tokens))
  {
    var s := MembershipChart(g, tokens);
    var n := |tokens|;
    if n == 0 {
      return Err(EmptySentence);
    }
    assert tokens[0..n] == tokens;
    r := Ok(g.start.Some? && g.start.value in s[(0, n)]);
  }
}
