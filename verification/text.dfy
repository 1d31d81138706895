/** The handful of Python string operations the grammar loader relies on:
    `str.strip()`, `sep in s`, `s.split(sep)`, `s.rsplit(sep, 1)` and the
    argument-less `s.split()`. Strings are sequences of Unicode scalar values. */
module Text {
  import opened Results

  /** Python's `str.isspace` for a single character. */
  predicate IsSpace(c: char) {
    var n := c as int;
    || n == 0x20 || (0x09 <= n <= 0x0d) || (0x1c <= n <= 0x1f)
    || n == 0x85 || n == 0xa0 || n == 0x1680 || (0x2000 <= n <= 0x200a)
    || n == 0x2028 || n == 0x2029 || n == 0x202f || n == 0x205f || n == 0x3000
  }

  predicate AllSpace(s: string) {
    forall q :: 0 <= q < |s| ==> IsSpace(s[q])
  }

  predicate NoSpace(s: string) {
    forall q :: 0 <= q < |s| ==> !IsSpace(s[q])
  }

  /** Neither end of `s` is white space. */
  predicate Trimmed(s: string) {
    s == [] || (!IsSpace(s[0]) && !IsSpace(s[|s| - 1]))
  }

  /** `s.lstrip()`: drops leading white space (see `TrimLeftSpec`). */
  function TrimLeft(s: string): string
    decreases |s|
  {
    if s != [] && IsSpace(s[0]) then TrimLeft(s[1..]) else s
  }

  /** What `lstrip` leaves is a suffix, the part dropped is white space, and
      the suffix does not start with white space. */
  lemma {:induction false} TrimLeftSpec(s: string)
    ensures var r := TrimLeft(s);
            && |r| <= |s| && r == s[|s| - |r|..]
            && AllSpace(s[..|s| - |r|])
            && (r == [] || !IsSpace(r[0]))
    decreases |s|
  {
    if s != [] && IsSpace(s[0]) {
      TrimLeftSpec(s[1..]);
      var r := TrimLeft(s[1..]);
      assert s[..|s| - |r|] == [s[0]] + s[1..][..|s| - 1 - |r|];
    }
  }

  /** `s.rstrip()`: drops trailing white space (see `TrimRightSpec`). */
  function TrimRight(s: string): string
    decreases |s|
  {
    if s != [] && IsSpace(s[|s| - 1]) then TrimRight(s[..|s| - 1]) else s
  }

  /** What `rstrip` leaves is a prefix, the part dropped is white space, and
      the prefix does not end with white space. */
  lemma {:induction false} TrimRightSpec(s: string)
    ensures var r := TrimRight(s);
            && |r| <= |s| && r == s[..|r|]
            && AllSpace(s[|r|..])
            && (r == [] || !IsSpace(r[|r| - 1]))
    decreases |s|
  {
    if s != [] && IsSpace(s[|s| - 1]) {
      TrimRightSpec(s[..|s| - 1]);
      var r := TrimRight(s[..|s| - 1]);
      assert s[|r|..] == s[..|s| - 1][|r|..] + [s[|s| - 1]];
    }
  }

  /** `s.strip()`: drops leading and trailing white space (see `StripSpec`). */
  function Strip(s: string): (r: string)
    ensures |r| <= |s|
    ensures Trimmed(r)
  {
    TrimLeftSpec(s);
    TrimRightSpec(TrimLeft(s));
    TrimRight(TrimLeft(s))
  }

  /** The stripped text is an infix of `s` framed by white space only. */
  lemma StripSpec(s: string)
    ensures var r := Strip(s);
            exists lead :: 0 <= lead <= |s| - |r| && s[lead..lead + |r|] == r
                           && AllSpace(s[..lead]) && AllSpace(s[lead + |r|..])
  {
    var l := TrimLeft(s);
    var r := TrimRight(l);
    TrimLeftSpec(s);
    TrimRightSpec(l);
    var lead := |s| - |l|;
    assert s[lead..lead + |r|] == r;
    assert s[lead + |r|..] == l[|r|..];
  }

  /** Every character of a string framed as in `Strip` lies in the infix or
      in white space. */
  lemma StripAllSpace(s: string)
    requires AllSpace(s)
    ensures Strip(s) == []
  {
    var r := Strip(s);
    StripSpec(s);
  }

  /** Stripping is idempotent (the loader strips a line twice). */
  lemma StripIdempotent(s: string)
    ensures Strip(Strip(s)) == Strip(s)
  {
    var r := Strip(s);
    assert r != [] ==> TrimLeft(r) == r;
    assert TrimRight(TrimLeft(r)) == TrimLeft(r);
  }

  lemma {:induction false} TrimLeftSkips(ws: string, t: string)
    requires AllSpace(ws) && t != [] && !IsSpace(t[0])
    ensures TrimLeft(ws + t) == t
    decreases |ws|
  {
    if ws == [] {
      assert ws + t == t;
    } else {
      assert (ws + t)[0] == ws[0];
      assert (ws + t)[1..] == ws[1..] + t;
      TrimLeftSkips(ws[1..], t);
    }
  }

  /** Leading white space in front of a non-space character is what `strip`
      removes: the stripped text starts with that character. */
  lemma StripStartsAt(ws: string, c: char, rest: string)
    requires AllSpace(ws) && !IsSpace(c)
    ensures Strip(ws + [c] + rest) != [] && Strip(ws + [c] + rest)[0] == c
  {
    var t := [c] + rest;
    assert ws + [c] + rest == ws + t;
    TrimLeftSkips(ws, t);
    TrimRightSpec(t);
    var r := TrimRight(t);
    assert t[0..] == t;
  }

  predicate OccursAt(s: string, sep: string, p: int) {
    0 <= p && p + |sep| <= |s| && s[p..p + |sep|] == sep
  }

  /** Python's `sep in s`. */
  predicate Contains(s: string, sep: string) {
    exists p :: 0 <= p <= |s| && OccursAt(s, sep, p)
  }

  lemma OccursShift(s: string, sep: string, p: int)
    requires s != [] && p >= 0
    ensures OccursAt(s[1..], sep, p) <==> OccursAt(s, sep, p + 1)
  {
    if 0 <= p && p + 1 + |sep| <= |s| {
      assert s[1..][p..p + |sep|] == s[p + 1..p + 1 + |sep|];
    }
  }

  /** `s.find(sep)`: the first position at which `sep` occurs (see `FindSpec`). */
  function Find(s: string, sep: string): Option<nat>
    decreases |s|
  {
    if |s| < |sep| then None
    else if s[..|sep|] == sep then Some(0)
    else match Find(s[1..], sep)
      case None => None
      case Some(p) => Some(p + 1)
  }

  /** `find` reports an occurrence with none before it, or reports none
      exactly when there is none. */
  lemma {:induction false} FindSpec(s: string, sep: string)
    ensures var r := Find(s, sep);
            && (r.Some? ==> OccursAt(s, sep, r.value))
            && (r.Some? ==> forall q :: 0 <= q < r.value ==> !OccursAt(s, sep, q))
            && (r.None? ==> !Contains(s, sep))
    decreases |s|
  {
    if |s| >= |sep| && s[..|sep|] != sep {
      FindSpec(s[1..], sep);
      forall q | q >= 1
        ensures OccursAt(s, sep, q) <==> OccursAt(s[1..], sep, q - 1)
      {
        OccursShift(s, sep, q - 1);
      }
      assert !OccursAt(s, sep, 0);
    }
  }

  /** A reported position leaves room for the separator. */
  lemma {:induction false} FindBounds(s: string, sep: string)
    ensures Find(s, sep).Some? ==> Find(s, sep).value + |sep| <= |s|
    decreases |s|
  {
    if |s| >= |sep| && s[..|sep|] != sep {
      FindBounds(s[1..], sep);
    }
  }

  /** Concatenation with `sep` between consecutive parts (Python's `sep.join`). */
  function Join(parts: seq<string>, sep: string): string
    requires |parts| >= 1
  {
    if |parts| == 1 then parts[0] else parts[0] + sep + Join(parts[1..], sep)
  }

  /** An occurrence inside a prefix is an occurrence in the whole string. */
  lemma OccursInPrefix(s: string, sep: string, n: int, q: int)
    requires 0 <= n <= |s|
    ensures OccursAt(s[..n], sep, q) ==> OccursAt(s, sep, q)
  {
    if OccursAt(s[..n], sep, q) {
      assert s[..n][q..q + |sep|] == s[q..q + |sep|];
    }
  }

  /** An occurrence inside a suffix is an occurrence in the whole string. */
  lemma OccursInSuffix(s: string, sep: string, n: int, q: int)
    requires 0 <= n <= |s|
    ensures OccursAt(s[n..], sep, q) <==> (q >= 0 && OccursAt(s, sep, n + q))
  {
    if 0 <= q && n + q + |sep| <= |s| {
      assert s[n..][q..q + |sep|] == s[n + q..n + q + |sep|];
    }
  }

  /** `s.split(sep)`: the pieces between the leftmost non-overlapping
      occurrences of `sep` (see `SplitOnSpec`). */
  function SplitOn(s: string, sep: string): (parts: seq<string>)
    requires |sep| > 0
    ensures |parts| >= 1
    decreases |s|
  {
    match Find(s, sep)
    case None => [s]
    case Some(p) =>
      FindBounds(s, sep);
      [s[..p]] + SplitOn(s[p + |sep|..], sep)
  }

  /** One step of `split`: the piece before the leftmost occurrence, then
      the pieces of what follows it. */
  lemma SplitOnStep(s: string, sep: string, p: int)
    requires |sep| > 0 && Find(s, sep) == Some(p)
    ensures 0 <= p && p + |sep| <= |s|
    ensures SplitOn(s, sep) == [s[..p]] + SplitOn(s[p + |sep|..], sep)
  {
    FindBounds(s, sep);
  }

  /** Joining the pieces of `split` back with `sep` gives the string, and no
      piece contains `sep`. */
  lemma {:induction false} SplitOnSpec(s: string, sep: string)
    requires |sep| > 0
    ensures Join(SplitOn(s, sep), sep) == s
    ensures forall q :: 0 <= q < |SplitOn(s, sep)| ==> !Contains(SplitOn(s, sep)[q], sep)
    decreases |s|
  {
    FindSpec(s, sep);
    match Find(s, sep)
    case None =>
    case Some(p) =>
      var rest := SplitOn(s[p + |sep|..], sep);
      SplitOnSpec(s[p + |sep|..], sep);
      assert !Contains(s[..p], sep) by {
        forall q ensures !OccursAt(s[..p], sep, q) {
          OccursInPrefix(s, sep, p, q);
        }
      }
      var parts := [s[..p]] + rest;
      assert parts[1..] == rest;
      assert s == s[..p] + sep + s[p + |sep|..];
  }

  /** When `sep` occurs exactly once, `split` yields the text before and after it. */
  lemma SplitOnlyOccurrence(s: string, sep: string, p: int)
    requires |sep| > 0 && OccursAt(s, sep, p)
    requires forall q :: OccursAt(s, sep, q) ==> q == p
    ensures SplitOn(s, sep) == [s[..p], s[p + |sep|..]]
  {
    assert Find(s, sep) == Some(p) by {
      FindSpec(s, sep);
    }
    var rest := s[p + |sep|..];
    assert !Contains(rest, sep) by {
      forall q ensures !OccursAt(rest, sep, q) {
        OccursInSuffix(s, sep, p + |sep|, q);
      }
    }
    assert SplitOn(rest, sep) == [rest] by {
      FindSpec(rest, sep);
    }
  }

  /** When `sep` does not occur, `split` yields the whole string. */
  lemma SplitAbsent(s: string, sep: string)
    requires |sep| > 0 && !Contains(s, sep)
    ensures SplitOn(s, sep) == [s]
  {
    FindSpec(s, sep);
  }

  /** Two disjoint occurrences of `sep` give at least three pieces. */
  lemma SplitTwice(s: string, sep: string, p: int, q: int)
    requires |sep| > 0 && OccursAt(s, sep, p) && OccursAt(s, sep, q) && p + |sep| <= q
    ensures |SplitOn(s, sep)| >= 3
  {
    assert Find(s, sep).Some? && OccursAt(s, sep, Find(s, sep).value) && Find(s, sep).value <= p by {
      FindSpec(s, sep);
    }
    var p0 := Find(s, sep).value;
    SplitOnStep(s, sep, p0);
    var rest := s[p0 + |sep|..];
    assert OccursAt(rest, sep, q - p0 - |sep|) by {
      OccursInSuffix(s, sep, p0 + |sep|, q - p0 - |sep|);
    }
    assert |SplitOn(rest, sep)| >= 2 by {
      FindSpec(rest, sep);
    }
  }

  /** `s.rsplit(c, 1)` for a one-character separator: the last position of `c`. */
  function FindLast(s: string, c: char): (r: Option<nat>)
    ensures r.Some? ==> r.value < |s| && s[r.value] == c
    ensures r.Some? ==> forall q :: r.value < q < |s| ==> s[q] != c
    ensures r.None? ==> c !in s
    decreases |s|
  {
    if s == [] then None
    else if s[|s| - 1] == c then Some(|s| - 1)
    else
      var r := FindLast(s[..|s| - 1], c);
      assert s == s[..|s| - 1] + [s[|s| - 1]];
      r
  }

  /** Length of the run of non-space characters that starts `s`. */
  function WordLength(s: string): (n: nat)
    ensures n <= |s| && NoSpace(s[..n])
    ensures n < |s| ==> IsSpace(s[n])
    decreases |s|
  {
    if s == [] || IsSpace(s[0]) then 0
    else
      var n := WordLength(s[1..]);
      assert s[..n + 1] == [s[0]] + s[1..][..n];
      n + 1
  }

  /** The characters of `s` that are not white space, in order. */
  function NonSpace(s: string): string
  {
    if s == [] then [] else (if IsSpace(s[0]) then [] else [s[0]]) + NonSpace(s[1..])
  }

  function Concat(ws: seq<string>): string
  {
    if ws == [] then [] else ws[0] + Concat(ws[1..])
  }

  lemma {:induction false} NonSpaceAppend(a: string, b: string)
    ensures NonSpace(a + b) == NonSpace(a) + NonSpace(b)
    decreases |a|
  {
    if a == [] {
      assert a + b == b;
    } else {
      var h := if IsSpace(a[0]) then [] else [a[0]];
      assert (a + b)[0] == a[0];
      assert (a + b)[1..] == a[1..] + b;
      NonSpaceAppend(a[1..], b);
      assert NonSpace(a + b) == h + NonSpace(a[1..] + b);
      assert NonSpace(a) == h + NonSpace(a[1..]);
      assert h + (NonSpace(a[1..]) + NonSpace(b)) == (h + NonSpace(a[1..])) + NonSpace(b);
    }
  }

  lemma {:induction false} NonSpaceOfWord(w: string)
    requires NoSpace(w)
    ensures NonSpace(w) == w
    decreases |w|
  {
    if w != [] {
      NonSpaceOfWord(w[1..]);
    }
  }

  /** `s.split()`: the maximal runs of non-space characters. Every word is
      non-empty and space-free, and the words together hold exactly the
      non-space characters of `s`, in order. */
  function Words(s: string): (ws: seq<string>)
    ensures forall q :: 0 <= q < |ws| ==> ws[q] != [] && NoSpace(ws[q])
    ensures Concat(ws) == NonSpace(s)
    decreases |s|
  {
    if s == [] then []
    else if IsSpace(s[0]) then Words(s[1..])
    else
      var n := WordLength(s);
      var rest := Words(s[n..]);
      assert s == s[..n] + s[n..];
      NonSpaceAppend(s[..n], s[n..]);
      NonSpaceOfWord(s[..n]);
      assert ([s[..n]] + rest)[1..] == rest;
      [s[..n]] + rest
  }

  /** Words joined by single spaces. */
  function Unwords(ws: seq<string>): string
  {
    if ws == [] then [] else if |ws| == 1 then ws[0] else ws[0] + " " + Unwords(ws[1..])
  }

  lemma WordLengthOfWord(w: string, tail: string)
    requires w != [] && NoSpace(w) && (tail == [] || IsSpace(tail[0]))
    ensures WordLength(w + tail) == |w|
  {
    var s := w + tail;
    var n := WordLength(s);
    assert forall q :: 0 <= q < |w| ==> s[q] == w[q];
    assert |w| < |s| ==> s[|w|] == tail[0];
    assert forall q :: 0 <= q < n ==> s[..n][q] == s[q];
  }

  /** A leading word up to white space (or the end) is the first word. */
  lemma WordsCons(w: string, tail: string)
    requires w != [] && NoSpace(w) && (tail == [] || IsSpace(tail[0]))
    ensures Words(w + tail) == [w] + Words(tail)
  {
    var s := w + tail;
    WordLengthOfWord(w, tail);
    assert s[0] == w[0];
    assert s[..|w|] == w;
    assert s[|w|..] == tail;
  }

  /** White space in front of the text adds no words. */
  lemma {:induction false} WordsSkipSpace(sp: string, t: string)
    requires AllSpace(sp)
    ensures Words(sp + t) == Words(t)
    decreases |sp|
  {
    if sp != [] {
      var s := sp + t;
      assert IsSpace(s[0]) && s[1..] == sp[1..] + t;
      assert Words(s) == Words(s[1..]);
      WordsSkipSpace(sp[1..], t);
    } else {
      assert sp + t == t;
    }
  }

  /** A word ends at the first white space: a space-free word, a non-empty run
      of white space and any text split into that word followed by the words
      of the text. With `WordsSkipSpace` and `WordsCons` this fixes `split()`
      on every string, so each word is a maximal run of non-space characters. */
  lemma WordsSpaced(w: string, sp: string, t: string)
    requires w != [] && NoSpace(w) && sp != [] && AllSpace(sp)
    ensures Words(w + sp + t) == [w] + Words(t)
  {
    assert w + sp + t == w + (sp + t);
    assert (sp + t)[0] == sp[0];
    WordsCons(w, sp + t);
    WordsSkipSpace(sp, t);
  }

  /** `split()` undoes joining space-free words with single spaces. */
  lemma {:induction false} WordsOfUnwords(ws: seq<string>)
    requires forall q :: 0 <= q < |ws| ==> ws[q] != [] && NoSpace(ws[q])
    ensures Words(Unwords(ws)) == ws
    decreases |ws|
  {
    if |ws| == 1 {
      WordsCons(ws[0], []);
      assert ws[0] + [] == ws[0];
    } else if |ws| > 1 {
      var u := Unwords(ws[1..]);
      var tail := " " + u;
      assert Unwords(ws) == ws[0] + tail;
      WordsCons(ws[0], tail);
      assert tail[0] == ' ' && tail[1..] == u;
      WordsOfUnwords(ws[1..]);
      assert [ws[0]] + ws[1..] == ws;
    }
  }

  lemma {:induction false} TrimRightSkips(x: string, ws: string)
    requires AllSpace(ws) && x != [] && !IsSpace(x[|x| - 1])
    ensures TrimRight(x + ws) == x
    decreases |ws|
  {
    if ws == [] {
      assert x + ws == x;
    } else {
      var s := x + ws;
      assert s[|s| - 1] == ws[|ws| - 1];
      assert s[..|s| - 1] == x + ws[..|ws| - 1];
      TrimRightSkips(x, ws[..|ws| - 1]);
    }
  }

  /** Text framed by white space strips to itself. */
  lemma StripFramed(ws1: string, x: string, ws2: string)
    requires AllSpace(ws1) && AllSpace(ws2)
    requires Trimmed(x)
    ensures Strip(ws1 + x + ws2) == x
  {
    var s := ws1 + x + ws2;
    if x == [] {
      assert s == ws1 + ws2;
      assert AllSpace(s) by {
        assert forall q :: 0 <= q < |ws1| ==> s[q] == ws1[q];
        assert forall q :: |ws1| <= q < |s| ==> s[q] == ws2[q - |ws1|];
      }
      StripAllSpace(s);
    } else {
      assert s == ws1 + (x + ws2);
      assert (x + ws2)[0] == x[0];
      TrimLeftSkips(ws1, x + ws2);
      TrimRightSkips(x, ws2);
    }
  }

  /** Text without white space at its ends, between two spaces, strips to itself. */
  lemma StripSpaced(x: string)
    requires Trimmed(x)
    ensures Strip(" " + x + " ") == x
  {
    assert AllSpace(" ") by { assert IsSpace(' '); }
    StripFramed(" ", x, " ");
  }

  lemma OccursChar(s: string, c: char, q: int)
    ensures OccursAt(s, [c], q) <==> 0 <= q < |s| && s[q] == c
  {
    if 0 <= q < |s| {
      assert s[q..q + 1] == [s[q]];
    }
  }

  /** A two-character separator that occurs in neither part, and does not
      straddle the seam, does not occur in the concatenation. */
  lemma NoPairAppend(x: string, y: string, c1: char, c2: char)
    requires !Contains(x, [c1, c2]) && !Contains(y, [c1, c2])
    requires x == [] || y == [] || x[|x| - 1] != c1 || y[0] != c2
    ensures !Contains(x + y, [c1, c2])
  {
    var s := x + y;
    var sep := [c1, c2];
    forall q | 0 <= q <= |s| ensures !OccursAt(s, sep, q) {
      if q + 2 <= |x| {
        assert s[q..q + 2] == x[q..q + 2];
        assert !OccursAt(x, sep, q);
      } else if q + 1 == |x| && q + 2 <= |s| {
        assert s[q] == x[|x| - 1] && s[q + 1] == y[0];
        assert s[q..q + 2] == [s[q], s[q + 1]];
      } else if |x| <= q && q + 2 <= |s| {
        assert s[q..q + 2] == y[q - |x|..q - |x| + 2];
        assert !OccursAt(y, sep, q - |x|);
      }
    }
  }

  /** Joining with single spaces introduces no two-character separator that
      avoids the space. */
  lemma {:induction false} UnwordsNoPair(ws: seq<string>, c1: char, c2: char)
    requires c1 != ' ' && c2 != ' '
    requires forall q :: 0 <= q < |ws| ==> !Contains(ws[q], [c1, c2])
    ensures !Contains(Unwords(ws), [c1, c2])
    decreases |ws|
  {
    if |ws| > 1 {
      UnwordsNoPair(ws[1..], c1, c2);
      assert !Contains(" ", [c1, c2]) by {
        forall q | 0 <= q <= 1 ensures !OccursAt(" ", [c1, c2], q) {}
      }
      NoPairAppend(" ", Unwords(ws[1..]), c1, c2);
      NoPairAppend(ws[0], " " + Unwords(ws[1..]), c1, c2);
      assert Unwords(ws) == ws[0] + (" " + Unwords(ws[1..]));
    } else if |ws| == 0 {
      assert forall q | 0 <= q <= 0 :: !OccursAt([], [c1, c2], q);
    }
  }

  /** Joined non-empty space-free words neither start nor end with white space. */
  lemma {:induction false} UnwordsEnds(ws: seq<string>)
    requires forall q :: 0 <= q < |ws| ==> ws[q] != [] && NoSpace(ws[q])
    ensures Trimmed(Unwords(ws))
    ensures ws != [] ==> Unwords(ws) != []
    decreases |ws|
  {
    if |ws| > 1 {
      UnwordsEnds(ws[1..]);
      var u := Unwords(ws);
      var t := Unwords(ws[1..]);
      assert u == ws[0] + " " + t;
      assert u[0] == ws[0][0];
      assert u[|u| - 1] == t[|t| - 1];
    }
  }
}
