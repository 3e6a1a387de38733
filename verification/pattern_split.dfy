/** Splitting a string around the matches of a fixed pattern, as
    `java.util.regex.Pattern.split(CharSequence)` does (limit 0) for the two
    literal patterns the algorithm-name decomposer compiles: "/" and the
    case-insensitive alternation "with|and". */
module PatternSplit {

  type Text = seq<char>

  /** The two patterns of the decomposer: "/" is matched exactly; "with|and"
      is compiled with CASE_INSENSITIVE and without UNICODE_CASE, so only
      US-ASCII letters are folded, and its alternatives are tried in order. */
  datatype Pattern = Slash | WithOrAnd

  /** US-ASCII lower-casing: characters outside 'A'..'Z' are left alone. */
  function ToLowerAscii(c: char): char
  {
    if 'A' <= c <= 'Z' then (c as int - 'A' as int + 'a' as int) as char else c
  }

  /** `a` and `b` have the same length and agree character by character,
      up to US-ASCII case when `ignoreCase` holds. */
  predicate SameText(a: Text, b: Text, ignoreCase: bool)
  {
    && |a| == |b|
    && forall k :: 0 <= k < |a| ==> if ignoreCase then ToLowerAscii(a[k]) == ToLowerAscii(b[k]) else a[k] == b[k]
  }

  /** `lit` occurs in `s` starting at index `i`. */
  predicate OccursAt(s: Text, i: nat, lit: Text, ignoreCase: bool)
  {
    i + |lit| <= |s| && SameText(s[i..i + |lit|], lit, ignoreCase)
  }

  /** Some alternative of `p` occurs in `s` at index `i`. */
  predicate StartsMatch(p: Pattern, s: Text, i: nat)
  {
    match p
    case Slash => OccursAt(s, i, "/", false)
    case WithOrAnd => OccursAt(s, i, "with", true) || OccursAt(s, i, "and", true)
  }

  /** `d` is, as a whole, one of the alternatives of `p`. */
  predicate IsDelimiter(p: Pattern, d: Text)
  {
    match p
    case Slash => d == "/"
    case WithOrAnd => SameText(d, "with", true) || SameText(d, "and", true)
  }

  /** No match of `p` starts anywhere in `t`. */
  predicate DelimiterFree(p: Pattern, t: Text)
  {
    forall j :: 0 <= j < |t| ==> !StartsMatch(p, t, j)
  }

  /** Length of the match of `p` that the regex finds at index `i`: the first
      alternative that occurs there, 0 when none does. */
  function MatchLength(p: Pattern, s: Text, i: nat): (m: nat)
    ensures m > 0 <==> StartsMatch(p, s, i)
    ensures m > 0 ==> i + m <= |s|
  {
    match p
    case Slash => if OccursAt(s, i, "/", false) then 1 else 0
    case WithOrAnd =>
      if OccursAt(s, i, "with", true) then 4
      else if OccursAt(s, i, "and", true) then 3
      else 0
  }

  /** What a match consumes is one whole alternative of the pattern. */
  lemma MatchIsDelimiter(p: Pattern, s: Text, i: nat)
    requires MatchLength(p, s, i) > 0
    ensures IsDelimiter(p, s[i..i + MatchLength(p, s, i)])
  {
    var m := MatchLength(p, s, i);
    if p.Slash? {
      assert s[i..i + m][0] == s[i..i + 1][0];
    }
  }

  /** The tokens between matches, and the matched separators themselves. */
  datatype Pieces = Pieces(tokens: seq<Text>, separators: seq<Text>)

  /** Leftmost scan of `s` from index `i`, the current token having begun at
      `start`: each match closes the current token and scanning resumes after it. */
  function Scan(p: Pattern, s: Text, start: nat, i: nat): (r: Pieces)
    requires start <= i <= |s|
    ensures |r.tokens| == |r.separators| + 1
    decreases |s| - i
  {
    if i == |s| then Pieces([s[start..]], [])
    else
      var m := MatchLength(p, s, i);
      if m > 0 then
        var rest := Scan(p, s, i + m, i + m);
        Pieces([s[start..i]] + rest.tokens, [s[i..i + m]] + rest.separators)
      else
        Scan(p, s, start, i + 1)
  }

  /** All tokens and separators of `s`, empty tokens included. */
  function Split(p: Pattern, s: Text): Pieces
  {
    Scan(p, s, 0, 0)
  }

  /** Removes the empty strings at the end of `xs`. */
  function DropTrailingEmpty(xs: seq<Text>): (r: seq<Text>)
    ensures r <= xs
    ensures r == [] || r[|r| - 1] != []
    ensures forall k :: |r| <= k < |xs| ==> xs[k] == []
  {
    if xs == [] || xs[|xs| - 1] != [] then xs
    else DropTrailingEmpty(xs[..|xs| - 1])
  }

  /** `Pattern.split(s)` with limit 0: the input itself when nothing matches,
      otherwise the tokens with trailing empty strings removed. */
  function JavaSplit(p: Pattern, s: Text): seq<Text>
  {
    var pieces := Split(p, s);
    if pieces.separators == [] then [s] else DropTrailingEmpty(pieces.tokens)
  }

  /** Puts the separators back between the tokens. */
  function Interleave(tokens: seq<Text>, separators: seq<Text>): Text
    requires |tokens| == |separators| + 1
  {
    if separators == [] then tokens[0]
    else tokens[0] + separators[0] + Interleave(tokens[1..], separators[1..])
  }

  /** One step of the scan at a match: the current token is closed and the
      rest of the input is scanned afresh. */
  lemma ScanAtMatch(p: Pattern, s: Text, start: nat, i: nat)
    requires start <= i < |s| && MatchLength(p, s, i) > 0
    ensures var m := MatchLength(p, s, i);
      && Scan(p, s, start, i).tokens == [s[start..i]] + Scan(p, s, i + m, i + m).tokens
      && Scan(p, s, start, i).separators == [s[i..i + m]] + Scan(p, s, i + m, i + m).separators
  {
  }

  /** One step of the scan where no match starts: the current token grows. */
  lemma ScanNoMatch(p: Pattern, s: Text, start: nat, i: nat)
    requires start <= i < |s| && MatchLength(p, s, i) == 0
    ensures Scan(p, s, start, i) == Scan(p, s, start, i + 1)
  {
  }

  /** A stretch in which no match starts only extends the current token. */
  lemma {:induction false} ScanSkip(p: Pattern, s: Text, start: nat, i: nat, k: nat)
    requires start <= i <= k <= |s|
    requires forall j :: i <= j < k ==> MatchLength(p, s, j) == 0
    ensures Scan(p, s, start, i) == Scan(p, s, start, k)
    decreases k - i
  {
    if i < k {
      ScanNoMatch(p, s, start, i);
      ScanSkip(p, s, start, i + 1, k);
    }
  }

  /** Nothing is lost by the scan: tokens and separators rebuild the input. */
  lemma {:induction false} ScanRebuilds(p: Pattern, s: Text, start: nat, i: nat)
    requires start <= i <= |s|
    ensures Interleave(Scan(p, s, start, i).tokens, Scan(p, s, start, i).separators) == s[start..]
    decreases |s| - i
  {
    if i < |s| {
      var m := MatchLength(p, s, i);
      if m > 0 {
        ScanAtMatch(p, s, start, i);
        ScanRebuilds(p, s, i + m, i + m);
        InterleaveCons(s[start..i], s[i..i + m], Scan(p, s, i + m, i + m).tokens, Scan(p, s, i + m, i + m).separators);
        SliceSplit(s, start, i, i + m);
      } else {
        ScanNoMatch(p, s, start, i);
        ScanRebuilds(p, s, start, i + 1);
      }
    }
  }

  lemma SliceSplit(s: Text, a: nat, b: nat, c: nat)
    requires a <= b <= c <= |s|
    ensures s[a..] == s[a..b] + s[b..c] + s[c..]
  {
  }

  lemma InterleaveCons(t: Text, d: Text, tokens: seq<Text>, separators: seq<Text>)
    requires |tokens| == |separators| + 1
    ensures Interleave([t] + tokens, [d] + separators) == t + d + Interleave(tokens, separators)
  {
    assert ([t] + tokens)[1..] == tokens;
    assert ([d] + separators)[1..] == separators;
  }

  /** Splitting then joining the pieces back gives the input. */
  lemma SplitRebuilds(p: Pattern, s: Text)
    ensures Interleave(Split(p, s).tokens, Split(p, s).separators) == s
  {
    ScanRebuilds(p, s, 0, 0);
  }

  /** Every separator the scan reports is a whole match of the pattern. */
  lemma {:induction false} ScanSeparatorsAreDelimiters(p: Pattern, s: Text, start: nat, i: nat)
    requires start <= i <= |s|
    ensures forall d :: d in Scan(p, s, start, i).separators ==> IsDelimiter(p, d)
    decreases |s| - i
  {
    if i < |s| {
      var m := MatchLength(p, s, i);
      if m > 0 {
        MatchIsDelimiter(p, s, i);
        ScanSeparatorsAreDelimiters(p, s, i + m, i + m);
      } else {
        ScanSeparatorsAreDelimiters(p, s, start, i + 1);
      }
    }
  }

  /** An occurrence inside a slice is an occurrence in the whole string. */
  lemma OccursInSlice(s: Text, a: nat, b: nat, j: nat, lit: Text, ignoreCase: bool)
    requires a <= b <= |s|
    requires OccursAt(s[a..b], j, lit, ignoreCase)
    ensures OccursAt(s, a + j, lit, ignoreCase)
  {
    var u, v := s[a..b][j..j + |lit|], s[a + j..a + j + |lit|];
    forall k | 0 <= k < |lit|
      ensures u[k] == v[k]
    {
      assert u[k] == s[a + j + k];
    }
    assert u == v;
  }

  /** A slice in which no match starts is free of delimiters. */
  lemma SliceDelimiterFree(p: Pattern, s: Text, a: nat, b: nat)
    requires a <= b <= |s|
    requires forall j :: a <= j < b ==> MatchLength(p, s, j) == 0
    ensures DelimiterFree(p, s[a..b])
  {
    forall j | 0 <= j < b - a
      ensures StartsMatch(p, s[a..b], j) ==> MatchLength(p, s, a + j) > 0
    {
      if StartsMatch(p, s[a..b], j) {
        match p
        case Slash =>
          OccursInSlice(s, a, b, j, "/", false);
        case WithOrAnd =>
          if OccursAt(s[a..b], j, "with", true) {
            OccursInSlice(s, a, b, j, "with", true);
          } else {
            OccursInSlice(s, a, b, j, "and", true);
          }
      }
    }
  }

  /** Leftmost scanning yields tokens in which no match starts: the scan would
      have stopped at it. */
  lemma {:induction false} ScanTokensDelimiterFree(p: Pattern, s: Text, start: nat, i: nat)
    requires start <= i <= |s|
    requires forall j :: start <= j < i ==> MatchLength(p, s, j) == 0
    ensures forall t :: t in Scan(p, s, start, i).tokens ==> DelimiterFree(p, t)
    decreases |s| - i
  {
    if i == |s| {
      SliceDelimiterFree(p, s, start, i);
      assert s[start..i] == s[start..];
    } else {
      var m := MatchLength(p, s, i);
      if m > 0 {
        SliceDelimiterFree(p, s, start, i);
        ScanTokensDelimiterFree(p, s, i + m, i + m);
      } else {
        ScanTokensDelimiterFree(p, s, start, i + 1);
      }
    }
  }

  /** Every character of `t` is a character of `s`. */
  predicate CharsWithin(t: Text, s: Text)
  {
    forall c :: c in t ==> c in s
  }

  /** Every character of every token is a character of the input. */
  lemma {:induction false} ScanTokensWithin(p: Pattern, s: Text, start: nat, i: nat)
    requires start <= i <= |s|
    ensures forall t :: t in Scan(p, s, start, i).tokens ==> CharsWithin(t, s)
    decreases |s| - i
  {
    if i == |s| {
      assert CharsWithin(s[start..], s);
    } else {
      var m := MatchLength(p, s, i);
      if m > 0 {
        assert CharsWithin(s[start..i], s);
        ScanTokensWithin(p, s, i + m, i + m);
      } else {
        ScanTokensWithin(p, s, start, i + 1);
      }
    }
  }

  /** The strings `Pattern.split` returns are tokens of the scan, and every
      non-empty token of the scan is among them. */
  lemma JavaSplitTokens(p: Pattern, s: Text)
    ensures forall t :: t in JavaSplit(p, s) ==> t in Split(p, s).tokens
    ensures forall t :: t in Split(p, s).tokens && t != [] ==> t in JavaSplit(p, s)
  {
    var pieces := Split(p, s);
    if pieces.separators == [] {
      SplitRebuilds(p, s);
      assert pieces.tokens == [s];
    } else {
      var r := DropTrailingEmpty(pieces.tokens);
      forall t | t in pieces.tokens && t != []
        ensures t in r
      {
        var k :| 0 <= k < |pieces.tokens| && pieces.tokens[k] == t;
        assert k < |r|;
        assert r[k] == t;
      }
    }
  }

  /** The strings `Pattern.split` returns contain no match of the pattern and
      only characters of the input. */
  lemma JavaSplitTokensClean(p: Pattern, s: Text, t: Text)
    requires t in JavaSplit(p, s)
    ensures DelimiterFree(p, t)
    ensures CharsWithin(t, s)
  {
    JavaSplitTokens(p, s);
    ScanTokensDelimiterFree(p, s, 0, 0);
    ScanTokensWithin(p, s, 0, 0);
  }
}
