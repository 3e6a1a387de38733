/** The decomposition of a standard algorithm name such as
    "SHA256withRSA/ECB/PKCS1Padding" into the sub-elements that algorithm
    constraints are checked against: the name is split on "/", each piece on a
    case-insensitive "with" or "and", empty tokens are skipped, and the set is
    closed under the five SHA name aliases ("SHA1" and "SHA-1", ...). */
module AlgorithmDecomposer {
  import opened Basics
  import opened PatternSplit

  /** The non-empty "with"/"and" tokens of one "/"-piece. */
  function PieceTokens(piece: Text): set<Text>
  {
    set t | t in JavaSplit(WithOrAnd, piece) && t != []
  }

  /** The tokens contributed by a sequence of "/"-pieces, empty pieces skipped. */
  function TokensOf(pieces: seq<Text>): set<Text>
  {
    set piece, t | piece in pieces && piece != [] && t in PieceTokens(piece) :: t
  }

  /** The elements gathered from the name before any alias is added. */
  function Elements(algorithm: Text): set<Text>
  {
    TokensOf(JavaSplit(Slash, algorithm))
  }

  /** The other spelling of a SHA digest name, if it has one: the dash-less
      form used inside signature names and the dashed form used by message
      digests. */
  function Partner(name: Text): Option<Text>
  {
    if name == "SHA1" then Some("SHA-1")
    else if name == "SHA-1" then Some("SHA1")
    else if name == "SHA224" then Some("SHA-224")
    else if name == "SHA-224" then Some("SHA224")
    else if name == "SHA256" then Some("SHA-256")
    else if name == "SHA-256" then Some("SHA256")
    else if name == "SHA384" then Some("SHA-384")
    else if name == "SHA-384" then Some("SHA384")
    else if name == "SHA512" then Some("SHA-512")
    else if name == "SHA-512" then Some("SHA512")
    else None
  }

  /** The partners of the names in `e`. */
  function Partners(e: set<Text>): set<Text>
  {
    set x | x in e && Partner(x).Some? :: Partner(x).value
  }

  /** Reference definition of the decomposition of a non-null name: its
      tokens together with the alias partners of its tokens. */
  function Decomposition(algorithm: Text): set<Text>
  {
    Elements(algorithm) + Partners(Elements(algorithm))
  }

  /** Aliasing is symmetric. */
  lemma PartnerSymmetric(x: Text)
    requires Partner(x).Some?
    ensures Partner(Partner(x).value) == Some(x)
    ensures Partner(x).value != x
  {
  }

  /** Membership in `Partners(e)` in terms of the partner of the member. */
  lemma PartnersMembership(e: set<Text>, y: Text)
    ensures y in Partners(e) <==> Partner(y).Some? && Partner(y).value in e
  {
    if Partner(y).Some? && Partner(y).value in e {
      PartnerSymmetric(y);
      assert y == Partner(Partner(y).value).value;
    }
    if y in Partners(e) {
      var x :| x in e && Partner(x).Some? && Partner(x).value == y;
      PartnerSymmetric(x);
    }
  }

  /** The empty name splits into one empty piece, which is skipped, so its
      decomposition is empty. */
  lemma EmptyNameHasNoElements()
    ensures Elements([]) == {}
    ensures Decomposition([]) == {}
  {
    assert JavaSplit(Slash, []) == [[]];
  }

  /** Adding one more "/"-piece to the pieces already scanned. */
  lemma TokensOfSnoc(pieces: seq<Text>, piece: Text)
    ensures TokensOf(pieces + [piece]) == TokensOf(pieces) + (if piece != [] then PieceTokens(piece) else {})
  {
  }

  /** The pair of checks the source makes for one alias pair: add `b` when
      only `a` is present, then add `a` when only `b` is present. */
  function AddAlias(e: set<Text>, a: Text, b: Text): (r: set<Text>)
    ensures forall x :: x in r <==> x in e || (x == b && a in e) || (x == a && b in e)
  {
    var e1 := if a in e && b !in e then e + {b} else e;
    if b in e1 && a !in e1 then e1 + {a} else e1
  }

  /** The five alias steps of the source, in order. */
  function CloseAliases(e: set<Text>): set<Text>
  {
    AddAlias(AddAlias(AddAlias(AddAlias(AddAlias(e,
      "SHA1", "SHA-1"), "SHA224", "SHA-224"), "SHA256", "SHA-256"), "SHA384", "SHA-384"), "SHA512", "SHA-512")
  }

  /** A name survives or appears after the alias steps exactly when it was
      there before or its partner was. */
  lemma CloseAliasesMembership(e: set<Text>, y: Text)
    ensures y in CloseAliases(e) <==> y in e || y in Partners(e)
  {
    PartnersMembership(e, y);
  }

  /** The sequential alias steps compute the closed form `e + Partners(e)`. */
  lemma CloseAliasesIsUnion(e: set<Text>)
    ensures CloseAliases(e) == e + Partners(e)
  {
    forall y
      ensures y in CloseAliases(e) <==> y in e + Partners(e)
    {
      CloseAliasesMembership(e, y);
    }
  }

  /** The inner token loop of `decompose`: adds the non-empty `tokens`. */
  method AddNonEmpty(elements: set<Text>, tokens: seq<Text>) returns (r: set<Text>)
    ensures r == elements + set t | t in tokens && t != []
  {
    r := elements;
    for j := 0 to |tokens|
      invariant r == elements + set t | t in tokens[..j] && t != []
    {
      if |tokens[j]| != 0 {
        r := r + {tokens[j]};
      }
    }
    assert tokens[..|tokens|] == tokens;
  }

  /** The outer token loop of `decompose`: every non-empty "with"/"and"
      token of every non-empty "/"-piece is collected. */
  method CollectTokens(name: Text) returns (elements: set<Text>)
    ensures elements == Elements(name)
  {
    var transTokens := JavaSplit(Slash, name);
    elements := {};
    for i := 0 to |transTokens|
      invariant elements == TokensOf(transTokens[..i])
    {
      var transToken := transTokens[i];
      if |transToken| != 0 {
        elements := AddNonEmpty(elements, JavaSplit(WithOrAnd, transToken));
      }
      assert transTokens[..i + 1] == transTokens[..i] + [transToken];
      TokensOfSnoc(transTokens[..i], transToken);
    }
    assert transTokens[..|transTokens|] == transTokens;
  }

  /** `decompose` as written: a null or empty name yields the empty set;
      otherwise the tokens are collected and the five alias pairs are
      completed in order. */
  method Decompose(algorithm: Option<Text>) returns (elements: set<Text>)
    ensures algorithm.None? || algorithm.value == [] ==> elements == {}
    ensures algorithm.Some? ==> elements == Decomposition(algorithm.value)
  {
    if algorithm.None? || |algorithm.value| == 0 {
      EmptyNameHasNoElements();
      return {};
    }
    elements := CollectTokens(algorithm.value);
    CloseAliasesIsUnion(elements);
    elements := CloseAliases(elements);
  }

  /** `lit` occurs somewhere in `t`, up to US-ASCII case. */
  predicate ContainsIgnoringCase(t: Text, lit: Text)
  {
    exists j :: 0 <= j < |t| && OccursAt(t, j, lit, true)
  }

  /** A string with no match of "/" has no '/' character. */
  lemma SlashFreeHasNoSlash(t: Text)
    requires DelimiterFree(Slash, t)
    ensures '/' !in t
  {
    forall j | 0 <= j < |t|
      ensures t[j] != '/'
    {
      assert !StartsMatch(Slash, t, j);
      assert t[j..j + 1][0] == t[j];
    }
  }

  /** Membership in the decomposition, both ways: a token of the name, or
      the alias partner of one. */
  lemma DecompositionMembership(algorithm: Text, x: Text)
    ensures x in Decomposition(algorithm) <==>
      x in Elements(algorithm) || (Partner(x).Some? && Partner(x).value in Elements(algorithm))
  {
    PartnersMembership(Elements(algorithm), x);
  }

  /** An element collected from the name is a non-empty token of a
      non-empty "/"-piece, and every such token is collected and kept by the
      alias steps. */
  lemma SplitTokensKept(algorithm: Text, piece: Text, t: Text)
    requires piece in JavaSplit(Slash, algorithm) && piece != []
    requires t in JavaSplit(WithOrAnd, piece) && t != []
    ensures t in Elements(algorithm) && t in Decomposition(algorithm)
  {
    assert t in PieceTokens(piece);
  }

  /** The decomposition never holds the empty string. */
  lemma NoEmptyElement(algorithm: Text)
    ensures [] !in Decomposition(algorithm)
  {
    DecompositionMembership(algorithm, []);
  }

  /** A collected token contains no '/' and no "with" or "and" in any case. */
  lemma TokensHaveNoDelimiters(algorithm: Text, t: Text)
    requires t in Elements(algorithm)
    ensures '/' !in t
    ensures !ContainsIgnoringCase(t, "with") && !ContainsIgnoringCase(t, "and")
  {
    var piece :| piece in JavaSplit(Slash, algorithm) && piece != [] && t in PieceTokens(piece);
    JavaSplitTokensClean(Slash, algorithm, piece);
    JavaSplitTokensClean(WithOrAnd, piece, t);
    SlashFreeHasNoSlash(piece);
    forall j | 0 <= j < |t|
      ensures !OccursAt(t, j, "with", true) && !OccursAt(t, j, "and", true)
    {
      assert !StartsMatch(WithOrAnd, t, j);
    }
  }

  /** A name with an alias is in the decomposition exactly when its alias is. */
  lemma AliasClosed(algorithm: Text, x: Text)
    requires Partner(x).Some?
    ensures x in Decomposition(algorithm) <==> Partner(x).value in Decomposition(algorithm)
  {
    PartnerSymmetric(x);
    DecompositionMembership(algorithm, x);
    DecompositionMembership(algorithm, Partner(x).value);
  }

  /** Each SHA name is in the decomposition exactly when its other spelling is. */
  lemma AliasPairsClosed(algorithm: Text)
    ensures var d := Decomposition(algorithm);
      && ("SHA1" in d <==> "SHA-1" in d)
      && ("SHA224" in d <==> "SHA-224" in d)
      && ("SHA256" in d <==> "SHA-256" in d)
      && ("SHA384" in d <==> "SHA-384" in d)
      && ("SHA512" in d <==> "SHA-512" in d)
  {
    AliasClosed(algorithm, "SHA1");
    AliasClosed(algorithm, "SHA224");
    AliasClosed(algorithm, "SHA256");
    AliasClosed(algorithm, "SHA384");
    AliasClosed(algorithm, "SHA512");
  }

  /** "SHA1WithRSA" holds no '/', so it is its own only "/"-piece. */
  lemma ExampleSlashSplit()
    ensures JavaSplit(Slash, "SHA1WithRSA") == ["SHA1WithRSA"]
  {
    var name := "SHA1WithRSA";
    forall i | 0 <= i < |name|
      ensures MatchLength(Slash, name, i) == 0
    {
      assert name[i..i + 1][0] == name[i];
    }
    ScanSkip(Slash, name, 0, 0, |name|);
  }

  /** In "SHA1WithRSA" the only match of "with|and" is "With" at index 4. */
  lemma ExampleMatches(i: nat)
    requires i < |"SHA1WithRSA"|
    ensures MatchLength(WithOrAnd, "SHA1WithRSA", i) == (if i == 4 then 4 else 0)
  {
    var name := "SHA1WithRSA";
    if i == 4 {
      assert OccursAt(name, 4, "with", true);
    } else if i == 2 {
      assert name[2..5][1] == '1' && name[2..6][0] == 'A';
    } else if i + 3 <= |name| {
      assert name[i..i + 3][0] == name[i];
      if i + 4 <= |name| {
        assert name[i..i + 4][0] == name[i];
      }
    }
  }

  /** "SHA1WithRSA" splits around "With" into "SHA1" and "RSA". */
  lemma ExampleWithSplit()
    ensures JavaSplit(WithOrAnd, "SHA1WithRSA") == ["SHA1", "RSA"]
  {
    var name := "SHA1WithRSA";
    forall i | 0 <= i < |name| && i != 4
      ensures MatchLength(WithOrAnd, name, i) == 0
    {
      ExampleMatches(i);
    }
    ExampleMatches(4);
    ScanSkip(WithOrAnd, name, 0, 0, 4);
    ScanAtMatch(WithOrAnd, name, 0, 4);
    ScanSkip(WithOrAnd, name, 8, 8, |name|);
    var pieces := Split(WithOrAnd, name);
    assert pieces.tokens == [name[..4], name[8..]];
    assert pieces.separators != [];
    assert name[..4] == "SHA1" && name[8..] == "RSA";
    assert DropTrailingEmpty(pieces.tokens) == pieces.tokens;
  }

  /** A name that is its own only "/"-piece contributes that piece's tokens. */
  lemma SinglePieceElements(name: Text)
    requires name != [] && JavaSplit(Slash, name) == [name]
    ensures Elements(name) == PieceTokens(name)
  {
    TokensOfSnoc([], name);
    assert [] + [name] == [name];
  }

  /** The tokens of "SHA1WithRSA" are "SHA1" and "RSA". */
  lemma ExampleElements()
    ensures Elements("SHA1WithRSA") == {"SHA1", "RSA"}
  {
    var name := "SHA1WithRSA";
    ExampleSlashSplit();
    SinglePieceElements(name);
    ExampleWithSplit();
    var tokens := JavaSplit(WithOrAnd, name);
    forall x
      ensures x in PieceTokens(name) <==> x == "SHA1" || x == "RSA"
    {
      assert x in tokens <==> x == tokens[0] || x == tokens[1];
    }
  }

  /** Of "SHA1" and "RSA", only "SHA1" has an alias. */
  lemma ExamplePartners()
    ensures Partners({"SHA1", "RSA"}) == {"SHA-1"}
  {
    forall x
      ensures x in Partners({"SHA1", "RSA"}) <==> x == "SHA-1"
    {
      PartnersMembership({"SHA1", "RSA"}, x);
    }
  }

  /** The documented example: "SHA1WithRSA" decomposes into "SHA1" and
      "RSA", and the alias rule adds "SHA-1". */
  lemma Sha1WithRsaExample()
    ensures Decomposition("SHA1WithRSA") == {"SHA1", "RSA", "SHA-1"}
  {
    ExampleElements();
    ExamplePartners();
  }
}
