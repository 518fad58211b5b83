/*
 * A model of the annotation facade JStanfordAnnotator: the bracket-escape
 * normalisation `replaceJunk`, the token record `JStanfordAnnotatedToken`,
 * and the loop of `annotate` that reshapes the engine's sentences and tokens
 * into fresh nested lists. The external engine is not modelled: what it
 * reports for a text is a parameter of `Annotate`.
 */
module StanfordAnnotator {

  // ---------------------------------------------------------------------
  // Case-insensitive comparison
  // ---------------------------------------------------------------------

  /** LATIN SMALL LETTER LONG S, whose Java upper-case form is 'S'. */
  const LongS: char := '\U{017F}'

  /**
   * The upper-casing of one character, as far as equality with the six escape
   * tokens can tell: ASCII lower-case letters become capitals, the long s
   * becomes 'S', and any other character is kept. Java's full case mapping
   * sends no other single character to '-', 'L', 'R', 'B', 'S' or 'C'. The
   * characters it expands into several ('ß' to "SS", 'ﬂ' to "FL", 'ﬄ' to
   * "FFL", 'ﬅ' and 'ﬆ' to "ST", and the like) always yield a pair such as "SS"
   * or a letter such as 'F' or 'T' that no token has in that place, so a string
   * holding one of them never equals a token, in Java or here.
   */
  function UpperChar(c: char): char {
    if 'a' <= c <= 'z' then (c as int - 32) as char
    else if c == LongS then 'S'
    else c
  }

  /**
   * The upper-casing of `t` (`t.toUpperCase()`), as far as equality with the
   * six tokens can tell: the same length, every letter in upper case, and each
   * character of the result one that the input's character spells.
   */
  function Upper(t: string): (u: string)
    ensures |u| == |t|
    ensures forall i :: 0 <= i < |t| ==> SpellsChar(t[i], u[i])
    ensures forall i :: 0 <= i < |u| ==> !('a' <= u[i] <= 'z') && u[i] != LongS
  {
    seq(|t|, i requires 0 <= i < |t| => UpperChar(t[i]))
  }

  /**
   * Reference reading of "equal ignoring case": `c` is one of the spellings of
   * the symbol or capital letter `k` -- `k` itself, its lower-case letter, or
   * the long s when `k` is 'S'.
   */
  predicate SpellsChar(c: char, k: char) {
    || c == k
    || ('A' <= k <= 'Z' && c as int == k as int + 32)
    || (k == 'S' && c == LongS)
  }

  /** `t` spells the token `k` letter by letter, in any mix of case. */
  predicate SpellsToken(t: string, k: string) {
    |t| == |k| && forall i :: 0 <= i < |t| ==> SpellsChar(t[i], k[i])
  }

  /** A token written only in capitals and hyphens, as the escape tokens are. */
  predicate IsCapitalToken(k: string) {
    forall i :: 0 <= i < |k| ==> k[i] == '-' || 'A' <= k[i] <= 'Z'
  }

  lemma SpellsCharIffUpper(c: char, k: char)
    requires k == '-' || 'A' <= k <= 'Z'
    ensures SpellsChar(c, k) <==> UpperChar(c) == k
  {
  }

  /** Upper-casing and comparing is the same as spelling the token in any case. */
  lemma {:induction false} SpellsTokenIffUpper(t: string, k: string)
    requires IsCapitalToken(k)
    ensures SpellsToken(t, k) <==> Upper(t) == k
  {
    if SpellsToken(t, k) {
      forall i | 0 <= i < |t| ensures Upper(t)[i] == k[i] {
        SpellsCharIffUpper(t[i], k[i]);
      }
    }
    if Upper(t) == k {
      forall i | 0 <= i < |t| ensures SpellsChar(t[i], k[i]) {
        assert UpperChar(t[i]) == k[i];
        SpellsCharIffUpper(t[i], k[i]);
      }
    }
  }

  // ---------------------------------------------------------------------
  // replaceJunk
  // ---------------------------------------------------------------------

  /** The six Penn-Treebank escape tokens and the bracket each one stands for. */
  const EscapeTable: map<string, char> :=
    map["-LRB-" := '(', "-RRB-" := ')',
        "-LSB-" := '[', "-RSB-" := ']',
        "-LCB-" := '{', "-RCB-" := '}']

  /** The literal brackets the escape tokens stand for. */
  const Brackets: set<char> := EscapeTable.Values

  /** Each of the six brackets is the value of its token in the table. */
  lemma BracketsInTable()
    ensures '(' in Brackets && ')' in Brackets && '[' in Brackets
    ensures ']' in Brackets && '{' in Brackets && '}' in Brackets
  {
    assert EscapeTable["-LRB-"] == '(' && EscapeTable["-RRB-"] == ')';
    assert EscapeTable["-LSB-"] == '[' && EscapeTable["-RSB-"] == ']';
    assert EscapeTable["-LCB-"] == '{' && EscapeTable["-RCB-"] == '}';
  }

  /** `t` is, ignoring case, one of the six escape tokens. */
  predicate IsEscape(t: string) {
    exists k :: k in EscapeTable && SpellsToken(t, k)
  }

  /**
   * `replaceJunk`: an escape token, in any letter case, becomes its literal
   * bracket; every other string comes back as it was.
   */
  function ReplaceJunk(t: string): (r: string)
    ensures r == t || (|r| == 1 && r[0] in Brackets)
  {
    BracketsInTable();
    var u := Upper(t);
    if u == "-LRB-" then "("
    else if u == "-RRB-" then ")"
    else if u == "-LSB-" then "["
    else if u == "-RSB-" then "]"
    else if u == "-LCB-" then "{"
    else if u == "-RCB-" then "}"
    else t
  }

  lemma EscapeKeysAreCapital(k: string)
    requires k in EscapeTable
    ensures IsCapitalToken(k)
  {
  }

  /** Each escape token, in any mix of letter case, is replaced by its bracket. */
  lemma {:induction false} ReplaceJunkUnescapes(t: string, k: string)
    requires k in EscapeTable && SpellsToken(t, k)
    ensures ReplaceJunk(t) == [EscapeTable[k]]
  {
    EscapeKeysAreCapital(k);
    SpellsTokenIffUpper(t, k);
  }

  /** A string that does not spell any escape token is returned unchanged. */
  lemma {:induction false} ReplaceJunkKeepsOthers(t: string)
    requires !IsEscape(t)
    ensures ReplaceJunk(t) == t
  {
    NotSpelled(t, "-LRB-");
    NotSpelled(t, "-RRB-");
    NotSpelled(t, "-LSB-");
    NotSpelled(t, "-RSB-");
    NotSpelled(t, "-LCB-");
    NotSpelled(t, "-RCB-");
  }

  lemma NotSpelled(t: string, k: string)
    requires !IsEscape(t) && k in EscapeTable
    ensures Upper(t) != k
  {
    EscapeKeysAreCapital(k);
    SpellsTokenIffUpper(t, k);
  }

  /**
   * Only a five-character string that begins and ends with a hyphen can be
   * replaced; anything else is kept.
   */
  lemma ReplaceJunkKeepsOtherShapes(t: string)
    requires !(|t| == 5 && t[0] == '-' && t[4] == '-')
    ensures ReplaceJunk(t) == t
  {
    if |t| == 5 {
      assert Upper(t)[0] == UpperChar(t[0]) && Upper(t)[4] == UpperChar(t[4]);
    }
  }

  /** `replaceJunk` changes its argument exactly when the argument is an escape token. */
  lemma {:induction false} ReplaceJunkChangesIffEscape(t: string)
    ensures ReplaceJunk(t) != t <==> IsEscape(t)
  {
    if IsEscape(t) {
      var k :| k in EscapeTable && SpellsToken(t, k);
      ReplaceJunkUnescapes(t, k);
      assert |t| == 5;
    } else {
      ReplaceJunkKeepsOthers(t);
    }
  }

  /** No bracket is itself an escape token, so a second pass changes nothing. */
  lemma {:induction false} ReplaceJunkIdempotent(t: string)
    ensures ReplaceJunk(ReplaceJunk(t)) == ReplaceJunk(t)
  {
    var r := ReplaceJunk(t);
    if r != t {
      assert |Upper(r)| == 1;
    }
  }

  /** Concrete cases: the round-bracket tokens, in any mix of case. */
  lemma RoundBracketExamples()
    ensures ReplaceJunk("-LRB-") == "(" && ReplaceJunk("-lrb-") == "("
    ensures ReplaceJunk("-RRB-") == ")" && ReplaceJunk("-rrb-") == ")"
  {
    ReplaceJunkUnescapes("-LRB-", "-LRB-");
    ReplaceJunkUnescapes("-lrb-", "-LRB-");
    ReplaceJunkUnescapes("-RRB-", "-RRB-");
    ReplaceJunkUnescapes("-rrb-", "-RRB-");
  }

  /** Concrete cases: the square-bracket tokens, in any mix of case. */
  lemma SquareBracketExamples()
    ensures ReplaceJunk("-LSB-") == "[" && ReplaceJunk("-lsb-") == "["
    ensures ReplaceJunk("-RSB-") == "]" && ReplaceJunk("-rsb-") == "]"
  {
    ReplaceJunkUnescapes("-LSB-", "-LSB-");
    ReplaceJunkUnescapes("-lsb-", "-LSB-");
    ReplaceJunkUnescapes("-RSB-", "-RSB-");
    ReplaceJunkUnescapes("-rsb-", "-RSB-");
  }

  /** Concrete cases: the curly-bracket tokens and mixed spellings, the long s included. */
  lemma MixedCaseExamples()
    ensures ReplaceJunk("-Lcb-") == "{" && ReplaceJunk("-rcB-") == "}"
    ensures ReplaceJunk("-rRb-") == ")" && ReplaceJunk("-L\U{017F}b-") == "["
  {
    ReplaceJunkUnescapes("-Lcb-", "-LCB-");
    ReplaceJunkUnescapes("-rcB-", "-RCB-");
    ReplaceJunkUnescapes("-rRb-", "-RRB-");
    ReplaceJunkUnescapes("-L\U{017F}b-", "-LSB-");
  }

  /** Concrete cases: the match is on the whole string, so a token inside a longer string stays. */
  lemma ReplaceJunkWholeStringOnly()
    ensures ReplaceJunk("-LRB-x") == "-LRB-x"
    ensures ReplaceJunk(" -LRB-") == " -LRB-"
    ensures ReplaceJunk("(") == "("
  {
    ReplaceJunkKeepsOtherShapes("-LRB-x");
    ReplaceJunkKeepsOtherShapes(" -LRB-");
    ReplaceJunkKeepsOtherShapes("(");
  }

  // ---------------------------------------------------------------------
  // Tokens
  // ---------------------------------------------------------------------

  /**
   * `JStanfordAnnotatedToken`: an immutable record of four strings; its
   * accessors `word()`, `lemma()`, `pos()` and `ne()` are the destructors
   * `word`, `lemmaForm` (`lemma` is a keyword here), `pos` and `ne`.
   */
  datatype AnnotatedToken = AnnotatedToken(word: string, lemmaForm: string, pos: string, ne: string)

  /** What the engine reports for one token: its text, lemma and part-of-speech tag. */
  datatype EngineToken = EngineToken(text: string, lemmaForm: string, pos: string)

  /** The accessors give back exactly what the constructor was given. */
  lemma TokenAccessors(word: string, lemmaForm: string, pos: string, ne: string)
    ensures AnnotatedToken(word, lemmaForm, pos, ne).word == word
    ensures AnnotatedToken(word, lemmaForm, pos, ne).lemmaForm == lemmaForm
    ensures AnnotatedToken(word, lemmaForm, pos, ne).pos == pos
    ensures AnnotatedToken(word, lemmaForm, pos, ne).ne == ne
  {
  }

  // ---------------------------------------------------------------------
  // annotate
  // ---------------------------------------------------------------------

  /**
   * The record built for one engine token: the tag is copied, the named-entity
   * tag is empty, and the word and the lemma are each the engine's own or a
   * single bracket (`ReshapeOnlyUnescapes` says which).
   */
  function AnnotateToken(e: EngineToken): (r: AnnotatedToken)
    ensures r.pos == e.pos && r.ne == ""
    ensures r.word == e.text || (|r.word| == 1 && r.word[0] in Brackets)
    ensures r.lemmaForm == e.lemmaForm || (|r.lemmaForm| == 1 && r.lemmaForm[0] in Brackets)
  {
    AnnotatedToken(ReplaceJunk(e.text), ReplaceJunk(e.lemmaForm), e.pos, "")
  }

  /** The token list built for one sentence, grown at its end as the loop does. */
  function ReshapeSentence(s: seq<EngineToken>): seq<AnnotatedToken> {
    if s == [] then [] else ReshapeSentence(s[..|s| - 1]) + [AnnotateToken(s[|s| - 1])]
  }

  /** The sentence list built for the engine's whole result. */
  function Reshape(engine: seq<seq<EngineToken>>): seq<seq<AnnotatedToken>> {
    if engine == [] then [] else Reshape(engine[..|engine| - 1]) + [ReshapeSentence(engine[|engine| - 1])]
  }

  /**
   * The reshaping loop of `annotate`, given what the engine reported for the
   * text: one token list per sentence, one record per engine token.
   */
  method Annotate(engine: seq<seq<EngineToken>>) returns (sentences: seq<seq<AnnotatedToken>>)
    ensures sentences == Reshape(engine)
  {
    sentences := [];
    var i := 0;
    while i < |engine|
      invariant 0 <= i <= |engine|
      invariant sentences == Reshape(engine[..i])
    {
      var sentence := engine[i];
      var tokens := [];
      var j := 0;
      while j < |sentence|
        invariant 0 <= j <= |sentence|
        invariant tokens == ReshapeSentence(sentence[..j])
      {
        var token := sentence[j];
        var word := ReplaceJunk(token.text);
        var lemmaForm := ReplaceJunk(token.lemmaForm);
        var pos := token.pos;
        var ne := "";
        tokens := tokens + [AnnotatedToken(word, lemmaForm, pos, ne)];
        assert sentence[..j + 1][..j] == sentence[..j];
        j := j + 1;
      }
      assert sentence[..j] == sentence;
      sentences := sentences + [tokens];
      assert engine[..i + 1][..i] == engine[..i];
      i := i + 1;
    }
    assert engine[..i] == engine;
  }

  /** One record per engine token, in order, each built from that token alone. */
  lemma {:induction false} ReshapeSentenceSpec(s: seq<EngineToken>)
    ensures |ReshapeSentence(s)| == |s|
    ensures forall j :: 0 <= j < |s| ==> ReshapeSentence(s)[j] == AnnotateToken(s[j])
  {
    if s != [] {
      ReshapeSentenceSpec(s[..|s| - 1]);
    }
  }

  /** A token list that agrees with `AnnotateToken` at every position is the reshaped sentence. */
  lemma ReshapeSentenceFrom(s: seq<EngineToken>, tokens: seq<AnnotatedToken>)
    requires |tokens| == |s|
    requires forall j :: 0 <= j < |s| ==> tokens[j] == AnnotateToken(s[j])
    ensures ReshapeSentence(s) == tokens
  {
    ReshapeSentenceSpec(s);
  }

  /**
   * One token list per engine sentence, in the engine's order; each list holds
   * one record per engine token, in order, whose word and lemma are the
   * engine's passed through `ReplaceJunk`, whose tag is the engine's tag and
   * whose named-entity tag is empty.
   */
  lemma {:induction false} ReshapeSpec(engine: seq<seq<EngineToken>>)
    ensures |Reshape(engine)| == |engine|
    ensures forall i :: 0 <= i < |engine| ==> |Reshape(engine)[i]| == |engine[i]|
    ensures forall i, j :: 0 <= i < |engine| && 0 <= j < |engine[i]| ==>
      && Reshape(engine)[i][j].word == ReplaceJunk(engine[i][j].text)
      && Reshape(engine)[i][j].lemmaForm == ReplaceJunk(engine[i][j].lemmaForm)
      && Reshape(engine)[i][j].pos == engine[i][j].pos
      && Reshape(engine)[i][j].ne == ""
  {
    if engine != [] {
      ReshapeSpec(engine[..|engine| - 1]);
      ReshapeSentenceSpec(engine[|engine| - 1]);
    }
    forall i | 0 <= i < |engine| ensures Reshape(engine)[i] == ReshapeSentence(engine[i]) {
      ReshapeAt(engine, i);
    }
    forall i | 0 <= i < |engine| {
      ReshapeSentenceSpec(engine[i]);
    }
  }

  /** The i-th token list is the one built from the engine's i-th sentence. */
  lemma {:induction false} ReshapeAt(engine: seq<seq<EngineToken>>, i: nat)
    requires i < |engine|
    ensures |Reshape(engine)| == |engine|
    ensures Reshape(engine)[i] == ReshapeSentence(engine[i])
  {
    var n := |engine| - 1;
    if i < n {
      ReshapeAt(engine[..n], i);
    } else {
      ReshapeLength(engine[..n]);
    }
  }

  /** Exactly one token list per engine sentence. */
  lemma {:induction false} ReshapeLength(engine: seq<seq<EngineToken>>)
    ensures |Reshape(engine)| == |engine|
  {
    if engine != [] {
      ReshapeLength(engine[..|engine| - 1]);
    }
  }

  /** An empty engine result gives an empty list of sentences. */
  lemma AnnotateEmpty()
    ensures Reshape([]) == []
  {
  }

  /**
   * Reshaping keeps the sentence order: reshaping two consecutive runs of
   * sentences is reshaping each run and concatenating the results.
   */
  lemma {:induction false} ReshapeAppend(a: seq<seq<EngineToken>>, b: seq<seq<EngineToken>>)
    ensures Reshape(a + b) == Reshape(a) + Reshape(b)
  {
    if b != [] {
      var n := |b| - 1;
      assert (a + b)[..|a + b| - 1] == a + b[..n];
      ReshapeAppend(a, b[..n]);
    } else {
      assert a + b == a;
    }
  }

  /** Each output word and lemma is the engine's own, or the bracket its escape stands for. */
  lemma {:induction false} ReshapeOnlyUnescapes(engine: seq<seq<EngineToken>>, i: nat, j: nat)
    requires i < |engine| && j < |engine[i]|
    ensures |Reshape(engine)| == |engine| && |Reshape(engine)[i]| == |engine[i]|
    ensures var tok, e := Reshape(engine)[i][j], engine[i][j];
      && (tok.word == e.text <==> !IsEscape(e.text))
      && (tok.lemmaForm == e.lemmaForm <==> !IsEscape(e.lemmaForm))
      && (tok.word != e.text ==> |tok.word| == 1 && tok.word[0] in Brackets)
      && (tok.lemmaForm != e.lemmaForm ==> |tok.lemmaForm| == 1 && tok.lemmaForm[0] in Brackets)
  {
    ReshapeAt(engine, i);
    ReshapeSentenceSpec(engine[i]);
    ReplaceJunkChangesIffEscape(engine[i][j].text);
    ReplaceJunkChangesIffEscape(engine[i][j].lemmaForm);
  }

  /**
   * "(Hello) [World]" as an engine that escapes brackets reports it (with the
   * lemmas lower-cased, as a lemmatiser does) comes back with literal brackets.
   */
  lemma HelloWorldExample()
    ensures var engine := [[EngineToken("-LRB-", "-lrb-", "-LRB-"),
                            EngineToken("Hello", "hello", "UH"),
                            EngineToken("-RRB-", "-rrb-", "-RRB-"),
                            EngineToken("-LSB-", "-lsb-", "-LRB-"),
                            EngineToken("World", "world", "NNP"),
                            EngineToken("-RSB-", "-rsb-", "-RRB-")]];
      Reshape(engine) == [[AnnotatedToken("(", "(", "-LRB-", ""),
                           AnnotatedToken("Hello", "hello", "UH", ""),
                           AnnotatedToken(")", ")", "-RRB-", ""),
                           AnnotatedToken("[", "[", "-LRB-", ""),
                           AnnotatedToken("World", "world", "NNP", ""),
                           AnnotatedToken("]", "]", "-RRB-", "")]]
  {
    var engine := [[EngineToken("-LRB-", "-lrb-", "-LRB-"),
                    EngineToken("Hello", "hello", "UH"),
                    EngineToken("-RRB-", "-rrb-", "-RRB-"),
                    EngineToken("-LSB-", "-lsb-", "-LRB-"),
                    EngineToken("World", "world", "NNP"),
                    EngineToken("-RSB-", "-rsb-", "-RRB-")]];
    var words := [AnnotatedToken("(", "(", "-LRB-", ""),
                  AnnotatedToken("Hello", "hello", "UH", ""),
                  AnnotatedToken(")", ")", "-RRB-", ""),
                  AnnotatedToken("[", "[", "-LRB-", ""),
                  AnnotatedToken("World", "world", "NNP", ""),
                  AnnotatedToken("]", "]", "-RRB-", "")];
    RoundBracketExamples();
    SquareBracketExamples();
    PlainWordsKept();
    ReshapeAt(engine, 0);
    forall j | 0 <= j < 6 ensures words[j] == AnnotateToken(engine[0][j]) {
      // One case per token: without the split the solver runs out of resource.
      if j == 0 { assert words[0] == AnnotateToken(engine[0][0]); }
      else if j == 1 { assert words[1] == AnnotateToken(engine[0][1]); }
      else if j == 2 { assert words[2] == AnnotateToken(engine[0][2]); }
      else if j == 3 { assert words[3] == AnnotateToken(engine[0][3]); }
      else if j == 4 { assert words[4] == AnnotateToken(engine[0][4]); }
      else { assert words[5] == AnnotateToken(engine[0][5]); }
    }
    ReshapeSentenceFrom(engine[0], words);
    assert Reshape(engine) == [words];
  }

  lemma PlainWordsKept()
    ensures ReplaceJunk("Hello") == "Hello" && ReplaceJunk("hello") == "hello"
    ensures ReplaceJunk("World") == "World" && ReplaceJunk("world") == "world"
  {
    ReplaceJunkKeepsOtherShapes("Hello");
    ReplaceJunkKeepsOtherShapes("hello");
    ReplaceJunkKeepsOtherShapes("World");
    ReplaceJunkKeepsOtherShapes("world");
  }
}
