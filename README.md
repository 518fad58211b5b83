# JStanfordAnnotator, modelled in Dafny

`JStanfordAnnotator` is a thin facade over an external natural-language
pipeline (tokenisation, sentence splitting, part-of-speech tagging,
lemmatisation). It hands a text to the pipeline and copies the result into
plain nested lists of `JStanfordAnnotatedToken` records. On the way, the
token text and the lemma pass through `replaceJunk`. That helper turns the
Penn-Treebank bracket escapes (`-LRB-`, `-RRB-`, `-LSB-`, `-RSB-`, `-LCB-`,
`-RCB-`, matched ignoring case) back into literal brackets.

`annotator.dfy` holds one module, `StanfordAnnotator`, with three parts:

- **Case-insensitive comparison.** `Upper` stands for `t.toUpperCase()`.
  `SpellsToken` is an independent reading of "equal ignoring case": `t`
  spells the capital token `k` letter by letter, in either case.
  `SpellsTokenIffUpper` proves the two agree. Java's upper-casing also maps
  the long s (`ſ`, U+017F) to `S`, so `-Lſb-` is replaced by `[` as well.
  The model keeps that case. No other single character upper-cases to `-`,
  `L`, `R`, `B`, `S` or `C`. Some characters upper-case to several
  (`ß` to `SS`, `ﬂ` to `FL`, `ﬄ` to `FFL`, `ﬅ` and `ﬆ` to `ST`). Each such
  expansion holds `SS`, an `F` or a `T`, which no token has, so a string
  containing one never matches a token. `Upper` keeps those characters as
  they are and still never matches, so the comparison comes out the same.
- **`replaceJunk`.** `ReplaceJunk` follows the source's chain of six
  comparisons. `EscapeTable` is the reference table from token to bracket.
  `IsEscape` says that a string spells one of the table's tokens. The lemmas
  prove the following. An escape in any case gives its bracket. Any other
  string comes back unchanged, including one that only contains a token. The
  result changes exactly when the input is an escape. A second pass changes
  nothing.
- **`annotate`.** The pipeline's analysis is a parameter: a
  `seq<seq<EngineToken>>` with one inner sequence per sentence. Each
  `EngineToken` carries its text, lemma and tag. `Annotate` is the source's
  nested loop, which appends to sequences. It is proved equal to the pure
  function `Reshape`. `ReshapeSpec` states what `Reshape` gives: one list per
  sentence and one record per token, both in the engine's order. Each
  record's word and lemma went through `ReplaceJunk`, its tag is unchanged,
  and its named-entity tag is `""`. The token record is the datatype
  `AnnotatedToken`, and its destructors are the accessors. `lemma` is a
  keyword in Dafny, so the lemma field is named `lemmaForm`.

## Model

| member | source | states |
|---|---|---|
| `StanfordAnnotator.ReplaceJunk` | src/main/java/dhg/nlp/data/JStanfordAnnotator.java:80-88 | the result is either the input itself or a one-character string holding one of the brackets in the escape table (`(`, `)`, `[`, `]`, `{`, `}`) |
| `StanfordAnnotator.Upper` | src/main/java/dhg/nlp/data/JStanfordAnnotator.java:81-86 | `t.toUpperCase()` as far as equality with the six tokens can tell: same length, no lower-case ASCII letter or long s left, each result character one the input's character spells in some case |
| `StanfordAnnotator.SpellsCharIffUpper` | src/main/java/dhg/nlp/data/JStanfordAnnotator.java:81 | for a capital letter or hyphen `k`, a character upper-cases to `k` exactly when it is `k`, its lower-case letter, or (for `S`) the long s |
| `StanfordAnnotator.SpellsTokenIffUpper` | src/main/java/dhg/nlp/data/JStanfordAnnotator.java:81-86 | `t.toUpperCase().equals(k)` holds exactly when `t` spells the capital token `k` letter by letter in any mix of case (both directions) |
| `StanfordAnnotator.ReplaceJunkUnescapes` | src/main/java/dhg/nlp/data/JStanfordAnnotator.java:81-86 | every string that spells one of the six escape tokens, in any case, is replaced by exactly that token's bracket from the table |
| `StanfordAnnotator.ReplaceJunkKeepsOthers` | src/main/java/dhg/nlp/data/JStanfordAnnotator.java:87 | a string that spells none of the six tokens is returned unchanged |
| `StanfordAnnotator.ReplaceJunkKeepsOtherShapes` | src/main/java/dhg/nlp/data/JStanfordAnnotator.java:81-87 | a string that is not five characters long, or does not begin and end with `-`, is returned unchanged |
| `StanfordAnnotator.ReplaceJunkChangesIffEscape` | src/main/java/dhg/nlp/data/JStanfordAnnotator.java:80-88 | `replaceJunk` changes its argument if and only if the argument is one of the six escape tokens ignoring case |
| `StanfordAnnotator.ReplaceJunkIdempotent` | src/main/java/dhg/nlp/data/JStanfordAnnotator.java:80-88 | applying `replaceJunk` twice gives the same as applying it once |
| `StanfordAnnotator.RoundBracketExamples` | src/main/java/dhg/nlp/data/JStanfordAnnotator.java:81-82 | `-LRB-` and `-lrb-` give `(`; `-RRB-` and `-rrb-` give `)` |
| `StanfordAnnotator.SquareBracketExamples` | src/main/java/dhg/nlp/data/JStanfordAnnotator.java:83-84 | `-LSB-` and `-lsb-` give `[`; `-RSB-` and `-rsb-` give `]` |
| `StanfordAnnotator.MixedCaseExamples` | src/main/java/dhg/nlp/data/JStanfordAnnotator.java:81-86 | mixed spellings `-Lcb-`, `-rcB-`, `-rRb-` and `-Lſb-` give `{`, `}`, `)` and `[` |
| `StanfordAnnotator.ReplaceJunkWholeStringOnly` | src/main/java/dhg/nlp/data/JStanfordAnnotator.java:87 | `-LRB-x`, ` -LRB-` and `(` come back unchanged: only the whole string is matched |
| `StanfordAnnotator.PlainWordsKept` | src/main/java/dhg/nlp/data/JStanfordAnnotator.java:87 | ordinary words such as `Hello` and `world` come back unchanged |
| `StanfordAnnotator.TokenAccessors` | src/main/java/dhg/nlp/data/JStanfordAnnotator.java:39-49 | `word()`, `lemma()`, `pos()` and `ne()` return exactly the four values the record was built from |
| `StanfordAnnotator.AnnotateToken` | src/main/java/dhg/nlp/data/JStanfordAnnotator.java:66-72 | the record built for one engine token: the tag is copied, the named-entity tag is `""`, and the word and lemma are each the engine's own or a single bracket |
| `StanfordAnnotator.Annotate` | src/main/java/dhg/nlp/data/JStanfordAnnotator.java:60-77 | the nested loop's result equals `Reshape` of the engine's sentences |
| `StanfordAnnotator.ReshapeSentenceSpec` | src/main/java/dhg/nlp/data/JStanfordAnnotator.java:62-73 | a sentence's list holds one record per engine token, in order, each built from that token alone |
| `StanfordAnnotator.ReshapeAt` | src/main/java/dhg/nlp/data/JStanfordAnnotator.java:61-75 | the i-th output list is the list built from the engine's i-th sentence |
| `StanfordAnnotator.ReshapeLength` | src/main/java/dhg/nlp/data/JStanfordAnnotator.java:61-75 | there is exactly one output list per engine sentence |
| `StanfordAnnotator.ReshapeSpec` | src/main/java/dhg/nlp/data/JStanfordAnnotator.java:60-77 | one list per sentence and one record per token, in the engine's order; word = `replaceJunk(text)`, lemma = `replaceJunk(lemma)`, pos unchanged, ne = `""` |
| `StanfordAnnotator.AnnotateEmpty` | src/main/java/dhg/nlp/data/JStanfordAnnotator.java:60-77 | an engine result with no sentences gives an empty list |
| `StanfordAnnotator.ReshapeAppend` | src/main/java/dhg/nlp/data/JStanfordAnnotator.java:61-75 | reshaping two runs of sentences one after the other gives the two results one after the other: the sentence order is kept |
| `StanfordAnnotator.ReshapeOnlyUnescapes` | src/main/java/dhg/nlp/data/JStanfordAnnotator.java:66-67 | an output word or lemma differs from the engine's exactly when the engine's is an escape token, and then it is a single bracket |
| `StanfordAnnotator.HelloWorldExample` | src/main/java/dhg/nlp/data/JStanfordAnnotator.java:60-77 | the escaped analysis of `(Hello) [World]` comes back with the words `(`, `Hello`, `)`, `[`, `World`, `]` and empty named-entity tags |

## Left out

- The constructor (src/main/java/dhg/nlp/data/JStanfordAnnotator.java:22-31) is not modelled. It builds a `Properties` object and loads statistical model files into the external pipeline. That is file I/O and a foreign library.
- `pipeline.annotate(document)` and the library's `Annotation`, `CoreMap` and `CoreLabel` objects are not modelled. `Annotate` takes what the pipeline reports as a parameter. Tokenisation, sentence splitting, tagging and lemmatisation live in that library.
- Errors raised by the pipeline during analysis are not modelled. The source does not catch them, so they would propagate unchanged.
- Null values are not modelled. `t.toUpperCase()` would throw if the pipeline gave a missing text or lemma. The model's strings are never null.
- The commented-out named-entity reading (lines 26 and 69) is not modelled. `ne` is always `""`, as in the source.
- `Upper` does not model Java's full Unicode and locale upper-casing. It maps ASCII `a`-`z` and the long s, and keeps every other character at length one. Java also changes other letters, and expands some into several (`ß` to `SS`, `ﬂ` to `FL`, `ﬄ` to `FFL`, `ﬅ` and `ﬆ` to `ST`). None of those results can be a token letter in its place, so `ReplaceJunk` gives the source's results. The model does not give the true upper-case string for such input.
- Fresh `ArrayList` allocation and ownership are not modelled. The result is a Dafny value, so it cannot alias the engine's state.
