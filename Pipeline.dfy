/** The per-article step of the driver: an article with fewer than 100
    words is skipped; otherwise its keywords are selected and its bias is
    scored. */
module Pipeline {
  import opened PyStrings
  import opened Extraction
  import opened Keywords
  import opened BiasScoring

  /** Articles with fewer words than this are not analysed. */
  const MinArticleWords: nat := 100

  /** What is reported for an analysed article. */
  datatype Analysis<S> = Analysis(keywords: seq<(S, string)>, bias: BiasReport)

  /** Analyse one extracted article. `ranked` stands for RAKE's ranked
      `(score, phrase)` list for `text`, which a foreign library computes.
      The gate counts the words of the text as extracted; the scorer
      counts those of the normalised text. */
  method AnalyseArticle<S>(lex: Lexicon, text: string, ranked: seq<(S, string)>)
    returns (result: Option<Analysis<S>>)
    ensures result.None? <==> WordCount(text) < MinArticleWords
    ensures result.Some? ==> result.value.keywords == TopKeywords(ranked)
    ensures result.Some? ==> result.value.bias.matches == MatchesOf(lex, Normalize(text))
    ensures result.Some? ==> result.value.bias.score == SumOfMatches(result.value.bias.matches)
    ensures result.Some? ==> result.value.bias.score == LexiconScore(lex, Normalize(text))
    ensures result.Some? ==> result.value.bias.totalWords == WordCount(Normalize(text))
    ensures result.Some? ==> result.value.bias.density == Density(result.value.bias.score, result.value.bias.totalWords)
  {
    if |Split(text)| < MinArticleWords {
      return None;
    }
    var keywords := TopKeywords(ranked);
    var bias := CalculateBiasScore(lex, text);
    result := Some(Analysis(keywords, bias));
  }

  /** Passing the gate does not promise any words to score: a text made of
      whitespace and punctuation alone, however many tokens it has,
      normalises to no words at all, and its density is 0. */
  lemma PunctuationOnlyTextHasNoWords(text: string)
    requires forall i :: 0 <= i < |text| ==> IsSpace(text[i]) || IsPunctuation(text[i])
    ensures WordCount(Normalize(text)) == 0
    ensures Density(SumOfMatches(MatchesOf(BiasLexicon, Normalize(text))), WordCount(Normalize(text))) == Ratio(0, 1)
  {
    var low := Lower(text);
    forall i | 0 <= i < |low| ensures IsSpace(low[i]) || IsPunctuation(low[i]) {
      assert low[i] == LowerChar(text[i]);
    }
    RemovePunctuationKeepsOnly(low);
    SplitAllSpace(Normalize(text));
  }

  /** `n` tokens "!" separated by spaces: "! ! ! ... ". */
  function Exclamations(n: nat): (s: string)
    ensures |s| == 2 * n
    ensures forall i :: 0 <= i < |s| ==> s[i] == (if i % 2 == 0 then '!' else ' ')
  {
    if n == 0 then [] else ['!', ' '] + Exclamations(n - 1)
  }

  lemma {:induction false} ExclamationsWordCount(n: nat)
    ensures WordCount(Exclamations(n)) == n
  {
    if n > 0 {
      ExclamationsWordCount(n - 1);
      assert Exclamations(n) == ['!'] + [' '] + Exclamations(n - 1);
      SplitAroundSpace(['!'], ' ', Exclamations(n - 1));
      SplitWord(['!']);
    }
  }

  /** A witness that such text exists: `n >= 100` exclamation marks
      separated by spaces pass the word gate, yet leave nothing to score. */
  lemma ExclamationsPassGateWithoutWords(n: nat)
    requires n >= MinArticleWords
    ensures WordCount(Exclamations(n)) >= MinArticleWords
    ensures WordCount(Normalize(Exclamations(n))) == 0
    ensures Density(SumOfMatches(MatchesOf(BiasLexicon, Normalize(Exclamations(n)))),
                    WordCount(Normalize(Exclamations(n)))) == Ratio(0, 1)
  {
    var text := Exclamations(n);
    ExclamationsWordCount(n);
    forall i | 0 <= i < |text| ensures IsSpace(text[i]) || IsPunctuation(text[i]) {
      assert text[i] == '!' || text[i] == ' ';
    }
    PunctuationOnlyTextHasNoWords(text);
  }
}
