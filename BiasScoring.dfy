/** The lexicon-based bias scorer: normalise the text, count every lexicon
    phrase in it, accumulate a weighted score, and scale the score to a
    density per 100 words. */
module BiasScoring {
  import opened PyStrings

  /** The phrase -> weight table, in the table's iteration order. */
  type Lexicon = seq<(string, int)>

  /** One matched phrase with its number of occurrences and its weight. */
  datatype BiasMatch = BiasMatch(phrase: string, count: nat, weight: int)

  /** An exact fraction `num / den`. */
  datatype Ratio = Ratio(num: int, den: nat)

  /** What one scoring produces: the matches, the raw score, the number of
      words of the normalised text and the density per 100 words. */
  datatype BiasReport = BiasReport(matches: seq<BiasMatch>, score: int, totalWords: nat, density: Ratio)

  /** Python's `string.punctuation`: the 32 printable ASCII characters that
      are neither letters, digits nor whitespace. */
  const Punctuation: string := "!\"#$%&'()*+,-./:;<=>?@[\\]^_`{|}~"

  /** Membership in `string.punctuation`, by the four ASCII ranges it
      consists of. */
  predicate IsPunctuation(c: char)
  {
    ('!' <= c <= '/') || (':' <= c <= '@') || ('[' <= c <= '`') || ('{' <= c <= '~')
  }

  /** The ranges are exactly the characters of `string.punctuation`. */
  lemma PunctuationRanges(c: char)
    ensures IsPunctuation(c) <==> c in Punctuation
  {
  }

  /** The lexicon shipped with the tool, in its declaration order. It is
      written in three consecutive parts only to keep proofs about
      individual entries small. */
  const BiasLexicon: Lexicon := Qualifiers + LoadedTerms + AttributionPhrases

  /** Every entry of a table has a non-empty phrase and a weight in -1..2. */
  ghost predicate WellFormedEntries(lex: Lexicon)
  {
    forall k :: 0 <= k < |lex| ==> lex[k].0 != [] && -1 <= lex[k].1 <= 2
  }

  /** The shipped table has 73 entries, each with a non-empty phrase and a
      weight between -1 and 2, and no phrase occurs twice (they are the keys
      of a dictionary); so empty text scores nothing with it. */
  lemma BiasLexiconWellFormed()
    ensures |BiasLexicon| == 73
    ensures WellFormedEntries(BiasLexicon)
    ensures DistinctPhrases(BiasLexicon)
    ensures MatchesOf(BiasLexicon, Normalize("")) == []
  {
    BiasLexiconDistinct();
    QualifiersWellFormed();
    LoadedTermsWellFormed();
    AttributionPhrasesWellFormed();
    WellFormedAppend(Qualifiers, LoadedTerms);
    WellFormedAppend(Qualifiers + LoadedTerms, AttributionPhrases);
    EmptyTextScoresZero(BiasLexicon);
  }

  lemma QualifiersWellFormed()
    ensures WellFormedEntries(Qualifiers)
  {
  }

  lemma LoadedTermsWellFormed()
    ensures WellFormedEntries(LoadedTerms)
  {
  }

  lemma AttributionPhrasesWellFormed()
    ensures WellFormedEntries(AttributionPhrases)
  {
  }

  /** No phrase of the shipped table occurs twice. */
  lemma BiasLexiconDistinct()
    ensures DistinctPhrases(BiasLexicon)
  {
    QualifiersDistinct();
    LoadedTermsDistinct();
    AttributionPhrasesDistinct();
    QualifiersApartFromLoadedTerms();
    QualifiersApartFromAttributionPhrases();
    LoadedTermsApartFromAttributionPhrases();
    DistinctAppend(Qualifiers, LoadedTerms);
    var front := Qualifiers + LoadedTerms;
    forall j, k | 0 <= j < |front| && 0 <= k < |AttributionPhrases|
      ensures front[j].0 != AttributionPhrases[k].0
    {
      if j < |Qualifiers| {
        assert front[j] == Qualifiers[j];
      } else {
        assert front[j] == LoadedTerms[j - |Qualifiers|];
      }
    }
    DistinctAppend(front, AttributionPhrases);
  }

  lemma QualifiersDistinct()
    ensures DistinctPhrases(Qualifiers)
  {
    forall j, k | 0 <= j < k < |Qualifiers| ensures Qualifiers[j].0 != Qualifiers[k].0 {
      if k < 10 {
      } else if k < 20 {
        if j < 10 {} else {}
      } else if j < 10 {
      } else if j < 20 {
      } else {
      }
    }
  }

  lemma LoadedTermsDistinct()
    ensures DistinctPhrases(LoadedTerms)
  {
    forall j, k | 0 <= j < k < |LoadedTerms| ensures LoadedTerms[j].0 != LoadedTerms[k].0 {
      if k < 10 {
      } else if k < 20 {
        if j < 10 {} else {}
      } else if j < 10 {
      } else if j < 20 {
      } else {
      }
    }
  }

  lemma AttributionPhrasesDistinct()
    ensures DistinctPhrases(AttributionPhrases)
  {
    forall j, k | 0 <= j < k < |AttributionPhrases| ensures AttributionPhrases[j].0 != AttributionPhrases[k].0 {
      if k < 10 {
      } else if k < 20 {
        if j < 10 {} else {}
      } else if j < 10 {
      } else if j < 20 {
      } else {
      }
    }
  }

  lemma QualifiersApartFromLoadedTerms()
    ensures forall j, k :: 0 <= j < |Qualifiers| && 0 <= k < |LoadedTerms| ==>
      Qualifiers[j].0 != LoadedTerms[k].0
  {
  }

  lemma QualifiersApartFromAttributionPhrases()
    ensures forall j, k :: 0 <= j < |Qualifiers| && 0 <= k < |AttributionPhrases| ==>
      Qualifiers[j].0 != AttributionPhrases[k].0
  {
  }

  lemma LoadedTermsApartFromAttributionPhrases()
    ensures forall j, k :: 0 <= j < |LoadedTerms| && 0 <= k < |AttributionPhrases| ==>
      LoadedTerms[j].0 != AttributionPhrases[k].0
  {
  }

  /** Two tables of distinct phrases that share no phrase make one. */
  lemma DistinctAppend(a: Lexicon, b: Lexicon)
    requires DistinctPhrases(a) && DistinctPhrases(b)
    requires forall j, k :: 0 <= j < |a| && 0 <= k < |b| ==> a[j].0 != b[k].0
    ensures DistinctPhrases(a + b)
  {
    forall j, k | 0 <= j < k < |a + b| ensures (a + b)[j].0 != (a + b)[k].0 {
      if k < |a| {
        assert (a + b)[j] == a[j] && (a + b)[k] == a[k];
      } else if j < |a| {
        assert (a + b)[j] == a[j] && (a + b)[k] == b[k - |a|];
      } else {
        assert (a + b)[j] == b[j - |a|] && (a + b)[k] == b[k - |a|];
      }
    }
  }

  lemma WellFormedAppend(a: Lexicon, b: Lexicon)
    requires WellFormedEntries(a) && WellFormedEntries(b)
    ensures WellFormedEntries(a + b)
  {
    forall k | 0 <= k < |a + b| ensures (a + b)[k].0 != [] && -1 <= (a + b)[k].1 <= 2 {
      if k < |a| {
        assert (a + b)[k] == a[k];
      } else {
        assert (a + b)[k] == b[k - |a|];
      }
    }
  }

  /** Hedging and intensifying words, from "allegedly" to "neutral". */
  const Qualifiers: Lexicon := [
    ("allegedly", 1),
    ("apparently", 1),
    ("claims", 1),
    ("supposedly", 1),
    ("reportedly", 1),
    ("so-called", 1),
    ("admittedly", 1),
    ("arguably", 1),
    ("undeniable", 1),
    ("clearly", 1),
    ("just", 1),
    ("only", 1),
    ("even", 1),
    ("naturally", 1),
    ("of course", 1),
    ("fortunately", 1),
    ("unfortunately", 1),
    ("notably", 1),
    ("remarkably", 1),
    ("significantly", 1),
    ("shocking", 1),
    ("important", 1),
    ("controversial", 1),
    ("disputed", 1),
    ("debated", 1),
    ("biased", 1),
    ("unbiased", -1),
    ("neutral", -1)
  ]

  /** Politically loaded words, from "terrorist" to "truth". */
  const LoadedTerms: Lexicon := [
    ("terrorist", 2),
    ("freedom", -1),
    ("regime", 2),
    ("heroic", -1),
    ("tyrant", 2),
    ("corrupt", 2),
    ("elite", 1),
    ("grassroots", -1),
    ("authoritarian", 2),
    ("patriot", -1),
    ("enemy", 1),
    ("scandal", 2),
    ("agenda", 1),
    ("radical", 2),
    ("extremist", 2),
    ("fascist", 2),
    ("communist", 2),
    ("capitalist", 2),
    ("manipulate", 2),
    ("mislead", 2),
    ("spin", 1),
    ("objective", -1),
    ("fair", -1),
    ("balanced", -1),
    ("fact", -1),
    ("truth", -1)
  ]

  /** Attribution phrases and hedges, from "admits" to "acknowledged". */
  const AttributionPhrases: Lexicon := [
    ("admits", 1),
    ("refuses to comment", 1),
    ("shocking revelation", 2),
    ("critics say", 1),
    ("supporters claim", 1),
    ("according to unnamed sources", 2),
    ("is widely regarded as", 1),
    ("has been accused of", 2),
    ("is known for", 1),
    ("self-described", 1),
    ("repeatedly stated", 1),
    ("makes the case that", 1),
    ("alleged", 1),
    ("purported", 1),
    ("reputed", 1),
    ("presumably", 1),
    ("some believe", 1),
    ("others argue", 1),
    ("acknowledged", 1)
  ]

  // ---------------------------------------------------------------------
  // Normalisation: lower-case, then delete every punctuation character
  // ---------------------------------------------------------------------

  /** `s.translate(str.maketrans('', '', string.punctuation))`. */
  function RemovePunctuation(s: string): (r: string)
    ensures forall i :: 0 <= i < |r| ==> !IsPunctuation(r[i])
    ensures forall c :: multiset(r)[c] == if IsPunctuation(c) then 0 else multiset(s)[c]
    ensures |r| <= |s|
    ensures (forall i :: 0 <= i < |s| ==> !IsPunctuation(s[i])) ==> r == s
  {
    if s == [] then []
    else
      var rest := RemovePunctuation(s[1..]);
      assert multiset(s) == multiset{s[0]} + multiset(s[1..]) by {
        assert s == [s[0]] + s[1..];
      }
      if IsPunctuation(s[0]) then rest
      else
        assert multiset([s[0]] + rest) == multiset{s[0]} + multiset(rest);
        [s[0]] + rest
  }

  /** Text made only of whitespace and punctuation keeps only its
      whitespace. */
  lemma {:induction false} RemovePunctuationKeepsOnly(s: string)
    requires forall i :: 0 <= i < |s| ==> IsSpace(s[i]) || IsPunctuation(s[i])
    ensures AllSpace(RemovePunctuation(s))
  {
    if s != [] {
      RemovePunctuationKeepsOnly(s[1..]);
    }
  }

  /** Punctuation is deleted character by character, so the characters
      that remain keep their order. */
  lemma {:induction false} RemovePunctuationAppend(a: string, b: string)
    ensures RemovePunctuation(a + b) == RemovePunctuation(a) + RemovePunctuation(b)
  {
    if a == [] {
      assert a + b == b;
    } else {
      assert (a + b)[0] == a[0];
      assert (a + b)[1..] == a[1..] + b;
      RemovePunctuationAppend(a[1..], b);
    }
  }

  /** The text the lexicon is matched against and whose words are counted:
      it holds no punctuation and no upper-case ASCII letter, and for text
      without capitals normalising only deletes the punctuation. */
  function Normalize(text: string): (n: string)
    ensures |n| <= |text|
    ensures forall i :: 0 <= i < |n| ==> !IsPunctuation(n[i]) && !IsUpperAscii(n[i])
    ensures (forall i :: 0 <= i < |text| ==> !IsUpperAscii(text[i])) ==> n == RemovePunctuation(text)
  {
    RemovePunctuationKeepsLower(Lower(text));
    assert (forall i :: 0 <= i < |text| ==> !IsUpperAscii(text[i])) ==> Lower(text) == text;
    RemovePunctuation(Lower(text))
  }

  /** Matching ignores case: lower-casing the text first changes nothing. */
  lemma NormalizeLower(text: string)
    ensures Normalize(Lower(text)) == Normalize(text)
  {
    assert Lower(Lower(text)) == Lower(text);
  }

  /** Normalised text holds no punctuation and no upper-case ASCII letter,
      and normalising it again changes nothing. */
  lemma {:induction false} NormalizeIsClean(text: string)
    ensures forall i :: 0 <= i < |Normalize(text)| ==>
      !IsPunctuation(Normalize(text)[i]) && !IsUpperAscii(Normalize(text)[i])
    ensures Normalize(Normalize(text)) == Normalize(text)
  {
    var n := Normalize(text);
    RemovePunctuationKeepsLower(Lower(text));
    assert Lower(n) == n;
  }

  lemma {:induction false} RemovePunctuationKeepsLower(s: string)
    requires forall i :: 0 <= i < |s| ==> !IsUpperAscii(s[i])
    ensures forall i :: 0 <= i < |RemovePunctuation(s)| ==> !IsUpperAscii(RemovePunctuation(s)[i])
  {
    if s != [] {
      RemovePunctuationKeepsLower(s[1..]);
    }
  }

  lemma {:induction false} LowerKeepsWordStarts(s: string, afterSpace: bool)
    ensures WordStarts(Lower(s), afterSpace) == WordStarts(s, afterSpace)
  {
    if s != [] {
      assert Lower(s)[1..] == Lower(s[1..]);
      LowerKeepsWordStarts(s[1..], IsSpace(s[0]));
    }
  }

  lemma {:induction false} RemovePunctuationWordStarts(s: string, afterSpace: bool)
    ensures WordStarts(RemovePunctuation(s), afterSpace) <= WordStarts(s, afterSpace)
  {
    if s != [] {
      if IsPunctuation(s[0]) {
        RemovePunctuationWordStarts(s[1..], afterSpace);
        WordStartsAfterSpace(s[1..]);
      } else {
        RemovePunctuationWordStarts(s[1..], IsSpace(s[0]));
        assert RemovePunctuation(s) == [s[0]] + RemovePunctuation(s[1..]);
        assert ([s[0]] + RemovePunctuation(s[1..]))[1..] == RemovePunctuation(s[1..]);
      }
    }
  }

  /** Normalising never adds a word: lower-casing keeps every token, and
      deleting punctuation can only shorten tokens or remove those made of
      punctuation alone. */
  lemma NormalizeNoMoreWords(text: string)
    ensures WordCount(Normalize(text)) <= WordCount(text)
  {
    SplitCountsWordStarts(text);
    SplitCountsWordStarts(Normalize(text));
    LowerKeepsWordStarts(text, true);
    RemovePunctuationWordStarts(Lower(text), true);
  }

  // ---------------------------------------------------------------------
  // Specification of the scoring loop
  // ---------------------------------------------------------------------

  /** The matches recorded for `lex` over the normalised text `norm`: one
      per phrase found at least once, in lexicon order. */
  function MatchesOf(lex: Lexicon, norm: string): (ms: seq<BiasMatch>)
    ensures |ms| <= |lex|
    ensures forall k :: 0 <= k < |ms| ==> ms[k].count > 0 && ms[k].count == CountMatches(ms[k].phrase, norm)
  {
    if lex == [] then []
    else MatchesOf(lex[..|lex| - 1], norm) + EntryMatch(lex[|lex| - 1], norm)
  }

  /** Scoring one more lexicon entry appends that entry's match. */
  lemma MatchesOfStep(lex: Lexicon, i: nat, norm: string)
    requires i < |lex|
    ensures MatchesOf(lex[..i + 1], norm) == MatchesOf(lex[..i], norm) + EntryMatch(lex[i], norm)
  {
    assert lex[..i + 1][..i] == lex[..i];
  }

  /** The match one lexicon entry contributes: none when it is not found. */
  function EntryMatch(entry: (string, int), norm: string): seq<BiasMatch>
  {
    var count := CountMatches(entry.0, norm);
    if count > 0 then [BiasMatch(entry.0, count, entry.1)] else []
  }

  /** Sum of `count * weight` over a list of matches. */
  function SumOfMatches(ms: seq<BiasMatch>): int
  {
    if ms == [] then 0
    else SumOfMatches(ms[..|ms| - 1]) + ms[|ms| - 1].count * ms[|ms| - 1].weight
  }

  /** Sum over every lexicon entry of its count times its weight. */
  function LexiconScore(lex: Lexicon, norm: string): int
  {
    if lex == [] then 0
    else
      LexiconScore(lex[..|lex| - 1], norm)
      + CountMatches(lex[|lex| - 1].0, norm) * lex[|lex| - 1].1
  }

  /** The density `score / totalWords * 100` as an exact fraction, and 0
      when there are no words. */
  function Density(score: int, totalWords: nat): (d: Ratio)
    ensures d.den > 0
    ensures totalWords == 0 ==> d.num == 0
    ensures totalWords > 0 ==> d.num * totalWords == score * 100 * d.den
    ensures d.num < 0 <==> totalWords > 0 && score < 0
  {
    if totalWords > 0 then Ratio(score * 100, totalWords) else Ratio(0, 1)
  }

  // ---------------------------------------------------------------------
  // The scorer
  // ---------------------------------------------------------------------

  /** `calculate_bias_score`, with the lexicon passed in. Returns the whole
      report; the source returns only the (rounded) density and prints the
      matches and the raw score. */
  method CalculateBiasScore(lex: Lexicon, text: string) returns (report: BiasReport)
    ensures report.matches == MatchesOf(lex, Normalize(text))
    ensures report.score == SumOfMatches(report.matches)
    ensures report.totalWords == WordCount(Normalize(text))
    ensures report.density == Density(report.score, report.totalWords)
    ensures report.score == LexiconScore(lex, Normalize(text))
  {
    var score := 0;
    var matches: seq<BiasMatch> := [];
    var normalized := Normalize(text);
    for i := 0 to |lex|
      invariant matches == MatchesOf(lex[..i], normalized)
      invariant score == SumOfMatches(matches)
    {
      var phrase := lex[i].0;
      var weight := lex[i].1;
      var found := FindAll(phrase, normalized);
      MatchesOfStep(lex, i, normalized);
      if |found| > 0 {
        var count := |found|;
        SumOfMatchesAppend(matches, [BiasMatch(phrase, count, weight)]);
        score := score + count * weight;
        matches := matches + [BiasMatch(phrase, count, weight)];
      }
    }
    assert lex[..|lex|] == lex;
    var totalWords := |Split(normalized)|;
    var density := Density(score, totalWords);
    ScoreIsLexiconSum(lex, normalized);
    report := BiasReport(matches, score, totalWords, density);
  }

  // ---------------------------------------------------------------------
  // Properties of the matches and the score
  // ---------------------------------------------------------------------

  /** A match is recorded for a phrase exactly when the phrase is in the
      lexicon with that weight and is found that many times, at least once. */
  lemma {:induction false} MatchesOfExactly(lex: Lexicon, norm: string, m: BiasMatch)
    ensures m in MatchesOf(lex, norm) <==>
      (m.phrase, m.weight) in lex && m.count == CountMatches(m.phrase, norm) && m.count > 0
  {
    if lex != [] {
      var init := lex[..|lex| - 1];
      MatchesOfExactly(init, norm, m);
      assert lex == init + [lex[|lex| - 1]];
    }
  }

  /** Matching distributes over a split of the lexicon: the matches keep the
      lexicon's order. */
  lemma {:induction false} MatchesOfAppend(a: Lexicon, b: Lexicon, norm: string)
    ensures MatchesOf(a + b, norm) == MatchesOf(a, norm) + MatchesOf(b, norm)
    decreases |b|
  {
    if b == [] {
      AppendEmpty(a, b);
    } else {
      var init, last := b[..|b| - 1], b[|b| - 1];
      MatchesOfAppend(a, init, norm);
      MatchesOfAppendLast(a, init, last, norm);
      DropLastAppend(b);
    }
  }

  /** The step of `MatchesOfAppend`: one more entry at the end of `b`. */
  lemma MatchesOfAppendLast(a: Lexicon, init: Lexicon, last: (string, int), norm: string)
    requires MatchesOf(a + init, norm) == MatchesOf(a, norm) + MatchesOf(init, norm)
    ensures MatchesOf(a + (init + [last]), norm) == MatchesOf(a, norm) + MatchesOf(init + [last], norm)
  {
    AppendAssoc(a, init, [last]);
    MatchesOfSnoc(a + init, last, norm);
    MatchesOfSnoc(init, last, norm);
    AppendAssoc(MatchesOf(a, norm), MatchesOf(init, norm), EntryMatch(last, norm));
  }

  /** Scoring one more entry at the end appends that entry's match. */
  lemma MatchesOfSnoc(lex: Lexicon, entry: (string, int), norm: string)
    ensures MatchesOf(lex + [entry], norm) == MatchesOf(lex, norm) + EntryMatch(entry, norm)
  {
    assert (lex + [entry])[..|lex|] == lex;
  }

  lemma AppendEmpty<T>(x: seq<T>, y: seq<T>)
    requires y == []
    ensures x + y == x
  {
  }

  lemma DropLastAppend<T>(x: seq<T>)
    requires x != []
    ensures x[..|x| - 1] + [x[|x| - 1]] == x
  {
  }

  lemma AppendAssoc<T>(x: seq<T>, y: seq<T>, z: seq<T>)
    ensures (x + y) + z == x + (y + z)
  {
  }

  /** Dropping the last element of `a + b` drops the last element of `b`. */
  lemma LastOfAppend<T>(a: seq<T>, b: seq<T>)
    requires b != []
    ensures (a + b)[..|a + b| - 1] == a + b[..|b| - 1]
    ensures (a + b)[|a + b| - 1] == b[|b| - 1]
  {
  }

  /** The phrases of a lexicon table are distinct (they are dictionary keys). */
  ghost predicate DistinctPhrases(lex: Lexicon)
  {
    forall j, k :: 0 <= j < k < |lex| ==> lex[j].0 != lex[k].0
  }

  /** Scoring with the shipped table never records a phrase twice. */
  lemma BiasLexiconMatchesDistinct(norm: string)
    ensures forall j, k :: 0 <= j < k < |MatchesOf(BiasLexicon, norm)| ==>
      MatchesOf(BiasLexicon, norm)[j].phrase != MatchesOf(BiasLexicon, norm)[k].phrase
  {
    BiasLexiconDistinct();
    MatchesOfDistinct(BiasLexicon, norm);
  }

  /** With distinct lexicon phrases no phrase is matched twice. */
  lemma {:induction false} MatchesOfDistinct(lex: Lexicon, norm: string)
    requires DistinctPhrases(lex)
    ensures forall j, k :: 0 <= j < k < |MatchesOf(lex, norm)| ==>
      MatchesOf(lex, norm)[j].phrase != MatchesOf(lex, norm)[k].phrase
  {
    if lex != [] {
      var init := lex[..|lex| - 1];
      var last := lex[|lex| - 1];
      MatchesOfDistinct(init, norm);
      var ms := MatchesOf(init, norm);
      forall j | 0 <= j < |ms| ensures ms[j].phrase != last.0 {
        MatchesOfExactly(init, norm, ms[j]);
        var k :| 0 <= k < |init| && init[k] == (ms[j].phrase, ms[j].weight);
        assert lex[k] == init[k];
      }
      var count := CountMatches(last.0, norm);
      if count > 0 {
        var r := ms + [BiasMatch(last.0, count, last.1)];
        assert MatchesOf(lex, norm) == r;
        forall j, k | 0 <= j < k < |r| ensures r[j].phrase != r[k].phrase {
          if k < |ms| {
            assert r[j] == ms[j] && r[k] == ms[k];
          } else {
            assert r[j] == ms[j];
          }
        }
      } else {
        assert MatchesOf(lex, norm) == ms;
      }
    }
  }

  /** The sum over matches adds up across a split of the list. */
  lemma {:induction false} SumOfMatchesAppend(a: seq<BiasMatch>, b: seq<BiasMatch>)
    ensures SumOfMatches(a + b) == SumOfMatches(a) + SumOfMatches(b)
    decreases |b|
  {
    if b == [] {
      assert a + b == a;
    } else {
      LastOfAppend(a, b);
      SumOfMatchesAppend(a, b[..|b| - 1]);
    }
  }

  /** The match of one entry, if any, contributes count times weight; an
      entry that is not found contributes nothing either way. */
  lemma SumOfEntryMatch(entry: (string, int), norm: string)
    ensures SumOfMatches(EntryMatch(entry, norm)) == CountMatches(entry.0, norm) * entry.1
  {
    var count := CountMatches(entry.0, norm);
    if count > 0 {
      var m := BiasMatch(entry.0, count, entry.1);
      assert [m][..0] == [];
    }
  }

  /** The raw score, the sum over the matches, is the sum over the whole
      lexicon of each phrase's count times its weight. */
  lemma {:induction false} ScoreIsLexiconSum(lex: Lexicon, norm: string)
    ensures SumOfMatches(MatchesOf(lex, norm)) == LexiconScore(lex, norm)
  {
    if lex != [] {
      var init, last := lex[..|lex| - 1], lex[|lex| - 1];
      ScoreIsLexiconSum(init, norm);
      SumOfMatchesAppend(MatchesOf(init, norm), EntryMatch(last, norm));
      SumOfEntryMatch(last, norm);
    }
  }

  /** A phrase holding a punctuation character never matches normalised
      text, since normalising deletes every punctuation character. */
  lemma PunctuatedPhraseNeverMatches(phrase: string, text: string, i: nat)
    requires i < |phrase| && IsPunctuation(phrase[i])
    ensures CountMatches(phrase, Normalize(text)) == 0
  {
    var norm := Normalize(text);
    NormalizeIsClean(text);
  }

  /** A phrase found inside a longer matched phrase is also matched: matching
      is by substring, not by whole word, and each entry is counted on its own. */
  lemma InnerPhraseCounted(outer: string, inner: string, j: nat, norm: string)
    requires |inner| > 0 && OccursAt(inner, outer, j)
    requires CountMatches(outer, norm) > 0
    ensures CountMatches(inner, norm) > 0
  {
    var q :| OccursAt(outer, norm, q);
    forall d | 0 <= d < |inner| ensures norm[q + j + d] == inner[d] {
      assert norm[q + j + d] == norm[q..q + |outer|][j + d];
      assert outer[j + d] == outer[j..j + |inner|][d];
    }
    assert OccursAt(inner, norm, q + j);
  }

  /** Scoring text with no words: every lexicon phrase that is not empty is
      found nowhere, so there are no matches and the score is zero. */
  lemma {:induction false} EmptyTextScoresZero(lex: Lexicon)
    requires forall k :: 0 <= k < |lex| ==> lex[k].0 != []
    ensures MatchesOf(lex, Normalize("")) == []
    ensures SumOfMatches(MatchesOf(lex, Normalize(""))) == 0
    ensures WordCount(Normalize("")) == 0
  {
    if lex != [] {
      EmptyTextScoresZero(lex[..|lex| - 1]);
    }
  }

  // ---------------------------------------------------------------------
  // Consequences for the shipped lexicon
  // ---------------------------------------------------------------------

  /** "so-called" and "self-described" hold a hyphen, which normalising
      deletes from every text: these two entries never match anything. */
  lemma HyphenatedEntriesNeverMatch(text: string)
    ensures BiasLexicon[5] == ("so-called", 1) && BiasLexicon[63] == ("self-described", 1)
    ensures CountMatches(BiasLexicon[5].0, Normalize(text)) == 0
    ensures CountMatches(BiasLexicon[63].0, Normalize(text)) == 0
  {
    HyphenatedEntries();
    PunctuatedPhraseNeverMatches(BiasLexicon[5].0, text, 2);
    PunctuatedPhraseNeverMatches(BiasLexicon[63].0, text, 4);
  }

  lemma HyphenatedEntries()
    ensures BiasLexicon[5] == ("so-called", 1) && BiasLexicon[63] == ("self-described", 1)
    ensures |BiasLexicon[5].0| > 2 && IsPunctuation(BiasLexicon[5].0[2])
    ensures |BiasLexicon[63].0| > 4 && IsPunctuation(BiasLexicon[63].0[4])
  {
    assert BiasLexicon[5] == Qualifiers[5];
    assert |Qualifiers + LoadedTerms| == 54;
    assert BiasLexicon[63] == AttributionPhrases[9];
    assert "so-called"[2] == '-' && "self-described"[4] == '-';
  }

  /** Wherever the entry "allegedly" matches, the separate entry "alleged"
      matches too, so one occurrence of "allegedly" scores both. */
  lemma AllegedCountedInsideAllegedly(norm: string)
    requires CountMatches(BiasLexicon[0].0, norm) > 0
    ensures BiasLexicon[0] == ("allegedly", 1) && BiasLexicon[66] == ("alleged", 1)
    ensures CountMatches(BiasLexicon[66].0, norm) > 0
  {
    assert OccursAt("alleged", "allegedly", 0);
    InnerPhraseCounted(BiasLexicon[0].0, BiasLexicon[66].0, 0, norm);
  }

  /** Matching ignores word boundaries: "fact" is found inside "Factual". */
  lemma FactFoundInsideFactual()
    ensures CountMatches("fact", Normalize("Factual")) == 1
  {
    NormalizeFactual();
    FactInFactual();
  }

  lemma NormalizeFactual()
    ensures Normalize("Factual") == "factual"
  {
    var low := "factual";
    assert Lower("Factual") == low;
    forall i | 0 <= i < |low| ensures !IsPunctuation(low[i]) {
      assert 'a' <= low[i] <= 'z';
    }
    assert RemovePunctuation(low) == low;
  }

  lemma FactInFactual()
    ensures CountMatches("fact", "factual") == 1
  {
    assert OccursAt("fact", "factual", 0);
    assert MatchesFrom("fact", "factual", 4) == [];
  }
}
