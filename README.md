# Bias-aware navigation: a verified model of the text-to-signal core

The tool takes the text of a news article and derives two signals from it:

- the top three multi-word key phrases, taken from a ranked phrase list;
- a lexicon-based bias score.

The scorer works in four steps:

1. It lower-cases the text and deletes every character of Python's `string.punctuation`.
2. It counts the non-overlapping literal occurrences of each phrase of a fixed phrase → weight table.
3. It adds up `count * weight` into a raw score, recording each phrase found with its count and weight.
4. It scales the score to a density per 100 words of the normalised text.

Before scoring, the article text is extracted in two stages. A primary article parser is tried first. When it fails, the paragraphs of a raw HTML parse are kept if they have more than five words, then joined by newlines and stripped. The driver skips any article whose extracted text has fewer than 100 words.

The project is five Dafny modules:

- `PyStrings`: the Python string built-ins the core relies on, modelled on `string`. These are `str.isspace`, `str.split()`, `str.strip()`, `sep.join`, ASCII `str.lower()`, and `re.findall` on an escaped (literal) pattern. `re.findall` is modelled as a leftmost, non-overlapping scan. A proof shows this scan is the only list with the greedy-scan properties.
- `BiasScoring`:
  - the phrase table `BiasLexicon`, with all 73 entries in declaration order;
  - normalisation;
  - the scorer `CalculateBiasScore`, written as a method with the source's loop and proved against the specification functions `MatchesOf`, `SumOfMatches`, `LexiconScore` and `Density`;
  - lemmas about all of these.
- `Keywords`: the multi-word filter and top-three cut applied to the ranked phrases.
- `Extraction`: what the extractor does with the results of its foreign calls. That is the choice between primary and fallback, the paragraph filter, and the join and strip.
- `Pipeline`: the per-article step of the driver. It applies the 100-word gate, then runs the keyword step and the scorer.

The fallback is not tried when the primary parser returns empty text. It is tried only when the primary parser raises. The model follows the code (`Extraction.ExtractText`).

## Model

| member | source | states |
|---|---|---|
| BiasScoring.BiasLexiconWellFormed | bias_aware_navigation.py:14-88 | The shipped table has 73 entries, in declaration order. Every phrase is non-empty, every weight lies between -1 and 2, and no phrase occurs twice, as dictionary keys cannot. As a consequence, empty text matches no entry. |
| BiasScoring.CalculateBiasScore | bias_aware_navigation.py:157-177 | The loop over the table yields exactly the matches `MatchesOf(lex, Normalize(text))`, one per phrase found at least once, in table order. The score is the sum of `count * weight` over those matches, and equals `LexiconScore`, the sum over the whole table of each phrase's count times its weight. `totalWords` is the token count of the normalised text. The density is `Density(score, totalWords)`. |
| BiasScoring.Density | bias_aware_navigation.py:172 | The density is a fraction with a positive denominator. It is 0 when there are no words. Otherwise it equals `score * 100 / totalWords` exactly. It is negative exactly when there are words and the score is negative. |
| BiasScoring.MatchesOf | bias_aware_navigation.py:163-169 | There is at most one match per table entry. Every recorded match has a positive count, equal to the number of `findall` matches of its phrase in the normalised text. |
| BiasScoring.MatchesOfExactly | bias_aware_navigation.py:163-169 | A triple (phrase, count, weight) is recorded exactly when (phrase, weight) is a table entry, the phrase is found at least once, and count is its number of matches. |
| BiasScoring.MatchesOfAppend | bias_aware_navigation.py:163-169 | Scoring a table split in two gives the matches of the first part followed by those of the second, so matches keep table order. |
| BiasScoring.BiasLexiconMatchesDistinct | bias_aware_navigation.py:163-169 | Scoring any text with the shipped table never records a phrase twice. The distinctness premise of `MatchesOfDistinct` is discharged for the 73 shipped keys. |
| BiasScoring.MatchesOfDistinct | bias_aware_navigation.py:163-169 | When the table's phrases are distinct (they are dictionary keys), no phrase is recorded twice. |
| BiasScoring.SumOfMatchesAppend | bias_aware_navigation.py:168 | The accumulated score adds up across any split of the match list. |
| BiasScoring.SumOfEntryMatch | bias_aware_navigation.py:166-168 | An entry that is found contributes count times weight. An entry that is not found contributes nothing, which is also what `count * weight` would give. |
| BiasScoring.ScoreIsLexiconSum | bias_aware_navigation.py:159-168 | The raw score, summed over the recorded matches, equals the sum over the whole table of each phrase's count times its weight. |
| BiasScoring.EmptyTextScoresZero | bias_aware_navigation.py:157-172 | For a table of non-empty phrases, empty text has no matches, a zero score and zero words. |
| BiasScoring.RemovePunctuation | bias_aware_navigation.py:161 | The result holds no punctuation character and is no longer than the input. Every other character is kept as often as it occurs in the input. Text without punctuation is left unchanged. |
| BiasScoring.RemovePunctuationAppend | bias_aware_navigation.py:161 | Deleting punctuation works character by character: it distributes over concatenation, so the kept characters keep their order. |
| BiasScoring.Normalize | bias_aware_navigation.py:161 | The normalised text is no longer than the input and holds no punctuation and no upper-case ASCII letter. For text without capitals, normalising only deletes the punctuation. |
| BiasScoring.PunctuationRanges | bias_aware_navigation.py:161 | The four ASCII ranges used for punctuation are exactly the characters of `string.punctuation`. |
| BiasScoring.NormalizeIsClean | bias_aware_navigation.py:161 | Normalised text holds no punctuation and no upper-case ASCII letter. Normalising it again changes nothing. |
| BiasScoring.NormalizeLower | bias_aware_navigation.py:161 | Matching ignores case: normalising already lower-cased text gives the same result as normalising the original, so capitals are lower-cased, not deleted. |
| BiasScoring.NormalizeNoMoreWords | bias_aware_navigation.py:161-171 | The normalised text never has more tokens than the original text. |
| BiasScoring.PunctuatedPhraseNeverMatches | bias_aware_navigation.py:161-166 | A table phrase that contains a punctuation character is found 0 times in any normalised text. |
| BiasScoring.HyphenatedEntriesNeverMatch | bias_aware_navigation.py:161-166 | The entries "so-called" (line 20) and "self-described" (line 78) of the shipped table never match any text, because normalisation deletes hyphens. |
| BiasScoring.InnerPhraseCounted | bias_aware_navigation.py:164-166 | Matching is by substring: if a phrase is found, every phrase contained in it is found too, and each is counted as its own entry. |
| BiasScoring.AllegedCountedInsideAllegedly | bias_aware_navigation.py:163-169 | Wherever "allegedly" (line 15) is found, the separate entry "alleged" (line 81) is found as well, so one occurrence scores both. |
| BiasScoring.FactFoundInsideFactual | bias_aware_navigation.py:161-167 | Matching ignores word boundaries: "fact" is counted once in "Factual". |
| PyStrings.FindAllIsGreedyScan | bias_aware_navigation.py:164-165 | For a non-empty phrase, the positions `FindAll` returns are sound, pairwise non-overlapping, and miss no occurrence (each lies inside a listed match). Any list with those properties equals them. |
| PyStrings.CountMatches | bias_aware_navigation.py:165-167 | `found` is non-empty exactly when the phrase occurs somewhere in the text. The matches of a non-empty phrase fit side by side in the text, so count times phrase length is at most the text length. An empty phrase matches at every position, including the end. |
| PyStrings.Split | bias_aware_navigation.py:171 | Every token of `split()` is non-empty and holds no whitespace. |
| PyStrings.TokenLength | bias_aware_navigation.py:171 | A token is the maximal run of non-whitespace characters at the front of the text. |
| PyStrings.SplitCountsWordStarts | bias_aware_navigation.py:171 | The number of tokens is the number of places where a non-whitespace character follows whitespace or starts the text. |
| PyStrings.SplitEmpty | bias_aware_navigation.py:191 | `split()` returns no tokens exactly when the text is all whitespace. |
| PyStrings.SplitAroundSpace | bias_aware_navigation.py:136-139 | A whitespace character separates tokens: the tokens of `a + [c] + b` are those of `a` followed by those of `b`. |
| PyStrings.Join | bias_aware_navigation.py:136 | Joining no parts gives empty text; joining one part gives that part. |
| PyStrings.JoinAppend | bias_aware_navigation.py:136 | Joining two non-empty lists of parts is joining each and putting the separator between them, so exactly one separator stands between neighbouring parts. |
| PyStrings.JoinEnds | bias_aware_navigation.py:136 | Joined non-empty parts start with the first part's first character and end with the last part's last character. |
| PyStrings.JoinStripped | bias_aware_navigation.py:136-142 | Joining non-empty parts that neither start nor end with whitespace gives text that neither starts nor ends with whitespace. |
| PyStrings.SplitJoin | bias_aware_navigation.py:136-139 | Joining with a whitespace character neither merges nor splits tokens: the tokens of the joined text are the parts' tokens, part after part. |
| PyStrings.SplitJoinWords | bias_aware_navigation.py:136-139 | Round trip: splitting tokens that were joined by any whitespace character, the newline included, gives the same tokens back. |
| PyStrings.Strip | bias_aware_navigation.py:142 | The stripped text neither starts nor ends with whitespace and is no longer than the input. |
| PyStrings.SplitStrip | bias_aware_navigation.py:142 | Stripping changes no token. |
| PyStrings.StripStripped | bias_aware_navigation.py:142 | Stripping text that neither starts nor ends with whitespace changes nothing. |
| PyStrings.StripEmpty | bias_aware_navigation.py:142 | The stripped text is empty exactly when the text is all whitespace. |
| PyStrings.Lower | bias_aware_navigation.py:161 | Lower-casing keeps the length and maps each character with `LowerChar`. |
| PyStrings.LowerChar | bias_aware_navigation.py:161 | ASCII capitals map to the matching small letter, every other character is unchanged, and no capital remains. |
| Keywords.TopKeywords | bias_aware_navigation.py:153 | At most three entries are reported, and every one has a multi-word phrase. They are the first `min(3, n)` multi-word entries in ranked order, where n is how many multi-word entries there are. |
| Keywords.MultiWordEntries | bias_aware_navigation.py:153 | The filter keeps only entries whose phrase has more than one token, and never lengthens the list. |
| Keywords.MultiWordEntriesAppend | bias_aware_navigation.py:153 | The filter distributes over concatenation, so ranked order is kept. |
| Keywords.MultiWordEntriesMembers | bias_aware_navigation.py:153 | An entry survives the filter exactly when it is ranked and its phrase has more than one token. |
| Keywords.TopKeywordsPosition | bias_aware_navigation.py:153 | A multi-word entry preceded by fewer than three multi-word entries is reported, at the index given by how many precede it. |
| Keywords.TopKeywordsFromRanked | bias_aware_navigation.py:153 | Every reported entry is a ranked entry with a multi-word phrase. |
| Extraction.ContentParagraphs | bias_aware_navigation.py:137-138 | Every kept paragraph has more than five tokens, and no paragraph is added. |
| Extraction.ContentParagraphsAppend | bias_aware_navigation.py:137-138 | The paragraph filter distributes over concatenation, so document order is kept. |
| Extraction.ContentParagraphsMembers | bias_aware_navigation.py:137-138 | A paragraph is kept exactly when it is in the input and has more than five tokens. |
| Extraction.FallbackText | bias_aware_navigation.py:136-142 | The fallback text neither starts nor ends with whitespace. |
| Extraction.FallbackTextStripped | bias_aware_navigation.py:136-142 | When the paragraph texts come already stripped, the fallback text is exactly the kept paragraphs joined with "\n": the final strip removes nothing. |
| Extraction.KeptStripped | bias_aware_navigation.py:136-138 | Kept paragraphs are non-empty, and they are stripped when the input paragraphs are. |
| Extraction.FallbackTextWords | bias_aware_navigation.py:136-142 | The tokens of the fallback text are exactly the tokens of the kept paragraphs, paragraph after paragraph. |
| Extraction.ContentWordsLowerBound | bias_aware_navigation.py:138 | Kept paragraphs contribute at least six tokens each. |
| Extraction.FallbackTextEmpty | bias_aware_navigation.py:136-142 | The fallback text is empty exactly when no paragraph has more than five tokens. Otherwise it has at least six tokens per kept paragraph. |
| Extraction.ExtractText | bias_aware_navigation.py:109-145 | A primary result is returned as it is, even when empty. When both strategies fail, the result is empty text. When only the primary fails, the result is the fallback text of the paragraphs, and its tokens are those of the kept fallback paragraphs. |
| Pipeline.AnalyseArticle | bias_aware_navigation.py:188-195 | An article is skipped exactly when its text has fewer than 100 tokens. Otherwise its keywords are the top-three multi-word entries, and its bias report is what the scorer's contract states, including that the score is the sum over the whole table. |
| Pipeline.PunctuationOnlyTextHasNoWords | bias_aware_navigation.py:161-172 | A text made only of whitespace and punctuation normalises to no words, and its density with the shipped table is 0. |
| Pipeline.ExclamationsWordCount | bias_aware_navigation.py:191 | The text of n exclamation marks, each followed by a space, has n tokens. |
| Pipeline.ExclamationsPassGateWithoutWords | bias_aware_navigation.py:161-191 | Witness: with n of at least 100, that text passes the 100-token gate, yet it normalises to no words and its density with the shipped table is 0. |

## Left out

- Fetching pages, parsing HTML and the primary article parser are left out because they are foreign libraries. `Extraction.ExtractText` takes their results as parameters. The paragraph texts (`get_text(strip=True)`) and the choice of the `article` element or the whole page are inputs.
- RAKE phrase ranking is left out because it is a foreign library. The ranked `(score, phrase)` list is a parameter of `Pipeline.AnalyseArticle`, and scores are carried along untouched.
- Trending topics, per-topic URLs, the driver's loops over topics and URLs, and the printed diagnostics and summary are left out because they are network access or output.
- BiasScoring.CalculateBiasScore: returns the matches, the raw score, the word count and an exact density. The source prints the matches, the raw score and the rounded density, and returns only the rounded density.
- BiasScoring.Density: the density is an exact fraction. Floating-point division and `round(·, 2)` are not modelled.
- PyStrings.Lower: only ASCII capitals are lower-cased. Python's full Unicode case mapping is not modelled.
- PyStrings.FindAll: only an escaped (literal) pattern is modelled, which is the only kind the scorer builds. The regular-expression engine is not modelled.
- PyStrings.IsSpace: the whitespace set is Python's `str.isspace` list, written out. Unicode database lookups are not modelled.
