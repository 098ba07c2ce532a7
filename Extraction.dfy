/** Article text extraction. The downloading and HTML parsing are done by
    foreign libraries; what is modelled is what the extractor does with
    their results: the primary result is taken as it is, and when the
    primary library fails, the paragraph texts found by the fallback parse
    are filtered and joined. */
module Extraction {
  import opened PyStrings

  datatype Option<T> = None | Some(value: T)

  /** A paragraph is kept when it has strictly more words than this. */
  const MinParagraphWords: nat := 5

  /** `len(text.split()) > 5`: a paragraph long enough to be article text
      rather than a caption, byline or advertisement. */
  predicate IsContentParagraph(p: string)
  {
    WordCount(p) > MinParagraphWords
  }

  /** The paragraphs kept by the noise filter, in document order. */
  function ContentParagraphs(paragraphs: seq<string>): (kept: seq<string>)
    ensures |kept| <= |paragraphs|
    ensures forall k :: 0 <= k < |kept| ==> IsContentParagraph(kept[k])
  {
    if paragraphs == [] then []
    else
      (if IsContentParagraph(paragraphs[0]) then [paragraphs[0]] else [])
      + ContentParagraphs(paragraphs[1..])
  }

  /** The text of the fallback branch: the kept paragraphs joined by
      newlines, then stripped. */
  function FallbackText(paragraphs: seq<string>): (text: string)
    ensures text != [] ==> !IsSpace(text[0]) && !IsSpace(text[|text| - 1])
  {
    Strip(Join("\n", ContentParagraphs(paragraphs)))
  }

  /** `extract_text_from_url` after its foreign calls: `primary` is the
      primary library's article text, or `None` when it raised; `fallback`
      is the fallback parse's paragraph texts in document order, or `None`
      when that raised too. A primary result is returned even when empty. */
  function ExtractText(primary: Option<string>, fallback: Option<seq<string>>): (text: string)
    ensures primary.Some? ==> text == primary.value
    ensures primary.None? && fallback.None? ==> text == []
    ensures primary.None? && fallback.Some? ==> text == FallbackText(fallback.value)
    ensures primary.None? && fallback.Some? ==>
      Split(text) == SplitAll(ContentParagraphs(fallback.value))
  {
    match primary
    case Some(t) => t
    case None =>
      match fallback
      case Some(paragraphs) => FallbackTextWords(paragraphs); FallbackText(paragraphs)
      case None => []
  }

  /** Filtering distributes over concatenation: paragraphs keep their
      document order. */
  lemma {:induction false} ContentParagraphsAppend(a: seq<string>, b: seq<string>)
    ensures ContentParagraphs(a + b) == ContentParagraphs(a) + ContentParagraphs(b)
  {
    if a == [] {
      assert a + b == b;
    } else {
      assert (a + b)[0] == a[0];
      assert (a + b)[1..] == a[1..] + b;
      ContentParagraphsAppend(a[1..], b);
    }
  }

  /** A paragraph is kept exactly when it is in the input and has more
      than five words. */
  lemma {:induction false} ContentParagraphsMembers(paragraphs: seq<string>, p: string)
    ensures p in ContentParagraphs(paragraphs) <==> p in paragraphs && IsContentParagraph(p)
  {
    if paragraphs != [] {
      ContentParagraphsMembers(paragraphs[1..], p);
      assert paragraphs == [paragraphs[0]] + paragraphs[1..];
    }
  }

  /** The words of the fallback text are the words of the kept paragraphs,
      paragraph after paragraph: joining with newlines and stripping
      neither merges, splits nor loses a word. */
  lemma FallbackTextWords(paragraphs: seq<string>)
    ensures Split(FallbackText(paragraphs)) == SplitAll(ContentParagraphs(paragraphs))
  {
    var joined := Join("\n", ContentParagraphs(paragraphs));
    SplitStrip(joined);
    SplitJoin('\n', ContentParagraphs(paragraphs));
  }

  /** Each kept paragraph contributes at least six words. */
  lemma {:induction false} ContentWordsLowerBound(kept: seq<string>)
    requires forall k :: 0 <= k < |kept| ==> IsContentParagraph(kept[k])
    ensures |SplitAll(kept)| >= 6 * |kept|
  {
    if kept != [] {
      ContentWordsLowerBound(kept[1..]);
    }
  }

  /** The fallback text is empty exactly when no paragraph has more than
      five words; otherwise it has more than five words per kept paragraph. */
  lemma FallbackTextEmpty(paragraphs: seq<string>)
    ensures FallbackText(paragraphs) == [] <==> ContentParagraphs(paragraphs) == []
    ensures WordCount(FallbackText(paragraphs)) >= 6 * |ContentParagraphs(paragraphs)|
  {
    FallbackTextWords(paragraphs);
    ContentWordsLowerBound(ContentParagraphs(paragraphs));
  }

  /** When every paragraph text is already stripped (as `get_text(strip=True)`
      returns it), the final strip changes nothing: the fallback text is the
      kept paragraphs joined with newlines, one paragraph per line. */
  lemma FallbackTextStripped(paragraphs: seq<string>)
    requires forall k :: 0 <= k < |paragraphs| ==> IsStripped(paragraphs[k])
    ensures FallbackText(paragraphs) == Join("\n", ContentParagraphs(paragraphs))
  {
    KeptStripped(paragraphs);
    JoinStripped("\n", ContentParagraphs(paragraphs));
    StripStripped(Join("\n", ContentParagraphs(paragraphs)));
  }

  /** Kept paragraphs are non-empty, and stripped when the input ones are. */
  lemma {:induction false} KeptStripped(paragraphs: seq<string>)
    requires forall k :: 0 <= k < |paragraphs| ==> IsStripped(paragraphs[k])
    ensures forall k :: 0 <= k < |ContentParagraphs(paragraphs)| ==>
      ContentParagraphs(paragraphs)[k] != [] && IsStripped(ContentParagraphs(paragraphs)[k])
  {
    if paragraphs != [] {
      KeptStripped(paragraphs[1..]);
      if IsContentParagraph(paragraphs[0]) {
        assert Split([]) == [];
        assert paragraphs[0] != [];
      }
    }
  }
}
