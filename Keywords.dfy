/** The keyword step that follows RAKE ranking: from the ranked
    `(score, phrase)` pairs keep those whose phrase has more than one word,
    and report the first three. Scores are carried along untouched. */
module Keywords {
  import opened PyStrings

  /** How many keywords are reported. */
  const TopN: nat := 3

  /** `len(phrase.split()) > 1`. */
  predicate IsMultiWord(phrase: string)
  {
    WordCount(phrase) > 1
  }

  /** The ranked entries whose phrase has more than one word, in their
      ranked order. */
  function MultiWordEntries<S>(ranked: seq<(S, string)>): (r: seq<(S, string)>)
    ensures |r| <= |ranked|
    ensures forall k :: 0 <= k < |r| ==> IsMultiWord(r[k].1)
  {
    if ranked == [] then []
    else (if IsMultiWord(ranked[0].1) then [ranked[0]] else []) + MultiWordEntries(ranked[1..])
  }

  /** The list comprehension of `extract_keywords_rake` and its `[:3]`. */
  function TopKeywords<S>(ranked: seq<(S, string)>): (top: seq<(S, string)>)
    ensures |top| <= TopN
    ensures |top| == if |MultiWordEntries(ranked)| < TopN then |MultiWordEntries(ranked)| else TopN
    ensures forall k :: 0 <= k < |top| ==> IsMultiWord(top[k].1)
    ensures top == MultiWordEntries(ranked)[..|top|]
  {
    var all := MultiWordEntries(ranked);
    if |all| <= TopN then all else all[..TopN]
  }

  /** Filtering distributes over concatenation: entries keep their
      relative order. */
  lemma {:induction false} MultiWordEntriesAppend<S>(a: seq<(S, string)>, b: seq<(S, string)>)
    ensures MultiWordEntries(a + b) == MultiWordEntries(a) + MultiWordEntries(b)
  {
    if a == [] {
      assert a + b == b;
    } else {
      assert (a + b)[0] == a[0];
      assert (a + b)[1..] == a[1..] + b;
      MultiWordEntriesAppend(a[1..], b);
    }
  }

  /** An entry survives the filter exactly when it is ranked and its
      phrase has more than one word. */
  lemma {:induction false} MultiWordEntriesMembers<S>(ranked: seq<(S, string)>, e: (S, string))
    ensures e in MultiWordEntries(ranked) <==> e in ranked && IsMultiWord(e.1)
  {
    if ranked != [] {
      MultiWordEntriesMembers(ranked[1..], e);
      assert ranked == [ranked[0]] + ranked[1..];
    }
  }

  /** A multi-word entry preceded by fewer than three multi-word entries
      is reported, at the position given by how many precede it. */
  lemma TopKeywordsPosition<S>(ranked: seq<(S, string)>, i: nat)
    requires i < |ranked| && IsMultiWord(ranked[i].1)
    requires |MultiWordEntries(ranked[..i])| < TopN
    ensures |MultiWordEntries(ranked[..i])| < |TopKeywords(ranked)|
    ensures TopKeywords(ranked)[|MultiWordEntries(ranked[..i])|] == ranked[i]
  {
    var before := ranked[..i];
    assert ranked == before + ([ranked[i]] + ranked[i + 1..]);
    MultiWordEntriesAppend(before, [ranked[i]] + ranked[i + 1..]);
    MultiWordEntriesAppend([ranked[i]], ranked[i + 1..]);
    assert MultiWordEntries([ranked[i]]) == [ranked[i]] by {
      assert [ranked[i]][1..] == [];
    }
  }

  /** Every reported entry is a multi-word entry of the ranked list. */
  lemma TopKeywordsFromRanked<S>(ranked: seq<(S, string)>, e: (S, string))
    requires e in TopKeywords(ranked)
    ensures e in ranked && IsMultiWord(e.1)
  {
    MultiWordEntriesMembers(ranked, e);
  }
}
