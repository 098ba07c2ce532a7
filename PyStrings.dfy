/** The Python string built-ins that the scorer and the extractor rely on:
    `str.isspace`, `str.split()` with no separator, `str.strip()`,
    `sep.join(parts)`, ASCII `str.lower()` and `re.findall` on an escaped
    (literal) pattern. Each is modelled on `string` (a `seq<char>`). */
module PyStrings {

  // ---------------------------------------------------------------------
  // Whitespace, as Python's str.isspace() defines it
  // ---------------------------------------------------------------------

  /** The characters that `str.split()` and `str.strip()` treat as whitespace:
      the ASCII controls TAB..CR, the separators FS, GS, RS, US, the space,
      and the Unicode space separators and line/paragraph separators. */
  predicate IsSpace(c: char)
  {
    c == ' ' || ('\t' <= c <= '\r') || ('\U{1C}' <= c <= '\U{1F}')
    || c == '\U{85}' || c == '\U{A0}' || c == '\U{1680}'
    || ('\U{2000}' <= c <= '\U{200A}') || c == '\U{2028}' || c == '\U{2029}'
    || c == '\U{202F}' || c == '\U{205F}' || c == '\U{3000}'
  }

  /** A token of `str.split()`: non-empty and free of whitespace. */
  predicate IsWord(w: string)
  {
    |w| > 0 && forall i :: 0 <= i < |w| ==> !IsSpace(w[i])
  }

  predicate AllSpace(s: string)
  {
    forall i :: 0 <= i < |s| ==> IsSpace(s[i])
  }

  // ---------------------------------------------------------------------
  // str.split()
  // ---------------------------------------------------------------------

  /** Length of the run of non-whitespace characters that `s` starts with. */
  function TokenLength(s: string): (n: nat)
    ensures n <= |s|
    ensures forall i :: 0 <= i < n ==> !IsSpace(s[i])
    ensures n < |s| ==> IsSpace(s[n])
  {
    if s == [] || IsSpace(s[0]) then 0 else 1 + TokenLength(s[1..])
  }

  /** `s.split()`: skip whitespace, cut off the maximal non-whitespace run,
      repeat; leading and trailing whitespace yields no empty token. */
  function Split(s: string): (words: seq<string>)
    ensures forall k :: 0 <= k < |words| ==> IsWord(words[k])
    decreases |s|
  {
    if s == [] then []
    else if IsSpace(s[0]) then Split(s[1..])
    else
      var n := TokenLength(s);
      [s[..n]] + Split(s[n..])
  }

  /** The number of tokens `len(s.split())`. */
  function WordCount(s: string): nat
  {
    |Split(s)|
  }

  lemma {:induction false} TokenLengthBeforeSpace(a: string, c: char, b: string)
    requires IsSpace(c)
    ensures TokenLength(a + [c] + b) == TokenLength(a)
    decreases |a|
  {
    if a == [] {
      assert (a + [c] + b)[0] == c;
    } else {
      assert (a + [c] + b)[0] == a[0];
      if !IsSpace(a[0]) {
        assert (a + [c] + b)[1..] == a[1..] + [c] + b;
        TokenLengthBeforeSpace(a[1..], c, b);
      }
    }
  }

  /** A whitespace character separates: the tokens of `a + [c] + b` are the
      tokens of `a` followed by those of `b`. */
  lemma {:induction false} SplitAroundSpace(a: string, c: char, b: string)
    requires IsSpace(c)
    ensures Split(a + [c] + b) == Split(a) + Split(b)
    decreases |a|
  {
    var s := a + [c] + b;
    if a == [] {
      assert s[1..] == b;
    } else if IsSpace(a[0]) {
      assert s[0] == a[0];
      assert s[1..] == a[1..] + [c] + b;
      SplitAroundSpace(a[1..], c, b);
    } else {
      assert s[0] == a[0];
      TokenLengthBeforeSpace(a, c, b);
      var n := TokenLength(a);
      assert n > 0 by { assert TokenLength(a) == 1 + TokenLength(a[1..]); }
      assert s[..n] == a[..n];
      assert s[n..] == a[n..] + [c] + b;
      SplitAroundSpace(a[n..], c, b);
    }
  }

  lemma {:induction false} TokenLengthOfWord(w: string)
    requires forall i :: 0 <= i < |w| ==> !IsSpace(w[i])
    ensures TokenLength(w) == |w|
  {
    if w != [] {
      TokenLengthOfWord(w[1..]);
    }
  }

  /** A single token splits into itself. */
  lemma SplitWord(w: string)
    requires IsWord(w)
    ensures Split(w) == [w]
  {
    TokenLengthOfWord(w);
    assert w[..|w|] == w;
    assert w[|w|..] == [];
  }

  lemma {:induction false} SplitAllSpace(s: string)
    requires AllSpace(s)
    ensures Split(s) == []
  {
    if s != [] {
      SplitAllSpace(s[1..]);
    }
  }

  /** The number of word starts of `s`: non-whitespace characters whose
      predecessor is whitespace, the first character counting as preceded
      by whitespace exactly when `afterSpace` holds. */
  function WordStarts(s: string, afterSpace: bool): nat
  {
    if s == [] then 0
    else (if afterSpace && !IsSpace(s[0]) then 1 else 0) + WordStarts(s[1..], IsSpace(s[0]))
  }

  lemma {:induction false} WordStartsInsideToken(s: string, k: nat)
    requires k <= TokenLength(s)
    ensures WordStarts(s, false) == WordStarts(s[k..], false)
  {
    if k > 0 {
      assert !IsSpace(s[0]);
      WordStartsInsideToken(s[1..], k - 1);
      assert s[1..][k - 1..] == s[k..];
    }
  }

  /** The tokens of `s.split()` are counted by the word starts of `s`. */
  lemma {:induction false} SplitCountsWordStarts(s: string)
    ensures |Split(s)| == WordStarts(s, true)
    decreases |s|
  {
    if s == [] {
    } else if IsSpace(s[0]) {
      SplitCountsWordStarts(s[1..]);
    } else {
      var n := TokenLength(s);
      assert n > 0 by { assert TokenLength(s) == 1 + TokenLength(s[1..]); }
      SplitCountsWordStarts(s[n..]);
      WordStartsInsideToken(s, n);
      if n < |s| {
        assert IsSpace(s[n..][0]);
      }
      assert WordStarts(s[n..], false) == WordStarts(s[n..], true);
    }
  }

  lemma {:induction false} WordStartsAfterSpace(s: string)
    ensures WordStarts(s, false) <= WordStarts(s, true) <= WordStarts(s, false) + 1
  {
  }

  // ---------------------------------------------------------------------
  // sep.join(parts)
  // ---------------------------------------------------------------------

  /** `sep.join(parts)`. */
  function Join(sep: string, parts: seq<string>): (r: string)
    ensures parts == [] ==> r == []
    ensures |parts| == 1 ==> r == parts[0]
  {
    if parts == [] then []
    else if |parts| == 1 then parts[0]
    else parts[0] + sep + Join(sep, parts[1..])
  }

  /** All tokens of the parts, part after part. */
  function SplitAll(parts: seq<string>): seq<string>
  {
    if parts == [] then [] else Split(parts[0]) + SplitAll(parts[1..])
  }

  /** Joining with one whitespace character neither merges nor splits
      tokens: the tokens of the joined text are those of the parts, in order. */
  lemma {:induction false} SplitJoin(c: char, parts: seq<string>)
    requires IsSpace(c)
    ensures Split(Join([c], parts)) == SplitAll(parts)
  {
    if parts == [] {
    } else if |parts| == 1 {
      assert SplitAll(parts[1..]) == [];
    } else {
      SplitAroundSpace(parts[0], c, Join([c], parts[1..]));
      SplitJoin(c, parts[1..]);
    }
  }

  /** Round trip: splitting tokens joined by a whitespace character (a
      space, a newline, ...) gives the tokens back. */
  lemma {:induction false} SplitJoinWords(c: char, words: seq<string>)
    requires IsSpace(c)
    requires forall k :: 0 <= k < |words| ==> IsWord(words[k])
    ensures Split(Join([c], words)) == words
  {
    SplitJoin(c, words);
    SplitAllWords(words);
  }

  /** The separator sits between consecutive parts: joining two non-empty
      lists of parts joins their joins with one more separator. */
  lemma {:induction false} JoinAppend(sep: string, a: seq<string>, b: seq<string>)
    requires a != [] && b != []
    ensures Join(sep, a + b) == Join(sep, a) + sep + Join(sep, b)
  {
    assert (a + b)[0] == a[0];
    if |a| == 1 {
      assert (a + b)[1..] == b;
    } else {
      assert (a + b)[1..] == a[1..] + b;
      JoinAppend(sep, a[1..], b);
    }
  }

  /** Joined non-empty parts start with the first part's first character
      and end with the last part's last character. */
  lemma {:induction false} JoinEnds(sep: string, parts: seq<string>)
    requires parts != [] && forall k :: 0 <= k < |parts| ==> parts[k] != []
    ensures Join(sep, parts) != []
    ensures Join(sep, parts)[0] == parts[0][0]
    ensures Join(sep, parts)[|Join(sep, parts)| - 1] == parts[|parts| - 1][|parts[|parts| - 1]| - 1]
  {
    if |parts| > 1 {
      JoinEnds(sep, parts[1..]);
      var rest := Join(sep, parts[1..]);
      assert Join(sep, parts) == (parts[0] + sep) + rest;
    }
  }

  /** Joining non-empty stripped parts gives stripped text. */
  lemma JoinStripped(sep: string, parts: seq<string>)
    requires forall k :: 0 <= k < |parts| ==> parts[k] != [] && IsStripped(parts[k])
    ensures IsStripped(Join(sep, parts))
  {
    if parts != [] {
      JoinEnds(sep, parts);
      var first, last := parts[0], parts[|parts| - 1];
      assert IsStripped(first) && IsStripped(last);
    }
  }

  lemma {:induction false} SplitAllWords(words: seq<string>)
    requires forall k :: 0 <= k < |words| ==> IsWord(words[k])
    ensures SplitAll(words) == words
  {
    if words != [] {
      SplitWord(words[0]);
      SplitAllWords(words[1..]);
    }
  }

  // ---------------------------------------------------------------------
  // str.strip()
  // ---------------------------------------------------------------------

  /** `s.lstrip()`: the suffix left after dropping leading whitespace. */
  function LStrip(s: string): (r: string)
    ensures |r| <= |s| && r == s[|s| - |r|..]
    ensures forall i :: 0 <= i < |s| - |r| ==> IsSpace(s[i])
    ensures r != [] ==> !IsSpace(r[0])
  {
    if s != [] && IsSpace(s[0]) then LStrip(s[1..]) else s
  }

  /** `s.rstrip()`: the prefix left after dropping trailing whitespace. */
  function RStrip(s: string): (r: string)
    ensures |r| <= |s| && r == s[..|r|]
    ensures forall i :: |r| <= i < |s| ==> IsSpace(s[i])
    ensures r != [] ==> !IsSpace(r[|r| - 1])
  {
    if s != [] && IsSpace(s[|s| - 1]) then RStrip(s[..|s| - 1]) else s
  }

  /** `s.strip()`. */
  function Strip(s: string): (r: string)
    ensures r != [] ==> !IsSpace(r[0]) && !IsSpace(r[|r| - 1])
    ensures |r| <= |s|
  {
    RStrip(LStrip(s))
  }

  lemma {:induction false} SplitLStrip(s: string)
    ensures Split(LStrip(s)) == Split(s)
  {
    if s != [] && IsSpace(s[0]) {
      SplitLStrip(s[1..]);
    }
  }

  lemma {:induction false} SplitRStrip(s: string)
    ensures Split(RStrip(s)) == Split(s)
    decreases |s|
  {
    if s != [] && IsSpace(s[|s| - 1]) {
      var t := s[..|s| - 1];
      assert s == t + [s[|s| - 1]] + [];
      SplitAroundSpace(t, s[|s| - 1], []);
      SplitRStrip(t);
    }
  }

  /** Stripping changes no token. */
  lemma SplitStrip(s: string)
    ensures Split(Strip(s)) == Split(s)
  {
    SplitLStrip(s);
    SplitRStrip(LStrip(s));
  }

  /** Text that neither starts nor ends with whitespace. */
  predicate IsStripped(s: string)
  {
    s == [] || (!IsSpace(s[0]) && !IsSpace(s[|s| - 1]))
  }

  /** Stripping text that is already stripped changes nothing. */
  lemma StripStripped(s: string)
    requires IsStripped(s)
    ensures Strip(s) == s
  {
    assert LStrip(s) == s;
  }

  /** `s.strip()` is empty exactly when `s` is all whitespace. */
  lemma StripEmpty(s: string)
    ensures Strip(s) == [] <==> AllSpace(s)
  {
    var l := LStrip(s);
    if Strip(s) == [] {
      assert AllSpace(l);
    }
  }

  /** `s.split()` is empty exactly when `s` is all whitespace. */
  lemma {:induction false} SplitEmpty(s: string)
    ensures Split(s) == [] <==> AllSpace(s)
  {
    if s != [] {
      SplitEmpty(s[1..]);
    }
  }

  // ---------------------------------------------------------------------
  // str.lower(), on ASCII letters
  // ---------------------------------------------------------------------

  predicate IsUpperAscii(c: char)
  {
    'A' <= c <= 'Z'
  }

  /** Python's lower-casing of one character, for the ASCII letters; any
      other character is left as it is. */
  function LowerChar(c: char): (d: char)
    ensures !IsUpperAscii(d)
    ensures IsUpperAscii(c) ==> 'a' <= d <= 'z' && d as int - c as int == 'a' as int - 'A' as int
    ensures !IsUpperAscii(c) ==> d == c
  {
    if IsUpperAscii(c) then (c as int - 'A' as int + 'a' as int) as char else c
  }

  /** `s.lower()`. */
  function Lower(s: string): (r: string)
    ensures |r| == |s|
    ensures forall i :: 0 <= i < |s| ==> r[i] == LowerChar(s[i])
  {
    seq(|s|, i requires 0 <= i < |s| => LowerChar(s[i]))
  }

  // ---------------------------------------------------------------------
  // re.findall(re.escape(p), t)
  // ---------------------------------------------------------------------

  /** `p` occurs in `t` starting at index `q`. */
  predicate OccursAt(p: string, t: string, q: int)
  {
    0 <= q && q + |p| <= |t| && t[q..q + |p|] == p
  }

  /** Start indices of the matches found scanning `t` from index `i`:
      the leftmost occurrence, then the search resumes where it ended. */
  function MatchesFrom(p: string, t: string, i: nat): seq<nat>
    requires |p| > 0 && i <= |t|
    decreases |t| - i
  {
    if i + |p| > |t| then []
    else if OccursAt(p, t, i) then [i] + MatchesFrom(p, t, i + |p|)
    else MatchesFrom(p, t, i + 1)
  }

  /** Start indices of the matches of `re.findall(re.escape(p), t)`.
      An empty pattern matches (emptily) at every index 0..|t|. */
  function FindAll(p: string, t: string): seq<nat>
  {
    if p == [] then seq(|t| + 1, k requires 0 <= k <= |t| => k)
    else MatchesFrom(p, t, 0)
  }

  /** `len(re.findall(re.escape(p), t))`: positive exactly when `p` occurs
      in `t`, and for a non-empty pattern the matches fit side by side. */
  function CountMatches(p: string, t: string): (c: nat)
    ensures c > 0 <==> exists q :: OccursAt(p, t, q)
    ensures |p| > 0 ==> c * |p| <= |t|
    ensures p == [] ==> c == |t| + 1
  {
    var r := FindAll(p, t);
    if p == [] then
      assert OccursAt(p, t, 0);
      |r|
    else
      MatchesFromBound(p, t, 0);
      MatchesFromIsGreedyScan(p, t, 0);
      assert r != [] ==> OccursAt(p, t, r[0]);
      |r|
  }

  /** Every listed index is an occurrence of `p` at or after `from`. The
      occurrence is spelt out rather than written with `OccursAt`, so that
      it does not feed `ScanCovers` with new occurrences to cover. */
  ghost predicate ScanSound(p: string, t: string, from: nat, r: seq<nat>)
  {
    forall k :: 0 <= k < |r| ==> from <= r[k] && r[k] + |p| <= |t| && t[r[k]..r[k] + |p|] == p
  }

  /** Each listed match ends before the next one starts. */
  ghost predicate ScanDisjoint(p: string, r: seq<nat>)
  {
    forall j, k :: 0 <= j < k < |r| ==> r[j] + |p| <= r[k]
  }

  /** Every occurrence at or after `from` lies inside a listed match that
      starts at or before it: the scan never skips a match it could take. */
  ghost predicate ScanCovers(p: string, t: string, from: nat, r: seq<nat>)
  {
    forall q :: from <= q && OccursAt(p, t, q) ==>
      exists k :: 0 <= k < |r| && r[k] <= q < r[k] + |p|
  }

  /** The defining properties of a left-to-right, non-overlapping scan of
      `t` for the non-empty pattern `p` beginning at index `from`. */
  ghost predicate IsGreedyScan(p: string, t: string, from: nat, r: seq<nat>)
  {
    |p| > 0 && ScanSound(p, t, from, r) && ScanDisjoint(p, r) && ScanCovers(p, t, from, r)
  }

  /** Each match lies at or after where the scan starts and is an
      occurrence of `p`. */
  lemma {:induction false} MatchesFromAt(p: string, t: string, i: nat, j: nat)
    requires |p| > 0 && i <= |t| && j < |MatchesFrom(p, t, i)|
    ensures i <= MatchesFrom(p, t, i)[j] && OccursAt(p, t, MatchesFrom(p, t, i)[j])
    decreases |t| - i
  {
    if i + |p| > |t| {
    } else if OccursAt(p, t, i) {
      if j > 0 {
        MatchesFromAt(p, t, i + |p|, j - 1);
      }
    } else {
      MatchesFromAt(p, t, i + 1, j);
    }
  }

  /** A later match starts at or after the end of an earlier one. */
  lemma {:induction false} MatchesFromOrdered(p: string, t: string, i: nat, j: nat, k: nat)
    requires |p| > 0 && i <= |t| && j < k < |MatchesFrom(p, t, i)|
    ensures MatchesFrom(p, t, i)[j] + |p| <= MatchesFrom(p, t, i)[k]
    decreases |t| - i
  {
    if i + |p| > |t| {
    } else if OccursAt(p, t, i) {
      if j == 0 {
        MatchesFromAt(p, t, i + |p|, k - 1);
      } else {
        MatchesFromOrdered(p, t, i + |p|, j - 1, k - 1);
      }
    } else {
      MatchesFromOrdered(p, t, i + 1, j, k);
    }
  }

  /** An occurrence at or after where the scan starts lies inside some
      match. */
  lemma {:induction false} MatchesFromCoversAt(p: string, t: string, i: nat, q: nat)
    requires |p| > 0 && i <= q && OccursAt(p, t, q)
    ensures exists k ::
              0 <= k < |MatchesFrom(p, t, i)| && MatchesFrom(p, t, i)[k] <= q < MatchesFrom(p, t, i)[k] + |p|
    decreases |t| - i
  {
    var r := MatchesFrom(p, t, i);
    if OccursAt(p, t, i) {
      if q < i + |p| {
        assert r[0] <= q < r[0] + |p|;
      } else {
        MatchesFromCoversAt(p, t, i + |p|, q);
        var rest := MatchesFrom(p, t, i + |p|);
        var k :| 0 <= k < |rest| && rest[k] <= q < rest[k] + |p|;
        assert r[k + 1] == rest[k];
      }
    } else {
      assert i + 1 <= q;
      MatchesFromCoversAt(p, t, i + 1, q);
    }
  }

  lemma MatchesFromIsGreedyScan(p: string, t: string, i: nat)
    requires |p| > 0 && i <= |t|
    ensures IsGreedyScan(p, t, i, MatchesFrom(p, t, i))
  {
    var r := MatchesFrom(p, t, i);
    forall k | 0 <= k < |r| ensures i <= r[k] && r[k] + |p| <= |t| && t[r[k]..r[k] + |p|] == p {
      MatchesFromAt(p, t, i, k);
    }
    forall j, k | 0 <= j < k < |r| ensures r[j] + |p| <= r[k] {
      MatchesFromOrdered(p, t, i, j, k);
    }
    forall q | i <= q && OccursAt(p, t, q) ensures exists k :: 0 <= k < |r| && r[k] <= q < r[k] + |p| {
      MatchesFromCoversAt(p, t, i, q);
    }
  }

  /** A greedy scan from `i` where `p` occurs at `i` takes that match
      first. */
  lemma GreedyScanTakes(p: string, t: string, i: nat, r: seq<nat>)
    requires |p| > 0 && ScanSound(p, t, i, r) && ScanDisjoint(p, r)
    requires ScanCovers(p, t, i, r) && OccursAt(p, t, i)
    ensures |r| > 0 && r[0] == i
  {
    var k :| 0 <= k < |r| && r[k] <= i < r[k] + |p|;
    assert i <= r[0] && i <= r[k];
    assert k == 0;
  }

  lemma ScanTailSound(p: string, t: string, i: nat, r: seq<nat>)
    requires ScanSound(p, t, i, r) && ScanDisjoint(p, r)
    requires |r| > 0 && r[0] == i
    ensures ScanSound(p, t, i + |p|, r[1..]) && ScanDisjoint(p, r[1..])
  {
    var rest := r[1..];
    forall j | 0 <= j < |rest|
      ensures i + |p| <= rest[j] && rest[j] + |p| <= |t| && t[rest[j]..rest[j] + |p|] == p
    {
      assert rest[j] == r[j + 1];
      assert r[0] + |p| <= r[j + 1];
    }
    forall j, k | 0 <= j < k < |rest| ensures rest[j] + |p| <= rest[k] {
      assert rest[j] == r[j + 1] && rest[k] == r[k + 1];
    }
  }

  lemma ScanTailCovers(p: string, t: string, i: nat, r: seq<nat>)
    requires ScanCovers(p, t, i, r) && ScanDisjoint(p, r)
    requires |r| > 0 && r[0] == i
    ensures ScanCovers(p, t, i + |p|, r[1..])
  {
    var rest := r[1..];
    forall q | i + |p| <= q && OccursAt(p, t, q)
      ensures exists k :: 0 <= k < |rest| && rest[k] <= q < rest[k] + |p|
    {
      var k :| 0 <= k < |r| && r[k] <= q < r[k] + |p|;
      assert k != 0;
      assert rest[k - 1] == r[k];
    }
  }

  /** A greedy scan from `i` where `p` does not occur at `i` is also a
      greedy scan from `i + 1`. */
  lemma GreedyScanSkips(p: string, t: string, i: nat, r: seq<nat>)
    requires IsGreedyScan(p, t, i, r) && !OccursAt(p, t, i)
    ensures IsGreedyScan(p, t, i + 1, r)
  {
    forall k | 0 <= k < |r| ensures i + 1 <= r[k] {
    }
  }

  /** A scan lists something only if an occurrence fits after its start. */
  lemma ScanFits(p: string, t: string, i: nat, r: seq<nat>)
    requires ScanSound(p, t, i, r)
    ensures |r| > 0 ==> i + |p| <= |t|
  {
    if |r| > 0 {
      assert i <= r[0] && r[0] + |p| <= |t|;
    }
  }

  /** A greedy scan is unique: any list with the scan's defining
      properties is exactly what the scan from `i` returns. */
  lemma {:induction false} GreedyScanUnique(p: string, t: string, i: nat, r: seq<nat>)
    requires i <= |t|
    requires IsGreedyScan(p, t, i, r)
    ensures r == MatchesFrom(p, t, i)
    decreases |t| - i
  {
    if i + |p| > |t| {
      ScanFits(p, t, i, r);
    } else if OccursAt(p, t, i) {
      GreedyScanTakes(p, t, i, r);
      ScanTailSound(p, t, i, r);
      ScanTailCovers(p, t, i, r);
      GreedyScanUnique(p, t, i + |p|, r[1..]);
      assert MatchesFrom(p, t, i) == [i] + MatchesFrom(p, t, i + |p|);
      assert r == [i] + r[1..];
    } else {
      GreedyScanSkips(p, t, i, r);
      GreedyScanUnique(p, t, i + 1, r);
      assert MatchesFrom(p, t, i) == MatchesFrom(p, t, i + 1);
    }
  }

  /** The matches of `FindAll` for a non-empty pattern are exactly the
      greedy left-to-right non-overlapping scan, and nothing else is. */
  lemma FindAllIsGreedyScan(p: string, t: string, r: seq<nat>)
    requires |p| > 0
    ensures IsGreedyScan(p, t, 0, FindAll(p, t))
    ensures IsGreedyScan(p, t, 0, r) <==> r == FindAll(p, t)
  {
    MatchesFromIsGreedyScan(p, t, 0);
    if IsGreedyScan(p, t, 0, r) {
      GreedyScanUnique(p, t, 0, r);
    }
  }

  lemma {:induction false} MatchesFromBound(p: string, t: string, i: nat)
    requires |p| > 0 && i <= |t|
    ensures |MatchesFrom(p, t, i)| * |p| <= |t| - i
    decreases |t| - i
  {
    if i + |p| > |t| {
    } else if OccursAt(p, t, i) {
      MatchesFromBound(p, t, i + |p|);
      MulStep(|MatchesFrom(p, t, i + |p|)|, |p|, |t| - (i + |p|));
    } else {
      MatchesFromBound(p, t, i + 1);
    }
  }

  lemma MulStep(n: nat, m: nat, room: int)
    requires n * m <= room
    ensures (n + 1) * m <= room + m
  {
  }
}
