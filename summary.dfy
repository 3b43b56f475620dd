/**
 * `generate_summary` in processor.py: an extractive summary that keeps the
 * sentences whose words are most frequent in the whole text.
 */
module Summarizer {
  import opened Text
  import opened Lexicon

  // ------------------------------------------------------------ sentences

  predicate IsSentenceEnd(c: char) {
    c == '.' || c == '!' || c == '?'
  }

  /** A boundary of `(?<=[.!?])\s+` starts at `p`: a sentence end just before, whitespace at `p`. */
  predicate BoundaryAt(s: string, p: nat) {
    1 <= p < |s| && IsSentenceEnd(s[p - 1]) && IsSpace(s[p])
  }

  /** The first boundary at or after `i`, or `|s|` when there is none. */
  function BoundaryFrom(s: string, i: nat): (p: nat)
    requires i <= |s|
    ensures i <= p <= |s|
    ensures p == |s| || BoundaryAt(s, p)
    ensures forall k :: i <= k < p ==> !BoundaryAt(s, k)
    decreases |s| - i
  {
    if i == |s| then |s| else if BoundaryAt(s, i) then i else BoundaryFrom(s, i + 1)
  }

  /**
   * `re.split(r'(?<=[.!?])\s+', s)`: the text is cut at the first boundary,
   * the whole whitespace run there is dropped, and the search goes on after it.
   */
  function SplitSentences(s: string): (r: seq<string>)
    ensures |r| >= 1
    decreases |s|
  {
    var p := BoundaryFrom(s, 0);
    if p == |s| then [s]
    else
      var q := p + LeadingSpaces(s[p..]);
      [s[..p]] + SplitSentences(s[q..])
  }

  /** Every piece but the last is non-empty and ends with `.`, `!` or `?`. */
  predicate MarkedPieces(r: seq<string>) {
    forall i :: 0 <= i < |r| - 1 ==> r[i] != [] && IsSentenceEnd(r[i][|r[i]| - 1])
  }

  lemma MarkedCons(head: string, rest: seq<string>)
    requires head != [] && IsSentenceEnd(head[|head| - 1]) && MarkedPieces(rest)
    ensures MarkedPieces([head] + rest)
  {
    var r := [head] + rest;
    forall i | 0 <= i < |r| - 1
      ensures r[i] != [] && IsSentenceEnd(r[i][|r[i]| - 1])
    {
      if i > 0 {
        assert r[i] == rest[i - 1];
      }
    }
  }

  /** Every sentence but the last ends with its punctuation mark: the split is after the mark. */
  lemma {:induction false} SentencesEndWithMark(s: string)
    ensures MarkedPieces(SplitSentences(s))
    decreases |s|
  {
    var p := BoundaryFrom(s, 0);
    if p < |s| {
      var q := p + LeadingSpaces(s[p..]);
      SentencesEndWithMark(s[q..]);
      assert SplitSentences(s) == [s[..p]] + SplitSentences(s[q..]);
      assert s[..p][p - 1] == s[p - 1];
      MarkedCons(s[..p], SplitSentences(s[q..]));
    }
  }

  /** The whitespace runs the split drops, one between each pair of neighbouring sentences. */
  function Gaps(s: string): seq<string>
    decreases |s|
  {
    var p := BoundaryFrom(s, 0);
    if p == |s| then []
    else
      var q := p + LeadingSpaces(s[p..]);
      [s[p..q]] + Gaps(s[q..])
  }

  /** The pieces with the gaps put back between them. */
  function Interleave(pieces: seq<string>, gaps: seq<string>): string
    requires |pieces| == |gaps| + 1
  {
    if gaps == [] then pieces[0] else pieces[0] + gaps[0] + Interleave(pieces[1..], gaps[1..])
  }

  /** A non-empty run of whitespace. */
  predicate IsGap(g: string) {
    g != [] && forall i :: 0 <= i < |g| ==> IsSpace(g[i])
  }

  lemma InterleaveCons(a: string, g: string, pieces: seq<string>, gaps: seq<string>)
    requires |pieces| == |gaps| + 1
    ensures Interleave([a] + pieces, [g] + gaps) == a + g + Interleave(pieces, gaps)
  {
    assert ([a] + pieces)[1..] == pieces && ([g] + gaps)[1..] == gaps;
  }

  /** The run of whitespace that starts at a boundary. */
  lemma BoundaryGap(s: string, p: nat)
    requires BoundaryAt(s, p)
    ensures IsGap(s[p..p + LeadingSpaces(s[p..])])
  {
    var q := p + LeadingSpaces(s[p..]);
    assert s[p..][0] == s[p];
    assert forall i :: 0 <= i < q - p ==> s[p..q][i] == s[p..][i];
  }

  lemma SliceThree(s: string, p: nat, q: nat)
    requires p <= q <= |s|
    ensures s[..p] + s[p..q] + s[q..] == s
  {
  }

  /** The text before the first boundary holds none. */
  lemma NoBoundaryBefore(s: string)
    ensures forall x: nat :: !BoundaryAt(s[..BoundaryFrom(s, 0)], x)
  {
    var p := BoundaryFrom(s, 0);
    forall x: nat | BoundaryAt(s[..p], x) ensures false {
      assert BoundaryAt(s, x);
    }
  }

  /** The sentences, with the dropped whitespace runs put back between them, give the text. */
  lemma {:induction false} SplitRebuilds(s: string)
    ensures |SplitSentences(s)| == |Gaps(s)| + 1 && Interleave(SplitSentences(s), Gaps(s)) == s
    ensures forall g :: g in Gaps(s) ==> IsGap(g)
    decreases |s|
  {
    var p := BoundaryFrom(s, 0);
    if p < |s| {
      var q := p + LeadingSpaces(s[p..]);
      var rest := s[q..];
      SplitRebuilds(rest);
      BoundaryGap(s, p);
      InterleaveCons(s[..p], s[p..q], SplitSentences(rest), Gaps(rest));
      SliceThree(s, p, q);
    }
  }

  /** No piece holds a boundary. */
  predicate NoBoundaryPieces(r: seq<string>) {
    forall i, x :: 0 <= i < |r| && 0 <= x < |r[i]| ==> !BoundaryAt(r[i], x)
  }

  lemma NoBoundaryCons(head: string, rest: seq<string>)
    requires forall x: nat :: !BoundaryAt(head, x)
    requires NoBoundaryPieces(rest)
    ensures NoBoundaryPieces([head] + rest)
  {
    var r := [head] + rest;
    forall i, x: nat | 0 <= i < |r| ensures !BoundaryAt(r[i], x) {
      if i > 0 {
        assert r[i] == rest[i - 1];
      }
    }
  }

  /** No sentence holds a boundary. */
  lemma {:induction false} SplitHasNoBoundary(s: string)
    ensures NoBoundaryPieces(SplitSentences(s))
    decreases |s|
  {
    var p := BoundaryFrom(s, 0);
    if p < |s| {
      var q := p + LeadingSpaces(s[p..]);
      var rest := s[q..];
      SplitHasNoBoundary(rest);
      NoBoundaryBefore(s);
      assert SplitSentences(s) == [s[..p]] + SplitSentences(rest);
      NoBoundaryCons(s[..p], SplitSentences(rest));
    }
  }

  /** The first sentence is a prefix of the text. */
  lemma FirstSentencePrefix(s: string)
    ensures SplitSentences(s)[0] <= s
  {
  }

  /** The whitespace run at a position ends before a non-space, or at the end. */
  lemma GapEnd(s: string, p: nat)
    requires p <= |s|
    ensures p + LeadingSpaces(s[p..]) < |s| ==> !IsSpace(s[p + LeadingSpaces(s[p..])])
  {
    var k := LeadingSpaces(s[p..]);
    if p + k < |s| {
      assert s[p..][k] == s[p + k];
    }
  }

  /** Every piece after the first is empty or starts with a non-space. */
  predicate StartsAfterGap(r: seq<string>) {
    forall i :: 1 <= i < |r| && r[i] != [] ==> !IsSpace(r[i][0])
  }

  lemma StartsAfterGapCons(head: string, rest: seq<string>)
    requires StartsAfterGap(rest)
    requires rest != [] && rest[0] != [] ==> !IsSpace(rest[0][0])
    ensures StartsAfterGap([head] + rest)
  {
    var r := [head] + rest;
    forall i | 1 <= i < |r| && r[i] != [] ensures !IsSpace(r[i][0]) {
      assert r[i] == rest[i - 1];
    }
  }

  /** Every sentence after the first is empty or starts with a non-space: the whole run at a boundary is dropped. */
  lemma {:induction false} SplitPiecesStart(s: string)
    ensures StartsAfterGap(SplitSentences(s))
    decreases |s|
  {
    var p := BoundaryFrom(s, 0);
    if p < |s| {
      var q := p + LeadingSpaces(s[p..]);
      var rest := s[q..];
      SplitPiecesStart(rest);
      FirstSentencePrefix(rest);
      GapEnd(s, p);
      var first := SplitSentences(rest)[0];
      if first != [] {
        assert first[0] == rest[0];
        assert rest[0] == s[q];
      }
      assert SplitSentences(s) == [s[..p]] + SplitSentences(rest);
      StartsAfterGapCons(s[..p], SplitSentences(rest));
    }
  }

  /**
   * What `re.split(r'(?<=[.!?])\s+', s)` returns: the sentences, put back
   * together with the dropped whitespace runs, give the text; no sentence holds
   * a boundary; each sentence but the last ends with its mark; every sentence
   * after the first starts with a non-space, so each dropped run is the whole
   * run of whitespace at its boundary.
   */
  lemma SplitSentencesSpec(s: string)
    ensures |SplitSentences(s)| == |Gaps(s)| + 1 && Interleave(SplitSentences(s), Gaps(s)) == s
    ensures forall g :: g in Gaps(s) ==> IsGap(g)
    ensures NoBoundaryPieces(SplitSentences(s))
    ensures MarkedPieces(SplitSentences(s))
    ensures StartsAfterGap(SplitSentences(s))
  {
    SplitRebuilds(s);
    SplitHasNoBoundary(s);
    SentencesEndWithMark(s);
    SplitPiecesStart(s);
  }

  // ---------------------------------------------------------- frequencies

  /** `word_freq` after counting `tokens`: one more for each token that is not a stop word. */
  function FreqTable(tokens: seq<string>): map<string, nat>
    decreases |tokens|
  {
    if tokens == [] then map[]
    else
      var m := FreqTable(tokens[..|tokens| - 1]);
      var w := tokens[|tokens| - 1];
      if w in STOP_WORDS then m else m[w := (if w in m then m[w] else 0) + 1]
  }

  /** Each word that is not a stop word maps to its number of occurrences. */
  lemma {:induction false} FreqTableCounts(tokens: seq<string>)
    ensures forall w :: w in FreqTable(tokens) <==> w in tokens && w !in STOP_WORDS
    ensures forall w :: w in FreqTable(tokens) ==> FreqTable(tokens)[w] == multiset(tokens)[w]
    decreases |tokens|
  {
    if tokens != [] {
      var init, w := tokens[..|tokens| - 1], tokens[|tokens| - 1];
      FreqTableCounts(init);
      assert tokens == init + [w];
      assert multiset(tokens) == multiset(init) + multiset{w};
    }
  }

  /** The word frequencies of the whole text. */
  function Freq(text: string): map<string, nat> {
    FreqTable(WordTokens(Lower(text)))
  }

  /** The sum of the frequencies of `tokens`, a word outside the table counting 0. */
  function ScoreSum(freq: map<string, nat>, tokens: seq<string>): nat
    decreases |tokens|
  {
    if tokens == [] then 0
    else
      var w := tokens[|tokens| - 1];
      ScoreSum(freq, tokens[..|tokens| - 1]) + (if w in freq then freq[w] else 0)
  }

  // ----------------------------------------------------------- candidates

  /** An entry of `scores`: mean word frequency, position among the sentences, and the sentence. */
  datatype Scored = Scored(score: real, pos: nat, text: string)

  /** The score of a sentence with at least one word token. */
  function MeanScore(freq: map<string, nat>, sentence: string): real
    requires WordTokens(Lower(sentence)) != []
  {
    var tokens := WordTokens(Lower(sentence));
    ScoreSum(freq, tokens) as real / |tokens| as real
  }

  /** `c` is the entry the scoring loop makes for sentence `c.pos` of `sentences`. */
  predicate IsCandidate(freq: map<string, nat>, sentences: seq<string>, c: Scored) {
    && c.pos < |sentences|
    && c.text == sentences[c.pos]
    && WordTokens(Lower(c.text)) != []
    && c.score == MeanScore(freq, c.text)
  }

  predicate IncreasingPos(xs: seq<Scored>) {
    forall i, j :: 0 <= i < j < |xs| ==> xs[i].pos < xs[j].pos
  }

  /** The entry sentence `s` at position `n` contributes: none when it has no word token. */
  function Entry(freq: map<string, nat>, s: string, n: nat): (r: seq<Scored>)
    ensures |r| <= 1
    ensures forall c :: c in r ==> c.pos == n
    ensures r != [] <==> WordTokens(Lower(s)) != []
  {
    if WordTokens(Lower(s)) == [] then [] else [Scored(MeanScore(freq, s), n, s)]
  }

  /** Looking up a position in `cs + e`, where `e` only holds position `n` and `cs` only smaller ones. */
  lemma EntriesAppend(cs: seq<Scored>, e: seq<Scored>, i: nat, n: nat)
    requires forall c :: c in e ==> c.pos == n
    requires forall c :: c in cs ==> c.pos < n
    ensures (exists c :: c in cs + e && c.pos == i) <==> if i == n then e != [] else exists c :: c in cs && c.pos == i
  {
    if i == n && e != [] {
      assert e[0] in cs + e;
    }
  }

  /** The `scores` list: one entry per sentence that has a word token, in sentence order. */
  function Candidates(freq: map<string, nat>, sentences: seq<string>): seq<Scored>
    decreases |sentences|
  {
    if sentences == [] then []
    else
      var n := |sentences| - 1;
      var s := sentences[n];
      Candidates(freq, sentences[..n])
      + Entry(freq, s, n)
  }

  /** One more sentence adds its entry, if it has a word token, at the end. */
  lemma CandidatesStep(freq: map<string, nat>, sentences: seq<string>, i: nat)
    requires i < |sentences|
    ensures Candidates(freq, sentences[..i + 1]) == Candidates(freq, sentences[..i])
              + Entry(freq, sentences[i], i)
  {
    assert sentences[..i + 1][..i] == sentences[..i];
  }

  /** The scoring loop appends in sentence order. */
  lemma {:induction false} CandidatesIncreasing(freq: map<string, nat>, sentences: seq<string>)
    ensures IncreasingPos(Candidates(freq, sentences))
    ensures forall c :: c in Candidates(freq, sentences) ==> c.pos < |sentences|
    decreases |sentences|
  {
    if sentences != [] {
      var n := |sentences| - 1;
      CandidatesIncreasing(freq, sentences[..n]);
    }
  }

  /** Each entry is the scored sentence at its position. */
  lemma {:induction false} CandidatesScored(freq: map<string, nat>, sentences: seq<string>)
    ensures forall c :: c in Candidates(freq, sentences) ==> IsCandidate(freq, sentences, c)
    decreases |sentences|
  {
    if sentences != [] {
      var n := |sentences| - 1;
      var init := sentences[..n];
      CandidatesScored(freq, init);
      forall c | c in Candidates(freq, init) ensures IsCandidate(freq, sentences, c) {
        assert init[c.pos] == sentences[c.pos];
      }
    }
  }

  /** Sentence `i` gets an entry exactly when it has a word token. */
  lemma {:induction false} CandidatesCoverAt(freq: map<string, nat>, sentences: seq<string>, i: nat)
    requires i < |sentences|
    ensures WordTokens(Lower(sentences[i])) != [] <==> exists c :: c in Candidates(freq, sentences) && c.pos == i
    decreases |sentences|
  {
    var n := |sentences| - 1;
    var init := sentences[..n];
    CandidatesIncreasing(freq, init);
    EntriesAppend(Candidates(freq, init), Entry(freq, sentences[n], n), i, n);
    if i < n {
      CandidatesCoverAt(freq, init, i);
      assert init[i] == sentences[i];
    }
  }

  /** Exactly the sentences with a word token get an entry. */
  lemma CandidatesCover(freq: map<string, nat>, sentences: seq<string>)
    ensures forall i :: 0 <= i < |sentences| ==>
              (WordTokens(Lower(sentences[i])) != [] <==> exists c :: c in Candidates(freq, sentences) && c.pos == i)
  {
    forall i | 0 <= i < |sentences|
      ensures WordTokens(Lower(sentences[i])) != [] <==> exists c :: c in Candidates(freq, sentences) && c.pos == i
    {
      CandidatesCoverAt(freq, sentences, i);
    }
  }

  /** The three facts about the scoring loop together. */
  lemma CandidatesSpec(freq: map<string, nat>, sentences: seq<string>)
    ensures IncreasingPos(Candidates(freq, sentences))
    ensures forall c :: c in Candidates(freq, sentences) ==> IsCandidate(freq, sentences, c)
    ensures forall i :: 0 <= i < |sentences| ==>
              (WordTokens(Lower(sentences[i])) != [] <==> exists c :: c in Candidates(freq, sentences) && c.pos == i)
  {
    CandidatesIncreasing(freq, sentences);
    CandidatesScored(freq, sentences);
    CandidatesCover(freq, sentences);
  }

  /** The candidates of a text. */
  function Cands(text: string): seq<Scored> {
    Candidates(Freq(text), SplitSentences(text))
  }

  // -------------------------------------------------------------- sorting

  /** `a` comes first in `scores.sort(key=score, reverse=True)` over a list in position order. */
  predicate Before(a: Scored, b: Scored) {
    a.score > b.score || (a.score == b.score && a.pos < b.pos)
  }

  predicate Ranked(xs: seq<Scored>) {
    forall i, j :: 0 <= i < j < |xs| ==> Before(xs[i], xs[j])
  }

  /** Insertion of `x`, which comes before every entry of `ys` in the input, into the sorted `ys`. */
  function InsertByScore(x: Scored, ys: seq<Scored>): (r: seq<Scored>)
    ensures |r| == |ys| + 1
    ensures multiset(r) == multiset(ys) + multiset{x}
    decreases |ys|
  {
    if ys == [] || ys[0].score <= x.score then [x] + ys
    else
      assert ys == [ys[0]] + ys[1..];
      [ys[0]] + InsertByScore(x, ys[1..])
  }

  /**
   * `list.sort(key=score, reverse=True)`: Python's sort is stable, so among
   * equal scores the earlier entry stays first.
   */
  function SortByScore(xs: seq<Scored>): (r: seq<Scored>)
    ensures |r| == |xs|
    ensures multiset(r) == multiset(xs)
    decreases |xs|
  {
    if xs == [] then []
    else
      assert xs == [xs[0]] + xs[1..];
      InsertByScore(xs[0], SortByScore(xs[1..]))
  }

  lemma {:induction false} InsertByScoreRanked(x: Scored, ys: seq<Scored>)
    requires Ranked(ys)
    requires forall y :: y in ys ==> x.pos < y.pos
    ensures Ranked(InsertByScore(x, ys))
    decreases |ys|
  {
    if ys == [] || ys[0].score <= x.score {
      assert forall k :: 0 <= k < |ys| ==> ys[k].score <= ys[0].score;
    } else {
      var rest := InsertByScore(x, ys[1..]);
      InsertByScoreRanked(x, ys[1..]);
      assert forall z :: z in rest ==> z == x || z in ys[1..] by {
        forall z | z in rest ensures z == x || z in ys[1..] {
          assert z in multiset(rest);
        }
      }
      assert forall k :: 1 <= k < |ys| ==> Before(ys[0], ys[k]);
      assert forall z :: z in rest ==> Before(ys[0], z);
    }
  }

  /** Sorting a list given in increasing position orders it by score, ties by position. */
  lemma {:induction false} SortByScoreRanked(xs: seq<Scored>)
    requires IncreasingPos(xs)
    ensures Ranked(SortByScore(xs))
    decreases |xs|
  {
    if xs != [] {
      var rest := xs[1..];
      SortByScoreRanked(rest);
      var sorted := SortByScore(rest);
      forall y | y in sorted ensures xs[0].pos < y.pos {
        assert y in multiset(sorted);
        assert y in rest;
      }
      InsertByScoreRanked(xs[0], sorted);
    }
  }

  /** Insertion into a list kept in increasing position. */
  function InsertByPos(x: Scored, ys: seq<Scored>): (r: seq<Scored>)
    ensures |r| == |ys| + 1
    ensures multiset(r) == multiset(ys) + multiset{x}
    decreases |ys|
  {
    if ys == [] || x.pos <= ys[0].pos then [x] + ys
    else
      assert ys == [ys[0]] + ys[1..];
      [ys[0]] + InsertByPos(x, ys[1..])
  }

  /** `sorted(top, key=position)`. */
  function SortByPos(xs: seq<Scored>): (r: seq<Scored>)
    ensures |r| == |xs|
    ensures multiset(r) == multiset(xs)
    decreases |xs|
  {
    if xs == [] then []
    else
      assert xs == [xs[0]] + xs[1..];
      InsertByPos(xs[0], SortByPos(xs[1..]))
  }

  predicate DistinctPos(xs: seq<Scored>) {
    forall i, j :: 0 <= i < j < |xs| ==> xs[i].pos != xs[j].pos
  }

  lemma {:induction false} InsertByPosIncreasing(x: Scored, ys: seq<Scored>)
    requires IncreasingPos(ys)
    requires forall y :: y in ys ==> y.pos != x.pos
    ensures IncreasingPos(InsertByPos(x, ys))
    decreases |ys|
  {
    if ys != [] && x.pos > ys[0].pos {
      var rest := InsertByPos(x, ys[1..]);
      InsertByPosIncreasing(x, ys[1..]);
      forall z | z in rest ensures ys[0].pos < z.pos {
        assert z in multiset(rest);
        if z != x {
          assert z in ys[1..];
        }
      }
    }
  }

  /** Sorting entries with distinct positions leaves them in strictly increasing position. */
  lemma {:induction false} SortByPosIncreasing(xs: seq<Scored>)
    requires DistinctPos(xs)
    ensures IncreasingPos(SortByPos(xs))
    decreases |xs|
  {
    if xs != [] {
      var rest := xs[1..];
      assert DistinctPos(rest) by {
        forall i, j | 0 <= i < j < |rest| ensures rest[i].pos != rest[j].pos {
          assert rest[i] == xs[i + 1] && rest[j] == xs[j + 1];
        }
      }
      SortByPosIncreasing(rest);
      var sorted := SortByPos(rest);
      forall y | y in sorted ensures y.pos != xs[0].pos {
        assert y in multiset(sorted);
        var k :| 0 <= k < |rest| && rest[k] == y;
        assert xs[k + 1] == y;
      }
      InsertByPosIncreasing(xs[0], sorted);
    }
  }

  // ------------------------------------------------------------ selection

  function Min(a: nat, b: nat): nat {
    if a <= b then a else b
  }

  /** `sorted(scores[:n], key=position)` after the score sort. */
  function Select(cs: seq<Scored>, n: nat): seq<Scored> {
    SortByPos(SortByScore(cs)[..Min(n, |cs|)])
  }

  /** The sentences a text's summary is made of. */
  function Chosen(text: string, n: nat): seq<Scored> {
    Select(Cands(text), n)
  }

  function Texts(xs: seq<Scored>): (r: seq<string>)
    ensures |r| == |xs| && forall i :: 0 <= i < |xs| ==> r[i] == xs[i].text
  {
    seq(|xs|, i requires 0 <= i < |xs| => xs[i].text)
  }

  /** `generate_summary(text, n)`. */
  function Summary(text: string, n: nat): string {
    if text == [] then ""
    else if |SplitSentences(text)| <= n then text
    else Join(Texts(Chosen(text, n)), " ")
  }

  /** Distinct members of a list in increasing position have distinct positions. */
  lemma DistinctPosOfMembers(xs: seq<Scored>, top: seq<Scored>)
    requires IncreasingPos(xs)
    requires forall i, j :: 0 <= i < j < |top| ==> top[i] != top[j]
    requires forall c :: c in top ==> c in xs
    ensures DistinctPos(top)
  {
    forall i, j | 0 <= i < j < |top| ensures top[i].pos != top[j].pos {
      assert top[i] in xs && top[j] in xs;
      var a :| 0 <= a < |xs| && xs[a] == top[i];
      var b :| 0 <= b < |xs| && xs[b] == top[j];
      assert a != b;
    }
  }

  /** The score sort followed by the cut keeps `min(n, |cs|)` distinct candidates, ranked. */
  lemma TopSpec(cs: seq<Scored>, n: nat)
    requires IncreasingPos(cs)
    ensures var top := SortByScore(cs)[..Min(n, |cs|)];
            && |top| == Min(n, |cs|)
            && DistinctPos(top)
            && (forall c :: c in top ==> c in cs)
            && (forall c, u :: c in top && u in cs && u !in top ==> Before(c, u))
  {
    SortByScoreRanked(cs);
    var sorted := SortByScore(cs);
    var m := Min(n, |cs|);
    var top := sorted[..m];
    forall c | c in sorted ensures c in cs {
      assert c in multiset(sorted);
    }
    DistinctPosOfMembers(cs, top);
    forall c, u | c in top && u in cs && u !in top ensures Before(c, u) {
      assert u in multiset(sorted);
      var i :| 0 <= i < m && top[i] == c;
      var j :| 0 <= j < |sorted| && sorted[j] == u;
    }
  }

  /**
   * The selection: `min(n, |cs|)` candidates in strictly increasing
   * position, each ranking before every candidate left out, so a higher
   * score always wins and an equal score goes to the earlier sentence.
   */
  lemma SelectSpec(cs: seq<Scored>, n: nat)
    requires IncreasingPos(cs)
    ensures |Select(cs, n)| == Min(n, |cs|)
    ensures IncreasingPos(Select(cs, n))
    ensures forall c :: c in Select(cs, n) ==> c in cs
    ensures forall c, u :: c in Select(cs, n) && u in cs && u !in Select(cs, n) ==> Before(c, u)
  {
    TopSpec(cs, n);
    var top := SortByScore(cs)[..Min(n, |cs|)];
    SortByPosIncreasing(top);
    var chosen := SortByPos(top);
    forall c ensures c in chosen <==> c in top {
      assert c in chosen <==> c in multiset(chosen);
    }
  }

  /** An empty text has an empty summary. */
  lemma SummaryOfEmpty(n: nat)
    ensures Summary("", n) == ""
  {
  }

  /** A text of at most `n` sentences is its own summary. */
  lemma SummaryOfShortText(text: string, n: nat)
    requires |SplitSentences(text)| <= n
    ensures Summary(text, n) == text
  {
  }

  /**
   * Otherwise the summary joins, with single spaces, at most `n` of the split
   * sentences, each holding a word token, in strictly increasing position,
   * and chosen as the best scored by mean word frequency.
   */
  lemma SummaryPicksTopSentences(text: string, n: nat)
    requires text != [] && |SplitSentences(text)| > n
    ensures var chosen := Chosen(text, n);
            && Summary(text, n) == Join(Texts(chosen), " ")
            && |chosen| <= n
            && IncreasingPos(chosen)
            && (forall c :: c in chosen ==> IsCandidate(Freq(text), SplitSentences(text), c))
            && (forall c, u :: c in chosen && u in Cands(text) && u !in chosen ==> Before(c, u))
  {
    CandidatesSpec(Freq(text), SplitSentences(text));
    SelectSpec(Cands(text), n);
  }

  // --------------------------------------------------------------- method

  /** The counting loop of `generate_summary`: builds `word_freq`. */
  method CountWords(tokens: seq<string>) returns (wordFreq: map<string, nat>)
    ensures wordFreq == FreqTable(tokens)
  {
    wordFreq := map[];
    for k := 0 to |tokens|
      invariant wordFreq == FreqTable(tokens[..k])
    {
      assert tokens[..k + 1][..k] == tokens[..k];
      var word := tokens[k];
      if word !in STOP_WORDS {
        wordFreq := wordFreq[word := (if word in wordFreq then wordFreq[word] else 0) + 1];
      }
    }
    assert tokens[..|tokens|] == tokens;
  }

  /** The inner loop of the scoring: the frequency total of one sentence's tokens. */
  method SumFrequencies(wordFreq: map<string, nat>, sTokens: seq<string>) returns (score: nat)
    ensures score == ScoreSum(wordFreq, sTokens)
  {
    score := 0;
    for j := 0 to |sTokens|
      invariant score == ScoreSum(wordFreq, sTokens[..j])
    {
      assert sTokens[..j + 1][..j] == sTokens[..j];
      var word := sTokens[j];
      if word in wordFreq {
        score := score + wordFreq[word];
      }
    }
    assert sTokens[..|sTokens|] == sTokens;
  }

  /** The scoring loop of `generate_summary`: builds `scores`, skipping sentences without tokens. */
  method ScoreSentences(wordFreq: map<string, nat>, sentences: seq<string>) returns (scores: seq<Scored>)
    ensures scores == Candidates(wordFreq, sentences)
  {
    scores := [];
    for i := 0 to |sentences|
      invariant scores == Candidates(wordFreq, sentences[..i])
    {
      CandidatesStep(wordFreq, sentences, i);
      var sentence := sentences[i];
      var sTokens := WordTokens(Lower(sentence));
      if sTokens == [] {
        continue;
      }
      var score := SumFrequencies(wordFreq, sTokens);
      scores := scores + [Scored(score as real / |sTokens| as real, i, sentence)];
    }
    assert sentences[..|sentences|] == sentences;
  }

  /** The tail of `generate_summary`: sort by score, keep the first `n`, restore text order and join. */
  method JoinTop(scores: seq<Scored>, n: nat) returns (summary: string)
    ensures summary == Join(Texts(Select(scores, n)), " ")
  {
    var ranked := SortByScore(scores);
    var top := SortByPos(ranked[..Min(n, |ranked|)]);
    summary := Join(Texts(top), " ");
  }

  /** `generate_summary`: count, score, sort by score, keep the first `numSentences`, restore order. */
  method GenerateSummary(text: string, numSentences: nat) returns (summary: string)
    ensures summary == Summary(text, numSentences)
  {
    if text == [] {
      return "";
    }
    var sentences := SplitSentences(text);
    if |sentences| <= numSentences {
      return text;
    }
    var wordFreq := CountWords(WordTokens(Lower(text)));
    var scores := ScoreSentences(wordFreq, sentences);
    assert scores == Cands(text);
    summary := JoinTop(scores, numSentences);
  }
}
