/** The lexical part of the bias detector: a fixed three-category lexicon,
    substring hit counts on the lower-cased text, the emotional-language
    score, the three-way sentiment label, and the assembly of the analysis
    record from those signals and a language-model result.
    The sentiment scorer and the language model are outside the model:
    their results are parameters. */
module BiasAnalysis {
  import opened Common
  import opened Text

  datatype Category = EmotionalLanguage | LoadedWords | PartisanTerms

  /** The dictionary key of each category. */
  function CategoryKey(c: Category): string {
    match c
    case EmotionalLanguage => "emotional_language"
    case LoadedWords => "loaded_words"
    case PartisanTerms => "partisan_terms"
  }

  /** The categories in the order the indicator table lists them. */
  const Categories: seq<Category> := [EmotionalLanguage, LoadedWords, PartisanTerms]

  predicate IsLowerWord(w: string) {
    w != [] && forall i :: 0 <= i < |w| ==> IsLowerLetter(w[i])
  }

  const EmotionalWords: seq<string> :=
    ["outrageous", "shocking", "horrible", "terrible",
     "amazing", "incredible", "wonderful", "fantastic"]

  const LoadedWordList: seq<string> :=
    ["radical", "extremist", "terrorist", "socialist",
     "conspiracy", "propaganda", "regime", "elite"]

  const PartisanWords: seq<string> :=
    ["leftist", "rightist", "liberal", "conservative",
     "democrat", "republican", "progressive", "traditionalist"]

  predicate AllLowerWords(ws: seq<string>) {
    forall k :: 0 <= k < |ws| ==> IsLowerWord(ws[k])
  }

  lemma EmotionalWordsAreLower() ensures AllLowerWords(EmotionalWords) {
    assert IsLowerWord(EmotionalWords[0]);
    assert IsLowerWord(EmotionalWords[1]);
    assert IsLowerWord(EmotionalWords[2]);
    assert IsLowerWord(EmotionalWords[3]);
    assert IsLowerWord(EmotionalWords[4]);
    assert IsLowerWord(EmotionalWords[5]);
    assert IsLowerWord(EmotionalWords[6]);
    assert IsLowerWord(EmotionalWords[7]);
  }
  lemma LoadedWordsAreLower() ensures AllLowerWords(LoadedWordList) {
    assert IsLowerWord(LoadedWordList[0]);
    assert IsLowerWord(LoadedWordList[1]);
    assert IsLowerWord(LoadedWordList[2]);
    assert IsLowerWord(LoadedWordList[3]);
    assert IsLowerWord(LoadedWordList[4]);
    assert IsLowerWord(LoadedWordList[5]);
    assert IsLowerWord(LoadedWordList[6]);
    assert IsLowerWord(LoadedWordList[7]);
  }
  lemma PartisanWordsAreLower() ensures AllLowerWords(PartisanWords) {
    assert IsLowerWord(PartisanWords[0]);
    assert IsLowerWord(PartisanWords[1]);
    assert IsLowerWord(PartisanWords[2]);
    assert IsLowerWord(PartisanWords[3]);
    assert IsLowerWord(PartisanWords[4]);
    assert IsLowerWord(PartisanWords[5]);
    assert IsLowerWord(PartisanWords[6]);
    assert IsLowerWord(PartisanWords[7]);
  }
  lemma EmotionalWordsDistinct() ensures Distinct(EmotionalWords) {}
  lemma LoadedWordsDistinct() ensures Distinct(LoadedWordList) {}
  lemma PartisanWordsDistinct() ensures Distinct(PartisanWords) {}

  /** The indicator lexicon: eight distinct lower-case words per category. */
  function IndicatorWords(c: Category): (ws: seq<string>)
    ensures |ws| == 8
    ensures AllLowerWords(ws)
    ensures Distinct(ws)
  {
    match c
    case EmotionalLanguage =>
      EmotionalWordsAreLower();
      EmotionalWordsDistinct();
      EmotionalWords
    case LoadedWords =>
      LoadedWordsAreLower();
      LoadedWordsDistinct();
      LoadedWordList
    case PartisanTerms =>
      PartisanWordsAreLower();
      PartisanWordsDistinct();
      PartisanWords
  }

  /** Lower-case words are unchanged by `str.lower`, so matching them against
      the lower-cased text ignores the case of the text only. */
  lemma LowerWordsAreLower(w: string)
    requires IsLowerWord(w)
    ensures LowerStr(w) == w
  {
  }

  /** `sum(1 for word in words if word in text)`. */
  function CountHits(words: seq<string>, text: string): (n: nat)
    ensures n <= |words|
  {
    if words == [] then 0
    else (if Contains(text, words[0]) then 1 else 0) + CountHits(words[1..], text)
  }

  predicate Distinct(words: seq<string>) {
    forall k, l :: 0 <= k < l < |words| ==> words[k] != words[l]
  }

  /** The words of `words` that occur somewhere in `text`. */
  function HitSet(words: seq<string>, text: string): set<string> {
    set w | w in words && Contains(text, w)
  }

  /** Each word is counted at most once, however often it occurs: over a
      list of distinct words the count is the number of words that occur. */
  lemma {:induction false} CountHitsIsHitSetSize(words: seq<string>, text: string)
    requires Distinct(words)
    ensures CountHits(words, text) == |HitSet(words, text)|
  {
    if words == [] {
      assert HitSet(words, text) == {};
    } else {
      var w := words[0];
      var rest := words[1..];
      assert Distinct(rest) by {
        forall k, l | 0 <= k < l < |rest| ensures rest[k] != rest[l] {
          assert rest[k] == words[k + 1] && rest[l] == words[l + 1];
        }
      }
      CountHitsIsHitSetSize(rest, text);
      assert w !in rest by {
        forall k | 0 <= k < |rest| ensures rest[k] != w {
          assert rest[k] == words[k + 1];
        }
      }
      if Contains(text, w) {
        assert HitSet(words, text) == {w} + HitSet(rest, text);
        assert w !in HitSet(rest, text);
      } else {
        assert HitSet(words, text) == HitSet(rest, text);
      }
    }
  }

  /** The hit count of one category on `text`. */
  function IndicatorCount(text: string, c: Category): (n: nat)
    ensures n <= 8
  {
    CountHits(IndicatorWords(c), LowerStr(text))
  }

  /** A category's count is the number of its words that occur as a
      substring of the lower-cased text. */
  lemma IndicatorCountIsHitSetSize(text: string, c: Category)
    ensures IndicatorCount(text, c) == |HitSet(IndicatorWords(c), LowerStr(text))|
    ensures |HitSet(IndicatorWords(c), LowerStr(text))| <= 8
  {
    CountHitsIsHitSetSize(IndicatorWords(c), LowerStr(text));
  }

  /** `indicator_counts`, in the table's category order. */
  function IndicatorCounts(text: string): (counts: seq<(Category, nat)>)
    ensures |counts| == 3
    ensures forall i :: 0 <= i < 3 ==> counts[i].0 == Categories[i] && counts[i].1 <= 8
    ensures forall i :: 0 <= i < 3 ==> counts[i].1 == IndicatorCount(text, Categories[i])
  {
    [(EmotionalLanguage, IndicatorCount(text, EmotionalLanguage)),
     (LoadedWords, IndicatorCount(text, LoadedWords)),
     (PartisanTerms, IndicatorCount(text, PartisanTerms))]
  }

  /** `sum(indicator_counts.values())`. */
  function TotalCount(counts: seq<(Category, nat)>): (t: nat)
    ensures forall i :: 0 <= i < |counts| ==> counts[i].1 <= t
  {
    if counts == [] then 0
    else
      assert forall i :: 1 <= i < |counts| ==> counts[i] == counts[1..][i - 1];
      counts[0].1 + TotalCount(counts[1..])
  }

  lemma TotalCountOfThree(counts: seq<(Category, nat)>)
    requires |counts| == 3
    ensures TotalCount(counts) == counts[0].1 + counts[1].1 + counts[2].1
  {
    var r1 := counts[1..];
    var r2 := r1[1..];
    assert r2[1..] == [] && r2[0] == counts[2] && r1[0] == counts[1];
    assert TotalCount(r2) == counts[2].1 + TotalCount(r2[1..]);
    assert TotalCount(r1) == counts[1].1 + TotalCount(r2);
  }

  /** `hits / words if words > 0 else 0`. */
  function Ratio(hits: nat, words: nat): (r: real)
    ensures r >= 0.0
    ensures words == 0 ==> r == 0.0
    ensures words > 0 ==> r * (words as real) == hits as real
    ensures words > 0 ==> r == hits as real / words as real
  {
    if words > 0 then hits as real / words as real else 0.0
  }

  datatype LanguageResult = LanguageResult(counts: seq<(Category, nat)>, emotionalScore: real)

  /** `_analyze_language_patterns`: the emotional score is the total count
      over the number of whitespace-separated words, or 0 without words. */
  function AnalyzeLanguagePatterns(text: string): (r: LanguageResult)
    ensures |r.counts| == 3
    ensures forall i :: 0 <= i < 3 ==> r.counts[i].0 == Categories[i] && r.counts[i].1 <= 8
    ensures forall i :: 0 <= i < 3 ==> r.counts[i].1 == IndicatorCount(text, Categories[i])
    ensures |Words(text)| == 0 ==> r.emotionalScore == 0.0
    ensures |Words(text)| > 0 ==> r.emotionalScore == TotalCount(r.counts) as real / |Words(text)| as real
    ensures r.emotionalScore >= 0.0
  {
    var counts := IndicatorCounts(text);
    LanguageResult(counts, Ratio(TotalCount(counts), |Words(text)|))
  }

  /** The analysis does not depend on the case of the letters in the text:
      counts and emotional score are the same for both. */
  lemma LanguagePatternsIgnoreCase(a: string, b: string)
    requires SameUpToCase(a, b)
    ensures AnalyzeLanguagePatterns(a) == AnalyzeLanguagePatterns(b)
  {
    LowerStrUpToCase(a, b);
    WordCountUpToCase(a, b);
  }

  /** Empty or whitespace-only text: no hits and a zero score. */
  lemma LanguagePatternsOfBlankText(text: string)
    requires AllSpace(text)
    ensures AnalyzeLanguagePatterns(text).emotionalScore == 0.0
    ensures TotalCount(AnalyzeLanguagePatterns(text).counts) == 0
  {
    WordsEmptyIffAllSpace(text);
    var t := LowerStr(text);
    assert AllSpace(t);
    forall c: Category ensures IndicatorCount(text, c) == 0 {
      NoWordInBlank(IndicatorWords(c), t);
    }
    TotalCountOfThree(IndicatorCounts(text));
  }

  lemma {:induction false} NoWordInBlank(words: seq<string>, t: string)
    requires AllSpace(t)
    requires forall k :: 0 <= k < |words| ==> IsLowerWord(words[k])
    ensures CountHits(words, t) == 0
  {
    if words != [] {
      var w := words[0];
      assert !Contains(t, w) by {
        forall i | 0 <= i <= |t| ensures !(w <= t[i..]) {
          if i < |t| {
            assert t[i..][0] == t[i];
            assert IsLowerLetter(w[0]) && IsSpace(t[i]);
          }
        }
      }
      NoWordInBlank(words[1..], t);
    }
  }

  /** A lexicon word that occurs in the lower-cased text makes its
      category's count at least 1; two different ones of the same
      category make it at least 2. */
  lemma HitsRaiseCount(text: string, c: Category, u: string, v: string)
    requires u in IndicatorWords(c) && Contains(LowerStr(text), u)
    requires v in IndicatorWords(c) && Contains(LowerStr(text), v)
    ensures IndicatorCount(text, c) >= (if u == v then 1 else 2)
  {
    var hits := HitSet(IndicatorWords(c), LowerStr(text));
    IndicatorCountIsHitSetSize(text, c);
    assert {u, v} <= hits;
    assert hits == {u, v} + (hits - {u, v});
    assert |{u, v}| == (if u == v then 1 else 2);
  }

  /** The total counts the three categories once each. */
  lemma TotalCountCovers(text: string, c: Category, d: Category)
    ensures TotalCount(IndicatorCounts(text))
      >= if c == d then IndicatorCount(text, c) else IndicatorCount(text, c) + IndicatorCount(text, d)
  {
    var counts := IndicatorCounts(text);
    TotalCountOfThree(counts);
    assert counts[0].1 == IndicatorCount(text, EmotionalLanguage);
    assert counts[1].1 == IndicatorCount(text, LoadedWords);
    assert counts[2].1 == IndicatorCount(text, PartisanTerms);
  }

  /** Substring hits can outnumber words: a single word of the text that
      holds two different indicator words, of any categories, gives an
      emotional score of at least 2. */
  lemma CompoundWordScoresAtLeastTwo(text: string, c: Category, u: string, d: Category, v: string)
    requires text != [] && NoSpace(text)
    requires u in IndicatorWords(c) && Contains(LowerStr(text), u)
    requires v in IndicatorWords(d) && Contains(LowerStr(text), v)
    requires u != v
    ensures AnalyzeLanguagePatterns(text).emotionalScore >= 2.0
  {
    WordsOfNoSpace(text);
    TotalCountCovers(text, c, d);
    if c == d {
      HitsRaiseCount(text, c, u, v);
    } else {
      HitsRaiseCount(text, c, u, u);
      HitsRaiseCount(text, d, v, v);
    }
  }

  /** An instance: "outrageousshocking" is one word with two hits. */
  lemma EmotionalScoreCanExceedOne()
    ensures AnalyzeLanguagePatterns("outrageousshocking").emotionalScore > 1.0
  {
    var text := "outrageousshocking";
    assert IsLowerWord(text);
    LowerWordsAreLower(text);
    var ws := IndicatorWords(EmotionalLanguage);
    assert ws[0] <= text[0..];
    assert ws[1] <= text[10..];
    CompoundWordScoresAtLeastTwo(text, EmotionalLanguage, ws[0], EmotionalLanguage, ws[1]);
  }

  datatype Sentiment = Positive | Negative | Neutral

  /** `_analyze_sentiment`: the label of a compound score. */
  function SentimentLabel(compound: real): (s: Sentiment)
    ensures s == Positive <==> compound >= 0.05
    ensures s == Negative <==> compound <= -0.05
    ensures s == Neutral <==> -0.05 < compound < 0.05
  {
    if compound >= 0.05 then Positive
    else if compound <= -0.05 then Negative
    else Neutral
  }

  /** `s.replace(a, b)` for single characters. */
  function ReplaceChar(s: string, a: char, b: char): (t: string)
    ensures |t| == |s|
    ensures forall i :: 0 <= i < |s| ==> t[i] == (if s[i] == a then b else s[i])
  {
    seq(|s|, i requires 0 <= i < |s| => if s[i] == a then b else s[i])
  }

  /** The line reported for one category with a positive count. */
  function IndicatorMessage(c: Category, n: nat): string {
    "Found " + NatToString(n) + " instances of " + ReplaceChar(CategoryKey(c), '_', ' ')
  }

  /** The message list comprehension over `indicator_counts.items()`. */
  function IndicatorMessages(counts: seq<(Category, nat)>): (m: seq<string>)
    ensures |m| <= |counts|
  {
    if counts == [] then []
    else (if counts[0].1 > 0 then [IndicatorMessage(counts[0].0, counts[0].1)] else [])
         + IndicatorMessages(counts[1..])
  }

  /** The positions of the positive counts, in increasing order. */
  function PositiveIndices(counts: seq<(Category, nat)>): (p: seq<nat>)
    ensures forall k :: 0 <= k < |p| ==> p[k] < |counts| && counts[p[k]].1 > 0
    ensures forall i :: 0 <= i < |counts| && counts[i].1 > 0 ==> i in p
    ensures forall k, l :: 0 <= k < l < |p| ==> p[k] < p[l]
  {
    if counts == [] then []
    else
      var init := counts[..|counts| - 1];
      var rest := PositiveIndices(init);
      if counts[|counts| - 1].1 > 0 then rest + [|counts| - 1] else rest
  }

  lemma {:induction false} IndicatorMessagesSnoc(counts: seq<(Category, nat)>, x: (Category, nat))
    ensures IndicatorMessages(counts + [x])
         == IndicatorMessages(counts) + (if x.1 > 0 then [IndicatorMessage(x.0, x.1)] else [])
  {
    if counts == [] {
      assert [x][1..] == [];
    } else {
      var head := if counts[0].1 > 0 then [IndicatorMessage(counts[0].0, counts[0].1)] else [];
      var tail := if x.1 > 0 then [IndicatorMessage(x.0, x.1)] else [];
      assert (counts + [x])[0] == counts[0];
      assert (counts + [x])[1..] == counts[1..] + [x];
      calc {
        IndicatorMessages(counts + [x]);
        head + IndicatorMessages(counts[1..] + [x]);
        { IndicatorMessagesSnoc(counts[1..], x); }
        head + (IndicatorMessages(counts[1..]) + tail);
        (head + IndicatorMessages(counts[1..])) + tail;
      }
    }
  }

  /** There is one message per positive count, in category order, and
      message k is about the k-th category whose count is positive. */
  lemma {:induction false} IndicatorMessagesArePositiveCounts(counts: seq<(Category, nat)>)
    ensures |IndicatorMessages(counts)| == |PositiveIndices(counts)|
    ensures forall k :: 0 <= k < |PositiveIndices(counts)| ==>
      IndicatorMessages(counts)[k]
        == IndicatorMessage(counts[PositiveIndices(counts)[k]].0, counts[PositiveIndices(counts)[k]].1)
  {
    if counts != [] {
      var init := counts[..|counts| - 1];
      var x := counts[|counts| - 1];
      assert counts == init + [x];
      IndicatorMessagesArePositiveCounts(init);
      IndicatorMessagesSnoc(init, x);
    }
  }

  /** The scores `polarity_scores` reports. */
  datatype Polarity = Polarity(neg: real, neu: real, pos: real, compound: real)

  /** The `bias_indicators` entry of the language-model result. */
  datatype LlmIndicators = LlmIndicators(
    languagePatterns: Option<seq<string>>,
    sourceCredibility: Option<string>,
    factConsistency: Option<string>)

  /** The language-model result dictionary; `None` marks a missing key. */
  datatype LlmResult = LlmResult(
    biasScore: Option<real>,
    confidence: Option<real>,
    keyFindings: Option<seq<string>>,
    biasIndicators: Option<LlmIndicators>,
    recommendations: Option<seq<string>>)

  const EmptyLlmResult: LlmResult := LlmResult(None, None, None, None, None)

  datatype StyleMetrics = StyleMetrics(emotionalLanguage: real, loadedWords: real)

  datatype Analysis = Analysis(
    biasScore: real,
    confidence: real,
    sentiment: Sentiment,
    emotionalScores: Polarity,
    styleMetrics: StyleMetrics,
    biasIndicators: seq<string>,
    keyTakeaways: seq<string>,
    recommendations: seq<string>,
    credibility: string,
    factConsistency: string)

  datatype AnalyzeError = MissingText | TextNotString

  /** `llm_results.get('bias_indicators', {})` as a record of optional entries. */
  function LlmIndicatorsOrEmpty(llm: LlmResult): LlmIndicators {
    llm.biasIndicators.GetOr(LlmIndicators(None, None, None))
  }

  /** `analyze`: the text is looked up first (a missing key raises), then the
      lexical signals are combined with the language-model result, taking
      the documented default for every missing entry. `vader` stands for
      `polarity_scores`. */
  function Analyze(article: map<string, Value>, vader: string -> Polarity, llm: LlmResult)
    : (r: Result<Analysis, AnalyzeError>)
    ensures r.Failure? <==> !("text" in article && article["text"].Str?)
    ensures "text" !in article ==> r == Failure(MissingText)
    ensures r.Success? ==>
      var text := article["text"].s;
      var counts := IndicatorCounts(text);
      var a := r.value;
      && a.sentiment == SentimentLabel(vader(text).compound)
      && a.emotionalScores == vader(text)
      && a.styleMetrics.emotionalLanguage == AnalyzeLanguagePatterns(text).emotionalScore
      && a.styleMetrics.loadedWords * 100.0 == TotalCount(counts) as real
      && IndicatorMessages(counts) <= a.biasIndicators
      && a.biasIndicators[|IndicatorMessages(counts)|..]
         == LlmIndicatorsOrEmpty(llm).languagePatterns.GetOr([])
      && (llm.biasScore.None? ==> a.biasScore == 0.0)
      && (llm.biasScore.Some? ==> a.biasScore == llm.biasScore.value)
      && (llm.confidence.None? ==> a.confidence == 0.8)
      && (llm.confidence.Some? ==> a.confidence == llm.confidence.value)
      && (llm.keyFindings.None? ==> a.keyTakeaways == [])
      && (llm.keyFindings.Some? ==> a.keyTakeaways == llm.keyFindings.value)
      && (llm.recommendations.None? ==> a.recommendations == [])
      && (llm.recommendations.Some? ==> a.recommendations == llm.recommendations.value)
      && (llm.biasIndicators.None? ==>
            a.credibility == "Unknown" && a.factConsistency == "Unknown"
            && a.biasIndicators == IndicatorMessages(counts))
      && (llm.biasIndicators.Some? && llm.biasIndicators.value.sourceCredibility.Some? ==>
            a.credibility == llm.biasIndicators.value.sourceCredibility.value)
      && (llm.biasIndicators.Some? && llm.biasIndicators.value.factConsistency.Some? ==>
            a.factConsistency == llm.biasIndicators.value.factConsistency.value)
      && (llm.biasIndicators.Some? && llm.biasIndicators.value.sourceCredibility.None? ==>
            a.credibility == "Unknown")
      && (llm.biasIndicators.Some? && llm.biasIndicators.value.factConsistency.None? ==>
            a.factConsistency == "Unknown")
  {
    if "text" !in article then Failure(MissingText)
    else if article["text"].Null? then Failure(TextNotString)
    else
      var text := article["text"].s;
      var language := AnalyzeLanguagePatterns(text);
      var indicators := LlmIndicatorsOrEmpty(llm);
      var messages := IndicatorMessages(language.counts);
      var patterns := indicators.languagePatterns.GetOr([]);
      assert (messages + patterns)[..|messages|] == messages;
      assert (messages + patterns)[|messages|..] == patterns;
      Success(Analysis(
        llm.biasScore.GetOr(0.0),
        llm.confidence.GetOr(0.8),
        SentimentLabel(vader(text).compound),
        vader(text),
        StyleMetrics(language.emotionalScore, TotalCount(language.counts) as real / 100.0),
        messages + patterns,
        llm.keyFindings.GetOr([]),
        llm.recommendations.GetOr([]),
        indicators.sourceCredibility.GetOr("Unknown"),
        indicators.factConsistency.GetOr("Unknown")))
  }
}
