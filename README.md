# VerifAI scoring core in Dafny

VerifAI is a small web application. A user pastes an article or gives a URL.
The application then:

- cleans the text;
- finds related stored articles by embedding similarity;
- scores the text for bias and sentiment;
- shows a bias meter.

This project models the deterministic computations of that pipeline and proves what they promise.

- **Bias signals** (`BiasAnalysis`).
  - A fixed three-category indicator lexicon.
  - Per-category substring hit counts on the lower-cased text.
  - The emotional-language score.
  - The three-way sentiment label.
  - The assembly of the analysis record from these signals and a language-model result, with the defaults for missing entries.
- **Bias meter** (`BiasMeter`).
  - The five leaning bands and their colours.
  - The clamp of the score to [-1, 1].
  - The gauge value.
- **Evaluation** (`Evaluation`).
  - Mean relevance and the bias-detection score.
  - The three-way overall mean.
  - The choice of the best evaluation run.
- **Search** (`Search`).
  - Keyword extraction by token frequency, as in `FreqDist.most_common`.
  - The URL domain and the article record of a fetched page.
  - The related-articles query.
  - The fact-check filter over the top three search results.
- **Text processing** (`Process`).
  - Three-step cleaning of raw text: collapse whitespace runs, delete disallowed characters, strip.
  - The first-N-sentences summary.
  - The record built for pasted text.
- **Warehouse helpers** (`Snowflake`).
  - The required-settings check.
  - The split of the account identifier into account and region.
  - The connection parameters.
  - The final sort-and-truncate ranking of a semantic search.

Support modules:

- `Common`: options, results, and Python's `s[:k]`.
- `Text`: Python string operations.
  - `str.isspace`, `str.lower`, substring `in`.
  - `str.split()`, `str.split(sep)`, `sep.join`.
  - Integer rendering.
- `Sorting`: Python's stable `sort(reverse=True)` as a specification.
  - It is sorted and a permutation of the input.
  - It is stable, both per key value and by input position.

External results are parameters of the model:

- the sentiment analyser's polarity scores;
- tokeniser and sentence-splitter output, and the stop-word set;
- the language-model result;
- the embedding similarity of each stored article;
- the groundedness score;
- the fetched page.

Points of the code's behaviour that the model keeps:

- **Substring matching.** A lexicon word counts once if it occurs as a substring of the lower-cased text (`backend/bias_analysis.py:86`). So the emotional score can exceed 1; `EmotionalScoreCanExceedOne` gives an example.
- **Inclusive upper bounds.** Each band of the leaning classifier includes its upper bound, so -0.6 is "Far Left" (`frontend/components/bias_meter.py:24`).
- **Missing text is an error.** `analyze` reads `article_data['text']` directly, so a missing text raises (`backend/bias_analysis.py:103`).

## Model

| member | source | states |
|---|---|---|
| BiasAnalysis.IndicatorWords | backend/bias_analysis.py:47-60 | each of the three categories has exactly eight distinct, lower-case indicator words |
| BiasAnalysis.LowerWordsAreLower | backend/bias_analysis.py:81 | lower-casing leaves a lower-case lexicon word unchanged, so only the text's case is folded |
| BiasAnalysis.CountHits | backend/bias_analysis.py:86 | a category's count never exceeds its number of words |
| BiasAnalysis.CountHitsIsHitSetSize | backend/bias_analysis.py:86 | the count of distinct words equals the size of the set of words that occur as a substring of the text |
| BiasAnalysis.IndicatorCount | backend/bias_analysis.py:85-88 | a category count on the lower-cased text lies in 0..8 |
| BiasAnalysis.IndicatorCountIsHitSetSize | backend/bias_analysis.py:85-88 | a category count is the number of that category's words found as substrings of the lower-cased text |
| BiasAnalysis.IndicatorCounts | backend/bias_analysis.py:85-88 | three (category, count) pairs in table order, each count the category's indicator count on the text, at most 8 |
| BiasAnalysis.HitsRaiseCount | backend/bias_analysis.py:86 | one indicator word found in the lower-cased text gives a count of at least 1, two different ones at least 2 |
| BiasAnalysis.TotalCount | backend/bias_analysis.py:91 | the total is at least every single count |
| BiasAnalysis.TotalCountCovers | backend/bias_analysis.py:91 | the total is at least any one category's count and at least the sum of two different categories' counts |
| BiasAnalysis.TotalCountOfThree | backend/bias_analysis.py:91 | the total is the sum of the three category counts |
| BiasAnalysis.Ratio | backend/bias_analysis.py:93 | the score is non-negative, 0 without words, and otherwise times the word count gives the hit total |
| BiasAnalysis.AnalyzeLanguagePatterns | backend/bias_analysis.py:79-98 | three counts in table order, the i-th being the number of the i-th category's words found in the lower-cased text (so at most 8); score = the total of the counts / the whitespace word count, 0 without words, never negative |
| BiasAnalysis.LanguagePatternsIgnoreCase | backend/bias_analysis.py:81-93 | texts that differ only in letter case get identical counts and score |
| BiasAnalysis.LanguagePatternsOfBlankText | backend/bias_analysis.py:91-93 | empty or whitespace-only text has no hits and score exactly 0 |
| BiasAnalysis.CompoundWordScoresAtLeastTwo | backend/bias_analysis.py:86-93 | any single whitespace-free word that contains two different indicator words, of the same or of different categories, scores at least 2, as substring hits can outnumber words |
| BiasAnalysis.EmotionalScoreCanExceedOne | backend/bias_analysis.py:86-93 | "outrageousshocking" has an emotional score above 1 |
| BiasAnalysis.SentimentLabel | backend/bias_analysis.py:67-72 | positive iff compound >= 0.05, negative iff <= -0.05, neutral iff strictly between; exactly one applies |
| BiasAnalysis.ReplaceChar | backend/bias_analysis.py:131 | `replace('_', ' ')` maps each underscore to a space and keeps every other character |
| BiasAnalysis.PositiveIndices | backend/bias_analysis.py:133 | the positions whose count is positive, all of them, in increasing order |
| BiasAnalysis.IndicatorMessages | backend/bias_analysis.py:130-134 | at most one message per category count |
| BiasAnalysis.IndicatorMessagesArePositiveCounts | backend/bias_analysis.py:130-133 | one "Found N instances of ..." message per positive count, in category order, the k-th naming the k-th positive category |
| BiasAnalysis.Analyze | backend/bias_analysis.py:100-143 | a missing or non-string text fails; otherwise sentiment, scores and style metrics come from the text, loaded_words*100 is the total count, the messages are followed by the model's language patterns, and each missing model entry takes its default (0.0, 0.8, [], [], "Unknown"), including "Unknown" credibility and consistency when the indicators are present but lack that key, while a present one is used as given |
| BiasMeter.BiasCategory | frontend/components/bias_meter.py:22-33 | five bands, each an iff on the score range, upper bounds inclusive |
| BiasMeter.BiasCategoryName | frontend/components/bias_meter.py:22-33 | the name is one of the five labels, that of the score's band |
| BiasMeter.BiasCategoryMonotone | frontend/components/bias_meter.py:22-33 | a larger score never falls in a band further left |
| BiasMeter.BoundariesBelongToLowerBand | frontend/components/bias_meter.py:24-31 | -0.6, -0.2, 0.2 and 0.6 belong to the band below them |
| BiasMeter.ColorMatchesCategory | frontend/components/bias_meter.py:9-33 | the colour chain and the category chain agree for every score, and the colour identifies the band |
| BiasMeter.BiasColor | frontend/components/bias_meter.py:9-20 | one of the five colours, the grey one exactly for scores in (-0.2, 0.2] |
| BiasMeter.Clamp | frontend/components/bias_meter.py:40 | the result lies in [-1, 1], is the identity inside it and saturates outside |
| BiasMeter.ClampIdempotent | frontend/components/bias_meter.py:40 | clamping twice equals clamping once |
| BiasMeter.DisplayBiasMeter | frontend/components/bias_meter.py:35-70 | gauge value = the clamped score * 100, so in [-100, 100], score*100 on [-1, 1], -100 below and 100 above; colour and category come from the clamped score |
| Evaluation.SeqMax | backend/trulens_opt.py:117 | the maximum bounds every element and is attained |
| Evaluation.Mean | backend/trulens_opt.py:45 | the mean times the number of elements is their sum |
| Evaluation.MeanWithin | backend/trulens_opt.py:45 | a mean stays within any bounds of its elements |
| Evaluation.MeanBetweenMinAndMax | backend/trulens_opt.py:45 | a mean lies between the smallest and largest element |
| Evaluation.RelevanceScores | backend/trulens_opt.py:40-43 | one score per article, 0.0 where the score is missing |
| Evaluation.EvaluateRelevance | backend/trulens_opt.py:33-45 | 0.0 for no articles; otherwise times the count it gives the sum of the scores |
| Evaluation.RelevanceBetweenScores | backend/trulens_opt.py:40-45 | the relevance lies between the lowest and highest article score |
| Evaluation.DetectionScore | backend/trulens_opt.py:56-63 | the score lies in [0, 1], is 1 iff prediction equals truth, and is 0 once they differ by 1 or more |
| Evaluation.DetectionScoreSymmetric | backend/trulens_opt.py:60-61 | swapping prediction and truth leaves the score unchanged |
| Evaluation.DetectionScoreMonotone | backend/trulens_opt.py:60-61 | a closer prediction never scores lower |
| Evaluation.EvaluateBiasDetection | backend/trulens_opt.py:47-63 | without ground truth the confidence (default 0.0); with it a score in [0, 1] that is 1 iff the bias scores (default 0.0) agree |
| Evaluation.EvaluateSystem | backend/trulens_opt.py:65-104 | overall*3 is the sum of groundedness, relevance and detection, and lies between their minimum and maximum; details count the articles and carry the confidence |
| Evaluation.ArgMax | backend/trulens_opt.py:117 | the index of a maximum, the first one |
| Evaluation.OverallScores | backend/trulens_opt.py:116 | defined iff every run has an overall score, and then the scores in run order |
| Evaluation.OptimizeParameters | backend/trulens_opt.py:106-131 | {} for no runs; fails iff a run lacks its score; otherwise the constant parameters, the maximum score (attained), and an improvement over the mean that is >= 0 |
| Snowflake.MissingAmong | backend/snowflake_integration.py:24 | exactly the names that are absent or empty, as a subsequence of the listed order |
| Snowflake.MissingVars | backend/snowflake_integration.py:24 | exactly the required settings that are absent or empty, in the listed order |
| Snowflake.NoneMissingMeansAllSet | backend/snowflake_integration.py:24-26 | with nothing missing, each of the six settings is present and non-empty |
| Snowflake.MissingVarsEmptyIffAllSet | backend/snowflake_integration.py:24-26 | nothing is missing iff all six settings are present and non-empty |
| Snowflake.SplitAccount | backend/snowflake_integration.py:29-36 | the id has no '.'; without a '.' it is the account and there is no region; with one, id + "." + region is the account |
| Snowflake.TrailingDotGivesEmptyRegion | backend/snowflake_integration.py:30-33 | an identifier without a dot followed by one "." splits into itself and the empty region "" |
| Snowflake.ConnectionParams | backend/snowflake_integration.py:15-48 | fails iff a setting is missing, naming them joined by ", "; otherwise account, user, password and role, plus region only when it is non-empty, with id + "." + region = the account |
| Snowflake.HitsOf | backend/snowflake_integration.py:209-224 | one hit per row, in row order, carrying its similarity and metadata |
| Snowflake.SemanticSearch | backend/snowflake_integration.py:208-228 | the loop builds the hits in row order; the result is the stable descending sort truncated Python-style, sorted, of length min(top_k, n) |
| Snowflake.TopHitsRanked | backend/snowflake_integration.py:227-228 | sorted by score, length min(top_k, n), drawn from the input, no dropped hit outscores a kept one, ties keep input order |
| Snowflake.TopHits | backend/snowflake_integration.py:227-228 | a prefix of the descending stable sort, never longer than the input |
| Snowflake.TopHitsKeepBest | backend/snowflake_integration.py:227-228 | no hit outside the result outscores one inside it |
| Sorting.SortDesc | backend/snowflake_integration.py:227 | sorted by non-increasing key and a permutation of the input |
| Sorting.SortStable | backend/snowflake_integration.py:227 | elements with equal keys keep their input order |
| Sorting.SortKeepsTieOrder | backend/snowflake_integration.py:227 | two sorted entries with equal keys come from input positions in the same order |
| Common.PyPrefix | backend/snowflake_integration.py:228 | `s[:k]` is a prefix of length min(k, n) for k >= 0, and drops the last -k elements for k < 0 |
| Text.Split | backend/snowflake_integration.py:31 | at least one piece, none containing the separator, two or more iff the separator occurs |
| Text.JoinSplit | backend/snowflake_integration.py:31-33 | joining the pieces of a split with the separator gives back the string |
| Text.WordsCoverNonSpace | backend/bias_analysis.py:92 | `split()` loses only whitespace: its words concatenate to the non-whitespace characters |
| Text.ParseNatToString | backend/bias_analysis.py:131 | the rendered count reads back as the same number |
| Search.FilterTokens | backend/search.py:27 | keeps exactly the alphanumeric tokens outside the stop words, never more tokens than given |
| Search.FilterKeepsCounts | backend/search.py:27-30 | a kept token has the same frequency before and after filtering |
| Search.DistinctInOrder | backend/search.py:30 | the distinct tokens, each once, in order of first occurrence |
| Search.MostCommonIsPrefix | backend/search.py:31 | the keywords are a prefix of the frequency ranking, of length min(n, distinct) for n > 0 and 0 otherwise |
| Search.MostCommon | backend/search.py:30-31 | nothing for n <= 0, at most n keywords otherwise |
| Search.MostCommonFromTokens | backend/search.py:30-31 | every keyword is one of the tokens |
| Search.MostCommonTieOrder | backend/search.py:30-31 | two equally frequent keywords appear in the order of their first occurrence |
| Search.MostCommonDistinctInOrder | backend/search.py:30-31 | keywords come from the tokens, are distinct, and equally frequent ones keep first-occurrence order |
| Search.MostCommonTopByFrequency | backend/search.py:30-31 | non-increasing frequency, and no omitted token is more frequent than a returned one |
| Search.ExtractKeywordsRanked | backend/search.py:24-31 | keywords are distinct alphanumeric non-stop-word tokens of the lower-cased text, none for n <= 0, ranked by their frequency there |
| Search.ExtractKeywords | backend/search.py:24-31 | nothing for num_keywords <= 0, at most num_keywords keywords otherwise |
| Search.UrlDomain | backend/search.py:44 | the third '/'-separated field, present iff there are at least three |
| Search.DomainOfHttpUrl | backend/search.py:44 | for scheme://host/path the domain is host |
| Search.ProcessUrl | backend/search.py:33-53 | None when the fetch fails or the URL has no third field; otherwise url, domain, title ('' if none) and the paragraphs joined by spaces |
| Search.FieldText | backend/search.py:58 | a string field renders as itself, None as "None", a missing field as '' |
| Search.RelatedQuery | backend/search.py:58 | the title, one space, then the text: the query starts with the rendered title, has ' ' after it, and the rest is exactly the rendered text |
| Search.RelatedQueryEdgeCases | backend/search.py:58 | without title and text the query is " "; a None title is searched as "None " |
| Search.RelatedQueryDeterminesFields | backend/search.py:58 | for titles without a space, equal queries come from equal titles and equal texts |
| Search.FindRelated | backend/search.py:55-63 | the ranked search for the article's query: sorted, at most top_k hits |
| Search.RelevantChecks | backend/search.py:74-83 | never more entries than results |
| Search.RelevantChecksSound | backend/search.py:75-83 | every entry reports the claim, "Checking...", and a result with score > 0.7 as confidence, domain and url |
| Search.RelevantChecksComplete | backend/search.py:75-83 | every result with score > 0.7 is reported |
| Search.RelevantChecksRanked | backend/search.py:75-83 | results ranked by score give entries ranked by confidence |
| Search.RelevantIndices | backend/search.py:74-83 | the positions of the results with score > 0.7, all of them, in increasing order |
| Search.RelevantChecksExact | backend/search.py:74-83 | the entries are exactly one per relevant result, in result order, the k-th built from the k-th relevant result |
| Search.GetFactCheckingSources | backend/search.py:65-89 | the search is run on the claim itself; an error gives []; otherwise the loop keeps the relevant results among the top three, so at most three entries, each with confidence > 0.7, ranked by confidence |
| Process.CollapseSpace | backend/process.py:22 | no longer than the input, empty iff the input is, whitespace only as plain spaces, never two whitespace characters in a row |
| Process.CollapseKeepsNonSpace | backend/process.py:22 | the non-whitespace characters are kept in order |
| Process.CollapseOfNoSpace | backend/process.py:22 | text without whitespace is unchanged |
| Process.CollapseKeepsWords | backend/process.py:22 | collapsing whitespace keeps the whitespace-separated words |
| Process.DeleteDisallowed | backend/process.py:24 | only word characters, whitespace and . , ! ? - remain |
| Process.DeleteKeepsAllowed | backend/process.py:24 | every allowed character keeps its number of occurrences, no other remains |
| Process.DeleteKeepsPlainSpaces | backend/process.py:22-24 | deleting characters adds no whitespace other than the plain space |
| Process.NonSpaceOfDelete | backend/process.py:24 | deletion commutes with dropping whitespace |
| Process.DeleteAllowedOnly | backend/process.py:24 | text of allowed characters only is unchanged |
| Process.CleanWords | backend/process.py:24 | each word with its disallowed characters removed, words that become empty dropped; never more words, none empty |
| Process.DeleteKeepsWords | backend/process.py:24 | the words after deletion are the cleaned words of the input |
| Process.Strip | backend/process.py:25 | a slice between all-whitespace ends that starts and ends with a non-whitespace character |
| Process.StripKeepsNonSpace | backend/process.py:25 | stripping removes whitespace only |
| Process.StripKeepsWords | backend/process.py:25 | stripping keeps the whitespace-separated words |
| Process.CleanText | backend/process.py:19-25 | no leading or trailing whitespace, only allowed characters, whitespace only as ' ', no longer than the input |
| Process.CleanTextKeepsVisible | backend/process.py:19-25 | the visible characters of the result are exactly the allowed visible characters of the input, in order |
| Process.CleanTextWords | backend/process.py:19-25 | the words of the cleaned text are the input's words each cleaned of disallowed characters, empty ones dropped |
| Process.CleanWordUnchanged | backend/process.py:19-25 | an allowed word without whitespace is already clean |
| Process.CleaningCanLeaveDoubleSpace | backend/process.py:22-25 | "a @ b" cleans to "a  b", which cleans again to "a b": neither single spaces nor idempotence holds |
| Process.Summarize | backend/process.py:47-56 | the text when it has at most max sentences; otherwise the first max sentences joined by ' ', and for a negative max all but the last -max sentences, as Python slicing does |
| Process.JoinPrefix | backend/process.py:56 | joining a prefix of the sentences gives a prefix of the joined whole |
| Process.SummaryIsPrefixOfText | backend/process.py:47-56 | when the sentences rejoin to the text, the summary is a prefix of the text |
| Process.ZeroSentenceSummary | backend/process.py:51-56 | asking for zero sentences of a text that has some gives "" |
| Process.ProcessText | backend/process.py:89-100 | url, domain, title and html are None, text is the cleaned input, the summary is the 3-sentence summary of that cleaned text: the text itself with at most 3 sentences, else its first 3 sentences joined by ' ' |
| Process.ProcessTextSummaryWithinText | backend/process.py:89-100 | with a faithful sentence splitter the summary is a prefix of the cleaned text |

## Left out

- The Streamlit pages, the result display and the plotly gauge drawing are presentation only. Only the numbers the bias meter computes are modelled.
- The warehouse is not modelled: connections, SQL, table set-up, inserts and the random article ids.
  - The similarity of each stored article to a query is a parameter, as embeddings and cosine similarity are floating-point work by a foreign model.
- These foreign libraries appear only through their outputs, which are parameters:
  - VADER `polarity_scores`;
  - NLTK `word_tokenize`, `sent_tokenize`, stop words and downloads;
  - the language-model call and its prompt;
  - TruLens groundedness.
- HTTP requests and BeautifulSoup parsing are left out.
  - `Search.ProcessUrl` takes the fetched page (title and paragraph texts) or its absence as input.
  - `ArticleProcessor.process_url` and its helpers (`_extract_main_content`, `_get_domain` via `urlparse`) are not modelled, because they are HTML and URL library work.
- The setup scripts and the connection smoke test are left out.
- Scores are exact reals. Floating-point rounding in divisions and means is not modelled.
- Text.Lower, Search.IsAlnumWord, Process.IsWordChar: `str.lower`, `str.isalnum` and `\w` are modelled on ASCII letters and digits. Non-ASCII letters are therefore not lower-cased, not alphanumeric and not word characters here. Python treats them as Unicode letters.
- Snowflake.SemanticSearch: the in-place `results.sort(...)` is modelled as the stable sort function applied to the list value.
- Snowflake.SemanticSearch: `float(similarity)` failing on a NULL embedding is not modelled.
- Search.GetFactCheckingSources: any exception raised by the search is one error input (`None`), which gives the empty list.
- BiasMeter.DisplayBiasMeter: the `float(bias_score)` conversion error path, which only shows an error message, is not modelled.
- Search.ProcessUrl: the title is the page's title text or ''. BeautifulSoup's `title.string` being None for a nested title is not modelled.
- Evaluation.EvaluateRelevance: a relevance_score key present with value None is not modelled; NumPy would fail on it.
