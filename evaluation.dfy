/** The evaluation metrics of the optimiser: mean relevance of the retrieved
    articles, the bias-detection score against an optional ground truth,
    the three-way overall mean, and the choice of the best run.
    The groundedness measure comes from an external provider and is a
    parameter. */
module Evaluation {
  import opened Common

  function Sum(s: seq<real>): real {
    if s == [] then 0.0 else s[0] + Sum(s[1..])
  }

  /** `np.mean` of a non-empty list. */
  function Mean(s: seq<real>): (m: real)
    requires |s| > 0
    ensures m * (|s| as real) == Sum(s)
  {
    Sum(s) / |s| as real
  }

  /** The largest element. */
  function SeqMax(s: seq<real>): (m: real)
    requires |s| > 0
    ensures forall i :: 0 <= i < |s| ==> s[i] <= m
    ensures exists i :: 0 <= i < |s| && s[i] == m
  {
    if |s| == 1 then s[0]
    else
      var rest := SeqMax(s[1..]);
      assert forall i :: 1 <= i < |s| ==> s[i] == s[1..][i - 1];
      if s[0] >= rest then s[0] else rest
  }

  /** The smallest element. */
  function SeqMin(s: seq<real>): (m: real)
    requires |s| > 0
    ensures forall i :: 0 <= i < |s| ==> m <= s[i]
    ensures exists i :: 0 <= i < |s| && s[i] == m
  {
    if |s| == 1 then s[0]
    else
      var rest := SeqMin(s[1..]);
      assert forall i :: 1 <= i < |s| ==> s[i] == s[1..][i - 1];
      if s[0] <= rest then s[0] else rest
  }

  lemma {:induction false} SumBounds(s: seq<real>, lo: real, hi: real)
    requires forall i :: 0 <= i < |s| ==> lo <= s[i] <= hi
    ensures (|s| as real) * lo <= Sum(s) <= (|s| as real) * hi
  {
    if s != [] {
      assert forall i :: 0 <= i < |s[1..]| ==> s[1..][i] == s[i + 1];
      SumBounds(s[1..], lo, hi);
    }
  }

  lemma QuotientBounds(total: real, n: real, lo: real, hi: real)
    requires n > 0.0
    requires n * lo <= total <= n * hi
    ensures lo <= total / n <= hi
  {
    var m := total / n;
    assert m * n == total;
    assert (m - lo) * n == total - n * lo;
    assert (hi - m) * n == n * hi - total;
    NonNegativeFactor(m - lo, n);
    NonNegativeFactor(hi - m, n);
  }

  lemma NonNegativeFactor(a: real, n: real)
    requires n > 0.0 && a * n >= 0.0
    ensures a >= 0.0
  {
  }

  /** A mean never leaves the bounds of its elements. */
  lemma MeanWithin(s: seq<real>, lo: real, hi: real)
    requires |s| > 0
    requires forall i :: 0 <= i < |s| ==> lo <= s[i] <= hi
    ensures lo <= Mean(s) <= hi
  {
    SumBounds(s, lo, hi);
    QuotientBounds(Sum(s), |s| as real, lo, hi);
  }

  /** The mean lies between the smallest and the largest element. */
  lemma MeanBetweenMinAndMax(s: seq<real>)
    requires |s| > 0
    ensures SeqMin(s) <= Mean(s) <= SeqMax(s)
  {
    MeanWithin(s, SeqMin(s), SeqMax(s));
  }

  /** `article.get('relevance_score', 0.0)` for every article. */
  function RelevanceScores(articles: seq<Option<real>>): (s: seq<real>)
    ensures |s| == |articles|
    ensures forall i :: 0 <= i < |s| ==> s[i] == articles[i].GetOr(0.0)
  {
    seq(|articles|, i requires 0 <= i < |articles| => articles[i].GetOr(0.0))
  }

  /** `evaluate_relevance`: 0.0 for no articles, otherwise the mean score,
      a missing score counting as 0.0. */
  function EvaluateRelevance(articles: seq<Option<real>>): (r: real)
    ensures articles == [] ==> r == 0.0
    ensures articles != [] ==> r * (|articles| as real) == Sum(RelevanceScores(articles))
  {
    if articles == [] then 0.0 else Mean(RelevanceScores(articles))
  }

  /** The relevance lies between the lowest and highest article score. */
  lemma RelevanceBetweenScores(articles: seq<Option<real>>)
    requires articles != []
    ensures SeqMin(RelevanceScores(articles)) <= EvaluateRelevance(articles)
         <= SeqMax(RelevanceScores(articles))
  {
    MeanBetweenMinAndMax(RelevanceScores(articles));
  }

  function Abs(x: real): real { if x < 0.0 then -x else x }

  /** `1.0 - min(abs(predicted - true), 1.0)`. */
  function DetectionScore(predicted: real, truth: real): (r: real)
    ensures 0.0 <= r <= 1.0
    ensures r == 1.0 <==> predicted == truth
    ensures Abs(predicted - truth) >= 1.0 ==> r == 0.0
  {
    var error := Abs(predicted - truth);
    1.0 - (if error <= 1.0 then error else 1.0)
  }

  /** The score does not depend on which side is the prediction. */
  lemma DetectionScoreSymmetric(p: real, t: real)
    ensures DetectionScore(p, t) == DetectionScore(t, p)
  {
  }

  /** A closer prediction never scores lower. */
  lemma DetectionScoreMonotone(p: real, q: real, t: real)
    requires Abs(p - t) <= Abs(q - t)
    ensures DetectionScore(q, t) <= DetectionScore(p, t)
  {
  }

  /** The fields of an analysis result that the evaluation reads;
      `None` marks a missing key. */
  datatype BiasRecord = BiasRecord(biasScore: Option<real>, confidence: Option<real>)

  /** `evaluate_bias_detection`: without ground truth, the reported
      confidence (0.0 when missing); with it, the detection score of the
      two bias scores (each 0.0 when missing). */
  function EvaluateBiasDetection(results: BiasRecord, groundTruth: Option<BiasRecord>): (r: real)
    ensures groundTruth.None? ==> r == results.confidence.GetOr(0.0)
    ensures groundTruth.Some? ==> 0.0 <= r <= 1.0
    ensures groundTruth.Some? ==>
      (r == 1.0 <==> results.biasScore.GetOr(0.0) == groundTruth.value.biasScore.GetOr(0.0))
  {
    match groundTruth
    case None => results.confidence.GetOr(0.0)
    case Some(truth) => DetectionScore(results.biasScore.GetOr(0.0), truth.biasScore.GetOr(0.0))
  }

  datatype SystemEvaluation = SystemEvaluation(
    overallScore: real,
    groundedness: real,
    relevance: real,
    biasDetection: real,
    numRelatedArticles: nat,
    confidence: real)

  /** `evaluate_system`: the overall score is the mean of the three scores. */
  function EvaluateSystem(groundedness: real, analysis: BiasRecord,
                          articles: seq<Option<real>>, groundTruth: Option<BiasRecord>)
    : (e: SystemEvaluation)
    ensures e.relevance == EvaluateRelevance(articles)
    ensures e.biasDetection == EvaluateBiasDetection(analysis, groundTruth)
    ensures e.groundedness == groundedness
    ensures e.overallScore * 3.0 == e.groundedness + e.relevance + e.biasDetection
    ensures SeqMin([e.groundedness, e.relevance, e.biasDetection]) <= e.overallScore
    ensures e.overallScore <= SeqMax([e.groundedness, e.relevance, e.biasDetection])
    ensures e.numRelatedArticles == |articles|
    ensures e.confidence == analysis.confidence.GetOr(0.0)
  {
    var relevance := EvaluateRelevance(articles);
    var detection := EvaluateBiasDetection(analysis, groundTruth);
    var scores := [groundedness, relevance, detection];
    assert Sum(scores) == groundedness + relevance + detection by {
      var r1 := scores[1..];
      var r2 := r1[1..];
      assert r2[1..] == [] && r2[0] == detection && r1[0] == relevance;
      assert Sum(r2) == detection + Sum(r2[1..]);
      assert Sum(r1) == relevance + Sum(r2);
    }
    MeanBetweenMinAndMax(scores);
    SystemEvaluation(Mean(scores), groundedness, relevance, detection,
                     |articles|, analysis.confidence.GetOr(0.0))
  }

  /** `np.argmax`: the first index holding the largest element. */
  function ArgMax(s: seq<real>): (i: nat)
    requires |s| > 0
    ensures i < |s|
    ensures forall j :: 0 <= j < |s| ==> s[j] <= s[i]
    ensures forall j :: 0 <= j < i ==> s[j] < s[i]
  {
    if |s| == 1 then 0
    else
      var k := ArgMax(s[..|s| - 1]);
      assert forall j :: 0 <= j < |s| - 1 ==> s[..|s| - 1][j] == s[j];
      if s[|s| - 1] > s[k] then |s| - 1 else k
  }

  datatype Parameters = Parameters(relevanceThreshold: real, biasThreshold: real, confidenceThreshold: real)

  /** The parameters `optimize_parameters` reports, whatever its input. */
  const OptimalParameters: Parameters := Parameters(0.1, 0.7, 0.8)

  datatype Optimization =
    | NoResults
    | Optimized(optimalParameters: Parameters, bestScore: real, improvement: real)

  /** Reading `r['overall_score']` of a run that lacks it raises. */
  datatype OptimizeError = MissingOverallScore

  /** `[r['overall_score'] for r in evaluation_results]`; `None` when a run lacks it. */
  function OverallScores(results: seq<Option<real>>): (r: Option<seq<real>>)
    ensures r.Some? <==> forall i :: 0 <= i < |results| ==> results[i].Some?
    ensures r.Some? ==> |r.value| == |results|
    ensures r.Some? ==> forall i :: 0 <= i < |results| ==> r.value[i] == results[i].value
  {
    if results == [] then Some([])
    else
      match (results[0], OverallScores(results[1..]))
      case (Some(x), Some(rest)) =>
        assert forall i :: 1 <= i < |results| ==> results[i] == results[1..][i - 1];
        Some([x] + rest)
      case (None, _) => None
      case (_, None) =>
        assert exists i :: 1 <= i < |results| && results[i] == results[1..][i - 1] && results[i].None?;
        None
  }

  /** `optimize_parameters`: `{}` for no runs; otherwise the constant
      parameters, the best overall score and its margin over the mean. */
  function OptimizeParameters(results: seq<Option<real>>): (r: Result<Optimization, OptimizeError>)
    ensures results == [] ==> r == Success(NoResults)
    ensures results != [] ==>
      (r.Failure? <==> exists i :: 0 <= i < |results| && results[i].None?)
    ensures results != [] && r.Success? ==>
      var scores := OverallScores(results).value;
      && r.value.Optimized?
      && r.value.optimalParameters == Parameters(0.1, 0.7, 0.8)
      && (forall i :: 0 <= i < |scores| ==> scores[i] <= r.value.bestScore)
      && (exists i :: 0 <= i < |scores| && scores[i] == r.value.bestScore)
      && r.value.improvement == r.value.bestScore - Mean(scores)
      && r.value.improvement >= 0.0
  {
    if results == [] then Success(NoResults)
    else
      match OverallScores(results)
      case None => Failure(MissingOverallScore)
      case Some(scores) =>
        var best := ArgMax(scores);
        MeanBetweenMinAndMax(scores);
        assert SeqMax(scores) == scores[best];
        Success(Optimized(OptimalParameters, scores[best], scores[best] - Mean(scores)))
  }
}
