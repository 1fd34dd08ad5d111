/** The deterministic parts of the warehouse manager: the check for required
    settings, the split of the account identifier into account and region,
    the connection parameters built from them, and the ranking that ends a
    semantic search. Connections, SQL and embeddings are outside the model;
    the similarity of each stored article to the query is a parameter. */
module Snowflake {
  import opened Common
  import opened Text
  import opened Sorting

  /** The settings that must be present and non-empty, in the order the
      error message lists them. */
  const RequiredVars: seq<string> := [
    "SNOWFLAKE_ACCOUNT", "SNOWFLAKE_USER", "SNOWFLAKE_PASSWORD",
    "SNOWFLAKE_ROLE", "SNOWFLAKE_DATABASE", "SNOWFLAKE_WAREHOUSE"]

  /** `os.getenv(name)` is truthy: present and not the empty string. */
  predicate IsSet(env: map<string, string>, name: string) {
    name in env && env[name] != ""
  }

  /** `a` can be obtained from `b` by deleting elements. */
  predicate IsSubsequence(a: seq<string>, b: seq<string>) {
    if b == [] then a == []
    else (a != [] && a[0] == b[0] && IsSubsequence(a[1..], b[1..])) || IsSubsequence(a, b[1..])
  }

  /** `[var for var in names if not os.getenv(var)]`. */
  function MissingAmong(names: seq<string>, env: map<string, string>): (m: seq<string>)
    ensures forall v :: v in m <==> v in names && !IsSet(env, v)
    ensures IsSubsequence(m, names)
  {
    if names == [] then []
    else
      var rest := MissingAmong(names[1..], env);
      assert forall v :: v in names <==> v == names[0] || v in names[1..];
      if !IsSet(env, names[0]) then
        assert ([names[0]] + rest)[1..] == rest;
        [names[0]] + rest
      else
        rest
  }

  /** The required settings that are absent or empty, in their listed order. */
  function MissingVars(env: map<string, string>): (m: seq<string>)
    ensures forall v :: v in m <==> v in RequiredVars && !IsSet(env, v)
    ensures IsSubsequence(m, RequiredVars)
  {
    MissingAmong(RequiredVars, env)
  }

  /** No setting is reported missing exactly when every one is set. */
  lemma MissingVarsEmptyIffAllSet(env: map<string, string>)
    ensures MissingVars(env) == [] <==> forall v :: v in RequiredVars ==> IsSet(env, v)
  {
    if MissingVars(env) != [] {
      assert MissingVars(env)[0] in MissingVars(env);
    }
  }

  datatype AccountSplit = AccountSplit(accountId: string, region: Option<string>)

  /** The account identifier before its first '.' and, when there is a '.',
      everything after it as the region. */
  function SplitAccount(account: string): (r: AccountSplit)
    ensures '.' !in r.accountId
    ensures '.' !in account ==> r.accountId == account && r.region == None
    ensures '.' in account ==> r.region.Some? && r.accountId + "." + r.region.value == account
  {
    if '.' in account then
      var parts := Split(account, '.');
      JoinSplit(account, '.');
      assert JoinWith(parts, ".") == parts[0] + "." + JoinWith(parts[1..], ".");
      AccountSplit(parts[0], Some(JoinWith(parts[1..], ".")))
    else
      assert Split(account, '.') == [account] by {
        var parts := Split(account, '.');
        JoinSplit(account, '.');
      }
      AccountSplit(account, None)
  }

  /** An identifier ending in a single '.' has an empty region, which does
      not reach the connection parameters. */
  lemma TrailingDotGivesEmptyRegion(id: string)
    requires '.' !in id
    ensures SplitAccount(id + ".") == AccountSplit(id, Some(""))
  {
    SplitTrailingSeparator(id, '.');
    assert '.' in id + "." by { assert (id + ".")[|id|] == '.'; }
    assert Split(id + ".", '.')[1..] == [""];
  }

  /** The constructor's validation and connection parameters. It raises a
      `ValueError` naming the missing settings; otherwise the region key is
      added only for a non-empty region. */
  method ConnectionParams(env: map<string, string>) returns (r: Result<map<string, string>, string>)
    ensures r.Failure? <==> MissingVars(env) != []
    ensures r.Failure? ==>
      r.error == "Missing required environment variables: " + JoinWith(MissingVars(env), ", ")
    ensures r.Success? ==>
      && IsSet(env, "SNOWFLAKE_ACCOUNT") && IsSet(env, "SNOWFLAKE_USER")
      && IsSet(env, "SNOWFLAKE_PASSWORD") && IsSet(env, "SNOWFLAKE_ROLE")
      && IsSet(env, "SNOWFLAKE_DATABASE") && IsSet(env, "SNOWFLAKE_WAREHOUSE")
    ensures r.Success? ==>
      var split := SplitAccount(env["SNOWFLAKE_ACCOUNT"]);
      var withRegion := split.region.Some? && split.region.value != "";
      && r.value.Keys == {"account", "user", "password", "role"} + (if withRegion then {"region"} else {})
      && r.value["account"] == split.accountId
      && r.value["user"] == env["SNOWFLAKE_USER"]
      && r.value["password"] == env["SNOWFLAKE_PASSWORD"]
      && r.value["role"] == env["SNOWFLAKE_ROLE"]
      && ("region" in r.value ==> r.value["account"] + "." + r.value["region"] == env["SNOWFLAKE_ACCOUNT"])
  {
    var missing := MissingVars(env);
    if missing != [] {
      return Failure("Missing required environment variables: " + JoinWith(missing, ", "));
    }
    NoneMissingMeansAllSet(env);
    var split := SplitAccount(env["SNOWFLAKE_ACCOUNT"]);
    var params := map[
      "account" := split.accountId,
      "user" := env["SNOWFLAKE_USER"],
      "password" := env["SNOWFLAKE_PASSWORD"],
      "role" := env["SNOWFLAKE_ROLE"]];
    assert params.Keys == {"account", "user", "password", "role"};
    if split.region.Some? && split.region.value != "" {
      params := params["region" := split.region.value];
    }
    return Success(params);
  }

  lemma NoneMissingMeansAllSet(env: map<string, string>)
    requires MissingVars(env) == []
    ensures && IsSet(env, "SNOWFLAKE_ACCOUNT") && IsSet(env, "SNOWFLAKE_USER")
            && IsSet(env, "SNOWFLAKE_PASSWORD") && IsSet(env, "SNOWFLAKE_ROLE")
            && IsSet(env, "SNOWFLAKE_DATABASE") && IsSet(env, "SNOWFLAKE_WAREHOUSE")
  {
    MissingVarsEmptyIffAllSet(env);
    assert RequiredVars[0] in RequiredVars && RequiredVars[1] in RequiredVars;
    assert RequiredVars[2] in RequiredVars && RequiredVars[3] in RequiredVars;
    assert RequiredVars[4] in RequiredVars && RequiredVars[5] in RequiredVars;
  }

  /** One stored article as the search query returns it. */
  datatype Metadata = Metadata(id: string, title: string, content: string, url: string, domain: string)

  /** A search result: `{"score": ..., "metadata": {...}}`. */
  datatype Hit = Hit(score: real, metadata: Metadata)

  /** A stored article together with its cosine similarity to the query,
      which the embedding model supplies. */
  datatype ScoredRow = ScoredRow(id: string, title: string, content: string, url: string,
                                 domain: string, similarity: real)

  function Score(h: Hit): real { h.score }

  function HitOf(row: ScoredRow): Hit {
    Hit(row.similarity, Metadata(row.id, row.title, row.content, row.url, row.domain))
  }

  function HitsOf(rows: seq<ScoredRow>): (hits: seq<Hit>)
    ensures |hits| == |rows|
    ensures forall i :: 0 <= i < |rows| ==> hits[i] == HitOf(rows[i])
  {
    seq(|rows|, i requires 0 <= i < |rows| => HitOf(rows[i]))
  }

  /** `results.sort(key=score, reverse=True); results[:top_k]`. */
  function TopHits(hits: seq<Hit>, topK: int): (r: seq<Hit>)
    ensures r <= SortDesc(hits, Score)
    ensures |r| <= |hits|
  {
    PyPrefix(SortDesc(hits, Score), topK)
  }

  /** The tail of `semantic_search`: one result per row, in row order, then
      a stable sort by descending score and Python's `[:top_k]`. */
  method SemanticSearch(rows: seq<ScoredRow>, topK: int) returns (results: seq<Hit>)
    ensures results == TopHits(HitsOf(rows), topK)
    ensures SortedDesc(results, Score)
    ensures topK >= 0 ==> |results| == Min(topK, |rows|)
  {
    results := [];
    for i := 0 to |rows|
      invariant results == HitsOf(rows[..i])
    {
      results := results + [HitOf(rows[i])];
    }
    assert rows[..|rows|] == rows;
    results := SortDesc(results, Score);
    results := PyPrefix(results, topK);
  }

  lemma {:induction false} FilterKeyOfPrefix(a: seq<Hit>, b: seq<Hit>, v: real)
    requires a <= b
    ensures FilterKey(a, Score, v) <= FilterKey(b, Score, v)
  {
    if a != [] {
      assert a[1..] <= b[1..];
      FilterKeyOfPrefix(a[1..], b[1..], v);
    }
  }

  /** No hit that the cut leaves out scores above a kept one. */
  lemma TopHitsKeepBest(hits: seq<Hit>, topK: int)
    ensures forall h, k ::
      (h in multiset(hits) - multiset(TopHits(hits, topK)) && 0 <= k < |TopHits(hits, topK)|)
      ==> h.score <= TopHits(hits, topK)[k].score
  {
    var sorted := SortDesc(hits, Score);
    var top := TopHits(hits, topK);
    var rest := sorted[|top|..];
    assert sorted == top + rest;
    assert multiset(hits) == multiset(top) + multiset(rest);
    forall h, k | h in multiset(hits) - multiset(top) && 0 <= k < |top|
      ensures h.score <= top[k].score
    {
      assert h in multiset(rest);
      var j :| 0 <= j < |rest| && rest[j] == h;
      assert sorted[|top| + j] == h && sorted[k] == top[k];
    }
  }

  /** What the ranking promises: scores never increase down the list; every
      result comes from the input; no hit left out scores above a kept one;
      and hits with equal scores keep their input order. */
  lemma TopHitsRanked(hits: seq<Hit>, topK: int, v: real)
    ensures SortedDesc(TopHits(hits, topK), Score)
    ensures topK >= 0 ==> |TopHits(hits, topK)| == Min(topK, |hits|)
    ensures multiset(TopHits(hits, topK)) <= multiset(hits)
    ensures forall h, k ::
      (h in multiset(hits) - multiset(TopHits(hits, topK)) && 0 <= k < |TopHits(hits, topK)|)
      ==> h.score <= TopHits(hits, topK)[k].score
    ensures FilterKey(TopHits(hits, topK), Score, v) <= FilterKey(hits, Score, v)
  {
    var sorted := SortDesc(hits, Score);
    var top := TopHits(hits, topK);
    assert sorted == top + sorted[|top|..];
    assert multiset(sorted) == multiset(top) + multiset(sorted[|top|..]);
    TopHitsKeepBest(hits, topK);
    SortStable(hits, Score, v);
    FilterKeyOfPrefix(top, sorted, v);
  }
}
