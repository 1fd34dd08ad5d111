/** The news searcher: keyword extraction by token frequency, the article
    record built from a fetched page, the query used to find related
    articles, and the filter that turns search results into fact-check
    entries. Tokenising, HTTP and HTML parsing are parameters; the search
    itself is the ranking of the warehouse module. */
module Search {
  import opened Common
  import opened Text
  import opened Sorting
  import opened Snowflake

  // ---------------------------------------------------------------- keywords

  /** `t.isalnum()`: at least one character, all letters or digits. */
  predicate IsAlnumWord(t: string) {
    t != [] && forall i :: 0 <= i < |t| ==> IsAlnum(t[i])
  }

  /** A token survives the filter: alphanumeric and not a stop word. */
  predicate Kept(t: string, stopWords: set<string>) {
    IsAlnumWord(t) && t !in stopWords
  }

  /** `[t for t in tokens if t.isalnum() and t not in stop_words]`. */
  function FilterTokens(tokens: seq<string>, stopWords: set<string>): (r: seq<string>)
    ensures |r| <= |tokens|
    ensures forall t :: t in r <==> t in tokens && Kept(t, stopWords)
  {
    if tokens == [] then []
    else
      var rest := FilterTokens(tokens[1..], stopWords);
      assert forall t :: t in tokens <==> t == tokens[0] || t in tokens[1..];
      if Kept(tokens[0], stopWords) then [tokens[0]] + rest else rest
  }

  /** How often `w` occurs in `s`: the count a frequency distribution keeps. */
  function Occurrences(w: string, s: seq<string>): nat {
    if s == [] then 0 else (if s[0] == w then 1 else 0) + Occurrences(w, s[1..])
  }

  lemma {:induction false} OccursIffPresent(w: string, s: seq<string>)
    ensures Occurrences(w, s) > 0 <==> w in s
  {
    if s != [] {
      OccursIffPresent(w, s[1..]);
      assert w in s <==> w == s[0] || w in s[1..];
    }
  }

  /** Filtering removes whole tokens only: a kept token has the same count
      before and after. */
  lemma {:induction false} FilterKeepsCounts(w: string, tokens: seq<string>, stopWords: set<string>)
    requires Kept(w, stopWords)
    ensures Occurrences(w, FilterTokens(tokens, stopWords)) == Occurrences(w, tokens)
  {
    if tokens != [] {
      FilterKeepsCounts(w, tokens[1..], stopWords);
      var rest := FilterTokens(tokens[1..], stopWords);
      if Kept(tokens[0], stopWords) {
        assert ([tokens[0]] + rest)[1..] == rest;
      }
    }
  }

  /** The position of the first occurrence of `x`. */
  function FirstIndex(s: seq<string>, x: string): (r: nat)
    requires x in s
    ensures r < |s| && s[r] == x
    ensures forall j :: 0 <= j < r ==> s[j] != x
  {
    var init := s[..|s| - 1];
    if x in init then
      var k := FirstIndex(init, x);
      assert forall j :: 0 <= j < |init| ==> init[j] == s[j];
      k
    else
      assert forall j :: 0 <= j < |s| - 1 ==> s[j] == init[j];
      |s| - 1
  }

  /** The distinct tokens in the order of their first occurrence: the
      order in which a frequency distribution lists its entries. */
  function DistinctInOrder(s: seq<string>): (d: seq<string>)
    ensures forall x :: x in d <==> x in s
    ensures forall i, j :: 0 <= i < j < |d| ==> d[i] != d[j]
    ensures forall i, j :: 0 <= i < j < |d| ==> FirstIndex(s, d[i]) < FirstIndex(s, d[j])
  {
    if s == [] then []
    else
      var init := s[..|s| - 1];
      var last := s[|s| - 1];
      var d0 := DistinctInOrder(init);
      assert s == init + [last];
      assert forall x :: x in s <==> x in init || x == last;
      assert forall x :: x in init ==> FirstIndex(s, x) == FirstIndex(init, x);
      if last in init then d0
      else
        assert FirstIndex(s, last) == |s| - 1;
        d0 + [last]
  }

  /** The frequency of a token, as the sort key. */
  function FreqKey(tokens: seq<string>): string -> real {
    w => Occurrences(w, tokens) as real
  }

  /** `FreqDist(tokens).most_common(n)`, words only: nothing for `n <= 0`,
      otherwise the `n` most frequent distinct tokens, ties in order of
      first occurrence. */
  function MostCommon(tokens: seq<string>, n: int): (r: seq<string>)
    ensures n <= 0 ==> r == []
    ensures n > 0 ==> |r| <= n
  {
    if n <= 0 then [] else PyPrefix(SortDesc(DistinctInOrder(tokens), FreqKey(tokens)), n)
  }

  /** `_extract_keywords`: lower-case the text, tokenise it, keep the
      alphanumeric tokens that are not stop words, return the most common. */
  function ExtractKeywords(text: string, tokenize: string -> seq<string>,
                           stopWords: set<string>, numKeywords: int): (r: seq<string>)
    ensures numKeywords <= 0 ==> r == []
    ensures numKeywords > 0 ==> |r| <= numKeywords
  {
    MostCommon(FilterTokens(tokenize(LowerStr(text)), stopWords), numKeywords)
  }

  /** The ranked list `most_common` cuts its answer from. */
  function RankedTokens(tokens: seq<string>): seq<string> {
    SortDesc(DistinctInOrder(tokens), FreqKey(tokens))
  }

  lemma MostCommonIsPrefix(tokens: seq<string>, n: int)
    ensures MostCommon(tokens, n) <= RankedTokens(tokens)
    ensures |MostCommon(tokens, n)| == (if n <= 0 then 0 else Min(n, |DistinctInOrder(tokens)|))
  {
  }

  /** Every keyword comes from the input. */
  lemma MostCommonFromTokens(tokens: seq<string>, n: int)
    ensures forall k :: 0 <= k < |MostCommon(tokens, n)| ==> MostCommon(tokens, n)[k] in tokens
  {
    var r := MostCommon(tokens, n);
    var u := DistinctInOrder(tokens);
    var sorted := RankedTokens(tokens);
    MostCommonIsPrefix(tokens, n);
    forall k | 0 <= k < |r|
      ensures r[k] in tokens
    {
      assert r[k] == sorted[k];
      assert sorted[k] in multiset(u);
    }
  }

  /** Equally frequent keywords are different tokens and keep the order of
      their first occurrence. */
  lemma MostCommonTieOrder(tokens: seq<string>, n: int)
    ensures forall k :: 0 <= k < |MostCommon(tokens, n)| ==> MostCommon(tokens, n)[k] in tokens
    ensures forall i, j :: (0 <= i < j < |MostCommon(tokens, n)|
      && Occurrences(MostCommon(tokens, n)[i], tokens) == Occurrences(MostCommon(tokens, n)[j], tokens)) ==>
      FirstIndex(tokens, MostCommon(tokens, n)[i]) < FirstIndex(tokens, MostCommon(tokens, n)[j])
      && MostCommon(tokens, n)[i] != MostCommon(tokens, n)[j]
  {
    var r := MostCommon(tokens, n);
    var u := DistinctInOrder(tokens);
    var key := FreqKey(tokens);
    var sorted := RankedTokens(tokens);
    MostCommonFromTokens(tokens, n);
    MostCommonIsPrefix(tokens, n);
    assert forall k :: 0 <= k < |r| ==> r[k] == sorted[k];
    forall i, j | 0 <= i < j < |r| && key(r[i]) == key(r[j])
      ensures FirstIndex(tokens, r[i]) < FirstIndex(tokens, r[j]) && r[i] != r[j]
    {
      SortKeepsTieOrder(u, key, i, j);
    }
  }

  /** Every keyword comes from the input and none is repeated; equally
      frequent keywords keep the order of their first occurrence. */
  lemma MostCommonDistinctInOrder(tokens: seq<string>, n: int)
    ensures forall k :: 0 <= k < |MostCommon(tokens, n)| ==> MostCommon(tokens, n)[k] in tokens
    ensures forall i, j :: 0 <= i < j < |MostCommon(tokens, n)| ==>
      MostCommon(tokens, n)[i] != MostCommon(tokens, n)[j]
    ensures forall i, j :: (0 <= i < j < |MostCommon(tokens, n)|
      && Occurrences(MostCommon(tokens, n)[i], tokens) == Occurrences(MostCommon(tokens, n)[j], tokens)) ==>
      FirstIndex(tokens, MostCommon(tokens, n)[i]) < FirstIndex(tokens, MostCommon(tokens, n)[j])
  {
    MostCommonTieOrder(tokens, n);
  }

  /** Keywords come in non-increasing frequency, and no token left out is
      more frequent than one returned. */
  lemma MostCommonTopByFrequency(tokens: seq<string>, n: int)
    ensures forall i, j :: 0 <= i < j < |MostCommon(tokens, n)| ==>
      Occurrences(MostCommon(tokens, n)[i], tokens) >= Occurrences(MostCommon(tokens, n)[j], tokens)
    ensures forall w, k :: w in tokens && w !in MostCommon(tokens, n) && 0 <= k < |MostCommon(tokens, n)| ==>
      Occurrences(w, tokens) <= Occurrences(MostCommon(tokens, n)[k], tokens)
  {
    var r := MostCommon(tokens, n);
    var u := DistinctInOrder(tokens);
    var key := FreqKey(tokens);
    var sorted := RankedTokens(tokens);
    MostCommonIsPrefix(tokens, n);
    assert forall k :: 0 <= k < |r| ==> r[k] == sorted[k];
    forall i, j | 0 <= i < j < |r|
      ensures Occurrences(r[i], tokens) >= Occurrences(r[j], tokens)
    {
      assert key(sorted[i]) >= key(sorted[j]);
    }
    forall w, k | w in tokens && w !in r && 0 <= k < |r|
      ensures Occurrences(w, tokens) <= Occurrences(r[k], tokens)
    {
      assert w in multiset(u);
      assert w in multiset(sorted);
      var p :| 0 <= p < |sorted| && sorted[p] == w;
      assert p >= |r|;
      assert key(sorted[k]) >= key(sorted[p]);
    }
  }

  /** The keywords of a text: alphanumeric non-stop-word tokens of its
      lower-cased form, ranked by how often they occur there. */
  lemma ExtractKeywordsRanked(text: string, tokenize: string -> seq<string>,
                              stopWords: set<string>, numKeywords: int)
    ensures var tokens := tokenize(LowerStr(text));
      var kws := ExtractKeywords(text, tokenize, stopWords, numKeywords);
      && (forall k :: 0 <= k < |kws| ==> kws[k] in tokens && Kept(kws[k], stopWords))
      && (forall i, j :: 0 <= i < j < |kws| ==> kws[i] != kws[j])
      && (numKeywords <= 0 ==> kws == [])
      && (forall i, j :: 0 <= i < j < |kws| ==>
            Occurrences(kws[i], tokens) >= Occurrences(kws[j], tokens))
      && (forall w, k :: w in tokens && Kept(w, stopWords) && w !in kws && 0 <= k < |kws| ==>
            Occurrences(w, tokens) <= Occurrences(kws[k], tokens))
  {
    var tokens := tokenize(LowerStr(text));
    var kept := FilterTokens(tokens, stopWords);
    var kws := ExtractKeywords(text, tokenize, stopWords, numKeywords);
    MostCommonIsPrefix(kept, numKeywords);
    MostCommonDistinctInOrder(kept, numKeywords);
    MostCommonTopByFrequency(kept, numKeywords);
    forall k | 0 <= k < |kws|
      ensures Occurrences(kws[k], kept) == Occurrences(kws[k], tokens)
    {
      FilterKeepsCounts(kws[k], tokens, stopWords);
    }
    forall w | w in tokens && Kept(w, stopWords)
      ensures Occurrences(w, kept) == Occurrences(w, tokens)
    {
      FilterKeepsCounts(w, tokens, stopWords);
    }
  }

  // ------------------------------------------------------- article records

  /** What the fetched page offers: the text of its `<title>`, if any, and
      the text of each `<p>` element in document order. */
  datatype Page = Page(title: Option<string>, paragraphs: seq<string>)

  datatype Article = Article(url: string, domain: string, title: string, text: string)

  /** `url.split('/')[2]`, with `None` where that index does not exist. */
  function UrlDomain(url: string): (d: Option<string>)
    ensures d.Some? <==> |Split(url, '/')| >= 3
    ensures d.Some? ==> '/' !in d.value && d.value == Split(url, '/')[2]
    ensures '/' !in url ==> d.None?
  {
    var parts := Split(url, '/');
    if |parts| >= 3 then Some(parts[2]) else None
  }

  lemma {:induction false} SplitAfter(a: string, b: string, c: char)
    requires c !in a
    ensures Split(a + [c] + b, c) == [a] + Split(b, c)
  {
    if a == [] {
      assert a + [c] + b == [c] + b;
      assert ([c] + b)[1..] == b;
    } else {
      SplitAfter(a[1..], b, c);
      assert (a + [c] + b)[1..] == a[1..] + [c] + b;
      assert a == [a[0]] + a[1..];
    }
  }

  lemma {:induction false} SplitHead(a: string, b: string, c: char)
    requires c !in a && (b == [] || b[0] == c)
    ensures Split(a + b, c)[0] == a
  {
    if a == [] {
      assert a + b == b;
    } else {
      SplitHead(a[1..], b, c);
      assert (a + b)[1..] == a[1..] + b;
      assert a == [a[0]] + a[1..];
    }
  }

  /** For `scheme://host/path` the domain is the host. */
  lemma DomainOfHttpUrl(scheme: string, host: string, path: string)
    requires '/' !in scheme && '/' !in host
    requires path == [] || path[0] == '/'
    ensures UrlDomain(scheme + "//" + host + path) == Some(host)
  {
    var url := scheme + "//" + host + path;
    assert url == scheme + ['/'] + ([] + ['/'] + (host + path));
    SplitAfter(scheme, [] + ['/'] + (host + path), '/');
    SplitAfter([], host + path, '/');
    SplitHead(host, path, '/');
  }

  /** `process_url`: `None` when the page cannot be fetched or the URL has
      no third '/'-separated field; otherwise the URL, its domain, the page
      title (empty without one) and the paragraphs joined by spaces. */
  function ProcessUrl(url: string, fetched: Option<Page>): (a: Option<Article>)
    ensures fetched.None? ==> a.None?
    ensures a.Some? <==> fetched.Some? && UrlDomain(url).Some?
    ensures a.Some? ==>
      && a.value.url == url
      && a.value.domain == UrlDomain(url).value
      && a.value.title == fetched.value.title.GetOr("")
      && a.value.text == JoinWith(fetched.value.paragraphs, " ")
  {
    match fetched
    case None => None
    case Some(page) =>
      match UrlDomain(url)
      case None => None
      case Some(domain) => Some(Article(url, domain, page.title.GetOr(""), JoinWith(page.paragraphs, " ")))
  }

  // --------------------------------------------------------- related articles

  /** `f"{article.get(key, '')}"` for a field holding a string or `None`. */
  function FieldText(article: map<string, Value>, key: string): (t: string)
    ensures key !in article ==> t == ""
    ensures key in article && article[key].Str? ==> t == article[key].s
    ensures key in article && article[key].Null? ==> t == "None"
  {
    if key !in article then ""
    else match article[key]
      case Str(s) => s
      case Null => "None"
  }

  /** The search query of `find_related`: the title, a space, the text. */
  function RelatedQuery(article: map<string, Value>): (q: string)
    ensures |q| == |FieldText(article, "title")| + 1 + |FieldText(article, "text")|
    ensures q[|FieldText(article, "title")|] == ' '
    ensures FieldText(article, "title") <= q
    ensures q[|FieldText(article, "title")| + 1..] == FieldText(article, "text")
  {
    FieldText(article, "title") + " " + FieldText(article, "text")
  }

  /** The query loses nothing when the title holds no space: the first
      space of the query ends the title, and the rest is the text. */
  lemma RelatedQueryDeterminesFields(a: map<string, Value>, b: map<string, Value>)
    requires ' ' !in FieldText(a, "title") && ' ' !in FieldText(b, "title")
    requires RelatedQuery(a) == RelatedQuery(b)
    ensures FieldText(a, "title") == FieldText(b, "title")
    ensures FieldText(a, "text") == FieldText(b, "text")
  {
    var ta, tb := FieldText(a, "title"), FieldText(b, "title");
    var q := RelatedQuery(a);
    assert |ta| == |tb|;
    assert ta == q[..|ta|] == tb;
  }

  /** The edge cases the f-string produces: a record with neither field
      searches for a single space, and a `None` title is searched as the
      word "None". */
  lemma RelatedQueryEdgeCases(article: map<string, Value>)
    ensures "title" !in article && "text" !in article ==> RelatedQuery(article) == " "
    ensures "title" in article && article["title"] == Null ==> "None " <= RelatedQuery(article)
  {
  }

  /** `find_related`: the ranked search for the article's query. The
      similarity of every stored article to a query is supplied by the
      embedding model. */
  method FindRelated(article: map<string, Value>, similarity: string -> seq<ScoredRow>, topK: int)
    returns (results: seq<Hit>)
    ensures results == TopHits(HitsOf(similarity(RelatedQuery(article))), topK)
    ensures SortedDesc(results, Score)
    ensures topK >= 0 ==> |results| <= topK
  {
    var query := RelatedQuery(article);
    results := SemanticSearch(similarity(query), topK);
  }

  // ------------------------------------------------------------ fact checks

  /** Results scoring at or below this are not reported. */
  const RelevanceThreshold: real := 0.7

  datatype FactCheck = FactCheck(claim: string, verdict: string, confidence: real,
                                 source: string, url: string)

  function Confidence(c: FactCheck): real { c.confidence }

  /** The entry reported for one relevant search result. */
  function FactCheckOf(claim: string, h: Hit): FactCheck {
    FactCheck(claim, "Checking...", h.score, h.metadata.domain, h.metadata.url)
  }

  /** One entry per result scoring above the threshold, in result order. */
  function RelevantChecks(claim: string, hits: seq<Hit>): (checks: seq<FactCheck>)
    ensures |checks| <= |hits|
  {
    if hits == [] then []
    else
      var init := RelevantChecks(claim, hits[..|hits| - 1]);
      var h := hits[|hits| - 1];
      if h.score > RelevanceThreshold then init + [FactCheckOf(claim, h)] else init
  }

  /** Every entry reports the claim, the placeholder verdict and one result
      scoring above the threshold. */
  lemma {:induction false} RelevantChecksSound(claim: string, hits: seq<Hit>)
    ensures forall k :: 0 <= k < |RelevantChecks(claim, hits)| ==>
      exists i :: (0 <= i < |hits| && hits[i].score > RelevanceThreshold
        && RelevantChecks(claim, hits)[k] == FactCheckOf(claim, hits[i]))
    ensures forall k :: 0 <= k < |RelevantChecks(claim, hits)| ==>
      && RelevantChecks(claim, hits)[k].claim == claim
      && RelevantChecks(claim, hits)[k].verdict == "Checking..."
      && RelevantChecks(claim, hits)[k].confidence > RelevanceThreshold
  {
    if hits != [] {
      var init := hits[..|hits| - 1];
      var h := hits[|hits| - 1];
      var c0 := RelevantChecks(claim, init);
      var checks := RelevantChecks(claim, hits);
      RelevantChecksSound(claim, init);
      forall k | 0 <= k < |checks|
        ensures exists i :: (0 <= i < |hits| && hits[i].score > RelevanceThreshold
          && checks[k] == FactCheckOf(claim, hits[i]))
      {
        if k < |c0| {
          var i :| 0 <= i < |init| && init[i].score > RelevanceThreshold && c0[k] == FactCheckOf(claim, init[i]);
          assert checks[k] == c0[k];
          assert hits[i] == init[i];
        } else {
          assert checks[k] == FactCheckOf(claim, h);
        }
      }
      assert forall k :: 0 <= k < |RelevantChecks(claim, hits)| ==>
        exists i :: (0 <= i < |hits| && hits[i].score > RelevanceThreshold
          && RelevantChecks(claim, hits)[k] == FactCheckOf(claim, hits[i]));
    } else {
      assert RelevantChecks(claim, hits) == [];
    }
  }

  /** Every result scoring above the threshold is reported. */
  lemma {:induction false} RelevantChecksComplete(claim: string, hits: seq<Hit>)
    ensures forall i :: 0 <= i < |hits| && hits[i].score > RelevanceThreshold ==>
      FactCheckOf(claim, hits[i]) in RelevantChecks(claim, hits)
  {
    if hits != [] {
      var init := hits[..|hits| - 1];
      RelevantChecksComplete(claim, init);
      assert forall i :: 0 <= i < |init| ==> init[i] == hits[i];
    }
  }

  /** The positions of the results scoring above the threshold, in
      increasing order. */
  function RelevantIndices(hits: seq<Hit>): (p: seq<nat>)
    ensures forall k :: 0 <= k < |p| ==> p[k] < |hits| && hits[p[k]].score > RelevanceThreshold
    ensures forall i :: 0 <= i < |hits| && hits[i].score > RelevanceThreshold ==> i in p
    ensures forall k, l :: 0 <= k < l < |p| ==> p[k] < p[l]
  {
    if hits == [] then []
    else
      var rest := RelevantIndices(hits[..|hits| - 1]);
      if hits[|hits| - 1].score > RelevanceThreshold then rest + [|hits| - 1] else rest
  }

  /** Exactly the results scoring above the threshold are reported, each
      once and in result order: entry k is the entry of the k-th such result. */
  lemma {:induction false} RelevantChecksExact(claim: string, hits: seq<Hit>)
    ensures |RelevantChecks(claim, hits)| == |RelevantIndices(hits)|
    ensures forall k :: 0 <= k < |RelevantIndices(hits)| ==>
      RelevantChecks(claim, hits)[k] == FactCheckOf(claim, hits[RelevantIndices(hits)[k]])
  {
    if hits != [] {
      var init := hits[..|hits| - 1];
      var h := hits[|hits| - 1];
      var c0, p0 := RelevantChecks(claim, init), RelevantIndices(init);
      var c, p := RelevantChecks(claim, hits), RelevantIndices(hits);
      RelevantChecksExact(claim, init);
      assert c == (if h.score > RelevanceThreshold then c0 + [FactCheckOf(claim, h)] else c0);
      assert p == (if h.score > RelevanceThreshold then p0 + [|hits| - 1] else p0);
      forall k | 0 <= k < |p|
        ensures c[k] == FactCheckOf(claim, hits[p[k]])
      {
        if k < |p0| {
          assert c[k] == c0[k] && p[k] == p0[k];
          assert init[p0[k]] == hits[p0[k]];
        }
      }
    }
  }

  /** Results ranked by score give entries ranked by confidence. */
  lemma {:induction false} RelevantChecksRanked(claim: string, hits: seq<Hit>)
    requires SortedDesc(hits, Score)
    ensures SortedDesc(RelevantChecks(claim, hits), Confidence)
  {
    if hits != [] {
      var init := hits[..|hits| - 1];
      var h := hits[|hits| - 1];
      var c0 := RelevantChecks(claim, init);
      assert SortedDesc(init, Score);
      RelevantChecksRanked(claim, init);
      RelevantChecksSound(claim, init);
      if h.score > RelevanceThreshold {
        forall k | 0 <= k < |c0|
          ensures c0[k].confidence >= h.score
        {
          var i :| 0 <= i < |init| && init[i].score > RelevanceThreshold && c0[k] == FactCheckOf(claim, init[i]);
          assert hits[i] == init[i];
        }
      }
    }
  }

  /** `get_fact_checking_sources`: the top three results of a search for
      the claim, kept when they score above the threshold. `search` gives
      the similarity of every stored article to a query, as the embedding
      model supplies it; `None` stands for a search that raised, which
      yields no entries. */
  method GetFactCheckingSources(claim: string, search: string -> Option<seq<ScoredRow>>)
    returns (checks: seq<FactCheck>)
    ensures search(claim).None? ==> checks == []
    ensures search(claim).Some? ==>
      checks == RelevantChecks(claim, TopHits(HitsOf(search(claim).value), 3))
    ensures |checks| <= 3
    ensures forall k :: 0 <= k < |checks| ==>
      checks[k].confidence > RelevanceThreshold && checks[k].verdict == "Checking..."
    ensures SortedDesc(checks, Confidence)
  {
    var rows := search(claim);
    if rows.None? {
      return [];
    }
    var results := SemanticSearch(rows.value, 3);
    checks := [];
    for i := 0 to |results|
      invariant checks == RelevantChecks(claim, results[..i])
    {
      assert results[..i + 1][..i] == results[..i];
      if results[i].score > RelevanceThreshold {
        checks := checks + [FactCheckOf(claim, results[i])];
      }
    }
    assert results[..|results|] == results;
    RelevantChecksSound(claim, results);
    RelevantChecksRanked(claim, results);
  }
}
