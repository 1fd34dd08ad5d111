/** The article processor's text handling: the three-step cleaning of raw
    text, the extractive summary, and the record built for pasted text.
    Sentence splitting is supplied by the caller; fetching and HTML
    extraction are outside the model. */
module Process {
  import opened Common
  import opened Text

  // --------------------------------------------------- step 1: `\s+` -> ' '

  /** Length of the whitespace run at the start of `s`. */
  function SpaceRun(s: string): (n: nat)
    ensures n <= |s|
    ensures AllSpace(s[..n])
    ensures n == |s| || !IsSpace(s[n])
  {
    if s == [] || !IsSpace(s[0]) then 0 else 1 + SpaceRun(s[1..])
  }

  /** `re.sub(r'\s+', ' ', s)`: every maximal run of whitespace becomes one
      plain space. */
  function CollapseSpace(s: string): (r: string)
    ensures |r| <= |s|
    ensures r == [] <==> s == []
    ensures r != [] ==> (IsSpace(r[0]) <==> IsSpace(s[0]))
    ensures PlainSpaces(r)
    ensures forall i :: 0 <= i < |r| - 1 ==> !(IsSpace(r[i]) && IsSpace(r[i + 1]))
    decreases |s|
  {
    if s == [] then []
    else if IsSpace(s[0]) then
      var n := SpaceRun(s);
      [' '] + CollapseSpace(s[n..])
    else
      [s[0]] + CollapseSpace(s[1..])
  }

  lemma {:induction false} NonSpaceOfAllSpace(s: string)
    requires AllSpace(s)
    ensures NonSpace(s) == []
  {
    if s != [] {
      NonSpaceOfAllSpace(s[1..]);
    }
  }

  lemma NonSpaceCons(c: char, t: string)
    ensures NonSpace([c] + t) == (if IsSpace(c) then [] else [c]) + NonSpace(t)
  {
    assert ([c] + t)[1..] == t;
  }

  /** Collapsing whitespace keeps every other character, in order. */
  lemma {:induction false} CollapseKeepsNonSpace(s: string)
    ensures NonSpace(CollapseSpace(s)) == NonSpace(s)
    decreases |s|
  {
    if s != [] {
      if IsSpace(s[0]) {
        var n := SpaceRun(s);
        CollapseKeepsNonSpace(s[n..]);
        NonSpaceCons(' ', CollapseSpace(s[n..]));
        assert s == s[..n] + s[n..];
        NonSpaceAppend(s[..n], s[n..]);
        NonSpaceOfAllSpace(s[..n]);
      } else {
        CollapseKeepsNonSpace(s[1..]);
        NonSpaceCons(s[0], CollapseSpace(s[1..]));
        NonSpaceCons(s[0], s[1..]);
        assert s == [s[0]] + s[1..];
      }
    }
  }

  /** A single space before a word stays a single space. */
  lemma CollapseSingleSpaceCons(t: string)
    requires t != [] && !IsSpace(t[0])
    ensures CollapseSpace([' '] + t) == [' '] + CollapseSpace(t)
  {
    var s := [' '] + t;
    assert s[1..] == t;
    assert SpaceRun(s) == 1;
  }

  /** A character other than whitespace passes through the collapse. */
  lemma CollapseNonSpaceCons(c: char, t: string)
    requires !IsSpace(c)
    ensures CollapseSpace([c] + t) == [c] + CollapseSpace(t)
  {
    assert ([c] + t)[1..] == t;
  }

  /** A leading word passes through the collapse unchanged. */
  lemma {:induction false} CollapseOfWordPrefix(w: string, t: string)
    requires NoSpace(w)
    ensures CollapseSpace(w + t) == w + CollapseSpace(t)
  {
    if w != [] {
      var c, v := w[0], w[1..];
      calc {
        CollapseSpace(w + t);
        == { assert w + t == [c] + (v + t) by { assert w == [c] + v; } }
        CollapseSpace([c] + (v + t));
        == { CollapseNonSpaceCons(c, v + t); }
        [c] + CollapseSpace(v + t);
        == { CollapseOfWordPrefix(v, t); }
        [c] + (v + CollapseSpace(t));
        == { assert w == [c] + v; }
        w + CollapseSpace(t);
      }
    } else {
      assert w + t == t;
    }
  }

  /** Collapsing whitespace changes no word: each whitespace run becomes one
      space, so `split()` sees the same words in the same order. */
  lemma {:induction false} CollapseKeepsWords(s: string)
    ensures Words(CollapseSpace(s)) == Words(s)
    decreases |s|
  {
    if s != [] {
      if IsSpace(s[0]) {
        var n := SpaceRun(s);
        CollapseKeepsWords(s[n..]);
        WordsSpaceCons(' ', CollapseSpace(s[n..]));
        WordsAfterSpaceRun(s);
      } else {
        var n := RunLength(s);
        var w := s[..n];
        var t := s[n..];
        assert s == w + t;
        CollapseOfWordPrefix(w, t);
        CollapseKeepsWords(t);
        WordsAppend(w, CollapseSpace(t));
        WordsAppend(w, t);
      }
    }
  }

  /** Leading whitespace contributes no word. */
  lemma WordsAfterSpaceRun(s: string)
    ensures Words(s) == Words(s[SpaceRun(s)..])
  {
    var n := SpaceRun(s);
    assert s == s[..n] + s[n..];
    if n > 0 {
      WordsAppend(s[..n], s[n..]);
      WordsEmptyIffAllSpace(s[..n]);
    }
  }

  /** Text without whitespace passes through unchanged. */
  lemma {:induction false} CollapseOfNoSpace(s: string)
    requires NoSpace(s)
    ensures CollapseSpace(s) == s
  {
    if s != [] {
      CollapseOfNoSpace(s[1..]);
      assert s == [s[0]] + s[1..];
    }
  }

  // ----------------------------------------- step 2: `[^\w\s.,!?-]` -> ''

  /** `\w`: a letter, a digit or the underscore. */
  predicate IsWordChar(c: char) {
    IsAlnum(c) || c == '_'
  }

  /** The characters the second substitution keeps. */
  predicate Allowed(c: char) {
    IsWordChar(c) || IsSpace(c) || c == '.' || c == ',' || c == '!' || c == '?' || c == '-'
  }

  /** `re.sub(r'[^\w\s.,!?-]', '', s)`: every other character is deleted. */
  function DeleteDisallowed(s: string): (r: string)
    ensures |r| <= |s|
    ensures forall i :: 0 <= i < |r| ==> Allowed(r[i])
  {
    if s == [] then []
    else
      var rest := DeleteDisallowed(s[1..]);
      if Allowed(s[0]) then [s[0]] + rest else rest
  }

  /** Each allowed character keeps its number of occurrences; no other
      character remains. */
  lemma {:induction false} DeleteKeepsAllowed(s: string)
    ensures forall c :: Allowed(c) ==> multiset(DeleteDisallowed(s))[c] == multiset(s)[c]
    ensures forall c :: !Allowed(c) ==> c !in DeleteDisallowed(s)
  {
    if s != [] {
      DeleteKeepsAllowed(s[1..]);
      assert s == [s[0]] + s[1..];
    }
  }

  /** Every whitespace character in `s` is a plain space. */
  predicate PlainSpaces(s: string) {
    forall i :: 0 <= i < |s| && IsSpace(s[i]) ==> s[i] == ' '
  }

  lemma {:induction false} DeleteKeepsPlainSpaces(s: string)
    requires PlainSpaces(s)
    ensures PlainSpaces(DeleteDisallowed(s))
  {
    if s != [] {
      assert PlainSpaces(s[1..]) by {
        assert forall i :: 0 <= i < |s[1..]| ==> s[1..][i] == s[i + 1];
      }
      DeleteKeepsPlainSpaces(s[1..]);
    }
  }

  lemma DeleteCons(c: char, t: string)
    ensures DeleteDisallowed([c] + t) == (if Allowed(c) then [c] else []) + DeleteDisallowed(t)
  {
    assert ([c] + t)[1..] == t;
  }

  lemma {:induction false} DeleteAppend(a: string, b: string)
    ensures DeleteDisallowed(a + b) == DeleteDisallowed(a) + DeleteDisallowed(b)
  {
    if a == [] {
      assert a + b == b;
    } else {
      assert a + b == [a[0]] + (a[1..] + b);
      assert a == [a[0]] + a[1..];
      DeleteCons(a[0], a[1..] + b);
      DeleteCons(a[0], a[1..]);
      DeleteAppend(a[1..], b);
    }
  }

  /** Deletion never introduces whitespace. */
  lemma {:induction false} DeleteOfNoSpace(w: string)
    requires NoSpace(w)
    ensures NoSpace(DeleteDisallowed(w))
  {
    if w != [] {
      DeleteOfNoSpace(w[1..]);
    }
  }

  /** `w` with its disallowed characters deleted, for each word `w` that
      does not become empty, in order. */
  function CleanWords(ws: seq<string>): (cw: seq<string>)
    ensures |cw| <= |ws|
    ensures forall k :: 0 <= k < |cw| ==> cw[k] != []
  {
    if ws == [] then []
    else
      var d := DeleteDisallowed(ws[0]);
      (if d != [] then [d] else []) + CleanWords(ws[1..])
  }

  /** Deleting the disallowed characters deletes them inside each word;
      a word left empty disappears, since whitespace is kept and `split()`
      skips the resulting run. */
  lemma {:induction false} DeleteKeepsWords(s: string)
    ensures Words(DeleteDisallowed(s)) == CleanWords(Words(s))
    decreases |s|
  {
    if s != [] {
      if IsSpace(s[0]) {
        assert s == [s[0]] + s[1..];
        DeleteCons(s[0], s[1..]);
        WordsSpaceCons(s[0], DeleteDisallowed(s[1..]));
        DeleteKeepsWords(s[1..]);
      } else {
        var n := RunLength(s);
        var w := s[..n];
        var t := s[n..];
        DeleteKeepsWords(t);
        DeleteWordStep(w, t);
        assert s == w + t;
      }
    }
  }

  /** The step of `DeleteKeepsWords` for a leading word `w`. */
  lemma DeleteWordStep(w: string, t: string)
    requires w != [] && NoSpace(w)
    requires t == [] || IsSpace(t[0])
    requires Words(DeleteDisallowed(t)) == CleanWords(Words(t))
    ensures Words(DeleteDisallowed(w + t)) == CleanWords(Words(w + t))
  {
    var d := DeleteDisallowed(w);
    var head := if d != [] then [d] else [];
    assert Words(w + t) == [w] + Words(t) by {
      WordsAppend(w, t);
      WordsOfNoSpace(w);
    }
    assert CleanWords([w] + Words(t)) == head + CleanWords(Words(t)) by {
      assert ([w] + Words(t))[1..] == Words(t);
    }
    assert DeleteDisallowed(t) == [] || IsSpace(DeleteDisallowed(t)[0]) by {
      if t != [] {
        assert t == [t[0]] + t[1..];
        DeleteCons(t[0], t[1..]);
      }
    }
    assert Words(d) == head by {
      DeleteOfNoSpace(w);
      if d != [] {
        WordsOfNoSpace(d);
      }
    }
    DeleteAppend(w, t);
    WordsAppend(d, DeleteDisallowed(t));
  }

  /** Deleting characters and dropping whitespace can be done in either order. */
  lemma {:induction false} NonSpaceOfDelete(s: string)
    ensures NonSpace(DeleteDisallowed(s)) == DeleteDisallowed(NonSpace(s))
  {
    if s != [] {
      var c := s[0];
      var t := s[1..];
      assert s == [c] + t;
      NonSpaceOfDelete(t);
      NonSpaceCons(c, t);
      DeleteCons(c, t);
      if IsSpace(c) {
        assert Allowed(c);
        NonSpaceCons(c, DeleteDisallowed(t));
        assert NonSpace(s) == NonSpace(t);
        assert NonSpace(DeleteDisallowed(s)) == NonSpace(DeleteDisallowed(t));
      } else if Allowed(c) {
        NonSpaceCons(c, DeleteDisallowed(t));
        DeleteCons(c, NonSpace(t));
        assert NonSpace(s) == [c] + NonSpace(t);
        assert NonSpace(DeleteDisallowed(s)) == [c] + NonSpace(DeleteDisallowed(t));
      } else {
        DeleteCons(c, NonSpace(t));
        assert NonSpace(s) == [c] + NonSpace(t);
        assert DeleteDisallowed(s) == DeleteDisallowed(t);
      }
    }
  }

  // -------------------------------------------------------- step 3: strip

  /** Length of the whitespace run at the end of `s`. */
  function TrailingSpaceRun(s: string): (n: nat)
    ensures n <= |s|
    ensures AllSpace(s[|s| - n..])
    ensures n == |s| || !IsSpace(s[|s| - n - 1])
  {
    if s == [] || !IsSpace(s[|s| - 1]) then 0
    else
      var m := TrailingSpaceRun(s[..|s| - 1]);
      assert s[|s| - (m + 1)..] == s[..|s| - 1][|s| - 1 - m..] + [s[|s| - 1]];
      m + 1
  }

  /** `str.strip()`: the middle of `s` between its leading and trailing
      whitespace. */
  function Strip(s: string): (r: string)
    ensures |r| <= |s|
    ensures r != [] ==> !IsSpace(r[0]) && !IsSpace(r[|r| - 1])
    ensures SpaceRun(s) + |r| <= |s|
    ensures r == s[SpaceRun(s)..SpaceRun(s) + |r|]
    ensures AllSpace(s[SpaceRun(s) + |r|..])
  {
    var i := SpaceRun(s);
    var t := s[i..];
    var n := TrailingSpaceRun(t);
    SliceOfSuffix(s, i, |t| - n);
    t[..|t| - n]
  }

  lemma SliceOfSuffix(s: string, i: nat, k: nat)
    requires i + k <= |s|
    ensures s[i..][..k] == s[i..i + k]
    ensures s[i..][k..] == s[i + k..]
  {
  }

  /** Removing whitespace from both ends keeps the visible characters. */
  lemma NonSpaceOfTrimmed(s: string, i: nat, j: nat)
    requires i <= j <= |s|
    requires AllSpace(s[..i]) && AllSpace(s[j..])
    ensures NonSpace(s[i..j]) == NonSpace(s)
  {
    assert s == s[..i] + s[i..j] + s[j..];
    NonSpaceAppend(s[..i] + s[i..j], s[j..]);
    NonSpaceAppend(s[..i], s[i..j]);
    NonSpaceOfAllSpace(s[..i]);
    NonSpaceOfAllSpace(s[j..]);
  }

  /** Stripping removes whitespace only. */
  lemma StripKeepsNonSpace(s: string)
    ensures NonSpace(Strip(s)) == NonSpace(s)
  {
    NonSpaceOfTrimmed(s, SpaceRun(s), SpaceRun(s) + |Strip(s)|);
  }

  /** Stripping changes no word. */
  lemma StripKeepsWords(s: string)
    ensures Words(Strip(s)) == Words(s)
  {
    WordsOfTrimmed(s, SpaceRun(s), SpaceRun(s) + |Strip(s)|);
  }

  /** Removing whitespace from both ends changes no word. */
  lemma WordsOfTrimmed(s: string, i: nat, j: nat)
    requires i <= j <= |s|
    requires AllSpace(s[..i]) && AllSpace(s[j..])
    ensures Words(s[i..j]) == Words(s)
  {
    assert s == s[..i] + (s[i..j] + s[j..]);
    assert Words(s[i..j] + s[j..]) == Words(s[i..j]) by {
      WordsAppend(s[i..j], s[j..]);
      WordsEmptyIffAllSpace(s[j..]);
    }
    assert Words(s) == Words(s[i..j] + s[j..]) by {
      WordsAppend(s[..i], s[i..j] + s[j..]);
      WordsEmptyIffAllSpace(s[..i]);
    }
  }

  // ------------------------------------------------------------ cleaning

  /** `_clean_text`: collapse whitespace runs, delete the characters outside
      `\w`, `\s` and `.,!?-`, strip. The result has no whitespace at either
      end, holds only allowed characters, and its only whitespace is the
      plain space. */
  function CleanText(text: string): (r: string)
    ensures |r| <= |text|
    ensures r != [] ==> !IsSpace(r[0]) && !IsSpace(r[|r| - 1])
    ensures forall i :: 0 <= i < |r| ==> Allowed(r[i])
    ensures PlainSpaces(r)
  {
    var collapsed := CollapseSpace(text);
    var kept := DeleteDisallowed(collapsed);
    var r := Strip(kept);
    DeleteKeepsPlainSpaces(collapsed);
    SliceKeepsClean(kept, SpaceRun(kept), SpaceRun(kept) + |r|);
    r
  }

  /** A slice of clean text is clean. */
  lemma SliceKeepsClean(s: string, i: nat, j: nat)
    requires i <= j <= |s|
    requires forall k :: 0 <= k < |s| ==> Allowed(s[k])
    requires PlainSpaces(s)
    ensures forall k :: 0 <= k < j - i ==> Allowed(s[i..j][k])
    ensures PlainSpaces(s[i..j])
  {
    assert forall k :: 0 <= k < j - i ==> s[i..j][k] == s[i + k];
  }

  /** The visible characters that survive cleaning are exactly the allowed
      ones, in their original order: whitespace handling moves nothing else. */
  lemma CleanTextKeepsVisible(text: string)
    ensures NonSpace(CleanText(text)) == DeleteDisallowed(NonSpace(text))
  {
    var collapsed := CollapseSpace(text);
    var kept := DeleteDisallowed(collapsed);
    StripKeepsNonSpace(kept);
    NonSpaceOfDelete(collapsed);
    CollapseKeepsNonSpace(text);
  }

  /** The words of the cleaned text are the words of the input with their
      disallowed characters deleted, dropping those left empty: whitespace
      runs become single separators and never disappear. */
  lemma CleanTextWords(text: string)
    ensures Words(CleanText(text)) == CleanWords(Words(text))
  {
    var collapsed := CollapseSpace(text);
    CollapseKeepsWords(text);
    DeleteKeepsWords(collapsed);
    StripKeepsWords(DeleteDisallowed(collapsed));
  }

  /** Text that is already clean and free of whitespace is left alone. */
  lemma CleanWordUnchanged(w: string)
    requires NoSpace(w)
    requires forall i :: 0 <= i < |w| ==> Allowed(w[i])
    ensures CleanText(w) == w
  {
    CollapseOfNoSpace(w);
    DeleteAllowedOnly(w);
    assert SpaceRun(w) == 0 by {
      if w != [] {
        assert !IsSpace(w[0]);
      }
    }
    assert TrailingSpaceRun(w) == 0 by {
      if w != [] {
        assert !IsSpace(w[|w| - 1]);
      }
    }
    assert w[0..] == w;
  }

  lemma {:induction false} DeleteAllowedOnly(s: string)
    requires forall i :: 0 <= i < |s| ==> Allowed(s[i])
    ensures DeleteDisallowed(s) == s
  {
    if s != [] {
      DeleteAllowedOnly(s[1..]);
      assert s == [s[0]] + s[1..];
    }
  }

  // ----------------------------------------------------------- summary

  /** The default number of sentences in a summary. */
  const DefaultMaxSentences: int := 3

  /** `_summarize_text` given the sentence list of `text`: the text itself
      when it has at most `maxSentences` sentences, otherwise the first
      `maxSentences` of them (Python slice semantics) joined by spaces. */
  function Summarize(text: string, sentences: seq<string>, maxSentences: int): (summary: string)
    ensures |sentences| <= maxSentences ==> summary == text
    ensures 0 <= maxSentences < |sentences| ==>
      summary == JoinWith(sentences[..maxSentences], " ")
    ensures maxSentences < 0 ==>
      summary == JoinWith(sentences[..Max(|sentences| + maxSentences, 0)], " ")
  {
    if |sentences| <= maxSentences then text
    else JoinWith(PyPrefix(sentences, maxSentences), " ")
  }

  /** Joining a prefix of the pieces gives a prefix of the joined whole. */
  lemma {:induction false} JoinPrefix(parts: seq<string>, k: nat, sep: string)
    requires k <= |parts|
    ensures JoinWith(parts[..k], sep) <= JoinWith(parts, sep)
  {
    if k > 0 && |parts| > 1 {
      if k == 1 {
        assert parts[..1] == [parts[0]];
      } else {
        JoinPrefix(parts[1..], k - 1, sep);
        assert parts[..k][1..] == parts[1..][..k - 1];
      }
    } else if k > 0 {
      assert parts[..k] == parts;
    }
  }

  /** When the sentences, joined by single spaces, give back the text, the
      summary is the text's own beginning. */
  lemma SummaryIsPrefixOfText(text: string, sentences: seq<string>, maxSentences: int)
    requires JoinWith(sentences, " ") == text
    ensures Summarize(text, sentences, maxSentences) <= text
  {
    if |sentences| > maxSentences {
      var p := PyPrefix(sentences, maxSentences);
      assert p == sentences[..|p|];
      JoinPrefix(sentences, |p|, " ");
    }
  }

  /** Asking for no sentences from a text that has some yields "". */
  lemma ZeroSentenceSummary(text: string, sentences: seq<string>)
    requires sentences != []
    ensures Summarize(text, sentences, 0) == ""
  {
  }

  // ---------------------------------------------------- article record

  datatype ArticleData = ArticleData(
    url: Option<string>,
    domain: Option<string>,
    title: Option<string>,
    text: string,
    summary: string,
    html: Option<string>)

  /** `process_text`: a record with no URL, domain, title or HTML, the
      cleaned text, and the summary of the cleaned text with the default
      sentence limit. */
  function ProcessText(text: string, sentenceSplit: string -> seq<string>): (a: ArticleData)
    ensures a.url.None? && a.domain.None? && a.title.None? && a.html.None?
    ensures a.text == CleanText(text)
    ensures |a.text| <= |text|
    ensures |sentenceSplit(a.text)| <= DefaultMaxSentences ==> a.summary == a.text
    ensures |sentenceSplit(a.text)| > DefaultMaxSentences ==>
      a.summary == JoinWith(sentenceSplit(a.text)[..DefaultMaxSentences], " ")
    ensures a.summary == Summarize(a.text, sentenceSplit(a.text), DefaultMaxSentences)
  {
    var cleaned := CleanText(text);
    ArticleData(None, None, None, cleaned, Summarize(cleaned, sentenceSplit(cleaned), DefaultMaxSentences), None)
  }

  /** With a sentence splitter whose pieces rejoin to the text, the summary
      of a processed text is a prefix of its cleaned text. */
  lemma ProcessTextSummaryWithinText(text: string, sentenceSplit: string -> seq<string>)
    requires JoinWith(sentenceSplit(CleanText(text)), " ") == CleanText(text)
    ensures ProcessText(text, sentenceSplit).summary <= ProcessText(text, sentenceSplit).text
  {
    var cleaned := CleanText(text);
    SummaryIsPrefixOfText(cleaned, sentenceSplit(cleaned), DefaultMaxSentences);
  }

  lemma CollapseSingleSpaces()
    ensures CollapseSpace("a @ b") == "a @ b"
  {
    CollapseNonSpaceCons('b', "");
    CollapseSingleSpaceCons("b");
    CollapseNonSpaceCons('@', " b");
    CollapseSingleSpaceCons("@ b");
    CollapseNonSpaceCons('a', " @ b");
    assert "a @ b" == ['a'] + " @ b";
    assert " @ b" == [' '] + "@ b";
    assert "@ b" == ['@'] + " b";
    assert " b" == [' '] + "b";
    assert "b" == ['b'] + "";
  }

  lemma CollapseDoubleSpace()
    ensures CollapseSpace("a  b") == "a b"
  {
    assert CollapseSpace("b") == "b" by { assert "b"[1..] == ""; }
    assert SpaceRun(" b") == 1 by { assert " b"[1..] == "b"; }
    assert SpaceRun("  b") == 2 by { assert "  b"[1..] == " b"; }
    assert CollapseSpace("  b") == " b" by { assert "  b"[2..] == "b"; }
    assert "a  b"[1..] == "  b";
  }

  lemma DeleteBetweenSpaces()
    ensures DeleteDisallowed("a @ b") == "a  b"
    ensures DeleteDisallowed("a b") == "a b"
  {
    DeleteCons('b', "");
    DeleteCons(' ', "b");
    DeleteCons('@', " b");
    DeleteCons(' ', "@ b");
    DeleteCons('a', " @ b");
    DeleteCons('a', " b");
  }

  lemma StripInnerSpaces()
    ensures Strip("a  b") == "a  b"
    ensures Strip("a b") == "a b"
  {
    assert SpaceRun("a  b") == 0 && SpaceRun("a b") == 0;
    assert TrailingSpaceRun("a  b") == 0 && TrailingSpaceRun("a b") == 0;
  }

  /** The whitespace collapse runs before the deletion, so deleting a
      character between two spaces leaves two spaces behind, and cleaning
      the result again changes it. */
  lemma CleaningCanLeaveDoubleSpace()
    ensures CleanText("a @ b") == "a  b"
    ensures CleanText("a  b") == "a b"
  {
    CollapseSingleSpaces();
    CollapseDoubleSpace();
    DeleteBetweenSpaces();
    StripInnerSpaces();
  }
}
