/** Python string operations the core relies on: `str.isspace`, `str.lower`,
    the `in` substring test, `str.split()`, `str.split(sep)`, `sep.join`
    and the decimal rendering of an `int` in an f-string. */
module Text {

  /** Python's `str.isspace` for one character: the characters that
      `str.split()`, `str.strip()` and the regular expression `\s` treat
      as whitespace. */
  predicate IsSpace(c: char) {
    var n := c as int;
    (9 <= n <= 13) || (28 <= n <= 32) || n == 0x85 || n == 0xA0 || n == 0x1680
    || (0x2000 <= n <= 0x200A) || n == 0x2028 || n == 0x2029 || n == 0x202F
    || n == 0x205F || n == 0x3000
  }

  predicate NoSpace(s: string) {
    forall i :: 0 <= i < |s| ==> !IsSpace(s[i])
  }

  predicate AllSpace(s: string) {
    forall i :: 0 <= i < |s| ==> IsSpace(s[i])
  }

  predicate IsUpper(c: char) { 'A' <= c <= 'Z' }
  predicate IsLowerLetter(c: char) { 'a' <= c <= 'z' }
  predicate IsDigit(c: char) { '0' <= c <= '9' }
  predicate IsAlnum(c: char) { IsUpper(c) || IsLowerLetter(c) || IsDigit(c) }

  /** `str.lower` on one character (letters A to Z). */
  function Lower(c: char): (d: char)
    ensures IsUpper(c) ==> IsLowerLetter(d) && d as int == c as int + 32
    ensures !IsUpper(c) ==> d == c
    ensures IsSpace(d) <==> IsSpace(c)
  {
    if IsUpper(c) then (c as int + 32) as char else c
  }

  /** `str.lower` on a string. */
  function LowerStr(s: string): (t: string)
    ensures |t| == |s|
    ensures forall i :: 0 <= i < |s| ==> t[i] == Lower(s[i])
  {
    seq(|s|, i requires 0 <= i < |s| => Lower(s[i]))
  }

  /** Two strings that differ at most in the case of their letters. */
  predicate SameUpToCase(a: string, b: string) {
    |a| == |b| && forall i :: 0 <= i < |a| ==> Lower(a[i]) == Lower(b[i])
  }

  /** Python's `w in s` for strings: `w` occurs as a contiguous substring of `s`. */
  predicate Contains(s: string, w: string) {
    exists i :: 0 <= i <= |s| && w <= s[i..]
  }

  /** Length of the longest prefix of `s` that holds no whitespace. */
  function RunLength(s: string): (n: nat)
    ensures n <= |s|
    ensures NoSpace(s[..n])
    ensures n == |s| || IsSpace(s[n])
  {
    if s == [] || IsSpace(s[0]) then 0 else 1 + RunLength(s[1..])
  }

  /** Python's `s.split()` with no separator: the maximal runs of
      non-whitespace characters, in order. */
  function Words(s: string): (ws: seq<string>)
    ensures forall k :: 0 <= k < |ws| ==> ws[k] != [] && NoSpace(ws[k])
    decreases |s|
  {
    if s == [] then []
    else if IsSpace(s[0]) then Words(s[1..])
    else
      var n := RunLength(s);
      [s[..n]] + Words(s[n..])
  }

  /** The characters of `s` that are not whitespace, in order. */
  function NonSpace(s: string): string {
    if s == [] then [] else (if IsSpace(s[0]) then [] else [s[0]]) + NonSpace(s[1..])
  }

  function Concat(ws: seq<string>): string {
    if ws == [] then [] else ws[0] + Concat(ws[1..])
  }

  lemma {:induction false} NonSpaceAppend(a: string, b: string)
    ensures NonSpace(a + b) == NonSpace(a) + NonSpace(b)
    decreases |a|
  {
    if a == [] {
      assert a + b == b;
    } else {
      assert (a + b)[1..] == a[1..] + b;
      NonSpaceAppend(a[1..], b);
    }
  }

  lemma {:induction false} NonSpaceOfNoSpace(s: string)
    requires NoSpace(s)
    ensures NonSpace(s) == s
    decreases |s|
  {
    if s != [] {
      NonSpaceOfNoSpace(s[1..]);
    }
  }

  /** `s.split()` loses exactly the whitespace: gluing the words back
      together gives the non-whitespace characters of `s`, in order. */
  lemma {:induction false} WordsCoverNonSpace(s: string)
    ensures Concat(Words(s)) == NonSpace(s)
    decreases |s|
  {
    if s != [] {
      if IsSpace(s[0]) {
        WordsCoverNonSpace(s[1..]);
      } else {
        var n := RunLength(s);
        assert s == s[..n] + s[n..];
        NonSpaceAppend(s[..n], s[n..]);
        NonSpaceOfNoSpace(s[..n]);
        WordsCoverNonSpace(s[n..]);
      }
    }
  }

  /** `s.split()` is empty exactly when `s` holds only whitespace
      (the empty string included). */
  lemma {:induction false} WordsEmptyIffAllSpace(s: string)
    ensures Words(s) == [] <==> AllSpace(s)
    decreases |s|
  {
    if s != [] {
      if IsSpace(s[0]) {
        WordsEmptyIffAllSpace(s[1..]);
        assert AllSpace(s) <==> AllSpace(s[1..]) by {
          if AllSpace(s[1..]) {
            forall i | 0 <= i < |s| ensures IsSpace(s[i]) {
              if i > 0 { assert s[i] == s[1..][i - 1]; }
            }
          }
        }
      }
    }
  }

  lemma {:induction false} RunLengthOfNoSpace(s: string)
    requires NoSpace(s)
    ensures RunLength(s) == |s|
  {
    if s != [] {
      RunLengthOfNoSpace(s[1..]);
    }
  }

  /** A non-empty string without whitespace is one word. */
  lemma WordsOfNoSpace(s: string)
    requires s != [] && NoSpace(s)
    ensures Words(s) == [s]
  {
    var n := RunLength(s);
    RunLengthOfNoSpace(s);
    assert s[..n] == s && s[n..] == [];
    assert Words(s) == [s[..n]] + Words(s[n..]);
  }

  lemma {:induction false} RunLengthAppend(a: string, b: string)
    ensures RunLength(a + b) == if RunLength(a) < |a| then RunLength(a) else |a| + RunLength(b)
    decreases |a|
  {
    if a == [] {
      assert a + b == b;
    } else {
      assert (a + b)[0] == a[0];
      assert (a + b)[1..] == a[1..] + b;
      if !IsSpace(a[0]) {
        RunLengthAppend(a[1..], b);
      }
    }
  }

  /** Two strings that meet at whitespace (or where one is empty) split into
      the words of the first followed by the words of the second. */
  lemma {:induction false} WordsAppend(a: string, b: string)
    requires a == [] || b == [] || IsSpace(a[|a| - 1]) || IsSpace(b[0])
    ensures Words(a + b) == Words(a) + Words(b)
    decreases |a|
  {
    if a == [] {
      assert a + b == b;
    } else if IsSpace(a[0]) {
      assert (a + b)[0] == a[0];
      assert (a + b)[1..] == a[1..] + b;
      WordsAppend(a[1..], b);
    } else {
      var n := RunLength(a);
      assert a[n..] != [] ==> a[n..][|a[n..]| - 1] == a[|a| - 1];
      WordsAppend(a[n..], b);
      WordsAppendRun(a, b);
      assert Words(a) == [a[..n]] + Words(a[n..]);
    }
  }

  /** When `a` starts with a word, that word is also the first word of `a + b`. */
  lemma WordsAppendRun(a: string, b: string)
    requires a != [] && !IsSpace(a[0])
    requires b == [] || IsSpace(a[|a| - 1]) || IsSpace(b[0])
    ensures Words(a + b) == [a[..RunLength(a)]] + Words(a[RunLength(a)..] + b)
  {
    var n := RunLength(a);
    RunLengthAtBoundary(a, b);
    assert (a + b)[0] == a[0];
    assert (a + b)[..n] == a[..n];
    assert (a + b)[n..] == a[n..] + b;
  }

  /** The first run of `a` is not extended by `b` when they meet at whitespace. */
  lemma RunLengthAtBoundary(a: string, b: string)
    requires a != [] && !IsSpace(a[0])
    requires b == [] || IsSpace(a[|a| - 1]) || IsSpace(b[0])
    ensures RunLength(a + b) == RunLength(a)
  {
    RunLengthAppend(a, b);
    if RunLength(a) == |a| {
      assert a[..|a|][|a| - 1] == a[|a| - 1];
    }
  }

  /** A whitespace character in front changes no word. */
  lemma WordsSpaceCons(c: char, t: string)
    requires IsSpace(c)
    ensures Words([c] + t) == Words(t)
  {
    assert ([c] + t)[1..] == t;
  }

  lemma {:induction false} RunLengthUpToCase(a: string, b: string)
    requires SameUpToCase(a, b)
    ensures RunLength(a) == RunLength(b)
    decreases |a|
  {
    if a != [] {
      assert IsSpace(a[0]) <==> IsSpace(Lower(a[0]));
      assert IsSpace(b[0]) <==> IsSpace(Lower(b[0]));
      assert SameUpToCase(a[1..], b[1..]) by {
        forall i | 0 <= i < |a[1..]| ensures Lower(a[1..][i]) == Lower(b[1..][i]) {
          assert a[1..][i] == a[i + 1];
          assert b[1..][i] == b[i + 1];
        }
      }
      RunLengthUpToCase(a[1..], b[1..]);
    }
  }

  /** Changing the case of letters never changes the number of words. */
  lemma {:induction false} WordCountUpToCase(a: string, b: string)
    requires SameUpToCase(a, b)
    ensures |Words(a)| == |Words(b)|
    decreases |a|
  {
    if a != [] {
      assert IsSpace(a[0]) <==> IsSpace(Lower(a[0]));
      assert IsSpace(b[0]) <==> IsSpace(Lower(b[0]));
      var n := RunLength(a);
      RunLengthUpToCase(a, b);
      var m := if IsSpace(a[0]) then 1 else n;
      assert SameUpToCase(a[m..], b[m..]) by {
        forall i | 0 <= i < |a[m..]| ensures Lower(a[m..][i]) == Lower(b[m..][i]) {
          assert a[m..][i] == a[i + m];
          assert b[m..][i] == b[i + m];
        }
      }
      WordCountUpToCase(a[m..], b[m..]);
    }
  }

  /** Changing the case of letters never changes the lower-cased text. */
  lemma LowerStrUpToCase(a: string, b: string)
    requires SameUpToCase(a, b)
    ensures LowerStr(a) == LowerStr(b)
  {
  }

  /** Python's `s.split(c)`: the pieces between consecutive occurrences of
      `c`; there is always one more piece than there are occurrences. */
  function Split(s: string, c: char): (parts: seq<string>)
    ensures |parts| >= 1
    ensures forall k :: 0 <= k < |parts| ==> c !in parts[k]
    ensures |parts| >= 2 <==> c in s
  {
    if s == [] then [""]
    else
      var rest := Split(s[1..], c);
      if s[0] == c then [""] + rest
      else [[s[0]] + rest[0]] + rest[1..]
  }

  /** Python's `sep.join(parts)`. */
  function JoinWith(parts: seq<string>, sep: string): string {
    if parts == [] then ""
    else if |parts| == 1 then parts[0]
    else parts[0] + sep + JoinWith(parts[1..], sep)
  }

  /** Prefixing the first piece is prefixing the joined string. */
  lemma JoinWithPrefixFirst(x: string, parts: seq<string>, sep: string)
    requires parts != []
    ensures JoinWith([x + parts[0]] + parts[1..], sep) == x + JoinWith(parts, sep)
  {
    var q := [x + parts[0]] + parts[1..];
    if |parts| > 1 {
      assert q[1..] == parts[1..];
      assert JoinWith(q, sep) == x + parts[0] + sep + JoinWith(parts[1..], sep);
    }
  }

  /** Splitting on a character and joining the pieces with that character
      gives back the original string. */
  lemma {:induction false} JoinSplit(s: string, c: char)
    ensures JoinWith(Split(s, c), [c]) == s
  {
    if s != [] {
      var rest := Split(s[1..], c);
      JoinSplit(s[1..], c);
      assert s == [s[0]] + s[1..];
      if s[0] == c {
        assert Split(s, c) == [""] + rest;
        assert ([""] + rest)[1..] == rest;
      } else {
        assert Split(s, c) == [[s[0]] + rest[0]] + rest[1..];
        JoinWithPrefixFirst([s[0]], rest, [c]);
      }
    }
  }

  /** A string without `c` followed by one `c` splits into itself and an
      empty piece. */
  lemma {:induction false} SplitTrailingSeparator(t: string, c: char)
    requires c !in t
    ensures Split(t + [c], c) == [t, ""]
  {
    if t == [] {
      assert ([] + [c])[1..] == [];
    } else {
      SplitTrailingSeparator(t[1..], c);
      assert (t + [c])[1..] == t[1..] + [c];
      assert t == [t[0]] + t[1..];
    }
  }

  predicate AllDigits(s: string) {
    forall i :: 0 <= i < |s| ==> IsDigit(s[i])
  }

  function DigitChar(d: nat): (c: char)
    requires d < 10
    ensures IsDigit(c) && c as int - '0' as int == d
  {
    (d + '0' as int) as char
  }

  /** Decimal rendering of a non-negative integer, as `f"{n}"` produces it. */
  function NatToString(n: nat): (s: string)
    ensures |s| >= 1 && AllDigits(s)
  {
    if n < 10 then [DigitChar(n)] else NatToString(n / 10) + [DigitChar(n % 10)]
  }

  /** Reading a string of decimal digits back as a number. */
  function ParseNat(s: string): nat
    requires AllDigits(s)
  {
    if s == [] then 0 else ParseNat(s[..|s| - 1]) * 10 + (s[|s| - 1] as int - '0' as int)
  }

  /** The rendering loses nothing: it reads back as the same number. */
  lemma {:induction false} ParseNatToString(n: nat)
    ensures ParseNat(NatToString(n)) == n
  {
    if n >= 10 {
      var s := NatToString(n);
      assert s[..|s| - 1] == NatToString(n / 10);
      ParseNatToString(n / 10);
    }
  }
}
