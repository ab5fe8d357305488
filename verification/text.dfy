/** Python's whitespace handling on `str`: `split()` with no separator,
    `strip()`, and `sep.join(words)`. Strings are sequences of Unicode scalar
    values. A Python `str` may also hold lone surrogates; those are not
    modelled. */
module Text {

  /** `str.isspace()` for one character: the characters Python's `split()`
      and `strip()` treat as whitespace. */
  predicate IsSpace(c: char)
  {
    || c == ' '
    || '\t' <= c <= '\r'
    || '\U{1C}' <= c <= '\U{1F}'
    || c == '\U{85}' || c == '\U{A0}' || c == '\U{1680}'
    || '\U{2000}' <= c <= '\U{200A}'
    || c == '\U{2028}' || c == '\U{2029}' || c == '\U{202F}'
    || c == '\U{205F}' || c == '\U{3000}'
  }

  predicate NoSpace(s: string)
  {
    forall i | 0 <= i < |s| :: !IsSpace(s[i])
  }

  predicate AllSpace(s: string)
  {
    forall i | 0 <= i < |s| :: IsSpace(s[i])
  }

  /** A word as `split()` returns it: non-empty and free of whitespace. */
  predicate IsWord(w: string)
  {
    |w| > 0 && NoSpace(w)
  }

  /** Length of the whitespace-free run at the front of `s`. */
  function WordLength(s: string): (n: nat)
    ensures n <= |s|
    ensures forall i | 0 <= i < n :: !IsSpace(s[i])
    ensures n == |s| || IsSpace(s[n])
  {
    if |s| == 0 || IsSpace(s[0]) then 0 else 1 + WordLength(s[1..])
  }

  /** The front run ends at the first whitespace character, wherever it is. */
  lemma WordLengthAt(s: string, k: nat)
    requires k <= |s|
    requires forall i | 0 <= i < k :: !IsSpace(s[i])
    requires k == |s| || IsSpace(s[k])
    ensures WordLength(s) == k
  {
  }

  /** `s.split()`: the maximal whitespace-free runs of `s`, in order. */
  function Words(s: string): (ws: seq<string>)
    ensures forall k | 0 <= k < |ws| :: IsWord(ws[k])
    ensures forall k, c | 0 <= k < |ws| && c in ws[k] :: c in s
    decreases |s|
  {
    if |s| == 0 then []
    else if IsSpace(s[0]) then
      assert forall c | c in s[1..] :: c in s;
      Words(s[1..])
    else
      var n := WordLength(s);
      var rest := Words(s[n..]);
      assert forall c | c in s[..n] :: c in s;
      assert forall c | c in s[n..] :: c in s;
      assert forall k | 0 < k < |rest| + 1 :: ([s[..n]] + rest)[k] == rest[k - 1];
      [s[..n]] + rest
  }

  /** `s.strip()`: drop leading whitespace, then trailing whitespace. The
      result is a slice of `s` with only whitespace cut away on either side. */
  function Strip(s: string): (r: string)
    ensures |r| <= |s|
    ensures exists i, j | 0 <= i <= j <= |s| ::
      r == s[i..j] && AllSpace(s[..i]) && AllSpace(s[j..])
    ensures r == [] || (!IsSpace(r[0]) && !IsSpace(r[|r| - 1]))
    ensures r == [] <==> AllSpace(s)
    ensures Words(r) == Words(s)
  {
    var lead := StripLeading(s);
    var r := StripTrailing(lead);
    assert Words(r) == Words(s) by {
      StripLeadingKeepsWords(s);
      StripTrailingKeepsWords(lead);
    }
    assert exists i, j | 0 <= i <= j <= |s| ::
        r == s[i..j] && AllSpace(s[..i]) && AllSpace(s[j..]) by {
      LeadingAllSpace(s);
      TrimmedSlice(s, lead, r);
    }
    r
  }

  /** A prefix of a suffix, each cut off by whitespace, is a slice with
      whitespace cut off on both sides. */
  lemma TrimmedSlice(s: string, lead: string, r: string)
    requires |lead| <= |s| && lead == s[|s| - |lead|..]
    requires AllSpace(s[..|s| - |lead|])
    requires r <= lead && AllSpace(lead[|r|..])
    ensures exists i, j | 0 <= i <= j <= |s| ::
      r == s[i..j] && AllSpace(s[..i]) && AllSpace(s[j..])
  {
    var i := |s| - |lead|;
    var j := i + |r|;
    assert r == s[i..j];
    assert s[j..] == lead[|r|..];
  }

  /** Text with no whitespace at either end is left as it is. */
  lemma StripTrimmed(s: string)
    requires |s| > 0 && !IsSpace(s[0]) && !IsSpace(s[|s| - 1])
    ensures Strip(s) == s
  {
  }

  function StripLeading(s: string): (r: string)
    ensures |r| <= |s| && r == s[|s| - |r|..]
    ensures r == [] || !IsSpace(r[0])
    ensures r == [] <==> AllSpace(s)
  {
    if |s| == 0 || !IsSpace(s[0]) then s else StripLeading(s[1..])
  }

  lemma {:induction false} StripLeadingKeepsWords(s: string)
    ensures Words(StripLeading(s)) == Words(s)
    decreases |s|
  {
    if |s| > 0 && IsSpace(s[0]) {
      StripLeadingKeepsWords(s[1..]);
    }
  }

  /** What `StripLeading` cuts away is whitespace. */
  lemma {:induction false} LeadingAllSpace(s: string)
    ensures AllSpace(s[..|s| - |StripLeading(s)|])
    decreases |s|
  {
    if |s| > 0 && IsSpace(s[0]) {
      LeadingAllSpace(s[1..]);
      var n := |s| - |StripLeading(s)|;
      forall i | 0 < i < n
        ensures IsSpace(s[i])
      {
        assert s[i] == s[1..][..n - 1][i - 1];
      }
    }
  }

  function StripTrailing(s: string): (r: string)
    ensures r <= s
    ensures AllSpace(s[|r|..])
    ensures r == [] || !IsSpace(r[|r| - 1])
    ensures r == [] <==> AllSpace(s)
    ensures r != [] ==> s[0] == r[0]
  {
    if |s| == 0 || !IsSpace(s[|s| - 1]) then s
    else
      var r := StripTrailing(s[..|s| - 1]);
      assert s[|r|..] == s[..|s| - 1][|r|..] + [s[|s| - 1]];
      r
  }

  /** A string of whitespace splits to no words. */
  lemma {:induction false} WordsOfSpaces(t: string)
    requires AllSpace(t)
    ensures Words(t) == []
    decreases |t|
  {
    if |t| > 0 {
      WordsOfSpaces(t[1..]);
    }
  }

  /** A string splits to no words exactly when it is all whitespace. */
  lemma {:induction false} NoWordsIffAllSpace(s: string)
    ensures Words(s) == [] <==> AllSpace(s)
    decreases |s|
  {
    if |s| > 0 && IsSpace(s[0]) {
      NoWordsIffAllSpace(s[1..]);
      assert AllSpace(s[1..]) ==> AllSpace(s);
    }
  }

  /** Whitespace after the last word adds no word. */
  lemma {:induction false} WordsIgnoreTrailingSpace(s: string, t: string)
    requires AllSpace(t)
    ensures Words(s + t) == Words(s)
    decreases |s|
  {
    if |s| == 0 {
      assert s + t == t;
      WordsOfSpaces(t);
    } else if IsSpace(s[0]) {
      assert (s + t)[1..] == s[1..] + t;
      WordsIgnoreTrailingSpace(s[1..], t);
    } else if WordLength(s) < |s| {
      var n := WordLength(s);
      assert (s + t)[n] == s[n];
      WordLengthAt(s + t, n);
      assert (s + t)[..n] == s[..n];
      assert (s + t)[n..] == s[n..] + t;
      WordsIgnoreTrailingSpace(s[n..], t);
    } else {
      LastWordThenSpaces(s, t);
    }
  }

  lemma LastWordThenSpaces(s: string, t: string)
    requires IsWord(s)
    requires AllSpace(t)
    ensures Words(s + t) == Words(s)
  {
    WordsOfWord(s);
    if |t| > 0 {
      assert s + t == s + [t[0]] + t[1..];
      WordsOfWordThenSpace(s, t[0], t[1..]);
      WordsOfSpaces(t[1..]);
    } else {
      assert s + t == s;
    }
  }

  lemma StripTrailingKeepsWords(s: string)
    ensures Words(StripTrailing(s)) == Words(s)
  {
    var r := StripTrailing(s);
    var t := s[|r|..];
    assert s == r + t;
    WordsIgnoreTrailingSpace(r, t);
  }

  /** `sep.join(words)`. */
  function Join(words: seq<string>, sep: string): (r: string)
    ensures |words| > 0 ==> words[0] <= r
    ensures forall i | 0 <= i < |r| ::
      r[i] in sep || exists k | 0 <= k < |words| :: r[i] in words[k]
  {
    if |words| == 0 then ""
    else if |words| == 1 then words[0]
    else
      var rest := Join(words[1..], sep);
      assert forall i | 0 <= i < |rest| ::
        rest[i] in sep || exists k | 0 <= k < |words| :: rest[i] in words[k] by {
        forall i | 0 <= i < |rest| && rest[i] !in sep
          ensures exists k | 0 <= k < |words| :: rest[i] in words[k]
        {
          var k :| 0 <= k < |words[1..]| && rest[i] in words[1..][k];
          assert rest[i] in words[k + 1];
        }
      }
      words[0] + sep + rest
  }

  /** Joining whitespace-free words with a whitespace-free separator yields a
      whitespace-free string. */
  lemma JoinNoSpace(words: seq<string>, sep: string)
    requires forall k | 0 <= k < |words| :: NoSpace(words[k])
    requires NoSpace(sep)
    ensures NoSpace(Join(words, sep))
  {
    var r := Join(words, sep);
    forall i | 0 <= i < |r|
      ensures !IsSpace(r[i])
    {
      if r[i] in sep {
        var j :| 0 <= j < |sep| && sep[j] == r[i];
      } else {
        var k :| 0 <= k < |words| && r[i] in words[k];
        var j :| 0 <= j < |words[k]| && words[k][j] == r[i];
      }
    }
  }

  /** Splitting `s` on `sep` gives no empty field: `s` is empty, or neither
      starts nor ends with `sep`, and never holds two `sep` in a row. */
  predicate FieldsNonEmpty(s: string, sep: char)
  {
    s == [] ||
      (s[0] != sep && s[|s| - 1] != sep &&
       forall i | 0 <= i < |s| - 1 :: s[i] == sep ==> s[i + 1] != sep)
  }

  /** Joining non-empty words that do not hold the separator gives a string
      whose fields are exactly non-empty. */
  lemma {:induction false} JoinFieldsNonEmpty(words: seq<string>, sep: char)
    requires forall k | 0 <= k < |words| :: |words[k]| > 0 && sep !in words[k]
    ensures FieldsNonEmpty(Join(words, [sep]), sep)
    decreases |words|
  {
    if |words| > 1 {
      var w := words[0];
      var rest := Join(words[1..], [sep]);
      JoinFieldsNonEmpty(words[1..], sep);
      assert words[1] <= rest;
      assert rest[0] == words[1][0];
      assert words[1][0] in words[1];
      var r := w + [sep] + rest;
      assert r[0] == w[0] && w[0] in w;
      assert r[|r| - 1] == rest[|rest| - 1];
      forall i | 0 <= i < |r| - 1 && r[i] == sep
        ensures r[i + 1] != sep
      {
        if i == |w| {
          assert r[i + 1] == rest[0];
        } else if i > |w| {
          assert r[i] == rest[i - |w| - 1] && r[i + 1] == rest[i - |w|];
        }
      }
    } else if |words| == 1 {
      assert words[0][0] in words[0];
      assert words[0][|words[0]| - 1] in words[0];
    }
  }

  /** A lone word splits to itself. */
  lemma WordsOfWord(w: string)
    requires IsWord(w)
    ensures Words(w) == [w]
  {
    WordLengthAt(w, |w|);
    assert w[..|w|] == w;
    assert w[|w|..] == [];
  }

  /** A word followed by whitespace splits off as the first word. */
  lemma WordsOfWordThenSpace(w: string, sep: char, rest: string)
    requires IsWord(w)
    requires IsSpace(sep)
    ensures Words(w + [sep] + rest) == [w] + Words(rest)
  {
    var s := w + [sep] + rest;
    assert forall i | 0 <= i < |w| :: s[i] == w[i];
    assert s[|w|] == sep;
    WordLengthAt(s, |w|);
    assert s[..|w|] == w;
    assert s[|w|..] == [sep] + rest;
    assert ([sep] + rest)[1..] == rest;
  }

  /** Splitting undoes joining with whitespace: the words come back exactly. */
  lemma {:induction false} WordsOfJoin(words: seq<string>, sep: char)
    requires forall k | 0 <= k < |words| :: IsWord(words[k])
    requires IsSpace(sep)
    ensures Words(Join(words, [sep])) == words
    decreases |words|
  {
    if |words| == 0 {
    } else if |words| == 1 {
      WordsOfWord(words[0]);
    } else {
      WordsOfJoin(words[1..], sep);
      WordsOfWordThenSpace(words[0], sep, Join(words[1..], [sep]));
      assert words == [words[0]] + words[1..];
    }
  }

  /** `s` with every `a` replaced by `b`. */
  function Replace(s: string, a: char, b: char): (r: string)
    ensures |r| == |s|
    ensures forall i | 0 <= i < |s| :: r[i] == if s[i] == a then b else s[i]
  {
    seq(|s|, i requires 0 <= i < |s| => if s[i] == a then b else s[i])
  }

  lemma ReplaceAbsent(s: string, a: char, b: char)
    requires a !in s
    ensures Replace(s, a, b) == s
  {
  }

  lemma ReplaceConcat(x: string, y: string, a: char, b: char)
    ensures Replace(x + y, a, b) == Replace(x, a, b) + Replace(y, a, b)
  {
  }

  /** Replacing the separator changes nothing inside separator-free words. */
  lemma {:induction false} ReplaceSeparator(words: seq<string>, a: char, b: char)
    requires forall k | 0 <= k < |words| :: a !in words[k]
    ensures Replace(Join(words, [a]), a, b) == Join(words, [b])
    decreases |words|
  {
    if |words| == 0 {
    } else if |words| == 1 {
      ReplaceAbsent(words[0], a, b);
    } else {
      var rest := Join(words[1..], [a]);
      ReplaceConcat(words[0] + [a], rest, a, b);
      ReplaceConcat(words[0], [a], a, b);
      ReplaceAbsent(words[0], a, b);
      ReplaceSeparator(words[1..], a, b);
    }
  }
}
