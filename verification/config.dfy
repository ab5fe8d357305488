/** Run configuration of the two scripts: the search URL built from the
    user's terms and the maximum number of results.

    MapScrape.py prompts for both (`get_user_input`): blank terms fall back to
    a fixed default search, and a blank or non-integer maximum falls back to
    50. testdivextract.py takes them from the command line (`get_cli_args`):
    the terms are percent-encoded with no default, and a maximum that is not
    an integer is a usage error. */
module Config {
  import opened Wrappers
  import opened Text
  import Decimal
  import PercentEncoding

  const SearchPrefix: string := "https://www.google.com/maps/search/"
  /** The search the prompt offers when nothing is typed: "cute cafes amsterdam". */
  const DefaultWords: seq<string> := ["cute", "cafes", "amsterdam"]
  const DefaultQuery: string := Join(DefaultWords, " ")
  const DefaultUrl: string := "https://www.google.com/maps/search/cute+cafes+amsterdam"
  const DefaultMaxResults: int := 50

  /** `'+'.join(terms.split())`: the search words, "+"-separated. Unless the
      terms hold a "+" of their own, no "+"-separated field is empty. */
  function FormatTerms(terms: string): (r: string)
    ensures NoSpace(r)
    ensures r == [] <==> Words(terms) == []
    ensures '+' !in terms ==> FieldsNonEmpty(r, '+')
  {
    var words := Words(terms);
    JoinNoSpace(words, "+");
    assert '+' !in terms ==> FieldsNonEmpty(Join(words, "+"), '+') by {
      if '+' !in terms {
        JoinFieldsNonEmpty(words, '+');
      }
    }
    Join(words, "+")
  }

  /** Reading each "+" as a space, as the search service does, gives back the
      very words that were typed, whenever the terms hold no "+" of their own. */
  lemma FormatTermsRoundTrip(terms: string)
    requires '+' !in terms
    ensures Words(Replace(FormatTerms(terms), '+', ' ')) == Words(terms)
  {
    var words := Words(terms);
    ReplaceSeparator(words, '+', ' ');
    WordsOfJoin(words, ' ');
  }

  /** Words typed with single spaces come out "+"-joined. */
  lemma FormatTermsOfSpaced(words: seq<string>)
    requires forall k | 0 <= k < |words| :: IsWord(words[k])
    ensures FormatTerms(Join(words, " ")) == Join(words, "+")
  {
    WordsOfJoin(words, ' ');
  }

  lemma DefaultWordsAreWords()
    ensures forall k | 0 <= k < |DefaultWords| :: IsWord(DefaultWords[k])
  {
    forall k, i | 0 <= k < |DefaultWords| && 0 <= i < |DefaultWords[k]|
      ensures !IsSpace(DefaultWords[k][i])
    {
      assert 'a' <= DefaultWords[k][i] <= 'z';
    }
  }

  lemma DefaultWordsJoined()
    ensures Join(DefaultWords, "+") == "cute+cafes+amsterdam"
  {
  }

  lemma DefaultUrlSpelled()
    ensures DefaultUrl == SearchPrefix + "cute+cafes+amsterdam"
  {
  }

  /** The built-in default URL is the one the default query would produce. */
  lemma DefaultUrlIsDefaultQuery()
    ensures DefaultUrl == SearchPrefix + FormatTerms(DefaultQuery)
  {
    DefaultWordsAreWords();
    FormatTermsOfSpaced(DefaultWords);
    DefaultWordsJoined();
    DefaultUrlSpelled();
  }

  /** The URL part of `get_user_input`: the typed terms, or the default search
      when nothing but whitespace was typed. */
  function PromptedUrl(input: string): (url: string)
    ensures Words(input) == [] ==> url == DefaultUrl
    ensures url == SearchPrefix + FormatTerms(if Words(input) == [] then DefaultQuery else input)
  {
    var terms := Strip(input);
    NoWordsIffAllSpace(input);
    DefaultUrlIsDefaultQuery();
    if terms == "" then DefaultUrl else SearchPrefix + FormatTerms(terms)
  }

  /** The maximum of `get_user_input`: the typed integer, or 50 when the
      answer is blank or is not an integer. */
  function PromptedMaxResults(input: string): (n: int)
    ensures Decimal.ParseInt(Strip(input)) == Some(n)
         || (Decimal.ParseInt(Strip(input)) == None && n == DefaultMaxResults)
  {
    var text := Strip(input);
    if text == "" then DefaultMaxResults
    else
      match Decimal.ParseInt(text)
      case Some(v) => v
      case None => DefaultMaxResults
  }

  /** Whitespace inside the answer is kept by `strip()`, so `int()` rejects
      the answer and the maximum falls back to 50 (an answer like "1  2"). */
  lemma InnerSpaceFallsBack(answer: string, k: nat)
    requires 0 < k < |answer| - 1 && IsSpace(answer[k])
    requires !IsSpace(answer[0]) && !IsSpace(answer[|answer| - 1])
    ensures PromptedMaxResults(answer) == DefaultMaxResults
  {
    StripTrimmed(answer);
    assert !Decimal.IsDigit(answer[k]) && answer[k] != '_';
    assert answer[1..][k - 1] == answer[k];
  }

  /** Printed integers have no whitespace at either end. */
  lemma ShowIsTrimmed(n: int)
    ensures |Decimal.Show(n)| > 0
    ensures !IsSpace(Decimal.Show(n)[0]) && !IsSpace(Decimal.Show(n)[|Decimal.Show(n)| - 1])
  {
    var s := Decimal.Show(n);
    assert Decimal.IsDigit(s[|s| - 1]);
  }

  /** Any integer typed at the prompt is used as typed, negative ones and
      zero included. */
  lemma PromptedMaxResultsRoundTrip(n: int)
    ensures PromptedMaxResults(Decimal.Show(n)) == n
  {
    ShowIsTrimmed(n);
    StripTrimmed(Decimal.Show(n));
    Decimal.ParseShow(n);
  }

  /** The URL of `get_cli_args`: the "+"-joined words, percent-encoded. */
  function CliUrl(terms: string): (url: string)
    ensures SearchPrefix <= url
    ensures forall i | |SearchPrefix| <= i < |url| :: PercentEncoding.IsUrlSafe(url[i])
    ensures PercentEncoding.DecodePercent(url[|SearchPrefix|..])
         == Some(PercentEncoding.Utf8(FormatTerms(terms)))
  {
    var segment := PercentEncoding.Quote(FormatTerms(terms));
    assert (SearchPrefix + segment)[|SearchPrefix|..] == segment;
    SearchPrefix + segment
  }

  /** Unlike the prompt, the command line has no default search: blank terms
      give the bare search prefix. */
  lemma CliUrlBlankTerms(terms: string)
    requires AllSpace(terms)
    ensures CliUrl(terms) == SearchPrefix
  {
    NoWordsIffAllSpace(terms);
  }

  /** `sep.join(words)` quoted is the quoted words joined by the quoted
      separator. */
  lemma {:induction false} QuoteJoin(words: seq<string>, sep: string)
    ensures PercentEncoding.Quote(Join(words, sep))
         == Join(seq(|words|, k requires 0 <= k < |words| => PercentEncoding.Quote(words[k])),
                 PercentEncoding.Quote(sep))
    decreases |words|
  {
    var quoted := seq(|words|, k requires 0 <= k < |words| => PercentEncoding.Quote(words[k]));
    if |words| == 0 {
      assert PercentEncoding.Utf8("") == [];
    } else if |words| > 1 {
      QuoteJoin(words[1..], sep);
      PercentEncoding.QuoteConcat(words[0] + sep, Join(words[1..], sep));
      PercentEncoding.QuoteConcat(words[0], sep);
      assert quoted[1..] == seq(|words[1..]|, k requires 0 <= k < |words[1..]| => PercentEncoding.Quote(words[1..][k]));
    }
  }

  /** For search words of unreserved characters the URL holds the words
      themselves, separated by "%2B". */
  lemma CliUrlPlainWords(terms: string)
    requires forall k, i | 0 <= k < |Words(terms)| && 0 <= i < |Words(terms)[k]| ::
      (Words(terms)[k][i] as int) < 128 && PercentEncoding.IsUnreserved(Words(terms)[k][i] as int)
    ensures CliUrl(terms) == SearchPrefix + Join(Words(terms), "%2B")
  {
    var words := Words(terms);
    QuoteJoin(words, "+");
    PercentEncoding.QuotePlus();
    forall k | 0 <= k < |words|
      ensures PercentEncoding.Quote(words[k]) == words[k]
    {
      PercentEncoding.QuoteKeepsSafeText(words[k]);
    }
    assert seq(|words|, k requires 0 <= k < |words| => PercentEncoding.Quote(words[k])) == words;
  }

  /** The maximum of `get_cli_args`: 50 when the flag is absent, the given
      integer when it parses, and a usage error otherwise. */
  function CliMaxResults(flag: Option<string>): (r: Result<int, string>)
    ensures flag == None ==> r == Success(DefaultMaxResults)
    ensures flag.Some? && r.Success? ==> Decimal.ParseInt(Strip(flag.value)) == Some(r.value)
    ensures flag.Some? ==> (r.Failure? <==> Decimal.ParseInt(Strip(flag.value)) == None)
  {
    match flag
    case None => Success(DefaultMaxResults)
    case Some(text) =>
      match Decimal.ParseInt(Strip(text))
      case Some(n) => Success(n)
      case None => Failure("argument --max_results: invalid int value: '" + text + "'")
  }

  /** Any integer given with `--max_results` is used as given. */
  lemma CliMaxResultsRoundTrip(n: int)
    ensures CliMaxResults(Some(Decimal.Show(n))) == Success(n)
  {
    ShowIsTrimmed(n);
    StripTrimmed(Decimal.Show(n));
    Decimal.ParseShow(n);
  }
}
