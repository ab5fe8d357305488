/** `extract_venues` of MapScrape.py and the truncation of its result.

    The page is abstracted as what each selector finds, in priority order:
    `page[k]` holds the name text read from every card that the k-th
    selector matches. MapScrape.py tries 'div.Nv2PK.THOPZb', then
    '[role="article"]', then 'div[jsaction*="mouseover:pane"]'. The first
    selector that matches at least one card is the only one read. Cards with
    empty names are skipped, and the names are deduplicated through a Python
    set. Python gives no order for that set, so the model keeps first
    occurrences in card order and its contracts promise only which names
    are present. */
module VenueExtract {
  import opened Wrappers
  import Slicing
  import ScrollLoop

  /** Names read from the cards of each selector, in selector priority. */
  type Page = seq<seq<string>>

  predicate NoDuplicates<T(==)>(s: seq<T>)
  {
    forall i, j | 0 <= i < j < |s| :: s[i] != s[j]
  }

  /** The first selector that matches any card. */
  function FirstMatch(page: Page): (k: Option<nat>)
    ensures k.Some? ==> k.value < |page| && |page[k.value]| > 0
    ensures k.Some? ==> forall j | 0 <= j < k.value :: |page[j]| == 0
    ensures k.None? <==> forall j | 0 <= j < |page| :: |page[j]| == 0
  {
    if |page| == 0 then None
    else if |page[0]| > 0 then Some(0)
    else
      match FirstMatch(page[1..])
      case None => None
      case Some(k) => Some(k + 1)
  }

  /** The distinct non-empty names of `names`, each kept at its first
      occurrence. */
  function DistinctNames(names: seq<string>): (r: seq<string>)
    ensures NoDuplicates(r)
    ensures forall x :: x in r <==> x in names && x != ""
    ensures |r| <= |names|
  {
    if |names| == 0 then []
    else
      var rest := DistinctNames(names[..|names| - 1]);
      var x := names[|names| - 1];
      assert names == names[..|names| - 1] + [x];
      if x == "" || x in rest then rest else rest + [x]
  }

  /** `extract_venues(page)`. */
  function ExtractVenues(page: Page): (r: seq<string>)
    ensures NoDuplicates(r)
    ensures "" !in r
    ensures FirstMatch(page).None? ==> r == []
    ensures FirstMatch(page).Some? ==>
      forall x :: x in r <==> x in page[FirstMatch(page).value] && x != ""
  {
    match FirstMatch(page)
    case None => []
    case Some(k) => DistinctNames(page[k])
  }

  /** Selectors after the first matching one are never consulted: replacing
      what they match leaves the result unchanged. */
  lemma LaterSelectorsIgnored(page: Page, k: nat, later: Page)
    requires FirstMatch(page) == Some(k)
    ensures ExtractVenues(page[..k + 1] + later) == ExtractVenues(page)
  {
    var page' := page[..k + 1] + later;
    assert page'[k] == page[k];
    assert forall j | 0 <= j < k :: page'[j] == page[j];
    assert FirstMatch(page') == Some(k);
  }

  /** A duplicate-free list is as long as the set of its elements. */
  lemma {:induction false} DistinctLength<T>(s: seq<T>)
    requires NoDuplicates(s)
    ensures |s| == |set x | x in s|
    decreases |s|
  {
    if |s| > 0 {
      var init := s[..|s| - 1];
      var last := s[|s| - 1];
      assert NoDuplicates(init);
      DistinctLength(init);
      assert last !in init;
      assert (set x | x in s) == (set x | x in init) + {last};
    }
  }

  /** The set of distinct non-empty names on the chosen cards. */
  function NameSet(page: Page): set<string>
  {
    match FirstMatch(page)
    case None => {}
    case Some(k) => set x | x in page[k] && x != ""
  }

  /** The count the scroll loop of MapScrape.py compares is the number of
      distinct non-empty names on the cards of the first matching selector. */
  lemma ExtractedCount(page: Page)
    ensures |ExtractVenues(page)| == |NameSet(page)|
  {
    var r := ExtractVenues(page);
    DistinctLength(r);
    assert (set x | x in r) == NameSet(page);
  }

  /** Two cards with the same name give one entry. */
  lemma DuplicateCardsCollapse(name: string)
    requires name != ""
    ensures ExtractVenues([[name, name]]) == [name]
  {
    var r := ExtractVenues([[name, name]]);
    assert FirstMatch([[name, name]]) == Some(0);
    assert name in r;
    DistinctLength(r);
    assert (set x | x in r) == {name};
    assert r[0] in r;
  }

  /** `extract_venues(page)[:max_results]` as written: a negative maximum
      counts from the end of the list (see Slicing). */
  function SavedVenues(page: Page, maxResults: int): (r: seq<string>)
    ensures r <= ExtractVenues(page)
    ensures 0 <= maxResults ==> |r| == Min(maxResults, |ExtractVenues(page)|)
    ensures maxResults < 0 ==> |r| == Max(0, |ExtractVenues(page)| + maxResults)
    ensures NoDuplicates(r)
    ensures "" !in r
  {
    Slicing.PyPrefix(ExtractVenues(page), maxResults)
  }

  /** Two distinct names are saved as one when the maximum is -1, where a
      maximum below zero should save none. */
  lemma NegativeMaxSavesNames(a: string, b: string)
    requires a != "" && b != "" && a != b
    ensures |SavedVenues([[a, b]], -1)| == 1
  {
    var page := [[a, b]];
    ExtractedCount(page);
    assert FirstMatch(page) == Some(0);
    assert NameSet(page) == {a, b};
  }

  /** The corrected cut: at most `max(max_results, 0)` names. */
  function SavedVenuesCorrected(page: Page, maxResults: int): (r: seq<string>)
    ensures r <= ExtractVenues(page)
    ensures |r| == Min(Max(maxResults, 0), |ExtractVenues(page)|)
    ensures NoDuplicates(r)
    ensures "" !in r
  {
    Slicing.Truncate(ExtractVenues(page), maxResults)
  }

  /** For the maxima the prompt asks for, the correction changes nothing. */
  lemma SavedVenuesCorrectedAgrees(page: Page, maxResults: int)
    requires 0 <= maxResults
    ensures SavedVenuesCorrected(page, maxResults) == SavedVenues(page, maxResults)
  {
    Slicing.TruncateIsSliceForNonNegative(ExtractVenues(page), maxResults);
  }

  /** The scroll trace MapScrape.py observes: one extraction per snapshot. */
  function NameCounts(pages: seq<Page>): seq<nat>
  {
    seq(|pages|, i requires 0 <= i < |pages| => |ExtractVenues(pages[i])|)
  }

  /** When the scroll loop stops on the target, the saved list holds exactly
      `max_results` distinct names. */
  lemma TargetReachedSavesExactlyMax(pages: seq<Page>, maxResults: int)
    requires 0 <= maxResults
    requires ScrollLoop.Run(NameCounts(pages), maxResults).reason == ScrollLoop.TargetReached
    ensures var k := ScrollLoop.Run(NameCounts(pages), maxResults).scrolls;
      k < |pages| && |SavedVenues(pages[k], maxResults)| == maxResults
  {
  }

  /** When the scroll loop stalls, every distinct name found is saved. */
  lemma StalledSavesEverything(pages: seq<Page>, maxResults: int)
    requires ScrollLoop.Run(NameCounts(pages), maxResults).reason == ScrollLoop.Stalled
    ensures var k := ScrollLoop.Run(NameCounts(pages), maxResults).scrolls;
      k < |pages| && SavedVenues(pages[k], maxResults) == ExtractVenues(pages[k])
  {
  }
}
