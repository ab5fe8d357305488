/** `extract_venue_details` and the per-card loop of `main` in
    testdivextract.py.

    The side panel is abstracted as the outcome of each guarded field read.
    A field is either not visible (skipped), or visible with the value read,
    or its read raises. A read that raises ends the extraction, and the
    fields already collected are returned. A panel that never appears gives
    an empty record. The website field stores the link's `href` attribute,
    which can be missing (JSON `null`), so values are optional. */
module VenueDetails {
  import opened Wrappers
  import Slicing
  import ScrollLoop

  datatype Field = Name | Rating | Address | Website | Phone
  {
    /** The key the field is stored under in the JSON output. */
    function Key(): string
    {
      match this
      case Name => "name"
      case Rating => "rating"
      case Address => "address"
      case Website => "website"
      case Phone => "phone"
    }
  }

  /** The order in which the fields are read. */
  const FieldOrder: seq<Field> := [Name, Rating, Address, Website, Phone]

  const FieldKeys: set<string> := {"name", "rating", "address", "website", "phone"}

  /** Position of a field in FieldOrder. */
  function Position(f: Field): (p: nat)
    ensures p < |FieldOrder| && FieldOrder[p] == f
  {
    match f
    case Name => 0
    case Rating => 1
    case Address => 2
    case Website => 3
    case Phone => 4
  }

  /** What one visibility-guarded read observes. */
  datatype FieldRead = Hidden | Shown(value: Option<string>) | Raises

  /** The side panel after a card was clicked. */
  datatype Panel = NeverAppears | Appears(read: Field -> FieldRead)

  /** The details dict of one venue. */
  type Record = map<Field, Option<string>>

  /** No field read before `f` raised. */
  ghost predicate ReachedBefore(read: Field -> FieldRead, f: Field)
  {
    forall g: Field | Position(g) < Position(f) :: !read(g).Raises?
  }

  /** Reads `fields` in order into `acc`, stopping at the first read that
      raises. */
  function Collect(read: Field -> FieldRead, fields: seq<Field>, acc: Record): Record
    decreases |fields|
  {
    if |fields| == 0 then acc
    else
      match read(fields[0])
      case Raises => acc
      case Hidden => Collect(read, fields[1..], acc)
      case Shown(v) => Collect(read, fields[1..], acc[fields[0] := v])
  }

  /** Collecting from position `k` on, with the fields before `k` already
      collected, yields exactly the fields that are shown and reached. */
  lemma {:induction false} CollectFrom(read: Field -> FieldRead, k: nat, acc: Record)
    requires k <= |FieldOrder|
    requires forall g: Field | Position(g) < k :: !read(g).Raises?
    requires forall f: Field :: f in acc <==> Position(f) < k && read(f).Shown?
    requires forall f | f in acc :: acc[f] == read(f).value
    ensures var d := Collect(read, FieldOrder[k..], acc);
      && (forall f: Field :: f in d <==> read(f).Shown? && ReachedBefore(read, f))
      && (forall f | f in d :: d[f] == read(f).value)
    decreases |FieldOrder| - k
  {
    var d := Collect(read, FieldOrder[k..], acc);
    if k == |FieldOrder| {
      forall f: Field ensures ReachedBefore(read, f) {
      }
    } else {
      var f0 := FieldOrder[k];
      assert Position(f0) == k;
      assert FieldOrder[k..][1..] == FieldOrder[k + 1..];
      match read(f0)
      case Raises =>
        forall f: Field | Position(f) > k ensures !ReachedBefore(read, f) {
          assert Position(f0) < Position(f);
        }
      case Hidden =>
        CollectFrom(read, k + 1, acc);
      case Shown(v) =>
        CollectFrom(read, k + 1, acc[f0 := v]);
    }
  }

  /** `extract_venue_details(page)`: a field is recorded exactly when it is
      visible and no earlier read raised, with the value that was read. */
  function ExtractVenueDetails(panel: Panel): (d: Record)
    ensures panel.NeverAppears? ==> d == map[]
    ensures panel.Appears? ==> forall f: Field ::
      f in d <==> panel.read(f).Shown? && ReachedBefore(panel.read, f)
    ensures panel.Appears? ==> forall f | f in d :: d[f] == panel.read(f).value
  {
    match panel
    case NeverAppears => map[]
    case Appears(read) =>
      CollectFrom(read, 0, map[]);
      assert FieldOrder[0..] == FieldOrder;
      Collect(read, FieldOrder, map[])
  }

  /** A failing read keeps what was read before it: making the read at
      position `p` raise leaves exactly the fields recorded before `p`. */
  lemma RaiseKeepsEarlierFields(read: Field -> FieldRead, read': Field -> FieldRead, p: nat)
    requires p < |FieldOrder|
    requires forall g: Field | Position(g) < p :: read'(g) == read(g)
    requires read'(FieldOrder[p]).Raises?
    ensures var d := ExtractVenueDetails(Appears(read));
      ExtractVenueDetails(Appears(read')) == map f | f in d && Position(f) < p :: d[f]
  {
    var d := ExtractVenueDetails(Appears(read));
    var d' := ExtractVenueDetails(Appears(read'));
    forall f: Field
      ensures f in d' <==> f in d && Position(f) < p
    {
      if Position(f) < p {
        assert ReachedBefore(read', f) <==> ReachedBefore(read, f) by {
          forall g: Field | Position(g) < Position(f) ensures read'(g) == read(g) {
          }
        }
      } else if Position(f) > p {
        assert Position(FieldOrder[p]) < Position(f);
        assert !ReachedBefore(read', f);
      } else {
        assert f == FieldOrder[p];
      }
    }
  }

  /** The record as the JSON object it is written as. */
  function JsonObject(d: Record): (obj: map<string, Option<string>>)
    ensures obj.Keys <= FieldKeys
    ensures forall f | f in d :: f.Key() in obj && obj[f.Key()] == d[f]
    ensures forall key | key in obj :: exists f | f in d :: f.Key() == key
  {
    map f | f in d :: f.Key() := d[f]
  }

  // ---------------------------------------------------------------------
  // The per-card loop of `main`.

  /** What happened when one card was processed: the click raised, or the
      panel opened (or not) and was read. */
  datatype CardVisit = ClickFails | Opened(panel: Panel)

  /** The records `main` appends while walking `visits`: one per card whose
      details came out non-empty, in card order. */
  function ProcessCards(visits: seq<CardVisit>): (out: seq<Record>)
    ensures |out| <= |visits|
    ensures forall i | 0 <= i < |out| :: out[i] != map[]
    ensures forall i | 0 <= i < |out| :: exists v | v in visits ::
      v.Opened? && ExtractVenueDetails(v.panel) == out[i]
    ensures (forall v | v in visits :: v.Opened? && ExtractVenueDetails(v.panel) != map[])
      ==> |out| == |visits|
  {
    if |visits| == 0 then []
    else
      var init := ProcessCards(visits[..|visits| - 1]);
      var last := visits[|visits| - 1];
      assert forall v | v in visits[..|visits| - 1] :: v in visits;
      assert last in visits;
      match last
      case ClickFails => init
      case Opened(panel) =>
        var details := ExtractVenueDetails(panel);
        if details == map[] then init else init + [details]
  }

  /** Each card is processed on its own: an error on one card does not stop
      or change the processing of the others. */
  lemma {:induction false} ProcessCardsAppend(a: seq<CardVisit>, b: seq<CardVisit>)
    ensures ProcessCards(a + b) == ProcessCards(a) + ProcessCards(b)
    decreases |b|
  {
    if |b| == 0 {
      assert a + b == a;
    } else {
      var b0 := b[..|b| - 1];
      assert (a + b)[..|a + b| - 1] == a + b0;
      assert (a + b)[|a + b| - 1] == b[|b| - 1];
      ProcessCardsAppend(a, b0);
    }
  }

  /** A card whose click raises contributes nothing and spoils nothing. */
  lemma FailedCardSkipped(a: seq<CardVisit>, b: seq<CardVisit>)
    ensures ProcessCards(a + [ClickFails] + b) == ProcessCards(a) + ProcessCards(b)
  {
    ProcessCardsAppend(a + [ClickFails], b);
    ProcessCardsAppend(a, [ClickFails]);
    assert [ClickFails][..0] == [];
  }

  /** A single card adds its details exactly when it opened and they are
      non-empty. */
  lemma ProcessCardsSingle(v: CardVisit)
    ensures ProcessCards([v]) ==
      if v.Opened? && ExtractVenueDetails(v.panel) != map[]
      then [ExtractVenueDetails(v.panel)] else []
  {
    assert [v][..0] == [];
  }

  /** When every card opens with details, one record per card is saved, in
      card order. */
  lemma {:induction false} ProcessCardsAllKept(visits: seq<CardVisit>)
    requires forall j | 0 <= j < |visits| ::
      visits[j].Opened? && ExtractVenueDetails(visits[j].panel) != map[]
    ensures |ProcessCards(visits)| == |visits|
    ensures forall i | 0 <= i < |visits| ::
      ProcessCards(visits)[i] == ExtractVenueDetails(visits[i].panel)
    decreases |visits|
  {
    if |visits| > 0 {
      var init := visits[..|visits| - 1];
      ProcessCardsAllKept(init);
      var out := ProcessCards(visits);
      assert out == ProcessCards(init) + [ExtractVenueDetails(visits[|visits| - 1].panel)];
      forall i | 0 <= i < |visits| - 1
        ensures out[i] == ExtractVenueDetails(visits[i].panel)
      {
        assert init[i] == visits[i];
      }
    }
  }

  /** The records `main` saves as written: the cards of
      `all()[:max_results]` are walked, a negative maximum counting from the
      end of the list (see Slicing). */
  function ScrapeDetails(visits: seq<CardVisit>, maxResults: int): (out: seq<Record>)
    ensures 0 <= maxResults ==> |out| <= Min(maxResults, |visits|)
    ensures maxResults < 0 ==> |out| <= Max(0, |visits| + maxResults)
    ensures forall i | 0 <= i < |out| :: out[i] != map[]
    ensures ProcessCards(visits)
         == out + ProcessCards(visits[|Slicing.PyPrefix(visits, maxResults)|..])
  {
    var walked := Slicing.PyPrefix(visits, maxResults);
    assert visits == walked + visits[|walked|..];
    ProcessCardsAppend(walked, visits[|walked|..]);
    ProcessCards(walked)
  }

  /** Cards that all open with details give one record per walked card. */
  lemma ScrapeDetailsAllKept(visits: seq<CardVisit>, maxResults: int)
    requires forall j | 0 <= j < |visits| ::
      visits[j].Opened? && ExtractVenueDetails(visits[j].panel) != map[]
    ensures 0 <= maxResults ==> |ScrapeDetails(visits, maxResults)| == Min(maxResults, |visits|)
    ensures maxResults < 0 ==> |ScrapeDetails(visits, maxResults)| == Max(0, |visits| + maxResults)
  {
    var walked := Slicing.PyPrefix(visits, maxResults);
    assert forall j | 0 <= j < |walked| :: walked[j] == visits[j];
    ProcessCardsAllKept(walked);
  }

  /** With the maximum -1 and three cards that all open with details, two
      records are saved, where a maximum below zero should walk no card. */
  lemma NegativeMaxWalksCards(v: CardVisit)
    requires v.Opened? && ExtractVenueDetails(v.panel) != map[]
    ensures |ScrapeDetails([v, v, v], -1)| == 2
  {
    assert Slicing.PyPrefix([v, v, v], -1) == [v, v];
    ProcessCardsAllKept([v, v]);
  }

  /** The corrected cut: at most `max(max_results, 0)` cards are walked. */
  function ScrapeDetailsCorrected(visits: seq<CardVisit>, maxResults: int): (out: seq<Record>)
    ensures |out| <= Max(maxResults, 0)
    ensures |out| <= |visits|
    ensures forall i | 0 <= i < |out| :: out[i] != map[]
    ensures ProcessCards(visits)
         == out + ProcessCards(visits[Min(Max(maxResults, 0), |visits|)..])
  {
    var walked := Slicing.Truncate(visits, maxResults);
    assert visits == walked + visits[|walked|..];
    ProcessCardsAppend(walked, visits[|walked|..]);
    ProcessCards(walked)
  }

  /** Cards that all open with details give exactly min(max_results, cards)
      records, once the negative bound is clamped. */
  lemma ScrapeDetailsCorrectedAllKept(visits: seq<CardVisit>, maxResults: int)
    requires forall j | 0 <= j < |visits| ::
      visits[j].Opened? && ExtractVenueDetails(visits[j].panel) != map[]
    ensures |ScrapeDetailsCorrected(visits, maxResults)| == Min(Max(maxResults, 0), |visits|)
  {
    var walked := Slicing.Truncate(visits, maxResults);
    assert forall j | 0 <= j < |walked| :: walked[j] == visits[j];
    ProcessCardsAllKept(walked);
  }

  /** When the scroll loop of testdivextract.py stops on the target, exactly
      `max_results` cards are walked. */
  lemma TargetReachedWalksExactlyMax(trace: seq<nat>, visits: seq<CardVisit>, maxResults: int)
    requires 0 <= maxResults
    requires ScrollLoop.Run(trace, maxResults).reason == ScrollLoop.TargetReached
    requires |visits| == trace[ScrollLoop.Run(trace, maxResults).scrolls]
    ensures |Slicing.PyPrefix(visits, maxResults)| == maxResults
  {
  }
}
