/**
 * The search screen `SearchContainer`: results from the search action are
 * converted to display events, and swiping a card moves a carousel index
 * forward, wrapping from the last card back to the first.
 */
module Search {
  import opened Wrappers
  import opened Decimal
  import opened JsParseInt
  import opened Text

  /** Adult and child prices in yen. */
  datatype PriceInfo = PriceInfo(adult: int, child: int)

  /** One search result, as far as the conversion reads it. */
  datatype OutputEvent = OutputEvent(
    sourceUrl: string,
    eventTitle: string,
    eventStartDate: string,
    eventEndDate: string,
    locationName: string,
    priceInfo: PriceInfo,
    ageRestriction: string,
    eventDescription: string)

  /** The display event of the search screen. */
  datatype Event = Event(
    id: string,
    title: string,
    image: string,
    date: string,
    location: string,
    price: string,
    ageRange: string,
    categories: seq<string>,
    description: string)

  /** Every converted event shows this image. */
  const PlaceholderImage: string := "/placeholder.svg"

  const AdultLabel: string := "大人: "
  const ChildLabel: string := ", 子供: "

  /** `大人: ${adult}円, 子供: ${child}円`. */
  function PriceLabel(p: PriceInfo): (s: string)
    ensures |s| > |AdultLabel| && s[..|AdultLabel|] == AdultLabel && s[|s| - 1] == '円'
  {
    AdultLabel + IntToString(p.adult) + "円" + ChildLabel + IntToString(p.child) + "円"
  }

  /** `convertOutputEventToEvent`. */
  function ConvertOutputEventToEvent(o: OutputEvent): (e: Event)
    ensures e.id == o.sourceUrl && e.title == o.eventTitle
    ensures e.location == o.locationName && e.ageRange == o.ageRestriction
    ensures e.description == o.eventDescription
    ensures e.image == PlaceholderImage && e.categories == []
    ensures e.date == o.eventStartDate + " - " + o.eventEndDate
    ensures e.price == PriceLabel(o.priceInfo)
  {
    Event(
      o.sourceUrl,
      o.eventTitle,
      PlaceholderImage,
      o.eventStartDate + " - " + o.eventEndDate,
      o.locationName,
      PriceLabel(o.priceInfo),
      o.ageRestriction,
      [],
      o.eventDescription)
  }

  // ---------------------------------------------------------------------------
  // Reading a price label back

  /** Splits `大人: <a>円, 子供: <c>円` into the texts of its two amounts. */
  function SplitPriceLabel(s: string): Option<(string, string)> {
    if |s| < |AdultLabel| || s[..|AdultLabel|] != AdultLabel then None
    else
      match SplitOnce(s[|AdultLabel|..], '円')
      case None => None
      case Some((a, tail)) =>
        if |tail| < |ChildLabel| + 1 || tail[..|ChildLabel|] != ChildLabel || tail[|tail| - 1] != '円' then None
        else Some((a, tail[|ChildLabel|..|tail| - 1]))
  }

  /** Reads both amounts of a price label with parseInt. */
  function ReadPriceLabel(s: string): Option<PriceInfo> {
    match SplitPriceLabel(s)
    case None => None
    case Some((a, c)) =>
      match (ParseInt(a), ParseInt(c))
      case (Some(adult), Some(child)) => Some(PriceInfo(adult, child))
      case _ => None
  }

  lemma SplitPriceParts(a: string, c: string)
    requires Excludes(a, '円')
    ensures SplitPriceLabel(AdultLabel + a + "円" + ChildLabel + c + "円") == Some((a, c))
  {
    var s := AdultLabel + a + "円" + ChildLabel + c + "円";
    var tail := ChildLabel + c + "円";
    assert s == AdultLabel + (a + ['円'] + tail);
    assert s[..|AdultLabel|] == AdultLabel && s[|AdultLabel|..] == a + ['円'] + tail;
    SplitOnceAt(a, '円', tail);
    assert tail[..|ChildLabel|] == ChildLabel && tail[|ChildLabel|..|tail| - 1] == c;
  }

  /** The price label keeps both amounts: reading it back gives them again. */
  lemma PriceLabelRoundTrip(p: PriceInfo)
    ensures ReadPriceLabel(PriceLabel(p)) == Some(p)
  {
    var a, c := IntToString(p.adult), IntToString(p.child);
    assert SplitPriceLabel(PriceLabel(p)) == Some((a, c)) by {
      IntToStringChars(p.adult);
      assert Excludes(a, '円');
      SplitPriceParts(a, c);
    }
    ParseIntToString(p.adult);
    ParseIntToString(p.child);
  }

  /** Different prices are never shown alike. */
  lemma PriceLabelInjective(p: PriceInfo, q: PriceInfo)
    requires PriceLabel(p) == PriceLabel(q)
    ensures p == q
  {
    PriceLabelRoundTrip(p);
    PriceLabelRoundTrip(q);
  }

  /** The converted event's price shows exactly the result's adult and child prices. */
  lemma ConvertedPriceReadsBack(o: OutputEvent)
    ensures ReadPriceLabel(ConvertOutputEventToEvent(o).price) == Some(o.priceInfo)
  {
    PriceLabelRoundTrip(o.priceInfo);
  }

  // ---------------------------------------------------------------------------
  // Converting a result list

  /** `result.data.map(convertOutputEventToEvent)`. */
  function ConvertAll(os: seq<OutputEvent>): (es: seq<Event>)
    ensures |es| == |os|
    ensures forall i :: 0 <= i < |os| ==> es[i] == ConvertOutputEventToEvent(os[i])
  {
    if os == [] then [] else [ConvertOutputEventToEvent(os[0])] + ConvertAll(os[1..])
  }

  /** Converting a concatenation converts each part in place: order is kept. */
  lemma ConvertAllAppend(a: seq<OutputEvent>, b: seq<OutputEvent>)
    ensures ConvertAll(a + b) == ConvertAll(a) + ConvertAll(b)
  {
    assert |ConvertAll(a + b)| == |ConvertAll(a) + ConvertAll(b)|;
    forall i | 0 <= i < |a + b|
      ensures ConvertAll(a + b)[i] == (ConvertAll(a) + ConvertAll(b))[i]
    {
      if i < |a| {
        assert (a + b)[i] == a[i];
      } else {
        assert (a + b)[i] == b[i - |a|];
      }
    }
  }

  // ---------------------------------------------------------------------------
  // The carousel index

  /** `(prevIndex + 1) % events.length`. */
  function NextIndex(prev: nat, len: nat): (next: nat)
    requires len > 0
    ensures next < len
    ensures prev + 1 < len ==> next == prev + 1
    ensures prev + 1 == len ==> next == 0
  {
    (prev + 1) % len
  }

  /** The index after k swipes from i. */
  function Advance(i: nat, len: nat, k: nat): (j: nat)
    requires len > 0
    ensures j < len || (k == 0 && j == i)
  {
    if k == 0 then i else NextIndex(Advance(i, len, k - 1), len)
  }

  /**
   * Within one lap, k swipes move an index forward by k, wrapping once past
   * the last card: the index after k swipes is (i + k) mod len.
   */
  lemma {:induction false} AdvanceWithinLap(i: nat, len: nat, k: nat)
    requires len > 0 && i < len && k <= len
    ensures Advance(i, len, k) == if i + k < len then i + k else i + k - len
  {
    if k > 0 {
      AdvanceWithinLap(i, len, k - 1);
    }
  }

  /** After as many swipes as there are cards, the carousel is back where it started. */
  lemma FullCycle(i: nat, len: nat)
    requires len > 0 && i < len
    ensures Advance(i, len, len) == i
  {
    AdvanceWithinLap(i, len, len);
  }

  datatype SwipeDirection = SwipeRight | SwipeLeft | SwipeUp | SwipeDown

  class SearchCarousel {
    var searchResults: seq<Event>
    var currentIndex: nat

    /** The first render: no results yet, index 0. */
    constructor()
      ensures searchResults == [] && currentIndex == 0
    {
      searchResults := [];
      currentIndex := 0;
    }

    /** `events.length > 0 ? events[currentIndex] : null`; an index past the end reads undefined. */
    function CurrentEvent(): (e: Option<Event>)
      reads this
      ensures e.Some? <==> currentIndex < |searchResults|
      ensures e.Some? ==> e.value == searchResults[currentIndex]
    {
      if |searchResults| > 0 && currentIndex < |searchResults| then Some(searchResults[currentIndex]) else None
    }

    /**
     * The fetch effect: a result that succeeded with data (`None` otherwise)
     * replaces the list with its conversion.
     */
    method ReceiveSearchResult(result: Option<seq<OutputEvent>>)
      modifies this
      ensures result.Some? ==> searchResults == ConvertAll(result.value)
      ensures result.None? ==> searchResults == old(searchResults)
      ensures currentIndex == old(currentIndex)
    {
      if result.Some? {
        var convertedEvents := ConvertAll(result.value);
        searchResults := convertedEvents;
      }
    }

    /** `handleSwipe`: without a current event nothing happens; otherwise the index advances and wraps. */
    method HandleSwipe(direction: SwipeDirection)
      modifies this
      ensures searchResults == old(searchResults)
      ensures old(CurrentEvent()).None? ==> currentIndex == old(currentIndex)
      ensures old(CurrentEvent()).Some? ==>
        currentIndex == NextIndex(old(currentIndex), |searchResults|)
        && currentIndex < |searchResults|
    {
      if CurrentEvent().None? {
        return;
      }
      currentIndex := (currentIndex + 1) % |searchResults|;
    }
  }

  /** Swiping through three results wraps back to the first. */
  method ThreeCardCycle(a: OutputEvent, b: OutputEvent, c: OutputEvent) returns (index: nat, current: Option<Event>)
    ensures index == 0
    ensures current == Some(ConvertOutputEventToEvent(a))
  {
    var carousel := new SearchCarousel();
    carousel.ReceiveSearchResult(Some([a, b, c]));
    carousel.HandleSwipe(SwipeRight);
    carousel.HandleSwipe(SwipeLeft);
    carousel.HandleSwipe(SwipeDown);
    index := carousel.currentIndex;
    current := carousel.CurrentEvent();
  }
}
