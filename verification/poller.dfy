/**
 * One poll cycle (`fetchISSPosition`) as a function from its two outcomes to the writes it
 * makes on the display. Coordinates are an opaque type parameter C: their decimal
 * formatting is not modelled.
 *
 * The cycle: fetch the position; render the coordinates with a "Resolving..." label;
 * resolve the label and write it, or "Unknown" when resolution throws. A failed fetch,
 * or a render that throws because a coordinate is missing, replaces the whole display
 * with a fixed error message.
 */
module Poller {
  import opened Wrappers
  import Resolver

  const Placeholder := "Resolving..."
  const UnknownLabel := "Unknown"
  const FetchError := "Error fetching ISS position."

  /** What the position element shows: plain text, or coordinates with a `#country` label span. */
  datatype Display<C> = Text(text: string) | Coordinates(latitude: C, longitude: C, location: string)

  /** The three writes a cycle makes on the display. */
  datatype Write<C> =
    | Render(latitude: C, longitude: C)  // `renderPosition`: innerHTML with a fresh label span
    | SetLocation(location: string)      // `countryEl.textContent = ...`, when the span exists
    | SetText(text: string)              // `positionEl.textContent = ...`

  /**
   * The outcome of the position request: failed (network error, bad JSON), or the
   * record's `latitude` and `longitude`, each None when missing or not a number.
   */
  datatype PositionFetch<C> = FetchFailed | Fetched(latitude: Option<C>, longitude: Option<C>)

  /** The outcome of the reverse-geocoding request: failed, or the parsed record. */
  datatype Lookup = LookupFailed | LookedUp(geo: Resolver.GeocodeResult)

  /**
   * One write: `innerHTML` and `textContent` on the position element replace all it shows;
   * the label write changes only the label, and does nothing when there is no label span.
   */
  function ApplyWrite<C>(d: Display<C>, w: Write<C>): (d': Display<C>)
    ensures w.Render? ==> d' == Coordinates(w.latitude, w.longitude, Placeholder)
    ensures w.SetText? ==> d' == Text(w.text)
    ensures w.SetLocation? && d.Coordinates? ==>
      d'.Coordinates? && d'.latitude == d.latitude && d'.longitude == d.longitude && d'.location == w.location
    ensures w.SetLocation? && !d.Coordinates? ==> d' == d
  {
    match w
    case Render(lat, lon) => Coordinates(lat, lon, Placeholder)
    case SetLocation(location) => if d.Coordinates? then d.(location := location) else d
    case SetText(text) => Text(text)
  }

  /** The display after each write, in order. */
  function Displays<C>(d: Display<C>, writes: seq<Write<C>>): (ds: seq<Display<C>>)
    ensures |ds| == |writes|
    decreases |writes|
  {
    if writes == [] then []
    else
      var next := ApplyWrite(d, writes[0]);
      [next] + Displays(next, writes[1..])
  }

  /** The display once every write is done. */
  function Apply<C>(d: Display<C>, writes: seq<Write<C>>): Display<C>
    decreases |writes|
  {
    if writes == [] then d else Apply(ApplyWrite(d, writes[0]), writes[1..])
  }

  /** The label the inner `try` writes: the resolved name, or "Unknown" when resolution throws. */
  function LocationFor(lookup: Lookup): (location: string)
    ensures location != ""
    ensures lookup.LookupFailed? ==> location == UnknownLabel
  {
    match lookup
    case LookupFailed => UnknownLabel
    case LookedUp(geo) => Resolver.ResolveLocationName(geo)
  }

  /**
   * The writes of one cycle, in order: the render and then the label when both coordinates
   * are there, and otherwise the error message alone (the outer `catch`).
   */
  function CycleWrites<C>(fetch: PositionFetch<C>, lookup: Lookup): (ws: seq<Write<C>>)
    ensures |ws| == (if Renders(fetch) then 2 else 1)
    ensures Renders(fetch) ==>
      ws[0] == Render(fetch.latitude.value, fetch.longitude.value) && ws[1] == SetLocation(LocationFor(lookup))
    ensures !Renders(fetch) ==> ws == [SetText(FetchError)]
  {
    match fetch
    case Fetched(Some(lat), Some(lon)) => [Render(lat, lon), SetLocation(LocationFor(lookup))]
    case _ => [SetText(FetchError)]
  }

  /** Whether `renderPosition` gets both coordinates and so does not throw. */
  predicate Renders<C>(fetch: PositionFetch<C>) {
    fetch.Fetched? && fetch.latitude.Some? && fetch.longitude.Some?
  }

  /** The display at the end of one cycle that started from `before`. */
  function RunCycle<C>(before: Display<C>, fetch: PositionFetch<C>, lookup: Lookup): (after: Display<C>)
    ensures after.Coordinates? <==> Renders(fetch)
    ensures after.Coordinates? ==>
      after.latitude == fetch.latitude.value && after.longitude == fetch.longitude.value && after.location != ""
    ensures after.Text? ==> after.text == FetchError
  {
    ApplyCycle(before, fetch, lookup);
    Apply(before, CycleWrites(fetch, lookup))
  }

  /** Applying the writes of a cycle one after the other. */
  lemma ApplyCycle<C>(d: Display<C>, fetch: PositionFetch<C>, lookup: Lookup)
    ensures var ws := CycleWrites(fetch, lookup);
      Apply(d, ws) ==
        if |ws| == 1 then ApplyWrite(d, ws[0]) else ApplyWrite(ApplyWrite(d, ws[0]), ws[1])
  {
    var ws := CycleWrites(fetch, lookup);
    var d1 := ApplyWrite(d, ws[0]);
    assert Apply(d, ws) == Apply(d1, ws[1..]);
    if |ws| == 2 {
      assert ws[1..][0] == ws[1] && ws[1..][1..] == [];
      assert Apply(d1, ws[1..]) == Apply(ApplyWrite(d1, ws[1]), []);
    } else {
      assert ws[1..] == [];
    }
  }

  /** The last of the successive displays is the final display. */
  lemma {:induction false} ApplyIsLastDisplay<C>(d: Display<C>, writes: seq<Write<C>>)
    requires writes != []
    ensures Apply(d, writes) == Displays(d, writes)[|writes| - 1]
    decreases |writes|
  {
    if |writes| > 1 {
      ApplyIsLastDisplay(ApplyWrite(d, writes[0]), writes[1..]);
    }
  }

  /**
   * A failed fetch, or a record missing a coordinate, ends the cycle on the error message
   * alone, whatever the display showed before.
   */
  lemma PositionFailureShowsError<C>(before: Display<C>, fetch: PositionFetch<C>, lookup: Lookup)
    requires !Renders(fetch)
    ensures RunCycle(before, fetch, lookup) == Text(FetchError)
  {
    ApplyCycle(before, fetch, lookup);
  }

  /** A failed resolution leaves the coordinates on screen and labels them "Unknown". */
  lemma ResolutionFailureKeepsCoordinates<C>(before: Display<C>, lat: C, lon: C)
    ensures RunCycle(before, Fetched(Some(lat), Some(lon)), LookupFailed) == Coordinates(lat, lon, UnknownLabel)
  {
    ApplyCycle(before, Fetched(Some(lat), Some(lon)), LookupFailed);
  }

  /** A successful resolution labels the coordinates with the resolver's answer. */
  lemma ResolvedLabelShown<C>(before: Display<C>, lat: C, lon: C, geo: Resolver.GeocodeResult)
    ensures RunCycle(before, Fetched(Some(lat), Some(lon)), LookedUp(geo)) ==
      Coordinates(lat, lon, Resolver.ResolveLocationName(geo))
  {
    ApplyCycle(before, Fetched(Some(lat), Some(lon)), LookedUp(geo));
  }

  /**
   * Once rendered, the coordinates are never taken back within the cycle: every display
   * from the first write on shows them, first with the placeholder label; and the cycle
   * never ends on the error message.
   */
  lemma CoordinatesStayDuringCycle<C>(before: Display<C>, fetch: PositionFetch<C>, lookup: Lookup)
    requires Renders(fetch)
    ensures var ds := Displays(before, CycleWrites(fetch, lookup));
      |ds| == 2 && ds[0] == Coordinates(fetch.latitude.value, fetch.longitude.value, Placeholder) &&
      forall k :: 0 <= k < |ds| ==>
        ds[k].Coordinates? && ds[k].latitude == fetch.latitude.value && ds[k].longitude == fetch.longitude.value
    ensures RunCycle(before, fetch, lookup).Coordinates?
  {
    var writes := CycleWrites(fetch, lookup);
    ApplyIsLastDisplay(before, writes);
  }

  /** What a cycle leaves on screen does not depend on what the previous cycle left. */
  lemma CycleIgnoresPriorDisplay<C>(before: Display<C>, before': Display<C>, fetch: PositionFetch<C>, lookup: Lookup)
    ensures RunCycle(before, fetch, lookup) == RunCycle(before', fetch, lookup)
  {
    ApplyCycle(before, fetch, lookup);
    ApplyCycle(before', fetch, lookup);
  }
}
