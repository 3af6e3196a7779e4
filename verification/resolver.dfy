/**
 * The location-label resolver: the decision chain `resolveLocationName` applies to a
 * parsed reverse-geocoding record once the lookup has returned. Rules, first match wins:
 *   1. the country (`countryName || countryCode`), unless it is falsy or "N/A";
 *   2. the first `localityInfo.informative` entry whose name holds the whole word "Ocean";
 *   3. the first entry whose name holds Sea, Gulf, Bay, Strait or Channel;
 *   4. `locality`, when it holds Ocean or Sea;
 *   5. the literal "Over the ocean".
 */
module Resolver {
  import opened Wrappers
  import opened Patterns

  /** An `informative` entry; `name` is Some exactly when the entry's name is a string. */
  datatype Entry = Entry(name: Option<string>)

  /**
   * `localityInfo`. `informative` is None when it is absent or not an array; an element
   * is None when it is null or otherwise falsy.
   */
  datatype LocalityInfo = LocalityInfo(informative: Option<seq<Option<Entry>>>)

  /** The parsed reverse-geocoding response; an absent or null field is None. */
  datatype GeocodeResult = GeocodeResult(
    countryName: Option<string>,
    countryCode: Option<string>,
    locality: Option<string>,
    localityInfo: Option<LocalityInfo>)

  const NotAvailable := "N/A"
  const OverTheOcean := "Over the ocean"

  /** JavaScript truthiness of an optional string: present and not "". */
  predicate Truthy(v: Option<string>) {
    v.Some? && v.value != ""
  }

  /**
   * `geo.countryName || geo.countryCode`: the name when it is truthy, otherwise the code;
   * truthy exactly when one of the two is.
   */
  function Country(g: GeocodeResult): (c: Option<string>)
    ensures Truthy(g.countryName) ==> c == g.countryName
    ensures !Truthy(g.countryName) ==> c == g.countryCode
    ensures Truthy(c) <==> Truthy(g.countryName) || Truthy(g.countryCode)
  {
    if Truthy(g.countryName) then g.countryName else g.countryCode
  }

  /**
   * `country && country !== "N/A"`: rule 1 fires. A truthy "N/A" name is chosen by `||`
   * and then rejected, so the code is consulted only when the name is falsy.
   */
  predicate CountryRuleApplies(g: GeocodeResult): (b: bool)
    ensures b <==>
      (Truthy(g.countryName) && g.countryName.value != NotAvailable) ||
      (!Truthy(g.countryName) && Truthy(g.countryCode) && g.countryCode.value != NotAvailable)
  {
    Truthy(Country(g)) && Country(g).value != NotAvailable
  }

  /**
   * `geo.localityInfo && geo.localityInfo.informative`, then
   * `Array.isArray(informative) ? informative : []`: the `informative` array when there is
   * one, and otherwise nothing to scan.
   */
  function Candidates(g: GeocodeResult): (entries: seq<Option<Entry>>)
    ensures g.localityInfo.Some? && g.localityInfo.value.informative.Some? ==>
      entries == g.localityInfo.value.informative.value
    ensures g.localityInfo.None? || g.localityInfo.value.informative.None? ==> entries == []
  {
    match g.localityInfo
    case Some(LocalityInfo(Some(entries))) => entries
    case _ => []
  }

  predicate HasStringName(e: Option<Entry>) {
    e.Some? && e.value.name.Some?
  }

  function NameOf(e: Option<Entry>): string
    requires HasStringName(e)
  {
    e.value.name.value
  }

  /** `entry && typeof entry.name === "string" && /\bOcean\b/i.test(entry.name)` */
  predicate IsOceanEntry(e: Option<Entry>): (b: bool)
    ensures b <==> HasStringName(e) && exists k :: WordOccursAt(NameOf(e), k, "ocean")
  {
    HasStringName(e) && OceanWord(NameOf(e))
  }

  /** `entry && typeof entry.name === "string" && /(Sea|Gulf|Bay|Strait|Channel)/i.test(entry.name)` */
  predicate IsMarineEntry(e: Option<Entry>): (b: bool)
    ensures b <==> HasStringName(e) && exists w :: w in MarineKeywords && Contains(NameOf(e), w)
  {
    HasStringName(e) && MarineName(NameOf(e))
  }

  /** `Array.prototype.find`: the index of the first accepted element, scanning in array order. */
  function FindFirst<T>(xs: seq<T>, accepts: T -> bool): (r: Option<nat>)
    ensures r.Some? ==> r.value < |xs| && accepts(xs[r.value])
    ensures r.Some? ==> forall j :: 0 <= j < r.value ==> !accepts(xs[j])
    ensures r.None? ==> forall j :: 0 <= j < |xs| ==> !accepts(xs[j])
  {
    if xs == [] then None
    else if accepts(xs[0]) then Some(0)
    else
      match FindFirst(xs[1..], accepts)
      case None => None
      case Some(k) => Some(k + 1)
  }

  /**
   * The label `resolveLocationName` returns for a parsed record. It is defined for every
   * record, and it is always one of the record's own strings -- the country, an entry's
   * name, locality -- or the fixed fallback; and it is never "": `country &&` rejects an
   * empty country, and the later rules never give "".
   */
  function ResolveLocationName(g: GeocodeResult): (name: string)
    ensures name == OverTheOcean || Some(name) == g.countryName || Some(name) == g.countryCode ||
      Some(name) == g.locality ||
      exists i :: 0 <= i < |Candidates(g)| && Candidates(g)[i] == Some(Entry(Some(name)))
    ensures name != ""
  {
    if CountryRuleApplies(g) then Country(g).value
    else WaterName(Candidates(g), g.locality)
  }

  /**
   * Rules 2 to 5, once the country rule has not fired: an Ocean entry, a marine entry,
   * the locality, the fallback. The name is never "", and it is one of the candidates'
   * names, the locality or the fallback.
   */
  function WaterName(candidates: seq<Option<Entry>>, locality: Option<string>): (name: string)
    ensures name == OverTheOcean || Some(name) == locality ||
      exists i :: 0 <= i < |candidates| && candidates[i] == Some(Entry(Some(name)))
    ensures name != ""
  {
    var ocean := FindFirst(candidates, IsOceanEntry);
    // `if (ocean && ocean.name)`
    if ocean.Some? && NameOf(candidates[ocean.value]) != "" then NameOf(candidates[ocean.value])
    else
      var marine := FindFirst(candidates, IsMarineEntry);
      if marine.Some? && NameOf(candidates[marine.value]) != "" then NameOf(candidates[marine.value])
      else if locality.Some? && OceanOrSea(locality.value) then
        MatchedTextIsNonEmpty(locality.value);
        locality.value
      else OverTheOcean
  }

  /** The same record with the given `informative` array. */
  function WithCandidates(g: GeocodeResult, entries: seq<Option<Entry>>): (g': GeocodeResult)
    ensures Candidates(g') == entries
  {
    g.(localityInfo := Some(LocalityInfo(Some(entries))))
  }

  // ---------------------------------------------------------------------------
  // Array.prototype.find

  /** An accepted element with no accepted element before it is the one `find` returns. */
  lemma FindFirstIsFirstMatch<T>(xs: seq<T>, accepts: T -> bool, i: nat)
    requires i < |xs| && accepts(xs[i])
    requires forall j :: 0 <= j < i ==> !accepts(xs[j])
    ensures FindFirst(xs, accepts) == Some(i)
  {
  }

  /** `find` over a concatenation: a match in the first part, else a match in the second. */
  lemma FindFirstAppend<T>(a: seq<T>, b: seq<T>, accepts: T -> bool)
    ensures FindFirst(a + b, accepts) ==
      match FindFirst(a, accepts)
      case Some(i) => Some(i)
      case None =>
        match FindFirst(b, accepts)
        case None => None
        case Some(i) => Some(|a| + i)
  {
    match FindFirst(a, accepts)
    case Some(i) =>
      FindFirstIsFirstMatch(a + b, accepts, i);
    case None =>
      match FindFirst(b, accepts)
      case None =>
        forall j | 0 <= j < |a + b| ensures !accepts((a + b)[j]) {
          if j >= |a| { assert (a + b)[j] == b[j - |a|]; }
        }
      case Some(i) =>
        forall j | 0 <= j < |a| + i ensures !accepts((a + b)[j]) {
          if j >= |a| { assert (a + b)[j] == b[j - |a|]; }
        }
        FindFirstIsFirstMatch(a + b, accepts, |a| + i);
  }

  /** An element `find` rejects does not change which element it picks, wherever it is inserted. */
  lemma FindFirstSkipsRejected<T>(pre: seq<T>, e: T, post: seq<T>, accepts: T -> bool)
    requires !accepts(e)
    ensures FindFirst(pre + [e] + post, accepts) ==
      match FindFirst(pre + post, accepts)
      case None => None
      case Some(i) => Some(if i < |pre| then i else i + 1)
    ensures FindFirst(pre + post, accepts).Some? ==>
      (pre + [e] + post)[FindFirst(pre + [e] + post, accepts).value] == (pre + post)[FindFirst(pre + post, accepts).value]
  {
    var xs, longer := pre + post, pre + [e] + post;
    // Where each element of `xs` sits in `longer`.
    forall j | 0 <= j < |xs| ensures longer[if j < |pre| then j else j + 1] == xs[j] {
      if j >= |pre| { assert xs[j] == post[j - |pre|]; }
    }
    match FindFirst(xs, accepts)
    case None =>
      forall j | 0 <= j < |longer| && j != |pre| ensures !accepts(longer[j]) {
        var src := if j < |pre| then j else j - 1;
        assert longer[j] == xs[src];
      }
    case Some(i) =>
      var i' := if i < |pre| then i else i + 1;
      forall j | 0 <= j < i' && j != |pre| ensures !accepts(longer[j]) {
        var src := if j < |pre| then j else j - 1;
        assert longer[j] == xs[src];
      }
      FindFirstIsFirstMatch(longer, accepts, i');
  }

  // ---------------------------------------------------------------------------
  // Rule 1: the country

  /** A non-empty countryName other than "N/A" is the label, whatever else the record holds. */
  lemma CountryNameWins(g: GeocodeResult)
    requires Truthy(g.countryName) && g.countryName.value != NotAvailable
    ensures ResolveLocationName(g) == g.countryName.value
  {
  }

  /** Without a non-empty countryName, a non-empty countryCode other than "N/A" is the label. */
  lemma CountryCodeWhenNameMissing(g: GeocodeResult)
    requires !Truthy(g.countryName)
    requires Truthy(g.countryCode) && g.countryCode.value != NotAvailable
    ensures ResolveLocationName(g) == g.countryCode.value
  {
  }

  /**
   * A countryName of exactly "N/A" is truthy, so `||` picks it and countryCode is never read:
   * the label is the one the water rules give when neither country field is present.
   */
  lemma NameSentinelIgnoresCode(g: GeocodeResult, code: Option<string>)
    requires g.countryName == Some(NotAvailable)
    ensures ResolveLocationName(g) == ResolveLocationName(g.(countryCode := code))
    ensures ResolveLocationName(g) == ResolveLocationName(g.(countryName := None, countryCode := None))
  {
  }

  /** When rule 1 does not fire, the country fields play no part in the label. */
  lemma CountryRuleExactly(g: GeocodeResult)
    ensures !CountryRuleApplies(g) ==>
      ResolveLocationName(g) == ResolveLocationName(g.(countryName := None, countryCode := None))
  {
  }

  // ---------------------------------------------------------------------------
  // Rules 2 and 3: the informative entries

  /** `ocean.name` / `marine.name` is never "", so the `&& .name` guards never reject a match. */
  lemma MatchedNameIsNonEmpty(e: Option<Entry>)
    requires IsOceanEntry(e) || IsMarineEntry(e)
    ensures NameOf(e) != ""
  {
    MatchedTextIsNonEmpty(NameOf(e));
  }

  /**
   * Without a country, the first entry naming an Ocean as a whole word is the label, even
   * when an entry matching the marine pattern comes before it.
   */
  lemma FirstOceanEntryWins(g: GeocodeResult, i: nat)
    requires !CountryRuleApplies(g)
    requires i < |Candidates(g)| && IsOceanEntry(Candidates(g)[i])
    requires forall j :: 0 <= j < i ==> !IsOceanEntry(Candidates(g)[j])
    ensures ResolveLocationName(g) == NameOf(Candidates(g)[i])
  {
    FindFirstIsFirstMatch(Candidates(g), IsOceanEntry, i);
    MatchedNameIsNonEmpty(Candidates(g)[i]);
  }

  /** Without a country or an Ocean entry, the first entry matching the marine pattern is the label. */
  lemma FirstMarineEntryWins(g: GeocodeResult, i: nat)
    requires !CountryRuleApplies(g)
    requires forall j :: 0 <= j < |Candidates(g)| ==> !IsOceanEntry(Candidates(g)[j])
    requires i < |Candidates(g)| && IsMarineEntry(Candidates(g)[i])
    requires forall j :: 0 <= j < i ==> !IsMarineEntry(Candidates(g)[j])
    ensures ResolveLocationName(g) == NameOf(Candidates(g)[i])
  {
    FindFirstIsFirstMatch(Candidates(g), IsMarineEntry, i);
    MatchedNameIsNonEmpty(Candidates(g)[i]);
  }

  /** A missing `localityInfo`, or an `informative` that is not an array, acts as an empty list. */
  lemma MissingInformativeActsAsEmpty(g: GeocodeResult)
    requires g.localityInfo.None? || g.localityInfo.value.informative.None?
    ensures ResolveLocationName(g) == ResolveLocationName(WithCandidates(g, []))
  {
  }

  /** Null entries and entries whose name is not a string are skipped by both scans. */
  lemma UnnamedEntryIsSkipped(g: GeocodeResult, pre: seq<Option<Entry>>, e: Option<Entry>, post: seq<Option<Entry>>)
    requires !HasStringName(e)
    ensures ResolveLocationName(WithCandidates(g, pre + [e] + post)) ==
      ResolveLocationName(WithCandidates(g, pre + post))
  {
    FindFirstSkipsRejected(pre, e, post, IsOceanEntry);
    FindFirstSkipsRejected(pre, e, post, IsMarineEntry);
    SameFindsSameWaterName(pre + post, pre + [e] + post, g.locality);
  }

  /** WaterName depends on the candidates only through the entries the two scans pick. */
  lemma SameFindsSameWaterName(xs: seq<Option<Entry>>, ys: seq<Option<Entry>>, locality: Option<string>)
    requires FindFirst(xs, IsOceanEntry).None? <==> FindFirst(ys, IsOceanEntry).None?
    requires FindFirst(xs, IsOceanEntry).Some? ==>
      xs[FindFirst(xs, IsOceanEntry).value] == ys[FindFirst(ys, IsOceanEntry).value]
    requires FindFirst(xs, IsMarineEntry).None? <==> FindFirst(ys, IsMarineEntry).None?
    requires FindFirst(xs, IsMarineEntry).Some? ==>
      xs[FindFirst(xs, IsMarineEntry).value] == ys[FindFirst(ys, IsMarineEntry).value]
    ensures WaterName(xs, locality) == WaterName(ys, locality)
  {
  }

  // ---------------------------------------------------------------------------
  // Rules 4 and 5: locality, then the fixed fallback

  /**
   * A response with none of the fields read -- a JSON number, string or boolean body reads
   * every field as `undefined` -- gets the fixed fallback.
   */
  lemma EmptyRecordIsOverTheOcean()
    ensures ResolveLocationName(GeocodeResult(None, None, None, None)) == OverTheOcean
  {
  }

  /** When no earlier rule applies, the label is `locality` if it holds Ocean or Sea, else "Over the ocean". */
  lemma LocalityOrFallback(g: GeocodeResult)
    requires !CountryRuleApplies(g)
    requires forall j :: 0 <= j < |Candidates(g)| ==>
      !IsOceanEntry(Candidates(g)[j]) && !IsMarineEntry(Candidates(g)[j])
    ensures g.locality.Some? && (Contains(g.locality.value, "ocean") || Contains(g.locality.value, "sea")) ==>
      ResolveLocationName(g) == g.locality.value
    ensures !(g.locality.Some? && (Contains(g.locality.value, "ocean") || Contains(g.locality.value, "sea"))) ==>
      ResolveLocationName(g) == OverTheOcean
  {
  }

  // ---------------------------------------------------------------------------
  // Worked cases

  /** A valid countryName beats an Ocean entry. */
  lemma CountryBeatsOcean()
    ensures ResolveLocationName(GeocodeResult(Some("Brazil"), Some("BR"), None,
      Some(LocalityInfo(Some([Some(Entry(Some("South Atlantic Ocean")))]))))) == "Brazil"
  {
  }

  /** The Ocean entry beats an earlier Sea entry. */
  lemma OceanBeatsEarlierSea()
    ensures ResolveLocationName(GeocodeResult(None, None, None, Some(LocalityInfo(Some(
      [Some(Entry(Some("Sargasso Sea"))), Some(Entry(Some("South Atlantic Ocean")))]))))) ==
      "South Atlantic Ocean"
  {
    var g := GeocodeResult(None, None, None, Some(LocalityInfo(Some(
      [Some(Entry(Some("Sargasso Sea"))), Some(Entry(Some("South Atlantic Ocean")))]))));
    OceanName();
    SeaName();
    FirstOceanEntryWins(g, 1);
  }

  /** With no Ocean entry, a Bay entry is the label. */
  lemma BayIsAMarineFeature()
    ensures ResolveLocationName(GeocodeResult(None, None, None,
      Some(LocalityInfo(Some([Some(Entry(Some("Bay of Bengal")))]))))) == "Bay of Bengal"
  {
    var g := GeocodeResult(None, None, None, Some(LocalityInfo(Some([Some(Entry(Some("Bay of Bengal")))]))));
    BayName();
    FirstMarineEntryWins(g, 0);
  }

  /** "N/A" as countryName hides a valid countryCode. */
  lemma SentinelNameHidesCode()
    ensures ResolveLocationName(GeocodeResult(Some("N/A"), Some("FR"), None, None)) == OverTheOcean
  {
  }
}
