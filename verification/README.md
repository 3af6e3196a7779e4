# ISS tracker: location-label resolver and poll cycle

A model of the logic of a small browser page that polls the position of the International
Space Station every three seconds, shows its coordinates and labels them with a place name
obtained from a reverse-geocoding service.

- `patterns.dfy` (module `Patterns`): the three fixed case-insensitive regular expressions the
  resolver uses — `/\bOcean\b/i`, `/(Sea|Gulf|Bay|Strait|Channel)/i` and `/Ocean|Sea/i` — as
  executable scans, each tied by its contract to a declarative reference definition
  ("the lower-cased keyword occurs at some position", with `\b` on both sides for the
  whole-word pattern). None of the patterns has the `u` flag, so case folding only ever
  maps ASCII letters onto ASCII letters and `\w` is exactly `[A-Za-z0-9_]`; the model is
  exact for these three patterns.
- `resolver.dfy` (module `Resolver`): `resolveLocationName` after its lookup has returned —
  the parsed record (`GeocodeResult`) and the ordered, first-match-wins chain: the country
  (`countryName || countryCode`, rejected when falsy or `"N/A"`), the first `informative`
  entry naming an Ocean as a whole word, the first entry naming a sea-class feature, the
  `locality` when it holds Ocean or Sea, and the literal `"Over the ocean"`.
  `Array.prototype.find` is `FindFirst`, specified as "first accepted entry in array order".
- `poller.dfy` (module `Poller`): one cycle of `fetchISSPosition` as a function from its two
  outcomes (position fetch, location lookup) to the writes it makes on the display, and the
  display they leave. Coordinates are an opaque type parameter.
- `wrappers.dfy` (module `Wrappers`): `Option`, for JSON fields that are absent, null or of
  another type.

JavaScript details kept as the code has them:

- `||` uses truthiness: an empty `countryName` falls through to `countryCode`, while a
  `countryName` of `"N/A"` is truthy, is chosen, is then rejected, and `countryCode` is never
  read (`NameSentinelIgnoresCode`, `SentinelNameHidesCode`).
- The `&& ocean.name` / `&& marine.name` guards are modelled; `MatchedNameIsNonEmpty` shows
  they never reject a match.
- `find` scans in array order; null entries and entries whose name is not a string are skipped.

## Model

| member | source | states |
|---|---|---|
| Patterns.SearchFromFindsMatch | js/main.js:27 | the scan a regular-expression test makes over start positions from `i` on succeeds exactly when the keyword occurs (ignoring ASCII case, and with `\b` on both sides when whole-word) at some position from `i` on |
| Patterns.MatchesAtIsOccurrence | js/main.js:27 | the character-by-character comparison succeeds exactly when the lower-cased keyword occurs at that position |
| Patterns.OceanWord | js/main.js:27 | `/\bOcean\b/i` accepts a text exactly when "ocean" occurs in it, ignoring ASCII case, with a word boundary before and after |
| Patterns.MarineName | js/main.js:33 | the marine pattern (Sea, Gulf, Bay, Strait or Channel, case-insensitive) accepts a text exactly when one of the five keywords occurs in it as a plain substring, ignoring ASCII case |
| Patterns.OceanOrSea | js/main.js:38 | the locality pattern (Ocean or Sea, case-insensitive) accepts a text exactly when "ocean" or "sea" occurs in it as a plain substring, ignoring ASCII case |
| Patterns.Search | js/main.js:33-38 | the plain (not whole-word) case-insensitive test for one keyword accepts a text exactly when the keyword occurs in it, ignoring ASCII case |
| Patterns.MatchedTextIsNonEmpty | js/main.js:29-35 | any text the patterns accept is at least as long as its keyword, so never empty |
| Patterns.SubstringsMatchInsideWords | js/main.js:33-38 | the substring patterns fire inside longer words: "Seattle", "Bayonne", "Oceania" |
| Patterns.OceanMustBeWholeWord | js/main.js:27 | `\b` keeps the ocean pattern from matching inside "Oceania" |
| Patterns.UnderscoreIsNoBoundary | js/main.js:27 | `_` is a word character, so "Pacific_Ocean" does not hold the whole word Ocean |
| Patterns.OceanName | js/main.js:27 | "South Atlantic Ocean" passes the ocean test |
| Patterns.SeaName | js/main.js:27-33 | "Sargasso Sea" fails the ocean test and passes the marine test |
| Patterns.BayName | js/main.js:27-33 | "Bay of Bengal" fails the ocean test and passes the marine test |
| Resolver.Country | js/main.js:18 | the country expression (name, or else code) is the name when the name is truthy and the code otherwise, and is truthy exactly when one of the two is |
| Resolver.CountryRuleApplies | js/main.js:19 | the country rule fires exactly when the name is truthy and not "N/A", or the name is falsy and the code is truthy and not "N/A" |
| Resolver.Candidates | js/main.js:22-23 | the entries scanned are the `informative` array when `localityInfo` holds one, and none otherwise; `Resolver.MissingInformativeActsAsEmpty` proves what this means for the label |
| Resolver.IsOceanEntry | js/main.js:27 | the ocean callback accepts exactly a non-null entry with a string name holding the whole word Ocean, ignoring ASCII case |
| Resolver.IsMarineEntry | js/main.js:33 | the marine callback accepts exactly a non-null entry with a string name holding one of Sea, Gulf, Bay, Strait, Channel, ignoring ASCII case |
| Resolver.FindFirst | js/main.js:26-28 | `find` returns the index of an accepted entry with no accepted entry before it, and nothing only when no entry is accepted |
| Resolver.ResolveLocationName | js/main.js:18-43 | the resolver is total; its label is always countryName, countryCode, locality, an `informative` entry's name or "Over the ocean", and is never "" |
| Resolver.WaterName | js/main.js:21-43 | once the country rule has not fired, the label is an entry's name, the locality or the fallback, and never "" |
| Resolver.FindFirstIsFirstMatch | js/main.js:26-28 | an accepted entry with no accepted entry before it is exactly the one `find` returns |
| Resolver.FindFirstAppend | js/main.js:26-28 | `find` over a concatenation returns a match in the first part if there is one, and otherwise a match in the second part, shifted by the first part's length |
| Resolver.FindFirstSkipsRejected | js/main.js:26-28 | inserting an element `find` rejects anywhere in the array leaves `find` picking the same element, its index shifted past the insertion point |
| Resolver.SameFindsSameWaterName | js/main.js:21-43 | the water rules depend on the candidate list only through the entries the two scans pick |
| Resolver.CountryNameWins | js/main.js:18-19 | a non-empty countryName other than "N/A" is the label, whatever the other fields hold |
| Resolver.CountryCodeWhenNameMissing | js/main.js:18-19 | with countryName absent or empty, a non-empty countryCode other than "N/A" is the label |
| Resolver.NameSentinelIgnoresCode | js/main.js:18-19 | with countryName exactly "N/A", the label does not depend on countryCode and equals the label with both country fields absent |
| Resolver.CountryRuleExactly | js/main.js:18-19 | when the country rule does not fire, the country fields do not affect the label |
| Resolver.MatchedNameIsNonEmpty | js/main.js:29-35 | the name of an entry either scan accepts is non-empty, so the `&& .name` guards never block a match |
| Resolver.FirstOceanEntryWins | js/main.js:26-29 | without a country, the first entry whose name holds the whole word Ocean is the label, even if a marine entry comes earlier |
| Resolver.FirstMarineEntryWins | js/main.js:32-35 | without a country or an Ocean entry, the first entry holding Sea, Gulf, Bay, Strait or Channel is the label |
| Resolver.MissingInformativeActsAsEmpty | js/main.js:22-23 | a missing `localityInfo`, or an `informative` that is not an array, gives the same label as an empty array |
| Resolver.UnnamedEntryIsSkipped | js/main.js:26-35 | inserting a null entry, or one whose name is not a string, anywhere in `informative` does not change the label |
| Resolver.EmptyRecordIsOverTheOcean | js/main.js:18-43 | a record with none of the fields read, as a JSON number, string or boolean body gives, is labelled "Over the ocean" |
| Resolver.LocalityOrFallback | js/main.js:38-43 | when no earlier rule applies, the label is `locality` if it holds Ocean or Sea (ignoring case), and otherwise exactly "Over the ocean" |
| Resolver.CountryBeatsOcean | js/main.js:18-19 | a valid country name wins over an Ocean entry |
| Resolver.OceanBeatsEarlierSea | js/main.js:25-29 | `[Sargasso Sea, South Atlantic Ocean]` without a country gives "South Atlantic Ocean" |
| Resolver.BayIsAMarineFeature | js/main.js:31-35 | `[Bay of Bengal]` without a country gives "Bay of Bengal" |
| Resolver.SentinelNameHidesCode | js/main.js:18-19 | countryName "N/A" with countryCode "FR" and nothing else gives "Over the ocean" |
| Poller.ApplyWrite | js/main.js:6-67 | `renderPosition` replaces the element with the coordinates and the "Resolving..." label; a label write changes only the label and does nothing without a label span; the error write replaces everything with the text; `Poller.RunCycle`, `Poller.CycleIgnoresPriorDisplay` and `Poller.CoordinatesStayDuringCycle` state what these writes give over a cycle |
| Poller.LocationFor | js/main.js:58-65 | the label written is never ""; a failed lookup writes "Unknown" |
| Poller.CycleWrites | js/main.js:47-69 | a cycle with both coordinates renders them and then writes the label; otherwise it writes the error message alone; the resulting display is stated by `Poller.RunCycle`, `Poller.ResolvedLabelShown`, `Poller.ResolutionFailureKeepsCoordinates` and `Poller.PositionFailureShowsError` |
| Poller.RunCycle | js/main.js:47-69 | a cycle ends showing coordinates exactly when both coordinates were fetched, then with the fetched coordinates and a non-empty label; otherwise it ends on the error message |
| Poller.PositionFailureShowsError | js/main.js:66-67 | a failed position fetch, or a record missing a coordinate (so `renderPosition` throws), ends the cycle on "Error fetching ISS position." alone, whatever was shown before |
| Poller.ResolutionFailureKeepsCoordinates | js/main.js:62-64 | when the position fetch succeeds and resolution fails, the coordinates stay and the label becomes "Unknown" |
| Poller.ResolvedLabelShown | js/main.js:58-61 | when both succeed, the coordinates are labelled with the resolver's answer |
| Poller.CoordinatesStayDuringCycle | js/main.js:54-64 | after a successful render, every display of the cycle shows the fetched coordinates, the first with the "Resolving..." placeholder, and the cycle never ends on the error message |
| Poller.CycleIgnoresPriorDisplay | js/main.js:47-69 | what a cycle leaves on screen does not depend on what the previous cycle left |

## Left out

- The HTTP requests and JSON parsing (js/main.js:14-16, 49-50): external I/O. The resolver starts
  from the parsed record; the poll cycle takes the two requests' outcomes as parameters.
- The construction of the geocoding URL from the coordinates (js/main.js:14): I/O plumbing and
  float-to-string conversion.
- The `toFixed(4)` formatting in `renderPosition` (js/main.js:5-9): floating-point formatting.
  Coordinates are an opaque type parameter; a missing or non-numeric coordinate, on which
  `toFixed` throws, is the `None` case.
- The DOM itself (`getElementById`, `innerHTML`, `textContent`, js/main.js:2, 6, 60-64, 67): the
  display is the value `Poller.Display`, and the three kinds of write are `Poller.Write`. The page's
  initial markup is not part of this model; a cycle may start from any display.
- `setInterval` and overlapping cycles (js/main.js:72-73): a cycle whose lookup outlasts the
  three-second period can still write its label into the span rendered by a later cycle, since
  nothing cancels it. This interleaving is timer- and concurrency-driven and is not modelled;
  each cycle is modelled as running alone.
- Country fields that are JSON values other than strings: `GeocodeResult.countryName` and
  `countryCode` are strings or absent. The source would return a truthy non-string value (a
  number, an object) as the label; that case is not modelled.
- A geocoding response of `null`: the property access at js/main.js:18 throws inside the inner
  `try`, so the label becomes "Unknown"; the model folds this into `Poller.LookupFailed`. Any
  other JSON body that is not an object (a number, a string, a boolean) reads every field as
  `undefined`; it is the record with every field `None`, labelled "Over the ocean"
  (`Resolver.EmptyRecordIsOverTheOcean`).
- General JavaScript regular-expression semantics: only the three fixed patterns are modelled.
  JavaScript strings are UTF-16 code units and Dafny strings are Unicode scalar values, so a
  name holding a lone surrogate (a valid JavaScript string) cannot be represented. Every
  pattern character is ASCII and folding without the `u` flag never maps a non-ASCII character
  onto ASCII, so such a name matches exactly as it would with the surrogate replaced by any
  non-ASCII character that is not a word character.
