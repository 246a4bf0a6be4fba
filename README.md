# AutoSpecs car-specification core in Dafny

AutoSpecs is a small web application. A user types a car model. The server
asks a language-model search provider for that car's specifications and turns
the free-text answer into a `CarSpec` record. When the provider cannot be
used, it falls back to a three-entry catalog. The page shows the record and
keeps a comparison list of up to four cars. The comparison view ranks the
listed cars by horsepower and by model year.

This project models that core and proves properties of the model:

- `wrappers.dfy` (`Wrappers`): the `Option` type.
- `car_types.dfy` (`CarTypes`): the `CarSpec` record and the `CarSearchResult` envelope.
- `js_text.dfy` (`JsText`): the JavaScript string primitives the extractor relies on.
  - The regular-expression classes `\s`, `\w`, `\d`, `[^\n]` and `.`.
  - `trim` and ASCII `toLowerCase`.
  - `parseInt` on a digit run.
  - `encodeURIComponent` (UTF-8, upper-case hex) and the strip of everything but `[a-zA-Z0-9]`.
- `perplexity.dfy` (`Perplexity`): the extraction pipeline.
  - The split of the search term by `^(\w+)\s+(.+)$`, with its backtracking.
  - The ten `Label: value` field rules and `extractFromContent` with leftmost-match semantics.
  - The record builder and its placeholder-image locator.
  - The fallback catalog.
  - The decision of `searchCarSpecs` between parsed data and the catalog, over an abstract upstream outcome.
- `car_comparison.dfy` (`CarComparison`): the comparison view.
  - Its empty, one-car and two-or-more layouts.
  - Each card's remove index.
  - The "Most Powerful" and "Newest" `reduce` folds next to `Math.max`.
- `home_page.dfy` (`HomePage`): the page state as a class `Home`, with fields `currentCar`, `comparisonCars`, `isLoading`, `error` and `viewMode`, and one method per handler.

The pure parts are modelled as functions and lemmas. The page state is a
class whose methods update its fields. Each method's postcondition ties the
new state to a specification function, and lemmas state the properties of
those functions.

Two behaviours of the code are easy to miss:

- Ties in "Most Powerful" and "Newest" go to the last maximal car. The strict
  `>` keeps `current` on equality, so the first maximal car does not win.
- The BMW catalog entry's image seed is the hand-written `BMW3Series`. The
  record builder would derive `BMW320Series` from the same make and model,
  because `encodeURIComponent` turns the space into `%20` and the strip keeps
  the `20`.

## Model

| member | source | states |
|---|---|---|
| Perplexity.SplitSearchTerm | src/lib/perplexity.ts:70 | a successful split gives a non-empty make made of word characters and a non-empty model |
| Perplexity.SplitSearchTermMatchesRegex | src/lib/perplexity.ts:70 | the split succeeds exactly when `^(\w+)\s+(.+)$` can match; it then returns the whole first word and the shortest rest the greedy engine leaves, including the case where the term ends in whitespace |
| Perplexity.FirstMatchFrom | src/lib/perplexity.ts:99 | the position found is the leftmost one where the pattern matches; no position matches when none is found |
| Perplexity.MatchAtTriesAlternativesInOrder | src/lib/perplexity.ts:71-81 | a match at a position is the capture of the first label alternative, in the engine's order, that is followed by `:` and a capture; none when no alternative is. The constants `MakeRule` … `DrivetrainRule` transcribe the ten patterns, each optional group expanded to "with" before "without" |
| Perplexity.CaptureAt | src/lib/perplexity.ts:71-81 | after `:` the capture starts at the end of the whole whitespace run and is the whole word or digit run, exactly four digits, or the rest of the line; it fails exactly when no capture character stands there (for `[^\n]+`: when only newlines follow); when only whitespace follows, the engine gives some back and the capture is the last character that is not a newline |
| Perplexity.ExtractFromContent | src/lib/perplexity.ts:98-101 | a value is the trimmed group 1 of the leftmost match, non-empty, with no surrounding whitespace and with the group's shape; none is returned exactly when nothing matches or that capture trims to empty |
| Perplexity.TextField | src/lib/perplexity.ts:75 | a text field is the extracted value when there is one, and the default when there is none (no label, or a blank capture) |
| Perplexity.YearField | src/lib/perplexity.ts:74 | the year is the decimal value of the four extracted digits, so at most 9999, or 2024 when nothing is extracted |
| Perplexity.HorsepowerField | src/lib/perplexity.ts:76 | horsepower is the decimal value of the extracted digit run, or 300 when nothing is extracted |
| Perplexity.ParseCarSpecsFromResponse | src/lib/perplexity.ts:66-96 | for a non-empty search term every required field is filled; the year lies in 0..9999; mpg, transmission and drivetrain are always present; the image locator is derived from make followed by model |
| Perplexity.MakeModelFromSearchTerm | src/lib/perplexity.ts:70-72 | when the search term splits, its parts are make and model, whatever the answer says |
| Perplexity.MakeModelFallback | src/lib/perplexity.ts:71-72 | without a split, make and model are the values extracted from the answer; when nothing is extracted (no label or a blank capture) they are "Unknown" and the raw search term |
| Perplexity.MissingFieldsTakeDefaults | src/lib/perplexity.ts:74-81 | each field the answer yields nothing for (no label, or a capture that trims to blank) takes its own default (2024, V6, 300, 6.0 seconds, Gasoline, 25 combined, Automatic, FWD), independently of the other fields |
| Perplexity.FoundFieldsAreRead | src/lib/perplexity.ts:74-81 | each field the answer yields a value for holds that value; year and horsepower hold the decimal value of the extracted digits |
| Perplexity.HorsepowerWithoutZeroToSixty | src/lib/perplexity.ts:76-77 | the answer "Horsepower: 410" yields 410 hp and keeps the default 0-60 time |
| Perplexity.AbsentLeadMeansNoMatch | src/lib/perplexity.ts:77 | a rule whose labels all start with a character cannot match text lacking that character where a label could start |
| Perplexity.ImageSeed | src/lib/perplexity.ts:94 | the image seed consists of ASCII letters and digits only |
| Perplexity.ImageSeedByChar | src/lib/perplexity.ts:94 | the seed keeps ASCII letters and digits, drops `-_.!~*'()`, and keeps the hexadecimal digits of every other character's UTF-8 bytes |
| Perplexity.SpaceEscape | src/lib/perplexity.ts:94 | a space is encoded as "%20" and the strip leaves "20" of it |
| Perplexity.SeedAroundSpace | src/lib/perplexity.ts:94 | a space between two alphanumeric words leaves "20" in the seed |
| Perplexity.SeedKeepsEscapeDigits | src/lib/perplexity.ts:94 | the seed of "3 Series" is "320Series" |
| Perplexity.GetPlaceholderData | src/lib/perplexity.ts:103-161 | a hit returns exactly the catalog entry stored under the lower-cased input; a miss, and only a miss, gives horsepower 0 and make "Unknown"; the year is always 2024; every required field is filled for a non-empty input |
| Perplexity.CasingIsIgnored | src/lib/perplexity.ts:147-148 | two inputs that lower-case to the same catalog key give the same record |
| Perplexity.AnyCasingOfHondaCivic | src/lib/perplexity.ts:147-148 | any ASCII casing of "Honda Civic" finds the Civic entry |
| Perplexity.CatalogMiss | src/lib/perplexity.ts:148-160 | a miss keeps the caller's spelling as the model, sets every other text field to "Unknown" and seeds the image from the input alone |
| Perplexity.TrimLevelMisses | src/lib/perplexity.ts:147-148 | the lookup is exact after lower-casing: "TOYOTA CAMRY" hits and "Toyota Camry LE" misses |
| Perplexity.CatalogSeedsAgreeWithDerivedSeeds | src/lib/perplexity.ts:106-131 | the Toyota and Honda entries carry the image seed the record builder would derive |
| Perplexity.BmwCatalogSeedDiffers | src/lib/perplexity.ts:132-144 | the BMW entry's image seed is not the derived one |
| Perplexity.SearchCarSpecs | src/lib/perplexity.ts:5-64 | a record always comes back; a missing key, a failed request and an empty answer give the catalog record; any other answer is parsed; the record is complete for a non-empty model |
| Perplexity.HondaCivicWithoutApiKey | src/lib/perplexity.ts:9-12 | without an API key, "Honda Civic" returns the catalog's Civic |
| JsText.Trim | src/lib/perplexity.ts:100 | the trim is the part of the input after its leading whitespace run, followed only by whitespace; it is empty exactly when the input is all whitespace, and has no whitespace at either end |
| JsText.ParseDigits | src/lib/perplexity.ts:76 | a single digit is worth its digit value, and a digit string's value is below 10 to the power of its length |
| JsText.ParseDigitsAppend | src/lib/perplexity.ts:76 | digits are read in base 10, most significant first: the value of `a + b` is the value of `a` times 10^|b| plus the value of `b` |
| JsText.PercentEncode | src/lib/perplexity.ts:94 | the percent-encoding has three characters per byte |
| JsText.PercentEncodeBytes | src/lib/perplexity.ts:94 | byte k becomes the three characters at 3k: `%` followed by its two upper-case hexadecimal digits |
| JsText.EncodeUriChar | src/lib/perplexity.ts:94 | an unreserved character is kept; any other becomes the percent-encoding of its UTF-8 bytes, 3 to 12 characters |
| JsText.EncodeUriComponent | src/lib/perplexity.ts:94 | `encodeURIComponent` encodes a single character on its own, returns an all-unreserved string unchanged and never shortens its input |
| JsText.EncodeDistributes | src/lib/perplexity.ts:94 | the encoding distributes over concatenation, so it works character by character |
| JsText.StripNonAlnum | src/lib/perplexity.ts:94 | the strip leaves only ASCII letters and digits; a single character is kept exactly when it is one; the identity on such strings |
| JsText.StripDistributes | src/lib/perplexity.ts:94 | the strip distributes over concatenation, so with the single-character clause it keeps exactly the letters and digits, in order |
| JsText.ToLowerAscii | src/lib/perplexity.ts:147 | lower-casing keeps the length and maps each ASCII capital to its small letter |
| CarComparison.ReduceByMetric | src/components/CarComparison.tsx:65-69 | the fold's pick is a listed car whose figure is at least every car's figure |
| CarComparison.MaxOf | src/components/CarComparison.tsx:72 | `Math.max` returns a listed value no smaller than any other |
| CarComparison.ReduceAttainsMax | src/components/CarComparison.tsx:65-72 | the picked car's figure equals the `Math.max` shown beside it |
| CarComparison.ReducePicksLastMaximal | src/components/CarComparison.tsx:65-69 | the pick is the car at the last position holding the maximum; every later car ranks strictly lower |
| CarComparison.TieKeepsCurrent | src/components/CarComparison.tsx:66 | of two equally ranked cars the later one is picked |
| CarComparison.Cards | src/components/CarComparison.tsx:38-46 | there is one card per car, in order, and each card's remove action carries its own index |
| CarComparison.Render | src/components/CarComparison.tsx:14-122 | an empty list shows only "No cars selected"; one car shows the "Add another car" prompt; the quick comparison appears from two cars on, with listed picks, the maximum horsepower and year, and the total equal to the list length |
| CarComparison.QuickComparisonPicksLastMaximal | src/components/CarComparison.tsx:79-86 | "Most Powerful" and "Newest" are the last maximal cars by horsepower and by year |
| HomePage.AddedList | src/app/page.tsx:42-53 | an add either appends the current car at the end or changes nothing; it appends exactly when there is a current car, fewer than four entries and no entry with the same make, model and year; at most four entries and no duplicates are preserved |
| HomePage.RemovedAt | src/app/page.tsx:55-57 | removing an in-range index deletes exactly that entry and keeps the rest in order; an out-of-range index changes nothing |
| HomePage.RemovalKeepsValid | src/app/page.tsx:55-57 | removal preserves the at-most-four, no-duplicates invariant |
| HomePage.CardRemovesItsOwnCar | src/components/CarComparison.tsx:38-42 | a card's remove action deletes exactly the car that card shows |
| HomePage.FailureMessage | src/app/page.tsx:31 | the failure message is the result's own error when non-empty, otherwise "Failed to fetch car specifications" |
| HomePage.Settle | src/app/page.tsx:20-40 | a success with data shows that car and no error; every other outcome shows no car and a non-empty error, including the network message for a thrown request |
| HomePage.Home.constructor | src/app/page.tsx:14-18 | the page starts with no car, an empty list, no loading, no error and the search view |
| HomePage.Home.SearchCar | src/app/page.tsx:20-40 | after a search, loading is off, the car and the error are the settled outcome, and the list and the view are unchanged |
| HomePage.Home.AddToComparison | src/app/page.tsx:42-53 | the list becomes the added list, the invariant is kept and every other field is unchanged |
| HomePage.Home.RemoveFromComparison | src/app/page.tsx:55-57 | the list loses the entry at the index, the invariant is kept and every other field is unchanged |
| HomePage.Home.SwitchToComparison | src/app/page.tsx:59-61 | only the view changes, to the comparison view |
| HomePage.Home.SwitchToSearch | src/app/page.tsx:63-65 | only the view changes, to the search view |
| HomePage.CompareButtonMeansAdd | src/app/page.tsx:122 | for a car not yet listed, the compare button is offered exactly when pressing it appends that car |
| HomePage.AddTwiceIsAddOnce | src/app/page.tsx:45-50 | adding the same current car twice changes the list at most once |
| HomePage.RemoveUndoesAdd | src/app/page.tsx:50-56 | removing the car just appended restores the earlier list |

## Left out

- Network and environment: the provider request, its headers and prompt, JSON decoding, the API-key lookup and console logging. `Perplexity.Upstream` stands for their outcome: no key, a failed request (thrown fetch, non-ok status, unreadable body, missing content), or an answer's content.
- The prompt text. It is a constant template.
- The HTTP route in src/app/api/car-specs/route.ts. Its only logic, the 400 on a missing or empty model, is the reason the search term is taken as non-empty wherever a complete record is promised. Its 404 branch is unreachable, because `searchCarSpecs` always returns a record.
- "Fastest 0-60" in the comparison view. It relies on `parseFloat` and floating-point `<`, and with NaN the later car wins. Floating point is not modelled.
- The rendering-only components CarSpecCard and CarSearch, and all markup, styling and icons. Only the layout decisions of the comparison view are modelled.
- `Perplexity.GetPlaceholderData`: lower-casing folds ASCII letters only. JavaScript's `toLowerCase` also folds other scripts, so a non-ASCII input that folds onto a catalog key is not modelled.
- `Perplexity.GetPlaceholderData`: inputs such as "constructor" or "__proto__" reach inherited object properties in the source lookup. This prototype-chain behaviour is not modelled; the catalog is a plain map.
- `JsText.ParseDigits`: its own contract gives only the single-digit value and the bound. The positional value of longer digit strings is stated separately, by `JsText.ParseDigitsAppend`.
- `Perplexity.HorsepowerField`: horsepower is an unbounded natural number. `parseInt` loses precision on digit runs beyond 2^53.
- `JsText.EncodeUriComponent`: it never throws. Dafny strings hold Unicode scalar values, so the lone-surrogate error cannot arise.
- `HomePage.Home`: React's batched, asynchronous state updates are modelled as synchronous field assignments, and the loading state in the middle of a search is not observable from outside the method.
- `HomePage.Home.RemoveFromComparison`: the index is an integer. A fractional or NaN index, which matches no position in the source, is not modelled.
- `CarComparison.Render`: the `Math.max` of an empty list (negative infinity) is never computed, because the quick comparison only appears from two cars on.
