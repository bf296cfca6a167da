# car-tasador in Dafny

A model of the two pieces of car-tasador that do real work.

- **The catalogue normaliser** (`backend/processCars.js`). It reads each
  listing's free-text `name`, upper-cases it and rewrites the
  `MERCEDES-BENZ` spellings. It then takes a composite brand (`ALFA ROMEO`,
  `LAND ROVER`, …) or the first word as the brand (`marca`), the next word as
  the model (`modelo`), and the remaining words as the version (`version`).
  Known version tokens get their canonical spelling from a small table. The
  three fields are added to the listing, and every other field is kept.
- **The valuation service** (`backend/server.js`):
  - the three lookup endpoints: distinct brands, the models of a brand, and
    the versions of a brand and model;
  - `POST /api/tasacion`. It validates the five request fields and keeps the
    listings with the same brand, model and fuel, ignoring case. One scan
    picks a reference listing. The quote is that listing's price, lowered
    1 % per whole 10,000 km of mileage gap, adjusted by a fuel percentage,
    floored at zero and rounded.

Modules:

| module | file | contents |
|---|---|---|
| `JsText` | `jstext.dfy` | JavaScript string built-ins: `toUpperCase`/`toLowerCase` on ASCII and Latin-1, `split(' ')`, `join(' ')`, `trim`, `startsWith` |
| `JsNumber` | `jsnumber.dfy` | The number readings of the stored strings: digits-only `parseInt`, plain `parseInt`, the price `parseFloat`, `Math.round`. NaN is `None`. |
| `Seqs` | `seqs.dfy` | `filter`, `map`, and `[...new Set(xs)]` (first-occurrence order) |
| `ProcessCars` | `process_cars.dfy` | The normaliser: brand rewrite, composite and plain splits, version table, the batch |
| `Catalog` | `catalog.dfy` | The normalised listing and the three lookup endpoints |
| `Tasacion` | `tasacion.dfy` | The valuation endpoint, as written and corrected (see Findings) |
| `TasacionExamples` | `tasacion_examples.dfy` | Worked valuations on concrete catalogues |

Conventions:

- The catalogue is a parameter. In the source each handler obtains it with
  `require`, which parses the file once and then serves the cached array; the
  model takes that array as given.
- JavaScript's NaN is `Option.None`. A NaN `tasacion` is serialised as
  `null`, and the model returns `None` for it.
- Prices are exact reals rather than IEEE doubles.
- Points of the code that are easy to misread, which the model follows:
  - Names are split on the single character `' '` (`split(' ')`), not on
    runs of white space. Two adjacent spaces produce an empty word.
  - Canonicalising a version is not idempotent. `STSP` becomes `Start&Stop`,
    and a second pass turns that into `START&STOP`.
  - `[...new Set(xs)]` lists values in the order of their first occurrence,
    and the lookups inherit that order.
  - The closest-listing scan reads the incumbent's mileage differently from
    the candidate's (see Findings).

## Model

| member | source | states |
|---|---|---|
| ProcessCars.ReplaceMercedes | backend/processCars.js:31 | The global rewrite keeps the length and changes only the separator of each `MERCEDES[-_ ]BENZ` match, which becomes a space. |
| ProcessCars.MatchesDoNotOverlap | backend/processCars.js:31 | Two matches of the brand pattern never overlap, so the left-to-right global replace rewrites every one of them. |
| ProcessCars.MatchRewritten | backend/processCars.js:31 | Every match in the input reads `MERCEDES BENZ` at the same place in the output. |
| ProcessCars.UnificarMarca | backend/processCars.js:29-33 | The result is the upper-cased name, character by character, with every `MERCEDES-BENZ`/`MERCEDES_BENZ`/`MERCEDES BENZ` spelling turned into `MERCEDES BENZ`. |
| ProcessCars.FirstPrefix | backend/processCars.js:63-71 | The composite loop yields nothing exactly when no brand is a prefix. Otherwise it yields a brand that is a prefix, with no earlier brand in the list a prefix. |
| ProcessCars.CompositesPrefixFree | backend/processCars.js:9-15 | No composite brand is a prefix of another, so at most one matches a name and the list order never decides. |
| ProcessCars.SplitComposite | backend/processCars.js:66-68 | The brand is the composite. The model has no space. The trimmed remainder is the model alone with an empty version, or the model, a space and the version. |
| ProcessCars.SplitPlain | backend/processCars.js:74-79 | Brand and model have no space. The name reassembles as the brand alone, brand and model, or brand, model and version, joined by single spaces. Missing parts are empty. |
| ProcessCars.UnificarVersion | backend/processCars.js:36-41 | The version keeps its number of space-separated pieces and their order. Each piece becomes its upper-cased form, or that form's table spelling. |
| ProcessCars.TableReadBack | backend/processCars.js:18-26 | Every table spelling, upper-cased and looked up again, gives itself back, except `Start&Stop`, which gives `START&STOP`. |
| ProcessCars.CanonTokenTwice | backend/processCars.js:39 | Canonicalising one token twice equals doing it once exactly when its upper-case form is not `STSP`. |
| ProcessCars.UnificarVersionNearlyIdempotent | backend/processCars.js:36-41 | Canonicalising a version twice gives the same as once exactly when none of its pieces is `STSP` in any letter case. |
| ProcessCars.StartStopSecondPass | backend/processCars.js:25 | The table's own spelling `Start&Stop` comes out of a second pass as `START&STOP`. |
| ProcessCars.DeriveNames | backend/processCars.js:54-82 | A name starting with a composite brand gets that brand; its model is the first word after the brand, and its version is the other words, canonicalised. Any other name gets its first word as brand, its second as model, and all the remaining words, canonicalised, as version, with missing parts empty. The model never holds a space. |
| ProcessCars.CompositeBrandWins | backend/processCars.js:60-70 | A name starting with a composite brand in any letter case, or with a hyphen or underscore spelling of `MERCEDES BENZ`, gets that composite as its brand. |
| ProcessCars.MercedesExample | backend/processCars.js:54-82 | `MERCEDES-BENZ C220 BLUEDCI` gives brand `MERCEDES BENZ`, model `C220` and version `BlueDCI`. |
| ProcessCars.WithNames | backend/processCars.js:84-89 | The spread listing keeps every key and value of the original except the three derived keys, which are added or overwritten with the derived strings. |
| ProcessCars.MapListings | backend/processCars.js:54-90 | The map keeps length and order, and element i is listing i with the names derived from its own `name`. It stops at the first listing whose `name` is not a string, having accepted every earlier one. |
| ProcessCars.ProcessAll | backend/processCars.js:49-102 | The batch succeeds exactly when every listing has a string name. On success each listing keeps its fields and gains the three derived ones. Otherwise the first offending position is reported and nothing is produced. |
| JsText.Split | backend/processCars.js:75 | `split(' ')` yields at least one piece, no piece holds a space, and joining the pieces with spaces gives the input back. |
| JsText.SplitJoin | backend/processCars.js:37-40 | Splitting the join of space-free pieces returns the same pieces, which is why the version keeps its piece count. |
| JsText.UpperSplit | backend/processCars.js:37 | Upper-casing and then splitting is the same as splitting and then upper-casing each piece. |
| JsText.Upper | backend/processCars.js:30 | `toUpperCase` keeps the length, leaves no lower-case letter, agrees with the input letter by letter up to case, and returns a string without lower-case letters unchanged. Together these fix the result. |
| JsText.Lower | backend/server.js:55-57 | `toLowerCase` keeps the length, leaves no upper-case letter, agrees with the input letter by letter up to case, and returns a string without upper-case letters unchanged. |
| JsText.Trim | backend/processCars.js:66 | `trim` returns a contiguous piece of the input with only white space around it and no white space at either end. |
| JsNumber.KeepDigits | backend/server.js:70 | Stripping non-digits leaves only digits and is the identity on a digit string. It is empty exactly when the input has no digit. |
| JsNumber.KeepDigitsConcat | backend/server.js:70 | Stripping non-digits distributes over concatenation. |
| JsNumber.ThousandsDigits | backend/server.js:70 | Stripping the non-digits from a digit run, a `.000` thousands group and a digit-free suffix leaves the run followed by `000`. |
| JsNumber.ParseDigitsOf | backend/server.js:70 | The digits-only reading of a string with at least one digit is the decimal value of the digits it keeps. |
| JsNumber.ParseDigits | backend/server.js:70 | The digits-only reading is NaN exactly when the string has no digit, and is never negative. |
| JsNumber.ParseIntLeading | backend/server.js:78 | Plain `parseInt` is a number exactly when, after leading white space and an optional sign, a digit comes first. |
| JsNumber.ParseIntLeadingRun | backend/server.js:78 | Plain `parseInt` of a digit run followed by anything that does not start with a digit reads the run alone, so `"50.000 km"` reads as 50. |
| JsNumber.LeadingRead | backend/server.js:78 | Plain `parseInt` of a string that opens with a digit is the value of its leading digit run. |
| JsNumber.ParseIntLeadingDigits | backend/server.js:70-78 | On a plain digit string both mileage readings agree and give its decimal value. |
| JsNumber.ParseIntOfNumber | backend/server.js:69 | `parseInt` of a stored numeric year, which it reads as its decimal string, gives the number back, as does the digits-only reading. |
| JsNumber.ParsePrice | backend/server.js:71 | The price reading is never negative and is NaN when the string has no digit. Without a comma it is the value of the string's digits. |
| JsNumber.EuroPrice | backend/server.js:71 | A price string that opens with a digit and has no comma reads as the value of its digits. |
| JsNumber.Fraction | backend/server.js:71 | The digits after the decimal comma read as a value in [0, 1) that, times ten to the number of digits, gives back the digits' value. |
| JsNumber.Round | backend/server.js:107 | `Math.round` gives the integer within half a unit, with halves rounded up. |
| Seqs.Filter | backend/server.js:54-58 | `filter` keeps exactly the elements that pass and never grows the array. A passing first element stays first, and a failing one is dropped with nothing else changed. |
| Seqs.FilterConcat | backend/server.js:54-58 | The survivors of a concatenation are the survivors of each part, in order, so `filter` keeps the input's order and multiplicity. |
| Seqs.FilterHead | backend/server.js:54-68 | The first element of a filter is the input's first passing element. |
| Seqs.MapFilterMembership | backend/server.js:29 | A value is in `filter(p).map(f)` exactly when some passing element maps to it. |
| Seqs.Distinct | backend/server.js:21 | `[...new Set(xs)]` has no duplicates and has exactly the values of `xs`, in order of first occurrence. |
| Catalog.Marcas | backend/server.js:19-23 | The brands endpoint lists each brand of the catalogue once, nothing else, in order of first appearance. |
| Catalog.Modelos | backend/server.js:26-31 | The models endpoint lists each model of an exactly matching brand once, nothing else, in order. It is empty when no listing has the brand. |
| Catalog.Versiones | backend/server.js:34-39 | The versions endpoint lists each version of an exactly matching brand and model once, nothing else, in order. It is empty when there is no such listing. |
| Tasacion.Comparables | backend/server.js:54-62 | The comparables are exactly the listings whose brand, model and fuel match ignoring case. They are empty exactly when no listing matches. |
| Tasacion.KmDiff | backend/server.js:70-75 | A candidate's mileage gap is NaN exactly when its stored mileage has no digit. CandidateFromReading and CandidateReadsAllDigits give its value. |
| Tasacion.CandidateFromReading | backend/server.js:70-75 | A candidate's mileage gap is the distance between the request's mileage and the number the digits-only reading gives. |
| Tasacion.CandidateReadsAllDigits | backend/server.js:70-75 | A candidate whose stored mileage has a digit is measured from the value of all its digits taken together, so `"50.000 km"` counts as 50000. |
| Tasacion.IncumbentKmDiff | backend/server.js:78 | Read consistently, the incumbent's mileage gap equals its gap as a candidate. As written, with plain `parseInt`, the gap is a number exactly when `parseInt` of the stored mileage is. |
| Tasacion.IncumbentFromReading | backend/server.js:78 | As written, the incumbent's mileage gap is measured from whatever number plain `parseInt` reads from its stored mileage. |
| Tasacion.IncumbentReadsLeadingRun | backend/server.js:78 | As written, an incumbent whose stored mileage opens with a digit run followed by a non-digit is measured from the run alone. |
| Tasacion.IncumbentReadsNumber | backend/server.js:78 | As written, an incumbent whose stored mileage is the digits of `n` followed by a separator, such as `"50.000 km"`, is measured from `n` (50), not from the whole number. |
| Tasacion.SelectReference | backend/server.js:64-82 | There is a reference exactly when there are comparables. Every non-empty list has an improvement chain: it starts at the first listing, each entry improves on the one before, nothing passed over improves on the incumbent of its time, and nothing after the last entry improves on it. The reference is the last entry of every such chain. |
| Tasacion.TwoListingScan | backend/server.js:78-81 | With two comparables the second becomes the reference exactly when it improves on the first. |
| Tasacion.ScanFollowsChain | backend/server.js:68-82 | Scanning on from any point inside an improvement chain ends at the chain's last entry. |
| Tasacion.FuelPercent | backend/server.js:93-101 | The fuel adjustment lies between −5 % and +5 %. It is −5 % exactly for diesel in any letter case. |
| Tasacion.AdjustedPrice | backend/server.js:87-104 | The price is never negative. It equals the base times (100 − whole 10,000 km of gap + fuel percentage) / 100, floored at zero. The adjustments add up and do not compound. |
| Tasacion.FuelAdjusted | backend/server.js:93-101 | The fuel step adds the fuel's percentage of the base price (a negative one for diesel) to the price so far. |
| Tasacion.GapNeverRaisesPrice | backend/server.js:90 | For a non-negative base, a larger mileage gap never gives a higher price. |
| Tasacion.Valuation | backend/server.js:85-107 | The quote is never negative. It is NaN exactly when the price reading of the reference is NaN or its stored mileage has no digit. |
| Tasacion.ValuationFrom | backend/server.js:85-107 | Given the reference's price reading and digits-only mileage reading, the quote is the rounded adjusted price for the mileage gap between the request and the reference. |
| Tasacion.Answer | backend/server.js:43-119 | 400 exactly when a field is missing. 404 "no comparable listings" exactly when the request is complete and nothing matches. The "no similar car" branch is never taken, so a complete request with a comparable listing always gets a quote. A quote echoes the request, is priced by Valuation, and carries the comparable listing at the end of the scan's improvement chain. |
| Tasacion.Tasar | backend/server.js:43-119 | The endpoint as written, with the incumbent's mileage read by plain `parseInt`: everything Answer states, and a quote's price is never negative. |
| Tasacion.ConsistentScanNeverWorsens | backend/server.js:68-82 | With both mileages read the same way, the scan ends on a listing at least as close as its starting listing in year and in mileage. |
| Tasacion.CorrectedReferenceNoFarther | backend/server.js:78 | The corrected scan's reference is at least as close as the first comparable in year and in mileage. |
| Tasacion.TasarCorrected | backend/server.js:43-119 | The corrected endpoint keeps every outcome rule of Answer, quotes the end of the improvement chain with consistent mileage readings, and that reference is no farther than the first comparable. |
| TasacionExamples.FiftyThousandKm | backend/server.js:70 | The digits-only reading of `"50.000 km"` is 50000. |
| TasacionExamples.FiftyThousandKmLeading | backend/server.js:78 | Plain `parseInt` of `"50.000 km"` is 50. |
| TasacionExamples.DieselPrices | backend/server.js:87-104 | Diesel at zero gap turns 12000 into 11400. A 10,000 km gap turns 10000 into 9400. |
| TasacionExamples.LeonValuations | backend/server.js:85-107 | The three sample listings are valued at 11400, 11400 and 9400 for the sample request. |
| TasacionExamples.SingleListingExample | backend/server.js:43-119 | One SEAT LEON diesel of 2018 with 50.000 km at 12.000 € values the same request at 11400. The quote echoes the request and returns that listing. |
| TasacionExamples.IncumbentMileageQuirk | backend/server.js:68-82 | On two sample listings, the as-written scan picks the second, 10,000 km farther off. Reading both mileages the same way keeps the first. |
| TasacionExamples.QuirkChangesTheQuote | backend/server.js:43-119 | On those listings the endpoint as written quotes 9400 from the 2017 car. The corrected endpoint quotes 11400 from the 2016 car. |

## Left out

- HTTP plumbing: Express routing, CORS, JSON bodies and the listen call. Failures are `Refused(...)`, and `Status`/`Message` give the code and text.
- `GET /api/coches` returns the catalogue unchanged, so there is nothing to model.
- File I/O: reading and writing the JSON files, their error logging, and the module cache behind `require`. The catalogue is a parameter and the batch result is returned.
- IEEE-754 doubles: prices are exact reals, so no rounding error of the source appears in the model.
- Full Unicode case mapping: only the ASCII and Latin-1 letters that have a Latin-1 partner change case. `ß` to `SS`, `ÿ` to `Ÿ` (U+0178) and `µ` to `Μ` (U+039C) are not modelled.
- `parseInt` with a `0x` prefix or a radix: the stored strings have none.
- Request type coercion: `año` and `kilometros` are taken to arrive as integers. A string or fractional request value, and JavaScript's `-` on mixed types, are not modelled.
- The stored `año` is taken to be a number, so a NaN year gap is not modelled.
- `Car` holds only the fields the service reads. The extra fields of `coche_similar` in the response are not modelled, and neither is JSON key order.
- A listing whose `marca`, `modelo` or `combustible` is not a string (a `TypeError` in the filter) is not modelled.
- Lookups into the version table's object prototype (`constructor` and the like) cannot match. Every looked-up token is upper-cased, and those keys are not.
- JsNumber.ParsePrice: with a comma, the value is stated only as non-negative, not as the integer part plus the fraction. The contract would have to name the first comma among the kept characters in terms of the raw string, and that link was not proved. Fraction states the fraction's own value, and the sample listings carry no comma.

## Findings

| source | as written | input that shows it | evidently intended | confidence | as-written member | corrected member |
|---|---|---|---|---|---|---|
| backend/server.js:78 | The incumbent's mileage is read with a plain `parseInt` of the stored string. It stops at the thousands separator, so `"50.000 km"` counts as 50 km, while line 70 reads the candidate as 50000. | Catalogue `[SEAT LEON diesel 2016 "50.000 km" "12.000€", SEAT LEON diesel 2017 "60.000 km" "10.000€"]`, request SEAT/LEON/2018/50000/diesel. The second car has gap 10000 < 49950 and replaces the first even though the first's true gap is 0. The quote is 9400 instead of 11400. | The incumbent's mileage read the way line 70 reads every candidate, with non-digits stripped. A replacement is then strictly closer in both year and mileage, as the comment on line 77 says. | not executed | TasacionExamples.QuirkChangesTheQuote | Tasacion.TasarCorrected |

`Tasacion.Tasar` is the endpoint as written, and `TasacionExamples.IncumbentMileageQuirk`
shows the scan's two choices on that input. `Tasacion.TasarCorrected` is the
same endpoint with the consistent reading. `Tasacion.ConsistentScanNeverWorsens`
and `Tasacion.CorrectedReferenceNoFarther` prove the intended property about it:
its reference is never farther than the first comparable in year or in mileage.
