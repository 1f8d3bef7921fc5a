# GST calculator core in Dafny

This project models the decision logic of a small Goods-and-Services-Tax calculator API. There are two connected parts:

- **Category detection** (`detect_category`). The description is lower-cased. Each stored category gets a score: the number of entries in its keyword list followed by its name that are non-empty after lower-casing and occur as a substring of the description. One pass keeps the best category so far, and only a strictly higher score replaces it. So the first category with the highest positive score wins, and a category scoring zero is never chosen.
- **The calculate operation** (`calculate_tax`). The lower-cased mode must be `exclusive` or `inclusive`. Otherwise the request fails with HTTP 400, before anything else runs. The rate is chosen in this order:
  1. An explicit rate, with source `provided`.
  2. The rate of an active detected category, with source `detected`.
  3. Otherwise the default 18.0, with source `default`.

  The name of the detected category is reported even when that category is inactive. Then the amount is split into net, GST and gross.

Modules:

- `Options` (options.dfy): `Option` and `Result`.
- `Text` (text.dfy): ASCII lower-casing and substring search.
- `Detection` (detection.dfy): the category record and the score. It also holds `Detect`, a two-pass specification of the detected category (the maximum score first, then the first position that reaches it). Beside it sits `DetectCategory`, the source's one-pass loop, proved equal to that specification.
- `Calculation` (calculation.dfy): mode check, rate resolution, the amount split and the whole operation.
- `Examples` (examples.dfy): worked cases of the calculator's behaviour, proved about the model.

The category store is a `seq<Category>` parameter. A failed store read is the empty sequence, as the source turns a read exception into an empty list. Rounding to two decimals is a parameter `round2: real -> real`. Lemmas that speak about exact arithmetic pass the identity `Exact`.

A keyword listed twice counts twice: the score is `sum(...)` over the keyword list (main.py:67-68), not a count of distinct keywords; see `Detection.CountMatchesCountsPositions` and `Detection.DuplicateKeywordCounts`.

The mode may be omitted, and then defaults to `exclusive` (main.py:85); the model takes it as `Option<string>` and reads it through `DefaultMode`.

## Model

| member | source | states |
|---|---|---|
| `Text.LowerStr` | main.py:59 | Lower-casing keeps the length and leaves no upper-case letter in the result |
| `Text.LowerStrIdempotent` | main.py:59 | Lower-casing an already lower-cased string changes nothing, so lower-casing both sides makes matching case-blind |
| `Text.LowerStrEmpty` | main.py:67-68 | A keyword is empty after lower-casing exactly when it was empty, so the `if k` guard drops exactly the empty entries |
| `Text.ContainsIffOccurs` | main.py:68 | The substring test `k in description` holds exactly when `k` occurs at some position of the description |
| `Text.ContainsInEmpty` | main.py:59-68 | Only the empty string occurs in the empty description |
| `Text.AbsentCharacterPreventsMatch` | main.py:68 | A keyword holding a character the description lacks never matches |
| `Detection.CountMatches` | main.py:67-68 | The number of matching entries is at most the number of entries |
| `Detection.CountMatchesCountsPositions` | main.py:67-68 | The score equals the number of POSITIONS in keywords-then-name whose entry is non-empty after lower-casing and occurs in the lower-cased description, so duplicates each count |
| `Detection.ScoreSplit` | main.py:67-68 | A category's score is its matching keywords plus one if its own name matches |
| `Detection.DuplicateKeywordCounts` | main.py:67-68 | Appending a matching keyword raises the score by one even if that keyword is already listed |
| `Detection.EmptyDescriptionScoresZero` | main.py:59 | An empty or missing description gives every category score zero |
| `Detection.ScoreIgnoresCase` | main.py:59-68 | Categories whose keywords and names agree after lower-casing score the same against descriptions that agree after lower-casing |
| `Detection.MaxScore` | main.py:64-71 | The maximum score bounds every category's score and is attained unless it is zero |
| `Detection.FirstScoring` | main.py:69-71 | The first position carrying a given score: every earlier position scores differently |
| `Detection.DetectIndexCharacterized` | main.py:64-72 | Detection finds nothing exactly when every category scores zero (an empty store included); otherwise the position it finds has a positive score, at least every other score, and strictly above every earlier one |
| `Detection.FirstBestIsDetected` | main.py:69-71 | The first best position is unique: any position with that property is the detected one |
| `Detection.DetectCategory` | main.py:58-79 | The one-pass scan with running best and strict `>` returns exactly the specified detected category, and None exactly when every category scores zero |
| `Calculation.ParseModeIgnoresCase` | main.py:98-100 | A mode and its lower-cased form are accepted or rejected alike |
| `Calculation.ResolveExplicit` | main.py:102-108 | The source is "provided" exactly when a rate is given; that rate is applied and no detection result is reported |
| `Calculation.ResolveDetected` | main.py:109-113 | Without a rate, the source is "detected" exactly when the first best-scoring category is active, and then its rate is applied and it is the reported category |
| `Calculation.ResolveFallback` | main.py:102-113 | Without a rate and without an active match, 18.0 from "default" applies; the reported category is the first best one even if inactive, and none is reported exactly when every category scores zero |
| `Calculation.ResolveRateInRange` | main.py:102-113 | With a validated rate, or without one and with a store whose rates are within bounds, the applied rate is in [0, 100] |
| `Calculation.ComputeExactIsConsistent` | main.py:115-124 | Without rounding, gross = net + GST and GST = net times rate/100, in both modes |
| `Calculation.ExclusiveThenInclusive` | main.py:115-124 | Without rounding, extracting the tax from the exclusive-mode gross gives back the original amount |
| `Calculation.ZeroAmountIsZero` | main.py:115-124 | A zero amount gives zero net, GST and gross whenever rounding maps zero to zero |
| `Calculation.Calculate` | main.py:96-149 | The operation fails exactly when the mode is invalid; otherwise the applied rate is in [0, 100] and the source is one of provided, detected, default |
| `Calculation.ExplicitRateOverrides` | main.py:106-108 | With a valid mode and an explicit rate, the response applies that rate, says "provided" and reports no category, whatever the description and store hold (the store is not constrained, since it is never read) |
| `Calculation.OmittedModeIsExclusive` | main.py:85-120 | A request without a mode is accepted and split as in exclusive mode at the applied rate |
| `Examples.LaptopScoresOne` | main.py:67-68 | "I bought a laptop" scores 1 for Electronics {laptop, phone} |
| `Examples.LaptopDetected` | main.py:58-79 | That description detects Electronics |
| `Examples.InactiveCategoryFallsBack` | main.py:109-113 | The inactive Luxury category, matched by "yacht", is reported by name, but 18.0 from "default" is applied |
| `Examples.InclusiveSplitOf118` | main.py:121-124 | Without rounding, 118 inclusive at 18% is 100 net and 18 GST |
| `Examples.UnknownModeRejected` | main.py:98-100 | Mode "foo" is rejected whatever the rest of the request |
| `Examples.MixedCaseModeAccepted` | main.py:98 | Mode "Inclusive" selects inclusive mode |

## Left out

- `Calculation.Compute`: IEEE double arithmetic and Python's `round(x, 2)` (round half to even on binary floats) are not modelled. Amounts are `real`, and rounding is the caller-supplied `round2`, so no property of rounding itself is proved.
- `Text.Lower`: lower-casing is ASCII only, while Python's `str.lower` is Unicode. For the mode check this changes nothing, because no non-ASCII character lower-cases to a lone letter of "exclusive" or "inclusive". For keyword matching, non-ASCII case folding is not captured.
- The category store read (`get_documents`) is replaced by the `categories` parameter. A read failure is the empty sequence.
- Missing fields in stored documents are not modelled. The source's `.get` defaults (no keywords, empty name, rate 0, active) do not appear; a store record is a complete `Category`.
- Request validation by the API framework is a precondition (`ValidRequest`): amount at least 0, and a given rate in [0, 100]. It is not modelled as an error result.
- Rebuilding the detected record as a validated category raises an error for a stored rate outside [0, 100]. This is not modelled; when no rate is given (the only case in which the store is read), `ValidStore` requires all stored rates to be in range instead.
- The audit-log write and its swallowed exception are not modelled. This is a side effect that never changes the response.
- Also not modelled: HTTP routing, CORS, the health endpoints, environment-variable reporting, category listing and adding, and the server launch. These are I/O glue with no decision logic.
- The string field `source` of the response is produced by `Calculation.SourceName` from the `Source` datatype.
