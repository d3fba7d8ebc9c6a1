# Verified model of the KYC/fraud agents' deterministic core

This project models in Dafny the deterministic parts of a multi-agent
KYC and financial-risk service. Three pieces are covered:

- **Identity document checks** (`ExtractorAgent`):
  - the decoder for the passport machine-readable zone (MRZ), together with its ICAO 9303 check-digit arithmetic;
  - the string helpers the agent uses to pick and compare names;
  - the decision logic that turns an analysed document into its signals: `mrzValid`, `identityMismatch`, `expired`, `quality`, `croppingHint`, the ordered reasons and the coalesced identity fields.
- **Transaction heuristics** (`FraudAgent.analyzeTransactions`):
  - converting loosely typed records into transactions;
  - the stable sort by timestamp;
  - the three two-pointer window scans (velocity, structuring, device hopping);
  - the five signal tests and their order.
- **CSV loading** (`LoaderController`): the quote-aware line tokeniser, and the loop that zips header columns with each line's values into an insertion-ordered map.

Modules:

| file | module | models |
|---|---|---|
| `Wrappers.dfy` | `Wrappers` | `Option`, `Result` |
| `JavaText.dfy` | `JavaText` | the `java.lang.String` operations used, over ASCII |
| `JavaTime.dfy` | `JavaTime` | `LocalDate.parse`, `LocalDate.toString`, `isBefore` |
| `Mrz.dfy` | `Mrz` | `checkDigit`, `mrzVal`, `safeSub`, `safeChar`, `stripFillers`, `parseMrz` |
| `DocSignals.dfy` | `DocSignals` | `normalize`, `safeEqualsNorm`, `coalesce`, `firstNonBlank`, `joinName`, `clamp`, `contentOf`, `dateOf`, `toDocSignals` |
| `Transactions.dfy` | `Transactions` | `Tx`, `parseInstant`, `toDouble`, `asStr`, the record conversion loop, `List.sort` |
| `FraudHeuristics.dfy` | `FraudHeuristics` | the three window scans and `analyzeTransactions` |
| `CsvLoader.dfy` | `CsvLoader` | `parseCsvLine` and the row-building loop |

Loops in the source stay loops, each proved against a specification function:
- `checkDigit`'s sum;
- the window scans;
- the conversion loop;
- `parseCsvLine`'s character loop, with its `i++` skip over an escaped quote;
- the row and line loops of `readCsvFromClasspath`.

Outside inputs become parameters. The clock that `expired` reads is `today`. Jackson's decoding of the transactions argument is `decode`. `Instant.parse`, `Double.parseDouble` and `String.valueOf` of a number are the three functions of a `Conversions` value. Because a parameter stands for each of these, every property holds for any behaviour of them.

### Where the code departs from its own comments and evident intent (the model follows the code)

- **`identityMismatch` is not gated on the check digits.** The output is `nameMismatch || docNoMismatch || dobMismatch` (`ExtractorAgent.java:175`). Only the *reason* "Inconsistency between MRZ and visual fields." is gated on `validChecks` (160-162). The code therefore disagrees with itself: an MRZ that fails its checks can raise the flag without the reason that explains it. `DocSignals.BuildSignals` states the flag as the code computes it.
- **`toDocSignals` can throw.** `Integer.parseInt` on the two year chars of the birth date (243) throws for anything but an optional sign and digits. `ParseMrz` and `ToDocSignals` return this as a `Failure`/`Thrown` outcome. The exception leaves `toDocSignals`, and its public callers turn it into an "analyze-failed" error (`ExtractorAgent.java:72-75` and 93-96), so a document with such an MRZ yields no signals at all. The callers' error formatting is not part of this model.
- **The line 2 offsets are one place off from ICAO 9303 TD3, the layout the code's own comment names (`ExtractorAgent.java:212`).** The code reads nationality at 11-14, birth date at 14-20 and its check digit at 20, sex at 21, expiry at 22-28 and its check digit at 28 (213-220). The code also reads the composite check digit at 42. TD3 puts these at 10-13, 13-19, 19, 20, 21-27, 27 and 43. As a result the canonical specimen `L898902C<3UTO6908061F9406236ZE184226B<<<<<10` does not validate:
  - `Mrz.SpecimenChecksFail`: the birth-date check digit the code reads is the sex letter `F`;
  - `Mrz.SpecimenBirthDate`: the decoded birth date is `1990-80-61`.
  Only the document-number check (`Mrz.SpecimenDocNumberPasses`) and the name, "ANNA MARIA ERIKSSON" (`Mrz.SpecimenName`), come out as TD3 expects.
- **A null element in the transaction array gives no signals.** The element is read before any null check (`FraudAgent.java:147`). The resulting `NullPointerException` is swallowed by the catch (185-187), so the result is the empty list, as for undecodable text.

## Model

Paths are relative to the repository root.

| member | source | states |
|---|---|---|
| Mrz.MrzVal | src/main/java/com/demo/rag/agents/ExtractorAgent.java:257-262 | value is 0 exactly for `<`, `0` and every char outside 0-9/A-Z; digits map to at most 9, letters to 10..35 |
| Mrz.MrzValInjective | src/main/java/com/demo/rag/agents/ExtractorAgent.java:257-262 | on digits and capital letters `mrzVal` is one-to-one |
| Mrz.MrzValIncreasing | src/main/java/com/demo/rag/agents/ExtractorAgent.java:257-262 | `'A'` is 10 and the value strictly increases along the digits and along the letters |
| Mrz.Weight | src/main/java/com/demo/rag/agents/ExtractorAgent.java:252-254 | the weight of every position is 7, 3 or 1 |
| Mrz.WeightCycle | src/main/java/com/demo/rag/agents/ExtractorAgent.java:252-254 | the weights repeat with period 3 as 7, 3, 1 |
| Mrz.CheckDigit | src/main/java/com/demo/rag/agents/ExtractorAgent.java:250-256 | the loop's verdict is true iff `cd` is a digit and the weighted sum is `cd - '0'` modulo 10; a non-digit `cd` always fails |
| Mrz.WeightedSumUpdate | src/main/java/com/demo/rag/agents/ExtractorAgent.java:254 | replacing one char changes the weighted sum by its weight times the change of value |
| Mrz.CheckDigitDetectsSubstitution | src/main/java/com/demo/rag/agents/ExtractorAgent.java:250-256 | a passing check fails after any one-char substitution that changes the value modulo 10 |
| Mrz.CheckDigitMissesZeroForA | src/main/java/com/demo/rag/agents/ExtractorAgent.java:257-260 | replacing `0` by `A` (value 10) is never detected |
| Mrz.SafeSub | src/main/java/com/demo/rag/agents/ExtractorAgent.java:309-315 | "" for null; otherwise the clamped overlap of [start, end) with the string, char by char, equal to `substring` when in range |
| Mrz.SafeChar | src/main/java/com/demo/rag/agents/ExtractorAgent.java:318-321 | the char at an in-range index, `'0'` for null or out of range |
| Mrz.StripFillers | src/main/java/com/demo/rag/agents/ExtractorAgent.java:292-294 | no `<` is left, the ends are trimmed and white space is collapsed |
| Mrz.StripFillersIdempotent | src/main/java/com/demo/rag/agents/ExtractorAgent.java:292-294 | stripping twice is stripping once |
| Mrz.FillerPieces | src/main/java/com/demo/rag/agents/ExtractorAgent.java:232 | splitting at `<<` yields at least one piece, none holding `<<`, the first a prefix of the input |
| Mrz.FillerPiecesJoin | src/main/java/com/demo/rag/agents/ExtractorAgent.java:232 | joining the pieces with `<<` gives the input back, so the split loses nothing |
| Mrz.FillerPiecesSplit | src/main/java/com/demo/rag/agents/ExtractorAgent.java:232 | a first piece without `<<` and not ending in `<` comes off whole |
| Mrz.NameFields | src/main/java/com/demo/rag/agents/ExtractorAgent.java:229-234 | neither part holds `<<`; the first part is a prefix of the line after an optional `P<` |
| Mrz.JoinWords | src/main/java/com/demo/rag/agents/ExtractorAgent.java:239 | the joined name holds no filler, is trimmed and collapsed |
| Mrz.DecodeName | src/main/java/com/demo/rag/agents/ExtractorAgent.java:231-239 | the decoded name holds no filler, is trimmed and collapsed |
| Mrz.NameFieldStrips | src/main/java/com/demo/rag/agents/ExtractorAgent.java:237-238 | on a standard name field, stripping fillers is replacing each `<` by a space |
| Mrz.StandardNameFields | src/main/java/com/demo/rag/agents/ExtractorAgent.java:231-234 | on `P<` + issuer + surname `<<` given `<<` …, the two parts are issuer+surname and the given names |
| Mrz.JoinNormalWords | src/main/java/com/demo/rag/agents/ExtractorAgent.java:239 | two clean words are joined with exactly one space |
| Mrz.DecodeStandardName | src/main/java/com/demo/rag/agents/ExtractorAgent.java:230-239 | a standard line 1 decodes to the given names, a space, then the surname, with fillers as spaces |
| Mrz.SpecimenName | src/main/java/com/demo/rag/agents/ExtractorAgent.java:230-239 | the ICAO specimen line 1 decodes to "ANNA MARIA ERIKSSON" |
| Mrz.ParseTwoDigitInt | src/main/java/com/demo/rag/agents/ExtractorAgent.java:243 | fails iff the second char is not a digit or the first is neither a digit nor a sign; `dd` is its value, `+d` is `d`, `-d` is `-d` |
| Mrz.BirthDateIso | src/main/java/com/demo/rag/agents/ExtractorAgent.java:242-246 | fails exactly when `parseInt` of the year does; for six digits it is `19yy`/`20yy` (pivot 30), `-MM-`, `DD` |
| Mrz.Composite | src/main/java/com/demo/rag/agents/ExtractorAgent.java:219 | the composite block is 40 chars |
| Mrz.MrzRecord | src/main/java/com/demo/rag/agents/ExtractorAgent.java:208-248 | a missing line or a line 2 under 43 chars is the empty record; it fails with `NumberFormatException` iff the year chars 14-16 do not parse; otherwise the decoded name, the stripped document number, the ISO birth date and `validChecks` iff the four checks pass |
| Mrz.ParseMrz | src/main/java/com/demo/rag/agents/ExtractorAgent.java:208-248 | the field-by-field method computes `MrzRecord`: absent lines or a short line 2 give the empty record; `validChecks` implies all four checks pass |
| Mrz.CompositeDetectsSubstitution | src/main/java/com/demo/rag/agents/ExtractorAgent.java:219-227 | a one-char substitution in the composite block that changes its value modulo 10 makes the record invalid |
| Mrz.SpecimenDocNumberPasses | src/main/java/com/demo/rag/agents/ExtractorAgent.java:213-222 | the specimen's document number passes its check digit |
| Mrz.SpecimenChecksFail | src/main/java/com/demo/rag/agents/ExtractorAgent.java:213-227 | with the code's offsets the ICAO specimen line 2 does not validate |
| Mrz.SpecimenBirthDate | src/main/java/com/demo/rag/agents/ExtractorAgent.java:242-246 | with the code's offsets the specimen birth date decodes to `1990-80-61` |
| DocSignals.Normalize | src/main/java/com/demo/rag/agents/ExtractorAgent.java:299-301 | the result is no longer than the input and holds only A-Z and 0-9 |
| DocSignals.NormalizeChar | src/main/java/com/demo/rag/agents/ExtractorAgent.java:299-301 | one char becomes its upper-case form when that is A-Z/0-9, and nothing otherwise |
| DocSignals.NormalizeConcat | src/main/java/com/demo/rag/agents/ExtractorAgent.java:299-301 | normalising distributes over concatenation |
| DocSignals.NormalizeOfNormal | src/main/java/com/demo/rag/agents/ExtractorAgent.java:299-301 | a string of A-Z/0-9 is left alone |
| DocSignals.NormalizeIdempotent | src/main/java/com/demo/rag/agents/ExtractorAgent.java:299-301 | normalising twice is normalising once |
| DocSignals.NormalizeIgnoresCase | src/main/java/com/demo/rag/agents/ExtractorAgent.java:299-301 | upper- or lower-casing first does not change the result |
| DocSignals.SafeEqualsNormProperties | src/main/java/com/demo/rag/agents/ExtractorAgent.java:295-298 | false when either side is null; symmetric; reflexive and case-blind on present values |
| DocSignals.SeparatorIsIgnored | src/main/java/com/demo/rag/agents/ExtractorAgent.java:295-301 | names differing only in case and in one separator char (space, hyphen, ...) compare equal |
| DocSignals.Coalesce | src/main/java/com/demo/rag/agents/ExtractorAgent.java:302-305 | the first non-blank value, untrimmed; null iff all are null or blank |
| DocSignals.FirstNonBlank | src/main/java/com/demo/rag/agents/ExtractorAgent.java:187-191 | the first non-blank value, trimmed; null iff all are null or blank |
| DocSignals.JoinName | src/main/java/com/demo/rag/agents/ExtractorAgent.java:192-197 | null iff both blank; the trimmed other side when one is blank; the result is trimmed |
| DocSignals.JoinNameOfWords | src/main/java/com/demo/rag/agents/ExtractorAgent.java:196 | two trimmed, collapsed names are joined with one space |
| DocSignals.FirstNonBlankStep | src/main/java/com/demo/rag/agents/ExtractorAgent.java:187-191 | a present head is taken trimmed, otherwise the search goes on with the rest |
| DocSignals.VisualName | src/main/java/com/demo/rag/agents/ExtractorAgent.java:114-120 | null iff none of the five name candidates is present; `FullName` first, then `Name`, then the joined pairs; a result is trimmed |
| DocSignals.BirthDateOf | src/main/java/com/demo/rag/agents/ExtractorAgent.java:122 | the `DateOfBirth` date when there is one, else the `BirthDate` date; always of the `dddd-dd-dd` shape |
| DocSignals.VisualOf | src/main/java/com/demo/rag/agents/ExtractorAgent.java:114-123 | the visual name, document number, birth date and expiry are the four lookups of the code |
| DocSignals.Clamp | src/main/java/com/demo/rag/agents/ExtractorAgent.java:306 | the result is in [lo, hi] and equals `v` when `v` is |
| DocSignals.ContentOf | src/main/java/com/demo/rag/agents/ExtractorAgent.java:271-281 | null without the field; the content when it is non-blank; otherwise the string value when non-blank, else null; a result is never blank |
| DocSignals.DateOf | src/main/java/com/demo/rag/agents/ExtractorAgent.java:282-291 | null without the field; a typed date is formatted as `yyyy-MM-dd` and parses back to itself; without one, the string value iff it has the `dddd-dd-dd` shape |
| DocSignals.LinePieces | src/main/java/com/demo/rag/agents/ExtractorAgent.java:130 | splitting at line breaks yields at least one piece and no piece holds a line break |
| DocSignals.LinePiecesSplit | src/main/java/com/demo/rag/agents/ExtractorAgent.java:130 | a first line ended by LF or CRLF comes off whole |
| DocSignals.MrzLines | src/main/java/com/demo/rag/agents/ExtractorAgent.java:126-131 | no lines without MRZ text; both lines or neither; the lines hold no line break |
| DocSignals.MrzLinesOfTwo | src/main/java/com/demo/rag/agents/ExtractorAgent.java:129-132 | two lines separated by LF or CRLF become `mrzLine1` and `mrzLine2` |
| DocSignals.ReasonRanks | src/main/java/com/demo/rag/agents/ExtractorAgent.java:157-164 | the four reasons are distinct and ranked in the order of the code |
| DocSignals.ExpirySignal | src/main/java/com/demo/rag/agents/ExtractorAgent.java:143-146 | expired iff the expiry is present, parses and lies before today |
| DocSignals.CompareWithMrz | src/main/java/com/demo/rag/agents/ExtractorAgent.java:135-140 | the MRZ name fills only a missing visual name; the mismatch is the disjunction of the three per-field comparisons |
| DocSignals.QualitySignal | src/main/java/com/demo/rag/agents/ExtractorAgent.java:152-154 | quality is the confidence (0 when null) clamped to [0, 1]: 0 without a confidence, the confidence when in range, the nearer bound otherwise |
| DocSignals.CollectReasons | src/main/java/com/demo/rag/agents/ExtractorAgent.java:157-164 | each reason is present iff its condition holds, in the fixed order, none twice |
| DocSignals.BuildSignals | src/main/java/com/demo/rag/agents/ExtractorAgent.java:135-180 | every output field as the code derives it, with quality the clamped confidence and the ungated `identityMismatch` |
| DocSignals.ToDocSignals | src/main/java/com/demo/rag/agents/ExtractorAgent.java:101-183 | "no-document-parsed" iff there is no document; throws iff the birth year does not parse; otherwise the signals of the first document |
| DocSignals.BirthYearFailure | src/main/java/com/demo/rag/agents/ExtractorAgent.java:242-243 | the only failure of MRZ decoding is the `NumberFormatException` of the year |
| JavaText.Trim | src/main/java/com/demo/rag/agents/ExtractorAgent.java:189 | `trim()` leaves no char at most U+0020 at either end, takes its chars from the input and leaves a trimmed string alone |
| JavaText.TrimIsMiddle | src/main/java/com/demo/rag/agents/ExtractorAgent.java:189 | whenever the input is a run of chars at most U+0020, a middle neither starting nor ending with one, and another such run, `trim()` is exactly that middle (all of it blank gives "") |
| JavaText.CollapseSpaces | src/main/java/com/demo/rag/agents/ExtractorAgent.java:196 | `replaceAll("\\s+", " ")` leaves no run of white space and no white space but plain spaces |
| JavaText.CollapseStep | src/main/java/com/demo/rag/agents/ExtractorAgent.java:196 | `replaceAll("\\s+", " ")` turns a leading run of white space into exactly one space and keeps a leading other char |
| JavaText.CollapseKeepsNonSpace | src/main/java/com/demo/rag/agents/ExtractorAgent.java:196 | `replaceAll("\\s+", " ")` keeps every non-white-space char, in order |
| JavaText.TrimCollapse | src/main/java/com/demo/rag/agents/ExtractorAgent.java:196 | trimming then collapsing gives a trimmed, collapsed string |
| JavaText.TrimCollapseKeepsNonSpace | src/main/java/com/demo/rag/agents/ExtractorAgent.java:196 | trimming then collapsing keeps the non-white-space chars of the trimmed string, in order |
| JavaText.TrimCollapseOfNormal | src/main/java/com/demo/rag/agents/ExtractorAgent.java:196 | a trimmed, collapsed string is left alone |
| JavaText.CollapseOfCollapsed | src/main/java/com/demo/rag/agents/ExtractorAgent.java:293 | collapsing is the identity on collapsed strings |
| JavaText.ReplaceChar | src/main/java/com/demo/rag/agents/ExtractorAgent.java:293 | `replace(from, to)` changes exactly the `from` chars |
| JavaText.ToUpper | src/main/java/com/demo/rag/agents/ExtractorAgent.java:300 | `toUpperCase` maps each char by ASCII case |
| JavaText.ToLower | src/main/java/com/demo/rag/agents/ExtractorAgent.java:149 | `toLowerCase` maps each char by ASCII case |
| JavaText.DropTrailingEmpty | src/main/java/com/demo/rag/agents/ExtractorAgent.java:232 | `split` drops exactly the trailing empty pieces |
| JavaText.PartOrOfSplitResult | src/main/java/com/demo/rag/agents/ExtractorAgent.java:232-234 | dropping trailing empty pieces never changes `parts[k]`-or-"" |
| JavaTime.ParseIsoDate | src/main/java/com/demo/rag/agents/ExtractorAgent.java:145 | `LocalDate.parse` accepts only valid `yyyy-MM-dd` dates, and formatting the result gives the text back |
| JavaTime.FormatIsoDate | src/main/java/com/demo/rag/agents/ExtractorAgent.java:286 | `LocalDate.toString` of a valid date has the `yyyy-MM-dd` shape |
| JavaTime.ParseFormat | src/main/java/com/demo/rag/agents/ExtractorAgent.java:286 | parsing a formatted valid date gives the date back |
| JavaTime.BeforeIsStrictTotal | src/main/java/com/demo/rag/agents/ExtractorAgent.java:145 | `isBefore` is irreflexive, transitive and total |
| JavaTime.DaysInMonth | src/main/java/com/demo/rag/agents/ExtractorAgent.java:145 | a month has 28 to 31 days |
| JavaTime.DaysInYear | src/main/java/com/demo/rag/agents/ExtractorAgent.java:145 | the month lengths `LocalDate.parse` accepts add up to 366 days in a Gregorian leap year and 365 otherwise |
| Transactions.ParseInstant | src/main/java/com/demo/rag/agents/FraudAgent.java:241-244 | null for null; otherwise `Instant.parse` of `String.valueOf` of the value, of the text itself for text |
| Transactions.ToDouble | src/main/java/com/demo/rag/agents/FraudAgent.java:245-249 | 0 for null; a number's own value; otherwise the parsed value of its text, or 0 when it does not parse |
| Transactions.AsStr | src/main/java/com/demo/rag/agents/FraudAgent.java:250 | null iff the value is null; text is kept as it is |
| Transactions.ConvertRecord | src/main/java/com/demo/rag/agents/FraudAgent.java:146-152 | missing keys give a null timestamp, amount 0 and null strings; present keys give the parsed timestamp, a number's amount and the text of text values |
| Transactions.ConvertRecords | src/main/java/com/demo/rag/agents/FraudAgent.java:144-153 | fails iff some element is null; otherwise one converted record per element, in order |
| Transactions.InsertByKey | src/main/java/com/demo/rag/agents/FraudAgent.java:154 | insertion adds exactly the one element |
| Transactions.InsertKeepsSorted | src/main/java/com/demo/rag/agents/FraudAgent.java:154 | insertion keeps the list sorted by timestamp (null as the epoch) |
| Transactions.InsertStable | src/main/java/com/demo/rag/agents/FraudAgent.java:154 | insertion puts the element after those with an equal key |
| Transactions.SortByKey | src/main/java/com/demo/rag/agents/FraudAgent.java:154 | the result is sorted, a permutation, and keeps the input order among equal keys |
| Transactions.StableSortIsUnique | src/main/java/com/demo/rag/agents/FraudAgent.java:154 | any two sorted lists with the same order within every key are equal, so the sort's result is determined |
| FraudHeuristics.WindowStart | src/main/java/com/demo/rag/agents/FraudAgent.java:257-260 | everything before the start is evicted for the end; the start itself is not, unless it is the end |
| FraudHeuristics.EvictsLater | src/main/java/com/demo/rag/agents/FraudAgent.java:257-260 | on a sorted list eviction is kept for later ends |
| FraudHeuristics.EvictedStayEvicted | src/main/java/com/demo/rag/agents/FraudAgent.java:255-260 | the left index never has to move back |
| FraudHeuristics.PointerSettled | src/main/java/com/demo/rag/agents/FraudAgent.java:257-261 | where the inner loop stops is the window start |
| FraudHeuristics.StartIsUnique | src/main/java/com/demo/rag/agents/FraudAgent.java:257-260 | the stopping position is unique |
| FraudHeuristics.MaxWindowCount | src/main/java/com/demo/rag/agents/FraudAgent.java:252-264 | the best window size is at most the number of end positions |
| FraudHeuristics.MaxWindowCountIsMax | src/main/java/com/demo/rag/agents/FraudAgent.java:252-264 | it bounds every stamped window, is attained by one, and is 0 without timestamps |
| FraudHeuristics.MaxTransactionsInWindow | src/main/java/com/demo/rag/agents/FraudAgent.java:252-264 | the two-pointer scan returns the largest window size |
| FraudHeuristics.NullHeadIsNeverEvicted | src/main/java/com/demo/rag/agents/FraudAgent.java:258 | a null timestamp at the head stops the left index for good, so every window reaches back to it |
| FraudHeuristics.WindowAt | src/main/java/com/demo/rag/agents/FraudAgent.java:257-261 | on a fully stamped sorted list the window at the last equal timestamp counts the transactions in [t - win, t] |
| FraudHeuristics.BusiestWindow | src/main/java/com/demo/rag/agents/FraudAgent.java:252-264 | the scan's result is the largest count of transactions in a closed window of length `win` ending at a transaction |
| FraudHeuristics.Near10kCount | src/main/java/com/demo/rag/agents/FraudAgent.java:157-160 | the count is at most the number of transactions |
| FraudHeuristics.TimedNear10k | src/main/java/com/demo/rag/agents/FraudAgent.java:267-271 | holds exactly the stamped near-threshold cash deposits, each as often as in the input, no more than their count |
| FraudHeuristics.NearSorted | src/main/java/com/demo/rag/agents/FraudAgent.java:267-272 | the filtered list sorted stably: sorted, fully stamped, a permutation of the filter's result with each timestamp's order kept |
| FraudHeuristics.ScanStamped | src/main/java/com/demo/rag/agents/FraudAgent.java:273-278 | the scan over the filtered list returns its largest window size |
| FraudHeuristics.CountNear10kInWindow | src/main/java/com/demo/rag/agents/FraudAgent.java:266-280 | returns the largest window over the stamped deposits, never more than the near-threshold count |
| FraudHeuristics.StructuringMeans | src/main/java/com/demo/rag/agents/FraudAgent.java:168-170 | structuring holds iff some deposit has at least three deposits within 72 hours up to it |
| FraudHeuristics.CountsAdd | src/main/java/com/demo/rag/agents/FraudAgent.java:289-291 | merging +1 for a tracked device keeps `freq` an exact count of the window |
| FraudHeuristics.Merge | src/main/java/com/demo/rag/agents/FraudAgent.java:290 | `Map.merge` with `Integer::sum`: the key is added if missing with `delta`, else its value grows by `delta`; other keys are unchanged |
| FraudHeuristics.CountsDrop | src/main/java/com/demo/rag/agents/FraudAgent.java:294-298 | merging -1 and removing non-positive counts keeps `freq` an exact count |
| FraudHeuristics.CountsKeys | src/main/java/com/demo/rag/agents/FraudAgent.java:301 | `freq.keySet()` is the window's set of distinct devices |
| FraudHeuristics.ReleaseExpired | src/main/java/com/demo/rag/agents/FraudAgent.java:292-300 | the inner loop stops at the window start with `freq` counting that window's devices |
| FraudHeuristics.MaxDistinctDevicesIsMax | src/main/java/com/demo/rag/agents/FraudAgent.java:282-304 | the best device count bounds every window's and is attained by one |
| FraudHeuristics.DevicesBound | src/main/java/com/demo/rag/agents/FraudAgent.java:282-304 | no window holds more devices than the whole list |
| FraudHeuristics.DistinctDevicesInWindow | src/main/java/com/demo/rag/agents/FraudAgent.java:282-304 | the scan returns the largest number of distinct non-blank devices in a window |
| FraudHeuristics.Push | src/main/java/com/demo/rag/agents/FraudAgent.java:161-183 | appending the next test's signal keeps the list in test order |
| FraudHeuristics.GeoRiskIgnoresOrder | src/main/java/com/demo/rag/agents/FraudAgent.java:173-177 | the geo test depends only on which transactions there are, so sorting does not change it |
| FraudHeuristics.GeoRiskIgnoresCase | src/main/java/com/demo/rag/agents/FraudAgent.java:175-177 | upper-casing the channel and the country does not change the geo test |
| FraudHeuristics.Prepared | src/main/java/com/demo/rag/agents/FraudAgent.java:137-154 | nothing iff the text is null or blank, the decoder rejects it, the array is empty or holds a null; otherwise a nonempty sorted stable permutation of the converted records |
| FraudHeuristics.RunHeuristics | src/main/java/com/demo/rag/agents/FraudAgent.java:156-183 | each of the five signals iff its test holds, in test order; structuring implies threshold skirting |
| FraudHeuristics.AnalyzeTransactions | src/main/java/com/demo/rag/agents/FraudAgent.java:135-190 | [] on every early return and swallowed exception; otherwise exactly the signals whose tests hold on the sorted records |
| CsvLoader.Lex | src/main/java/com/demo/rag/load/LoaderController.java:94-111 | one token more than the commas read outside quotes; closed tokens are kept |
| CsvLoader.Tokens | src/main/java/com/demo/rag/load/LoaderController.java:87-113 | [] for a null line; otherwise 1 + the unquoted commas, so at least one token |
| CsvLoader.ParseCsvLine | src/main/java/com/demo/rag/load/LoaderController.java:87-113 | the character loop returns the tokens of the line |
| CsvLoader.LexFrom | src/main/java/com/demo/rag/load/LoaderController.java:105-106 | tokens already added never change |
| CsvLoader.NoQuoteRoundTrip | src/main/java/com/demo/rag/load/LoaderController.java:94-111 | without quotes, no token holds a comma and joining with commas gives the line back |
| CsvLoader.CommaFreeSplitIsUnique | src/main/java/com/demo/rag/load/LoaderController.java:104-106 | comma-free pieces with the same comma join are equal, so the split is exactly the comma-separated pieces |
| CsvLoader.LexInQuotes | src/main/java/com/demo/rag/load/LoaderController.java:96-108 | inside quotes `""` adds one quote and skips both chars; any other char, comma included, is added |
| CsvLoader.LexEscaped | src/main/java/com/demo/rag/load/LoaderController.java:96-108 | an escaped field and its closing quote add exactly the field to the token |
| CsvLoader.LexQuotedField | src/main/java/com/demo/rag/load/LoaderController.java:96-108 | a quoted field puts exactly its text into the token |
| CsvLoader.QuotedRoundTrip | src/main/java/com/demo/rag/load/LoaderController.java:94-111 | quoted, escaped, comma-joined fields are read back exactly |
| CsvLoader.UnclosedQuote | src/main/java/com/demo/rag/load/LoaderController.java:94-111 | after an unclosed quote the rest of the line, commas included, ends the last token |
| CsvLoader.Put | src/main/java/com/demo/rag/load/LoaderController.java:78 | `put` sets the key's value, leaves other keys, and appends a new key |
| CsvLoader.PutKeys | src/main/java/com/demo/rag/load/LoaderController.java:78 | a present key keeps its place; a new key goes last |
| CsvLoader.PutKeepsDistinct | src/main/java/com/demo/rag/load/LoaderController.java:78 | `put` never duplicates a key |
| CsvLoader.TrimmedNames | src/main/java/com/demo/rag/load/LoaderController.java:78 | one trimmed name per column |
| CsvLoader.BuildRow | src/main/java/com/demo/rag/load/LoaderController.java:75-79 | the loop builds the row of the trimmed columns and the line's values |
| CsvLoader.LastColumn | src/main/java/com/demo/rag/load/LoaderController.java:76-78 | the position found holds the name |
| CsvLoader.LastColumnIsLast | src/main/java/com/demo/rag/load/LoaderController.java:76-78 | no later position holds the name; none at all when nothing is found |
| CsvLoader.ZippedKeysDistinct | src/main/java/com/demo/rag/load/LoaderController.java:75-79 | a row holds each key once |
| CsvLoader.ZippedLookup | src/main/java/com/demo/rag/load/LoaderController.java:76-78 | a key's value is the line's value at the last column of that name, "" past the line's end, absent for no column |
| CsvLoader.ZippedOfDistinctNames | src/main/java/com/demo/rag/load/LoaderController.java:76-79 | with distinct names, one entry per column in header order; extra values dropped, missing ones "" |
| CsvLoader.ReadRows | src/main/java/com/demo/rag/load/LoaderController.java:67-82 | a null header is the "CSV is empty" error; otherwise one row per line, built from the header's and the line's tokens |

## Left out

- I/O and external services are not modelled. This covers:
  - the Azure Document Intelligence calls, pollers, HTTP error formatting, environment variables and JSON output of `ExtractorAgent`;
  - the LLM prompt, chat call, search and schema validation of `FraudAgent`;
  - the classpath reading, search upsert and vector store of `LoaderController`.
- Jackson decoding, `Instant.parse`, `Double.parseDouble` and `String.valueOf` of numbers are parameters, not models: their exact grammars are library behaviour.
- Timestamps are whole seconds (`int`); `Duration` comparison is subtraction. Sub-second precision and the `Instant` range limits are not modelled.
- Amounts (`Tx.amt`) and the OCR confidence (`AnalyzedDoc.confidence`) are `real`; IEEE double rounding and NaN are not modelled. In particular a NaN confidence passes through `clamp`'s `Math.max`/`Math.min` (`ExtractorAgent.java:306`) as a NaN quality, which the model cannot express.
- Strings are ASCII. Unicode case mapping, Unicode digits and the `Character.isWhitespace` separators beyond ASCII are not modelled.
- `LocalDate.parse` handles only four-digit years. Signed and five-digit years are not modelled.
- `nat` (11-14) and `sex` (21) are read by `parseMrz` but never used; the model does not read them.
- `firstNonBlank`'s null varargs array cannot occur from its call sites, which always pass an array literal, and is not modelled.
- A null field map (`d.getFields()`, `ExtractorAgent.java:112`, is whatever the service returns) is modelled as `None`. `contentOf` and `dateOf` then give null, as their `catch (Throwable)` does (`ExtractorAgent.java:271-291`).
- `readCsvFromClasspath`'s line reading is a sequence parameter.
- Transactions.ConvertRecord: for present values that are not text, the strings are `String.valueOf` of the value, stated by `AsStr`; the contract does not repeat them.
- FraudHeuristics.ScanStamped and FraudHeuristics.ReleaseExpired are the inner parts of `countNear10kInWindow` and `distinctDevicesInWindow`, written as separate methods. They run the same steps in the same order as the inline loops.
