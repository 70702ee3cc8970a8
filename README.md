# Flight tracker core: flight search, altitude filter, radio transcript

This project is a Dafny model of three client-side libraries of a live flight tracker. Together they hold the tracker's logic:

- **Flight search** (`frontend/src/lib/flightSearch.ts`). It looks up a call sign in the latest aircraft snapshot, in four steps:
  - a blank query is rejected;
  - missing data is rejected;
  - the first aircraft whose trimmed, lower-cased call sign equals the trimmed, lower-cased query is selected;
  - otherwise every aircraft whose call sign starts with the query is listed, and if there is none the result is "No flights found.".

  A selected aircraft is refreshed from each new snapshot by its `hex` code.
- **Altitude filter** (`frontend/src/lib/altitudeFilter.ts`). It keeps the aircraft within the minimum and maximum altitude.
  - A bound counts only when it is present and positive.
  - An advisory validator reports crossed or negative bounds, in a fixed order.
  - A statistics function counts what the filter keeps.
- **Radio transcript** (`frontend/src/lib/transcriptUtils.ts`). Transcript lines carry "M.SS" time labels, and the player releases them as the video plays.
  - `parseTimestamp` turns a label into seconds.
  - `getMessagesUpToTime` is a cursor loop. It releases every message that is due and stops at the first one that is still in the future.
  - Small queries cover the next message and the time until it, a message validator, a closed time-range filter and a progress percentage.

The model is split into modules:

| module | holds |
|---|---|
| `Wrappers` | `Option` |
| `Types` | the records |
| `Seqs` | `Array.prototype.find` and `filter` as `Find` and `Filter` |
| `JsString` | the JavaScript string primitives the core calls: `trim`, `toLowerCase`, `startsWith`, `split` and `parseInt(s, 10)` |
| `FlightSearch`, `AltitudeFilter`, `TranscriptUtils` | one module per core file |
| `TranscriptVectors` | the unit-test cases, stated about the model |

The pure code is modelled as functions. `getMessagesUpToTime` is a `while` loop in the source. It is modelled as a method with the same loop, which is proved equal to the function `MessagesUpToTime`. Properties the source promises are stated as `ensures` clauses or as lemmas.

Modelling decisions:

- **JSON values.**
  - A `null` or `undefined` argument is `None`.
  - A message for the validator is a `RawMessage`. Each of its fields is `Some(string)` when the field holds a string, and `None` when it is missing or holds any other type.
- **Messages.** `TranscriptMessage` has a string `timestamp`, a `speaker` and a `text`. That is how `transcriptUtils.ts` and its tests use it. `frontend/src/utils/types.ts:27-30` declares the type with a numeric timestamp and no speaker, and `transcriptUtils.ts` imports that declaration. The functions of the core and their tests treat the timestamp as an "M.SS" string label, while code outside the core (`frontend/src/App.tsx`, `frontend/src/components/`) follows the numeric declaration. The model follows the core.
- **Numbers.**
  - Altitudes and parsed timestamps are `int`.
  - Playback times and percentages are `real`.
  - `previousIndex` is a `nat`.
- **Crossed bounds.** When both bounds are set and min > max, the filter keeps nothing. The test at `frontend/src/lib/altitudeFilter.test.ts:78-83` says the filter then falls back to the minimum alone. In fact its assertion holds only because `every` is true of an empty list. The model follows the code; `AltitudeFilter.CrossedBoundsKeepNothing` states the behaviour.

## Model

| member | source | states |
|---|---|---|
| Seqs.Filter | frontend/src/lib/flightSearch.ts:55-57 | `Array.prototype.filter`: never longer than the input, and every kept element satisfies the predicate |
| Seqs.FilterIsFilteredFrom | frontend/src/lib/altitudeFilter.ts:17 | the result is an order-preserving subsequence of the input, with every satisfying element kept as often as it occurs and every other element dropped |
| Seqs.FilterKeepsAll | frontend/src/lib/altitudeFilter.ts:36 | a predicate that is always true gives back the input unchanged |
| Seqs.FilterPrefix | frontend/src/lib/transcriptUtils.ts:40-50 | when the predicate holds exactly on a prefix, the filter returns that prefix |
| Seqs.FirstIndex | frontend/src/lib/flightSearch.ts:42-44 | the index of the first element that satisfies the predicate, with no earlier one satisfying it; `None` exactly when no element satisfies it |
| Seqs.Find | frontend/src/lib/flightSearch.ts:42-44 | `Array.prototype.find`: the element at `FirstIndex` |
| JsString.LeadingWhiteSpace | frontend/src/lib/flightSearch.ts:22 | the length of the leading run of ECMAScript whitespace: every character before it is whitespace and the one at it is not |
| JsString.TextEnd | frontend/src/lib/flightSearch.ts:22 | the end of the text before trailing whitespace: every character after it is whitespace and the one before it is not |
| JsString.LeadingWhiteSpaceUnique | frontend/src/lib/flightSearch.ts:22 | those facts determine the leading whitespace run |
| JsString.TextEndUnique | frontend/src/lib/flightSearch.ts:22 | those facts determine the end of the text |
| JsString.TrimStart | frontend/src/lib/transcriptUtils.ts:15-16 | the first step of `parseInt`: a suffix of the input, with only whitespace dropped and no whitespace at its front |
| JsString.Trim | frontend/src/lib/flightSearch.ts:22 | `String.prototype.trim`: empty exactly when the input is all whitespace; otherwise exactly the input from the end of its leading whitespace to the start of its trailing whitespace, so it neither starts nor ends with whitespace |
| JsString.TrimIdempotent | frontend/src/lib/flightSearch.ts:39 | trimming trimmed text changes nothing |
| JsString.TrimIgnoresOuterWhiteSpace | frontend/src/lib/flightSearch.ts:39 | adding whitespace on either side never changes what `trim` returns |
| JsString.ToLowerCase | frontend/src/lib/flightSearch.ts:39 | `toLowerCase` on ASCII: same length, every character lowered in place, no upper-case letter left |
| JsString.ToLowerCaseIdempotent | frontend/src/lib/flightSearch.ts:43 | lowering twice is lowering once |
| JsString.TrimLowerCommute | frontend/src/lib/flightSearch.ts:43 | `trim` then `toLowerCase` equals `toLowerCase` then `trim` |
| JsString.Split | frontend/src/lib/transcriptUtils.ts:11 | `split` on one character always yields at least one piece |
| JsString.SplitJoin | frontend/src/lib/transcriptUtils.ts:11 | the pieces joined with the separator give back the input |
| JsString.SplitPiecesAvoidSeparator | frontend/src/lib/transcriptUtils.ts:11 | no piece contains the separator |
| JsString.SplitCount | frontend/src/lib/transcriptUtils.ts:12 | the number of pieces is one more than the number of separators |
| JsString.JoinSplit | frontend/src/lib/transcriptUtils.ts:11 | splitting the join of separator-free pieces gives back the pieces |
| JsString.SplitTwo | frontend/src/lib/transcriptUtils.ts:11-12 | a label with one dot splits into exactly the part before it and the part after it |
| JsString.DigitPrefix | frontend/src/lib/transcriptUtils.ts:15-16 | the longest all-digit prefix |
| JsString.ToDecimal | frontend/src/lib/transcriptUtils.ts:15 | a non-empty decimal numeral whose value is the number |
| JsString.LeadingZero | frontend/src/lib/transcriptUtils.ts:15-16 | leading zeros do not change a numeral's value |
| JsString.ReadNumeral | frontend/src/lib/transcriptUtils.ts:15-16 | `parseInt` of a numeral is its value |
| JsString.ReadNegatedNumeral | frontend/src/lib/transcriptUtils.ts:15-16 | `parseInt` of a minus sign followed by a numeral is the negated value |
| JsString.ParseIntNoDigits | frontend/src/lib/transcriptUtils.ts:18 | text that starts with neither whitespace, a sign nor a digit is NaN (`None`) to `parseInt` |
| JsString.ParseIntNaN | frontend/src/lib/transcriptUtils.ts:15-18 | `parseInt` is NaN exactly when, after leading whitespace and at most one sign, no digit follows; a negative result comes only after a minus sign |
| JsString.ParseIntShape | frontend/src/lib/transcriptUtils.ts:15-16 | whitespace, an optional sign, a numeral and any text that does not start with a digit read as the numeral's value, negated after a minus sign |
| JsString.StartsWith | frontend/src/lib/flightSearch.ts:56 | `startsWith` holds exactly when the text is the prefix followed by some rest |
| JsString.ParseIntToDecimal | frontend/src/lib/transcriptUtils.ts:15-16 | `parseInt` is a left inverse of writing a natural number in decimal |
| FlightSearch.NormalizeIdempotent | frontend/src/lib/flightSearch.ts:39-43 | `trim().toLowerCase()` applied to its own result changes nothing |
| FlightSearch.ExactMatchIsPrefixMatch | frontend/src/lib/flightSearch.ts:42-57 | an exact call-sign match is also a prefix match, and a prefix match is exact exactly when the call sign is as long as the query |
| FlightSearch.SearchFlights | frontend/src/lib/flightSearch.ts:17-73 | an error comes exactly with no selection and no results, and a selection comes with no results |
| FlightSearch.SearchBlankQuery | frontend/src/lib/flightSearch.ts:22-28 | a blank or whitespace-only query gives "Flight ID cannot be empty.", even when the data is missing |
| FlightSearch.SearchWithoutData | frontend/src/lib/flightSearch.ts:31-37 | a non-blank query with no data gives "Aircraft data not available yet." |
| FlightSearch.SearchExactMatch | frontend/src/lib/flightSearch.ts:39-52 | with an exact call-sign match, the first matching aircraft in snapshot order is selected, with no results and no error |
| FlightSearch.SearchPrefixMatches | frontend/src/lib/flightSearch.ts:54-72 | without an exact match, the results are exactly the prefix matches, in snapshot order; "No flights found." comes exactly when there are none |
| FlightSearch.SearchOutcomesExclusive | frontend/src/lib/flightSearch.ts:22-72 | exactly one of these holds: an error, a selection, or a non-empty list of results |
| FlightSearch.SearchCandidatesArePrefixMatches | frontend/src/lib/flightSearch.ts:55-57 | every listed result comes from the data, has a call sign, starts with the normalised query, and does not equal it |
| FlightSearch.SearchDependsOnNormalizedQuery | frontend/src/lib/flightSearch.ts:22-39 | two queries with the same trimmed, lower-cased form give the same result |
| FlightSearch.SearchIsCaseInsensitive | frontend/src/lib/flightSearch.ts:39 | queries that differ only in ASCII letter case give the same result |
| FlightSearch.SearchIgnoresOuterWhiteSpace | frontend/src/lib/flightSearch.ts:22-39 | whitespace around the query does not change the result |
| FlightSearch.UpdateSelectedFlight | frontend/src/lib/flightSearch.ts:81-94 | with either argument missing the selection is returned unchanged; otherwise the first aircraft with the same `hex`, or the old selection if none has it; a result is present exactly when a selection was, and has its `hex` |
| AltitudeFilter.KeepsIffWithinBounds | frontend/src/lib/altitudeFilter.ts:21-36 | the cascade of branches keeps an altitude exactly when every set bound holds, inclusively; a bound is set only when present and positive |
| AltitudeFilter.FilterAircraftByAltitude | frontend/src/lib/altitudeFilter.ts:12-38 | an order-preserving subsequence of the input: exactly the aircraft within every set bound |
| AltitudeFilter.NoBoundKeepsAll | frontend/src/lib/altitudeFilter.ts:35-36 | with no bound set (each one null, 0 or negative) the input comes back unchanged |
| AltitudeFilter.CrossedBoundsKeepNothing | frontend/src/lib/altitudeFilter.ts:21-22 | both bounds set with min > max keep nothing; there is no fallback to the minimum alone |
| AltitudeFilter.SingletonFilter | frontend/src/lib/altitudeFilter.ts:17-37 | a one-aircraft input is kept exactly when the aircraft is within every set bound |
| AltitudeFilter.ValidateAltitudeRange | frontend/src/lib/altitudeFilter.ts:46-81 | the crossed-bounds error comes exactly when both bounds are positive and min > max; the negative-minimum error exactly when the bounds are not crossed and the minimum is negative; the negative-maximum error exactly when neither of those applies and the maximum is negative; valid exactly when none applies, and an error is present exactly when the result is invalid |
| AltitudeFilter.CrossedBoundsIffFilterRejectsAll | frontend/src/lib/altitudeFilter.ts:51-63 | the validator reports crossed bounds exactly for the bounds under which the filter rejects every altitude |
| AltitudeFilter.Percentage | frontend/src/lib/altitudeFilter.ts:101 | `part / whole * 100` lies in [0, 100] and multiplied by `whole` gives `100 * part` |
| AltitudeFilter.PercentageOfWhole | frontend/src/lib/altitudeFilter.ts:101 | the whole is 100% |
| AltitudeFilter.GetAltitudeFilterStats | frontend/src/lib/altitudeFilter.ts:90-104 | `total` is the input length and `filtered` the filter's result length, which is at most `total`; the percentage lies in [0, 100], is 0 for an empty input, and is `filtered / total * 100` otherwise |
| AltitudeFilter.NoBoundStatsFull | frontend/src/lib/altitudeFilter.ts:95-103 | with no bound set and a non-empty input, the percentage is 100 |
| TranscriptUtils.ParseTimestampNeedsOneDot | frontend/src/lib/transcriptUtils.ts:11-14 | a label with no dot, or with more than one, parses to 0 |
| TranscriptUtils.ParseTimestampOfPieces | frontend/src/lib/transcriptUtils.ts:10-23 | a label with one dot is read as minutes × 60 + seconds when both pieces parse, and as 0 otherwise |
| TranscriptUtils.NonNumericLabel | frontend/src/lib/transcriptUtils.ts:18-20 | a piece that `parseInt` cannot read makes the label 0 |
| TranscriptUtils.OneDotLabel | frontend/src/lib/transcriptUtils.ts:11-12 | every label with exactly one dot is a dot-free part, a dot, and another dot-free part |
| TranscriptUtils.CombineDecomposes | frontend/src/lib/transcriptUtils.ts:22 | with seconds in 0..59, `minutes * 60 + seconds` gives back both: its quotient by 60 is the minutes and its remainder the seconds |
| TranscriptUtils.ParseFormattedTimestamp | frontend/src/lib/transcriptUtils.ts:10-23 | parsing the canonical label of m minutes and s < 60 seconds gives 60m + s |
| TranscriptUtils.DecimalLabel | frontend/src/lib/transcriptUtils.ts:10-23 | a label made of two decimal numerals reads as minutes × 60 + seconds |
| TranscriptUtils.CheckTimestampAcceptsMss | frontend/src/lib/transcriptUtils.ts:133-150 | the split-based timestamp checks accept exactly the labels made of a readable piece, one dot, and a readable piece worth 0 to 59 |
| TranscriptUtils.CheckTimestampNeedsOneDot | frontend/src/lib/transcriptUtils.ts:133-136 | a timestamp with no dot, or with more than one, gives "Timestamp must be in M.SS format" |
| TranscriptUtils.PiecesRejected | frontend/src/lib/transcriptUtils.ts:138-150 | for a label with one dot, an unreadable piece gives "Timestamp contains non-numeric values", and readable seconds outside 0..59 give "Seconds must be between 0 and 59" |
| TranscriptUtils.ValidateTranscriptMessage | frontend/src/lib/transcriptUtils.ts:112-153 | the checks run in the source's order: a missing message gives "Message is null or undefined"; then a missing or non-string timestamp, speaker or text gives its own error, in that order; once all three are filled the timestamp checks decide the result; valid exactly when the message is present, its fields are filled and its timestamp is an "M.SS" label with seconds in 0..59; an error is present exactly when invalid |
| TranscriptUtils.ValidMessageTime | frontend/src/lib/transcriptUtils.ts:112-153 | the timestamp of a valid message parses to minutes × 60 + seconds, with seconds in 0..59 |
| TranscriptUtils.FormattedMessageIsValid | frontend/src/lib/transcriptUtils.ts:112-153 | a canonical label with a non-empty speaker and text passes the validator |
| TranscriptUtils.SecondsOutOfRangeRejected | frontend/src/lib/transcriptUtils.ts:148-150 | decimal seconds of 60 or more give "Seconds must be between 0 and 59" |
| TranscriptUtils.DecimalLabelIsValid | frontend/src/lib/transcriptUtils.ts:133-152 | two decimal numerals with seconds below 60 pass the timestamp checks |
| TranscriptUtils.ShouldShowMonotone | frontend/src/lib/transcriptUtils.ts:61-67 | once a message is shown it stays shown as playback time advances |
| TranscriptUtils.ScanEnd | frontend/src/lib/transcriptUtils.ts:40-50 | where the cursor stops: never before its start, every message passed is due, and the one it stops at is not |
| TranscriptUtils.MessagesUpToTimeReleasesDue | frontend/src/lib/transcriptUtils.ts:32-53 | the cursor never moves back; the messages released are exactly `all[previousIndex..newIndex]`; each is due, and the message at `newIndex` is not; a cursor past the end releases nothing and stays where it is |
| TranscriptUtils.GetMessagesUpToTime | frontend/src/lib/transcriptUtils.ts:32-53 | the loop returns exactly the batch `MessagesUpToTime` describes |
| TranscriptUtils.ScanEndSkipsDue | frontend/src/lib/transcriptUtils.ts:40-50 | scanning over messages that are all due ends where scanning from after them ends |
| TranscriptUtils.ScanResumes | frontend/src/lib/transcriptUtils.ts:38-50 | a scan that stops early and is resumed with a weaker test ends where one scan with the weaker test ends, and the two stretches it passes make up the single one |
| TranscriptUtils.Resumable | frontend/src/lib/transcriptUtils.ts:40-50 | a call at time t1 followed by a call at a later time t2 from the returned cursor releases, in total, what one call at t2 releases, and ends at the same cursor |
| TranscriptUtils.ChronologicalDueInOrder | frontend/src/lib/transcriptUtils.ts:61-67 | on a transcript in time order, the messages due at any time come first |
| TranscriptUtils.ScanReleasesAllDue | frontend/src/lib/transcriptUtils.ts:40-50 | when the due messages come first, a scan from the start releases exactly the due messages |
| TranscriptUtils.ChronologicalScanReleasesAllDue | frontend/src/lib/transcriptUtils.ts:32-53 | on a transcript in time order, stopping early loses nothing: a scan from the start releases every due message |
| TranscriptUtils.GetNextMessage | frontend/src/lib/transcriptUtils.ts:75-83 | absent exactly when the cursor is outside the list, otherwise the message under it |
| TranscriptUtils.GetTimeUntilNextMessage | frontend/src/lib/transcriptUtils.ts:92-105 | absent exactly when there is no next message; otherwise non-negative, 0 exactly when the message is due, and otherwise the gap up to its time |
| TranscriptUtils.FilterMessagesByTimeRange | frontend/src/lib/transcriptUtils.ts:162-171 | an order-preserving subsequence: exactly the messages whose time lies in the closed interval |
| TranscriptUtils.EmptyRangeSelectsNothing | frontend/src/lib/transcriptUtils.ts:162-171 | an empty interval selects nothing |
| TranscriptUtils.GetTranscriptProgress | frontend/src/lib/transcriptUtils.ts:179-187 | 0 for an empty transcript and never above 100; on a non-empty one, non-negative for a non-negative index, 100 from the end on, and `100 * index / total` up to it |
| TranscriptUtils.ProgressShare | frontend/src/lib/transcriptUtils.ts:186 | the uncapped share times the total is `100 * index`; it is non-negative for a non-negative index, and below 100 exactly before the end |
| TranscriptVectors.ParseTimestamp1_30 | frontend/src/lib/transcriptUtils.test.ts:28-31 | "1.30" is 90 |
| TranscriptVectors.ParseTimestamp12_34 | frontend/src/lib/transcriptUtils.test.ts:42-44 | "12.34" is 754 |
| TranscriptVectors.ParseTimestamp2_60 | frontend/src/lib/transcriptUtils.test.ts:52-55 | "2.60" is 180 |
| TranscriptVectors.ParseTimestamp00_05 | frontend/src/lib/transcriptUtils.test.ts:37-40 | "00.05" is 5 |
| TranscriptVectors.ParseTimestamp0_5 | frontend/src/lib/transcriptUtils.test.ts:37-40 | "0.5" is 5 |
| TranscriptVectors.ParseTimestamp1_3 | frontend/src/lib/transcriptUtils.test.ts:57-59 | "1.3" is 63 |
| TranscriptVectors.ParseTimestamp0_00 | frontend/src/lib/transcriptUtils.test.ts:33-35 | "0.00" is 0 |
| TranscriptVectors.ParseTimestampEmpty | frontend/src/lib/transcriptUtils.test.ts:46-50 | "" is 0 |
| TranscriptVectors.ParseTimestampNoSeconds | frontend/src/lib/transcriptUtils.test.ts:46-50 | "1." is 0 |
| TranscriptVectors.ParseTimestampNoMinutes | frontend/src/lib/transcriptUtils.test.ts:46-50 | ".30" is 0 |
| TranscriptVectors.ParseTimestampNoDot | frontend/src/lib/transcriptUtils.test.ts:18-21 | "200" is 0 |
| TranscriptVectors.ParseTimestampNonNumeric | frontend/src/lib/transcriptUtils.test.ts:23-26 | "xyz.50" is 0 |
| TranscriptVectors.ParseTimestamp0_05 | frontend/src/lib/transcriptUtils.test.ts:64 | "0.05" is 5 |
| TranscriptVectors.ParseTimestamp1_00 | frontend/src/lib/transcriptUtils.test.ts:65 | "1.00" is 60 |
| TranscriptVectors.ParseTimestamp2_30 | frontend/src/lib/transcriptUtils.test.ts:66 | "2.30" is 150 |
| TranscriptVectors.UpTo0 | frontend/src/lib/transcriptUtils.test.ts:70-72 | at 0 seconds nothing is released and the cursor stays at 0 |
| TranscriptVectors.UpTo5 | frontend/src/lib/transcriptUtils.test.ts:74-77 | at 5 seconds the first message is released and the cursor moves to 1 |
| TranscriptVectors.UpTo60 | frontend/src/lib/transcriptUtils.test.ts:79-81 | at 60 seconds two messages are released and the cursor moves to 2 |
| TranscriptVectors.UpTo200From1 | frontend/src/lib/transcriptUtils.test.ts:83-86 | at 200 seconds from cursor 1 the last two are released and the cursor moves to 3 |
| TranscriptVectors.EmptyUpTo100 | frontend/src/lib/transcriptUtils.test.ts:88-91 | an empty list releases nothing |
| TranscriptVectors.ShowAt90 | frontend/src/lib/transcriptUtils.test.ts:94-98 | "1.30" is shown at 90 seconds but not at 89 |
| TranscriptVectors.SampleNext | frontend/src/lib/transcriptUtils.test.ts:100-104 | the next message at cursors 0 and 2, and none at 3 |
| TranscriptVectors.TimeUntilPast | frontend/src/lib/transcriptUtils.test.ts:107-108 | 0 once the message is past |
| TranscriptVectors.TimeUntilAhead | frontend/src/lib/transcriptUtils.test.ts:110-111 | 10 seconds to the second message at 50 seconds |
| TranscriptVectors.TimeUntilEnd | frontend/src/lib/transcriptUtils.test.ts:113-114 | absent past the end |
| TranscriptVectors.ValidateWellFormed | frontend/src/lib/transcriptUtils.test.ts:118-119 | the message "0.10", "A", "ok" is valid |
| TranscriptVectors.ValidateNull | frontend/src/lib/transcriptUtils.test.ts:121 | `null` is invalid |
| TranscriptVectors.ValidateEmptyObject | frontend/src/lib/transcriptUtils.test.ts:122 | `{}` is invalid, because its timestamp is missing |
| TranscriptVectors.ValidateNonNumeric | frontend/src/lib/transcriptUtils.test.ts:123-125 | "a.10" gives "Timestamp contains non-numeric values" |
| TranscriptVectors.ValidateSecondsOutOfRange | frontend/src/lib/transcriptUtils.test.ts:126-128 | "1.60" gives "Seconds must be between 0 and 59" |
| TranscriptVectors.ValidateNumericSpeaker | frontend/src/lib/transcriptUtils.test.ts:129-131 | a non-string speaker gives "Invalid or missing speaker" |
| TranscriptVectors.ValidateNumericText | frontend/src/lib/transcriptUtils.test.ts:132-134 | a non-string text gives "Invalid or missing text" |
| TranscriptVectors.ValidateTwoDots | frontend/src/lib/transcriptUtils.ts:134-136 | a label with two dots gives "Timestamp must be in M.SS format" |
| TranscriptVectors.RangeHoldsLastTwo | frontend/src/lib/transcriptUtils.test.ts:137-140 | the range [6, 150] selects the last two messages |
| TranscriptVectors.RangeHoldsNothing | frontend/src/lib/transcriptUtils.test.ts:142-143 | the range [151, 200] selects nothing |
| TranscriptVectors.SampleCases | frontend/src/lib/transcriptUtils.test.ts:63-67 | the sample transcript's messages fall at 5, 60 and 150 seconds, so the cases above apply to it |
| TranscriptVectors.ProgressExamples | frontend/src/lib/transcriptUtils.test.ts:146-150 | 2 of 4 is 50, 0 of 0 is 0, and 5 of 4 is capped at 100 |

## Left out

- `frontend/src/App.tsx` is not part of this model. It holds React state, polling timers, the video player, the animation-frame transcript loop, and a copy of the search logic, which is modelled once from `flightSearch.ts`.
- The backend (`backend/`), the UI components (`frontend/src/components/`), the mock data builders and the constant transcript are I/O, rendering or fixtures. They are not part of this model.
- Aircraft fields that the core never reads are dropped from `Aircraft`: position, speed, track, and the feed metadata.
- JavaScript numbers are not modelled as floating point.
  - Altitudes and parsed timestamps are unbounded integers.
  - Times and percentages are exact reals, so rounding is not modelled.
  - NaN and Infinity as inputs are not modelled.
  - `parseInt` loses precision on very long numerals; the model reads their exact value.
- JsString.ToLowerCase: lowers only the ASCII letters A-Z. JavaScript applies full Unicode case mapping, which the model does not capture.
- JavaScript falsy values other than `null` and `undefined` are not modelled as separate inputs.
  - An altitude bound of `null` is `None`. A bound of 0 is `Some(0)`, which the filter treats as unset, as the code does.
  - A falsy message (`0`, `""`, `false`) is modelled only as a missing one.
- GetMessagesUpToTime and GetNextMessage: a negative or fractional cursor is not modelled. `previousIndex` is a `nat`.
  - JavaScript reads `allMessages[-1]` as `undefined`, which `getTimeUntilNextMessage` treats like `null`. `GetNextMessage` returns `None` for a negative index.
- `undefined` and `null` results are not told apart. Both are `None`.
- JsString.ParseIntToDecimal: it states the round trip only for natural numbers. `JsString.ReadNegatedNumeral` covers a minus sign in front of a numeral separately.
- TranscriptUtils.GetTranscriptProgress: for a negative `totalMessages`, the contract states only the cap at 100. The code computes `min(100, currentIndex / totalMessages * 100)` there too, and so does the model's body.
