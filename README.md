# AI event guide: onboarding preferences, date handling and the search carousel

This project models, in Dafny, the part of the AI event guide that turns a
user's swipes into a preference vector, the date helpers around it, and the
search screen's card carousel:

- **Preference vector** (`vector.dfy`, module `PreferenceVector`) covers
  `generateUserProfileVector`. The caller's interaction records are sorted
  newest first, in place and stably. The ten newest are kept. Each event
  vector is scaled by `1/(i+1)` times 1.2 (like), 0.8 (dislike) or 1.5
  (kokoikku), or by 0 for any other action string. The scaled vectors are
  averaged component by component, dividing by the number of records kept.
  With no records, the result is 768 zeros.
- **Onboarding screen** (`preferences_session.dfy`, module `Onboarding`)
  covers `PreferencesContainer`. Its React state becomes the fields of the
  class `PreferencesSession`:
  - a swipe appends a like/dislike record;
  - `onCalculateAndSave` writes every record to the user's interaction
    collection, in order, then stores the profile vector on the user
    document;
  - the effect on `[currentIndex, events, onCalculateAndSave]` fires it
    once the deck is exhausted.
  The two Firestore hooks become write logs (`storedInteractions`,
  `userUpdates`), and `Timestamp.now()` becomes a clock parameter.
- **Server date parser** (`date_conversion.dfy`, module `DateConversion`)
  covers `convertYYYYMMDDToTimestamp`. It removes the hyphens, checks the
  length, reads each field with `parseInt`, then checks that
  `new Date(y, m-1, d)` reports the same fields back. It is modelled on a
  Gregorian calendar with JavaScript's month/day roll-over and its
  0..99 → 1900..1999 year rule (`calendar.dfy`). It also relies on
  JavaScript's `parseInt` without radix (`parse_int.dfy`) and on
  integer-to-decimal rendering (`decimal.dfy`).
- **Date formatters** (`date_formatting.dfy`, module `DateFormatting`):
  - the onboarding card's `formatDateYYYYMMDD` slices its input with
    `String.prototype.substring`, whatever the characters are;
  - `formatDate` renders a `Date`'s local fields, month one-based and
    unpadded.
- **Search screen** (`search.dfy`, module `Search`) covers
  `convertOutputEventToEvent`, the conversion of a search result list, and
  a carousel whose `handleSwipe` advances the index modulo the number of
  results.

`text.dfy` (splitting a string at a character) and `wrappers.dfy` (`Option`,
`Result`) are shared helpers. They are used to read rendered strings back in
the round-trip lemmas.

Values that JavaScript computes in IEEE doubles are `real` here. NaN from
`parseInt` is `None`. An exception thrown by the date parser is an `Err`
carrying one of `InvalidFormat`, `InvalidComponents` or `InvalidDate`.

## Model

| member | source | states |
|---|---|---|
| PreferenceVector.ParseAction | src/features/routes/preferences/utils/vector.ts:13-23 | the switch recognises exactly "like", "dislike" and "kokoikku"; every other string is kept verbatim as unrecognised |
| PreferenceVector.ActionNameRoundTrip | src/features/routes/preferences/utils/vector.ts:13-23 | the stored name of every action is parsed back to that action; an unrecognised name is never one of the three known ones |
| PreferenceVector.Weight | src/features/routes/preferences/utils/vector.ts:12-23 | a weight is never negative, and it is zero exactly for an action the switch does not recognise |
| PreferenceVector.WeightOrder | src/features/routes/preferences/utils/vector.ts:12-22 | at every position an unrecognised action weighs 0 and 0 < dislike < like < kokoikku |
| PreferenceVector.WeightFalls | src/features/routes/preferences/utils/vector.ts:15-21 | a recognised action weighs strictly less at an older position |
| PreferenceVector.MisspeltKokoikkuWeighsZero | src/features/routes/eventDetail/components/EventDetailContainer.tsx:108 | the "kokoiku" action written by the event page is not one the aggregator knows, so such a record weighs 0 |
| PreferenceVector.Insert | src/features/routes/preferences/utils/vector.ts:6 | one insertion step lengthens the list by one; InsertPermutes and InsertKeepsOrder state what it adds and that order is kept |
| PreferenceVector.SortNewestFirst | src/features/routes/preferences/utils/vector.ts:6 | the sort keeps the number of records; SortPermutes, SortOrders and SortStable state the rest |
| PreferenceVector.InsertPermutes | src/features/routes/preferences/utils/vector.ts:6 | one insertion step adds exactly the inserted record to the multiset |
| PreferenceVector.InsertKeepsOrder | src/features/routes/preferences/utils/vector.ts:6 | inserting into a newest-first list keeps it newest first |
| PreferenceVector.SortPermutes | src/features/routes/preferences/utils/vector.ts:6 | the sorted list is a permutation of the records |
| PreferenceVector.SortOrders | src/features/routes/preferences/utils/vector.ts:6 | the sorted list is ordered by descending seconds |
| PreferenceVector.SortKeepsNewestFirst | src/features/routes/preferences/utils/vector.ts:6 | a list already newest first, ties included, is left unchanged (stability) |
| PreferenceVector.SortIdempotent | src/features/routes/preferences/utils/vector.ts:6 | sorting twice gives what sorting once gives |
| PreferenceVector.TiesAppend | src/features/routes/preferences/utils/vector.ts:6 | the records of one seconds value in a concatenation are those of each part, in order |
| PreferenceVector.TiesInsert | src/features/routes/preferences/utils/vector.ts:6 | inserting a record puts it after every record of its own seconds value already there |
| PreferenceVector.SortStable | src/features/routes/preferences/utils/vector.ts:6 | for every seconds value, the records carrying it keep their input order (the sort is stable, for any input) |
| PreferenceVector.SortNewestFirstInPlace | src/features/routes/preferences/utils/vector.ts:5-6 | the array is reordered in place into the stable newest-first order of its old contents |
| PreferenceVector.InsertInPlace | src/features/routes/preferences/utils/vector.ts:6 | moving a[i] left into the sorted prefix leaves the prefix equal to the insertion and the rest of the array unchanged |
| PreferenceVector.Recent | src/features/routes/preferences/utils/vector.ts:5-7 | the slice holds min(10, n) records, newest first, all drawn from the input |
| PreferenceVector.RecentSplit | src/features/routes/preferences/utils/vector.ts:5-7 | the kept records and the dropped ones together are exactly the input, as multisets |
| PreferenceVector.RecentKeepsNewest | src/features/routes/preferences/utils/vector.ts:5-7 | no dropped record is newer than any kept record |
| PreferenceVector.WeightedVectors | src/features/routes/preferences/utils/vector.ts:11-25 | one scaled vector per kept record, each as long as its event vector |
| PreferenceVector.Scale | src/features/routes/preferences/utils/vector.ts:24 | scaling keeps the length |
| PreferenceVector.ScaleComponents | src/features/routes/preferences/utils/vector.ts:24 | each component is multiplied by the weight, so a zero weight gives a vector of zeros |
| PreferenceVector.WeightedVectorsAt | src/features/routes/preferences/utils/vector.ts:11-25 | component k of the i-th scaled vector is the i-th record's component k times its positional weight |
| PreferenceVector.WeightedVectorsPrefix | src/features/routes/preferences/utils/vector.ts:11-25 | dropping the oldest kept record drops its scaled vector and leaves the others as they were |
| PreferenceVector.ColumnSumOfZeros | src/features/routes/preferences/utils/vector.ts:32-33 | the reduce over a column of zeros is zero |
| PreferenceVector.Average | src/features/routes/preferences/utils/vector.ts:28-34 | no vectors give 768 components; otherwise the average has as many components as each vector |
| PreferenceVector.ProfileVector | src/features/routes/preferences/utils/vector.ts:28-34 | no records give 768 zeros; otherwise the result is as long as the event vectors |
| PreferenceVector.ColumnSumIsWeightedSum | src/features/routes/preferences/utils/vector.ts:32-33 | the reduce over scaled vectors equals the reference sum of weight(action, i) times component k |
| PreferenceVector.ProfileComponent | src/features/routes/preferences/utils/vector.ts:11-34 | component k is the weighted sum over the kept records divided by min(10, n), not by the sum of weights |
| PreferenceVector.ProfileOfNewestFirst | src/features/routes/preferences/utils/vector.ts:5-34 | a newest-first list of at most ten records is averaged as it stands |
| PreferenceVector.OnlyTenNewestMatter | src/features/routes/preferences/utils/vector.ts:5-7 | the profile of the ten newest records equals the profile of all of them |
| PreferenceVector.OlderRecordNeverKept | src/features/routes/preferences/utils/vector.ts:5-7 | with ten or more records, one no newer than all of them is never kept, whatever its vector |
| PreferenceVector.OlderRecordIgnored | src/features/routes/preferences/utils/vector.ts:5-7 | with ten or more records, adding one no newer than all of them leaves the profile unchanged |
| PreferenceVector.UnrecognisedDilutes | src/features/routes/preferences/utils/vector.ts:12-33 | an unrecognised oldest record adds nothing to the sum but still counts in the divisor (n instead of n - 1) |
| PreferenceVector.GenerateUserProfileVector | src/features/routes/preferences/utils/vector.ts:3-35 | returns the profile of the old contents and leaves the caller's array sorted newest first |
| Onboarding.ActionFor | src/features/routes/preferences/components/PreferencesContainer.tsx:45 | right is like, left is dislike; never kokoikku or an unrecognised action |
| Onboarding.StoredDocuments | src/features/routes/preferences/components/PreferencesContainer.tsx:61-67 | one document per record, in history order, the k-th stamped with the k-th clock reading |
| Onboarding.StoredRecordsAreHistory | src/features/routes/preferences/components/PreferencesContainer.tsx:61-66 | the records of the written documents are exactly the history, in order |
| Onboarding.WellFormedSameDimension | src/features/routes/preferences/components/PreferencesContainer.tsx:41-54 | a history built by swipes over one catalogue can be aggregated and holds no kokoikku or unrecognised action |
| Onboarding.SortWellFormed | src/features/routes/preferences/components/PreferencesContainer.tsx:70 | the in-place sort of the history keeps it well formed |
| Onboarding.PreferencesSession.constructor | src/features/routes/preferences/components/PreferencesContainer.tsx:20-23 | the first render has index 0, an empty history and nothing written |
| Onboarding.PreferencesSession.SetCurrentIndex | src/features/routes/preferences/components/CardStack.tsx:29 | the card stack sets the index; history and writes are unchanged |
| Onboarding.PreferencesSession.HandleSwipe | src/features/routes/preferences/components/PreferencesContainer.tsx:41-55 | without events, past the deck's end or without a user nothing changes; otherwise exactly one record (user, current event, action, vector, now) is appended and the index is not moved |
| Onboarding.PreferencesSession.StoreInteractions | src/features/routes/preferences/components/PreferencesContainer.tsx:61-67 | every record is written in order, the k-th stamped clock(k); nothing else changes |
| Onboarding.PreferencesSession.CalculateAndSave | src/features/routes/preferences/components/PreferencesContainer.tsx:57-85 | without a user nothing happens; otherwise all records are written, then one user update with the profile of the history stamped clock(n), and the history is left sorted |
| Onboarding.PreferencesSession.TriggerEffect | src/features/routes/preferences/components/PreferencesContainer.tsx:87-92 | the save runs exactly when the events are loaded and the index is at or past their count; it then writes every record, stores the profile of the old history and leaves the history sorted newest first; otherwise, or with no user, nothing changes |
| Onboarding.SwipeSession | src/features/routes/preferences/components/PreferencesContainer.tsx:41-55 | right then left over two events records a like then a dislike; a third swipe past the end is ignored |
| DateConversion.RemoveHyphens | functions/src/utils/date.ts:10 | no hyphen is left, nothing gets longer, and a string without hyphens is unchanged; with RemoveHyphensAppend and RemoveHyphensChar this fixes the result as the input with its hyphens filtered out |
| DateConversion.RemoveHyphensAppend | functions/src/utils/date.ts:10 | hyphens are removed piece by piece, so the other characters keep their order |
| DateConversion.RemoveHyphensChar | functions/src/utils/date.ts:10 | a single character is dropped exactly when it is a hyphen |
| DateConversion.RemoveHyphensIdempotent | functions/src/utils/date.ts:10 | removing hyphens twice is removing them once |
| DateConversion.CombineFields | functions/src/utils/date.ts:16-22 | a date exists exactly when all three fields parsed, with the month made 0-based |
| DateConversion.RoundTripsExactly | functions/src/utils/date.ts:24-29 | the round-trip check passes exactly for a real date whose year is outside 0..99 |
| DateConversion.ConvertYYYYMMDD | functions/src/utils/date.ts:8-32 | the format error occurs exactly when the string without hyphens is not 8 long; an accepted date is a real date with a year outside 0..99 |
| DateConversion.ConvertNormalised | functions/src/utils/date.ts:12-31 | on the normalised string: format error exactly when its length is not 8; every result is a real date |
| DateConversion.HyphensIgnored | functions/src/utils/date.ts:9-10 | a string and its hyphen-free form give the same outcome |
| DateConversion.ConvertAccepts | functions/src/utils/date.ts:12-31 | accepted exactly when 8 long, all fields parse and they name a real date outside years 0..99; then the parsed fields are returned |
| DateConversion.CompactFieldsConvert | functions/src/utils/date.ts:16-29 | an 8-digit string reaches the round-trip check, which alone decides |
| DateConversion.CompactFieldsRead | functions/src/utils/date.ts:16-18 | zero-padded year, month and day digits are read back as those numbers, month made 0-based |
| DateConversion.ParseFieldsOf | functions/src/utils/date.ts:16-18 | three fields that parse make ParseFields give the date built from them, month made 0-based |
| DateConversion.FieldRead | functions/src/utils/date.ts:16-18 | a zero-padded digit field is read back by parseInt |
| DateConversion.CompactDateRoundTrip | functions/src/utils/date.ts:8-31 | every real date from year 100 to 9999 written as YYYYMMDD is accepted and returned unchanged |
| DateConversion.HyphenatedDateRoundTrip | functions/src/utils/date.ts:3-31 | every real date from year 100 to 9999 written as YYYY-MM-DD is accepted and returned unchanged |
| DateConversion.SignedFieldsAccepted | functions/src/utils/date.ts:16-29 | a one-digit month and day written with a leading + (as in "2024+2+5") are read like their padded forms and accepted |
| DateConversion.LeapDay | functions/src/utils/date.ts:24-29 | 29 February is accepted exactly in leap years |
| DateConversion.MonthOutOfRange | functions/src/utils/date.ts:24-29 | month 00 and months 13 to 99 are refused as invalid dates |
| DateConversion.DayOutOfRange | functions/src/utils/date.ts:24-29 | day 00 and days past the month's end are refused as invalid dates |
| DateConversion.TwoDigitYearRejected | functions/src/utils/date.ts:24-29 | years 0000 to 0099 are refused because the Date reads them as 1900 to 1999 |
| DateConversion.LetterInMonthRejected | functions/src/utils/date.ts:16-22 | a month field starting with a Latin letter is NaN and raises the components error |
| Calendar.DaysInMonth | functions/src/utils/date.ts:27 | 28 to 31 days; 29 exactly for February of a leap year |
| Calendar.RollBack | functions/src/utils/date.ts:24 | a day number before the 1st rolls back through the earlier months and always lands on a real date |
| Calendar.RollForward | functions/src/utils/date.ts:24 | a day number past the month's end carries into the later months and always lands on a real date |
| Calendar.MakeDay | functions/src/utils/date.ts:24 | the Date built from any year, month index and day reports a real calendar date |
| Calendar.LocalDate | functions/src/utils/date.ts:24-27 | the fields a Date reports, including the 0..99 year mapping, always form a real date |
| Calendar.MakeDayOfValid | functions/src/utils/date.ts:24-27 | a real date is built without roll-over |
| Calendar.LocalDateRoundTrip | functions/src/utils/date.ts:24-29 | the Date reports the same fields exactly when they name a real date and the year is outside 0..99 |
| JsParseInt.TrimStartSpec | functions/src/utils/date.ts:16 | parseInt skips exactly the leading white space |
| JsParseInt.DigitPrefixSpec | functions/src/utils/date.ts:16 | the digits read are the longest digit prefix |
| JsParseInt.HexPrefixSpec | functions/src/utils/date.ts:16 | after 0x the longest hexadecimal prefix is read |
| JsParseInt.MagnitudeOfDigits | functions/src/utils/date.ts:16 | a run of decimal digits is never taken for a hexadecimal prefix and reads as its value |
| JsParseInt.ParseDigits | functions/src/utils/date.ts:16-18 | parseInt reads a run of decimal digits as its decimal value |
| JsParseInt.ParseIntToString | functions/src/utils/date.ts:16-18 | parseInt reads back every integer rendered in decimal, sign included |
| JsParseInt.ParseIntIgnoresTail | functions/src/utils/date.ts:16-18 | parseInt stops at the first non-digit: digits followed by anything but a digit (or an x after a lone 0) read as the digits alone |
| JsParseInt.ParseIntPlusSign | functions/src/utils/date.ts:16-18 | a leading + is skipped: "+5" reads as 5 |
| Decimal.NatToStringRoundTrip | src/utils/day.ts:7 | the decimal rendering of a natural number has that number as its value |
| Decimal.NatToString | src/utils/day.ts:7 | a natural number renders as at least one digit, only digits, and with no leading zero unless it is 0 |
| Decimal.NatToStringInjective | src/utils/day.ts:7 | different numbers render differently |
| Decimal.IntToStringInjective | src/features/routes/search/components/searchContainer.tsx:20 | different integers render differently |
| Decimal.IntToString | src/features/routes/search/components/searchContainer.tsx:20 | an integer renders as a non-empty string that starts with - exactly when it is negative |
| Decimal.IntToStringChars | src/features/routes/search/components/searchContainer.tsx:20 | a rendered integer holds only digits and a minus sign |
| Decimal.FixedDigitsRoundTrip | functions/src/utils/date.ts:16-18 | a zero-padded field of a number below 10^width has that number as its value |
| DateFormatting.Clamp | src/features/routes/preferences/components/SwipeCard.tsx:15-17 | a substring index is clamped into [0, length] |
| DateFormatting.Substring | src/features/routes/preferences/components/SwipeCard.tsx:15-17 | in-range arguments give the slice between them, in either order |
| DateFormatting.SubstringSymmetric | src/features/routes/preferences/components/SwipeCard.tsx:15-17 | the order of the two substring arguments does not matter |
| DateFormatting.SubstringPastEnd | src/features/routes/preferences/components/SwipeCard.tsx:16-17 | an end past the string's end behaves as its end |
| DateFormatting.SubstringOfPrefix | src/features/routes/preferences/components/SwipeCard.tsx:15-17 | a piece inside a prefix is the same piece of that prefix |
| DateFormatting.FormatDateYYYYMMDD | src/features/routes/preferences/components/SwipeCard.tsx:14-19 | the output is min(n, 8) + 3 characters long and ends with 日; FormatPieces gives its content for every length |
| DateFormatting.Cut | src/features/routes/preferences/components/SwipeCard.tsx:15-17 | a piece end cut to the input length is at most both, and equals one of them |
| DateFormatting.FormatPieces | src/features/routes/preferences/components/SwipeCard.tsx:14-19 | for every input length the output is the first four characters, 年, the next two, 月, the two after them and 日, each piece cut short at the end of the input |
| DateFormatting.FormatSixCharacters | src/features/routes/preferences/components/SwipeCard.tsx:14-19 | a six-character input has an empty day piece: "202402" shows as 2024年02月日 |
| DateFormatting.FormatLongInput | src/features/routes/preferences/components/SwipeCard.tsx:14-19 | eight or more characters are shown as the first eight, split 4/2/2 |
| DateFormatting.FormatIgnoresTail | src/features/routes/preferences/components/SwipeCard.tsx:15-17 | characters after the eighth are ignored |
| DateFormatting.FormatShortInput | src/features/routes/preferences/components/SwipeCard.tsx:14-19 | up to four characters never fail: they are shown followed by 年月日 |
| DateFormatting.FormatYYYYMMDDRoundTrip | src/features/routes/preferences/components/SwipeCard.tsx:14-19 | an eight-character input is read back from the eleven-character output |
| DateFormatting.FormatYYYYMMDDInjective | src/features/routes/preferences/components/SwipeCard.tsx:14-19 | different eight-character inputs are shown differently |
| DateFormatting.FormatHyphenated | src/features/routes/preferences/components/SwipeCard.tsx:14-19 | a hyphenated date is sliced through its hyphens: "2024-02-15" shows as 2024年-0月2-日 |
| DateFormatting.FormatDate | src/utils/day.ts:6-8 | the output ends with 日; an invalid Date gives NaN年NaN月NaN日 |
| DateFormatting.NatRendersAlike | src/utils/day.ts:7 | a non-negative year renders like a natural number |
| DateFormatting.FormatDateRoundTrip | src/utils/day.ts:6-8 | reading the rendering of a real date back gives that date, month 0-based |
| DateFormatting.FormatDateInjective | src/utils/day.ts:6-8 | different real dates render differently |
| DateFormatting.FormatDateMonthUnpadded | src/utils/day.ts:7 | the month is one-based and unpadded: the character after 年 is its first digit and never '0' |
| DateFormatting.FormatDateExample | src/utils/day.ts:7 | month field 1, day 5 of 2024 is shown as 2024年2月5日 |
| DateFormatting.FormattersDiffer | src/features/routes/preferences/components/SwipeCard.tsx:14-19 | for months before October the card shows a padded '0' after 年 where formatDate does not |
| Search.PriceLabel | src/features/routes/search/components/searchContainer.tsx:20 | the label starts with the adult label and ends with 円 |
| Search.PriceLabelRoundTrip | src/features/routes/search/components/searchContainer.tsx:20 | both amounts are read back from the label |
| Search.PriceLabelInjective | src/features/routes/search/components/searchContainer.tsx:20 | different prices give different labels |
| Search.ConvertOutputEventToEvent | src/features/routes/search/components/searchContainer.tsx:13-25 | id is the source URL; title, location, age range and description are copied; placeholder image, no categories; the date is start, " - ", end; the price is the price label of the result |
| Search.ConvertedPriceReadsBack | src/features/routes/search/components/searchContainer.tsx:20 | the converted event's price shows exactly the result's adult and child prices |
| Search.ConvertAll | src/features/routes/search/components/searchContainer.tsx:51 | one converted event per result, at the same position |
| Search.ConvertAllAppend | src/features/routes/search/components/searchContainer.tsx:51 | converting a concatenation converts each part in place |
| Search.NextIndex | src/features/routes/search/components/searchContainer.tsx:72 | the next index is in range, one more, or 0 after the last card |
| Search.Advance | src/features/routes/search/components/searchContainer.tsx:72 | after one or more swipes the index is in range |
| Search.AdvanceWithinLap | src/features/routes/search/components/searchContainer.tsx:72 | k swipes within one lap move the index to (i + k) mod n |
| Search.FullCycle | src/features/routes/search/components/searchContainer.tsx:72 | as many swipes as cards bring the carousel back to its card |
| Search.SearchCarousel.constructor | src/features/routes/search/components/searchContainer.tsx:28-34 | the first render has no results and index 0 |
| Search.SearchCarousel.CurrentEvent | src/features/routes/search/components/searchContainer.tsx:39 | a current event exists exactly when the index is within the results, and it is the one at the index |
| Search.SearchCarousel.ReceiveSearchResult | src/features/routes/search/components/searchContainer.tsx:49-53 | a successful result with data replaces the list with its conversion; otherwise the list is kept |
| Search.SearchCarousel.HandleSwipe | src/features/routes/search/components/searchContainer.tsx:63-77 | without a current event nothing changes; otherwise the index advances modulo the number of results, whatever the direction |
| Search.ThreeCardCycle | src/features/routes/search/components/searchContainer.tsx:63-77 | three swipes over three results come back to the first event |

## Left out

- Floating point: vectors and weights are exact reals. IEEE rounding of `1 / (index + 1) * 1.2`, of the products and of the running sums is not modelled.
- PreferenceVector.ProfileVector: requires every record's vector, kept or not, to have one length. JavaScript copes with more: the result takes the newest record's length, a longer kept vector is cut to it, and a record past the tenth is sliced away whatever its length. Only a kept vector shorter than the newest one reads `undefined` and gives NaN components. The other mixed-length inputs are excluded here although the source handles them.
- PreferenceVector.GenerateUserProfileVector: has the same equal-length requirement as ProfileVector, with the same inputs excluded.
- PreferenceVector.OnlyTenNewestMatter: stated only for records that all share one length. OlderRecordNeverKept shows that an older record past the tenth is never kept, whatever its length.
- PreferenceVector.OlderRecordIgnored: stated only when the added record has the others' length. OlderRecordNeverKept covers the added record of any length at the level of the kept records.
- The `console.warn` for an empty history is not modelled.
- The comparator `b.seconds - a.seconds` only compares seconds. Any stable sort gives the same order, so it is modelled as a stable insertion sort; nanoseconds are not modelled.
- Onboarding.PreferencesSession.constructor: requires all catalogue vectors to share one length (`dimension`). This is what makes the stored history aggregable.
- The loading and error states of the events collection are not modelled: the catalogue is given at construction, or is absent.
- `Timestamp.now()` is a clock parameter (`now`, `clock(k)`). Firestore `Timestamp` values and time zones are not modelled. The date parser returns the calendar date that `Timestamp.fromDate` would wrap.
- Firestore writes are modelled as successful appends to write logs. A failed write, the `catch` that logs it, and the effect running again while the deck stays exhausted (duplicate saves) are not modelled.
- The five-second wait after saving and the router are not modelled.
- The date parser's error messages are not modelled, only which of the three errors is thrown.
- In the search screen, the 300 ms `setTimeout`, the `direction` animation state, the detail view, the tabs and the `console.log` for a downward swipe are not modelled. The index update is applied immediately.
- `searchGrounding` (the server call behind the search results) is not part of this model. Its result is a parameter: `Some(data)` on success with data, `None` otherwise.
- `findSimilarEvents`, `sortDocsByIds` and `docsFetcher` are not part of this model.
- Strings are sequences of Unicode code points rather than UTF-16 code units. `substring` and `length` agree with JavaScript for text without characters outside the Basic Multilingual Plane.
- Prices are integers. Non-integer prices, and integers of magnitude 10^21 or more (which JavaScript renders in exponent notation), are not modelled.
- Dates are proleptic Gregorian with unbounded years. The ±8.64e15 ms range limit of `Date` is not modelled.
