# Relationship OS — contact cadence, review ranking and people list

Relationship OS is a personal CRM. For every person it keeps the date of the
last interaction and an ideal contact frequency in days, and from these it
derives a contact schedule: days since the last contact, the next due date,
the signed days until it and whether the person is overdue. Three pages use
that schedule:

- the weekly review, which scores every person by importance, staleness and
  open loops and shows the five highest;
- the people list, which can keep only the overdue people and sorts by name,
  last contact, next contact or "overdue first";
- a person's page, which shows the next-contact text, a timeline of
  interactions with relative dates and type labels, and an edit form whose
  save trims the name, refuses a blank one and normalises the frequency.

This project models that logic in Dafny and proves what it promises.

- Instants are integer milliseconds since the epoch.
- A day is 86 400 000 ms, and the start of a day is the instant rounded down
  to a whole day.
- `Math.round(a / b)` is computed exactly on integers.
- The page's clock (`new Date()`, `Date.now()`), `Date.parse`, `Number(string)`,
  `localeCompare` and the locale date formatting are parameters of the
  functions that use them.
- `Array.prototype.sort` is a stable insertion sort. Every comparator the
  pages pass except `localeCompare` is proved to be a total preorder;
  `localeCompare` is assumed to be one (see "Left out"). For such a
  comparator a sorted permutation that keeps tied elements in input order
  is unique (`Sorting.StableSortIsUnique`), so every stable sort returns
  this same list.

Modules:

- `Js` (js.dfy): the JavaScript built-ins involved — NaN and the infinities,
  `Math.round`, the decimal rendering of integers in template strings, and
  `String.prototype.trim`.
- `Sorting` (sorting.dfy): the stable sort, with proofs that it sorts, that
  it permutes its input, that it is stable and that no other stable sort
  gives a different list.
- `ContactDates` (contact_dates.dfy): `src/lib/contactDates.ts`.
- `Review` (review.dfy): the scoring, ranking and formatting in
  `src/pages/Review.tsx`.
- `People` (people.dfy): the decorated, filtered and sorted list and the due
  label in `src/pages/People.tsx`.
- `Person` (person.dfy): the helpers of `src/pages/Person.tsx`.
- `Scenarios` (scenarios.dfy): worked examples with concrete dates.

## Model

| member | source | states |
|---|---|---|
| Js.Round | src/lib/contactDates.ts:28 | Math.round gives the integer within half a unit of its argument, halves going up |
| Js.RoundDiv | src/lib/contactDates.ts:51 | Math.round(a / b) for b > 0 is the integer q with 2qb <= 2a + b < 2qb + 2b |
| Js.RoundDivExact | src/lib/contactDates.ts:57-59 | dividing an exact multiple of the day length rounds to the exact quotient |
| Js.RoundDivMonotone | src/pages/Review.tsx:42 | Math.round(a / b) never decreases as a grows |
| Js.NatToString | src/lib/contactDates.ts:102 | the decimal text of a count is non-empty, all digits, has no leading zero (zero is exactly "0") and reads back as the count |
| Js.IntToString | src/pages/Review.tsx:80 | the text of an integer is its decimal numeral without a leading zero (zero is exactly "0"), preceded by "-" exactly when the integer is negative, and it reads back as the integer |
| Js.IntToStringInjective | src/pages/Review.tsx:80 | different integers have different texts |
| Js.NatToStringInjective | src/lib/contactDates.ts:102 | different counts have different decimal texts |
| Js.NumeralPrefixUnique | src/lib/contactDates.ts:102 | a numeral followed by text that does not start with a digit splits in only one way |
| Js.Trim | src/pages/Person.tsx:205 | trim removes only whitespace, and only at the ends: the result is a contiguous piece of the text, everything before and after it is whitespace, it neither starts nor ends with whitespace, and it is empty exactly when the text is all whitespace |
| Js.TrimOfTrimmed | src/pages/Person.tsx:205 | text without whitespace at its ends is its own trim |
| Js.TrimIdempotent | src/pages/Person.tsx:205 | trimming twice is trimming once |
| Sorting.SortBy | src/lib/contactDates.ts:84 | the sort keeps the length and the elements of its input |
| Sorting.SortBySorted | src/pages/Review.tsx:58 | for a total-preorder comparator the result is ordered and is a permutation of the input |
| Sorting.SortByStable | src/pages/Review.tsx:58 | elements the comparator ties keep their input order |
| Sorting.SortedStableUnique | src/pages/Review.tsx:58 | for a total preorder, two sorted lists with the same elements and the same order within every group of tied elements are equal |
| Sorting.StableSortIsUnique | src/pages/Review.tsx:58 | for a total preorder, any sorted permutation that keeps tied elements in input order is exactly the sort's result |
| ContactDates.StartOfDay | src/lib/contactDates.ts:3-7 | the start of the day is a whole-day instant at most the given one and less than a day before it |
| ContactDates.StartOfDayMonotone | src/lib/contactDates.ts:3-7 | a later instant never starts an earlier day |
| ContactDates.ParseDate | src/lib/contactDates.ts:9-14 | a missing or empty text is no date; any other text is what Date.parse makes of it |
| ContactDates.SanitizeFrequency | src/lib/contactDates.ts:24-29 | a frequency exists exactly for a finite number above zero; it is that number rounded, and it is 0 exactly below one half |
| ContactDates.LastInstant | src/lib/contactDates.ts:42-47 | text goes through parseDate (nothing for "" or text Date.parse rejects), a Date is used as it is, and anything else gives no date |
| ContactDates.Cadence | src/lib/contactDates.ts:54 | a next date needs a truthy frequency: exactly a finite number of at least one half, rounded to a whole number of days of at least one |
| ContactDates.Schedule | src/lib/contactDates.ts:31-70 | each field exists exactly when its inputs do; days since is never negative; the next date is the last day plus the frequency; days until is the signed day distance to it; overdue exactly when today is strictly after the due day, that is exactly when days until is negative |
| ContactDates.NoLastContactNoSchedule | src/lib/contactDates.ts:48-61 | without a usable last date every derived field is absent and nobody is overdue |
| ContactDates.UnparseableIsNoContact | src/lib/contactDates.ts:42-48 | an unreadable or empty last-contact text behaves exactly like no last contact |
| ContactDates.FutureContactIsZeroDaysAgo | src/lib/contactDates.ts:50-52 | a last contact dated today or later counts as zero days ago |
| ContactDates.DaysUntilIsFrequencyMinusDaysSince | src/lib/contactDates.ts:50-59 | for a past last contact the days until due are the frequency minus the days since |
| ContactDates.DueTodayIsNotOverdue | src/lib/contactDates.ts:57-61 | due today is not overdue; one day past due is |
| ContactDates.ParsedDates | src/lib/contactDates.ts:81-83 | exactly the interaction dates that parse are kept |
| ContactDates.NewestFirstHeadIsLatest | src/lib/contactDates.ts:84 | sorting newest first puts the latest instant at the head, and the list is empty only when no date parsed |
| ContactDates.MostRecent | src/lib/contactDates.ts:81-84 | no date exactly when none parses; otherwise one of the parsed dates and no earlier than any of them |
| ContactDates.ScheduleFromInteractions | src/lib/contactDates.ts:72-87 | the schedule of the latest readable interaction; a last day exists exactly when some date parses, and no readable date falls on a later day |
| ContactDates.DayCountUnique | src/lib/contactDates.ts:102 | the count is read back from "n day(s)" whatever text follows it |
| ContactDates.DayCountReadsBack | src/lib/contactDates.ts:102 | the text of a count n is a numeral that reads back as n, followed by " day" when n is 1 and " days" otherwise |
| ContactDates.FormatRelativeDays | src/lib/contactDates.ts:98-103 | "" exactly for no count, "today" exactly for zero, the count's text followed by " ago" for a positive count, and "in " followed by the text of the absolute value for a negative count |
| ContactDates.FormatRelativeDaysInjective | src/lib/contactDates.ts:98-103 | two counts with the same text are equal, so the text determines the count |
| ContactDates.FormatRelativeDaysSingular | src/lib/contactDates.ts:102 | for a non-zero count, "day" without an "s" is written exactly when the absolute value is one: a past text ends in " day ago" and a future one in " day" exactly then |
| Review.DaysSince | src/pages/Review.tsx:41-43 | the rounded whole days since the last interaction, never negative, zero for a future date |
| Review.Recency | src/pages/Review.tsx:38-44 | no recency exactly when the last date is missing or unreadable; otherwise the days since, capped at 60 |
| Review.ScoreOf | src/pages/Review.tsx:45-47 | the score is importance×10 + recency + open loops×15, with 60 standing in for a missing recency |
| Review.ScoreRow | src/pages/Review.tsx:36-57 | the row keeps id, name, importance and open loops, keeps its last date only when it is readable, and scores ScoreOf of its importance, recency and open loops, which lies between importance×10 + loops×15 and that plus 60 |
| Review.Scored | src/pages/Review.tsx:36-57 | one scored row per person, in input order |
| Review.Rank | src/pages/Review.tsx:36-59 | the list holds five rows, or every row when there are fewer people |
| Review.NeverContactedScoresAsStale | src/pages/Review.tsx:45-47 | nobody ever contacted scores exactly like 60 days of silence, and never below a contacted person |
| Review.ScoreMonotone | src/pages/Review.tsx:46-47 | the score never falls as importance, staleness or open loops grow |
| Review.OlderContactNoLessStale | src/pages/Review.tsx:41-43 | an older last interaction is never fewer days ago |
| Review.OlderContactScoresNoLower | src/pages/Review.tsx:38-47 | of two people alike but for their last interaction, the one contacted earlier never scores lower |
| Review.ByScoreIsTotalPreorder | src/pages/Review.tsx:58 | the descending-score comparator is a total preorder |
| Review.RankSortedByScore | src/pages/Review.tsx:58-59 | the list goes by descending score |
| Review.RankKeepsHighestScores | src/pages/Review.tsx:58-59 | the list is a sub-multiset of the scored rows, and no left-out row outscores a kept one |
| Review.RankRowsComeFromInput | src/pages/Review.tsx:36-59 | every listed row is the scored form of some input row |
| Review.RankKeepsInputOrderOnTies | src/pages/Review.tsx:58-59 | rows with equal scores appear in input order |
| Review.FormatLast | src/pages/Review.tsx:65-70 | "No interactions yet" for no date, "Last: —" for an unreadable one, otherwise the formatted date |
| Review.RankedRowsHaveReadableLast | src/pages/Review.tsx:52 | a listed row never carries an unreadable last date |
| Review.FormatOpenLoops | src/pages/Review.tsx:72-76 | "No open loops" exactly for 0, "1 open loop" exactly for 1, otherwise the count with "open loops" |
| Review.FormatOpenLoopsInjective | src/pages/Review.tsx:72-76 | different counts give different texts |
| Review.FormatRecency | src/pages/Review.tsx:78-81 | "Recency: —" exactly without a recency, otherwise the days with a "d" |
| Review.FormatRecencyInjective | src/pages/Review.tsx:78-81 | different recencies give different texts |
| People.Decorate | src/pages/People.tsx:105-111 | a row is the person with the schedule of their last contact date and frequency |
| People.KeepRows | src/pages/People.tsx:112 | without the filter every row stays; with it exactly the overdue rows stay, with their multiplicity |
| People.AllDecorated | src/pages/People.tsx:104-111 | one decorated row per person, in order |
| People.DecoratedList | src/pages/People.tsx:103-140 | the list never has more rows than there are people |
| People.Compare | src/pages/People.tsx:113-139 | by name: the collation; by last contact: non-positive exactly when a's last contact is no earlier than b's, a missing one read as 0; by next contact: negative exactly when a has a next date and b has none or a later one, zero exactly when both are equal or both missing; otherwise overdue rows first, then the same order on days until due |
| People.ExtendedOrder | src/pages/People.tsx:122-130 | a non-positive comparison of two optional instants puts a missing one only before another missing one, and otherwise orders the instants ascending |
| People.ComparatorIsTotalPreorder | src/pages/People.tsx:113-139 | every mode's comparator is a total preorder (the name mode when the collation is one), so by `Sorting.StableSortIsUnique` every stable sort gives the same list |
| People.DecoratedListContents | src/pages/People.tsx:103-140 | the list is a permutation of all rows without the filter, and exactly the overdue rows with it |
| People.DecoratedRowsAreScheduled | src/pages/People.tsx:105-111 | every row is an input person with that person's schedule |
| People.DecoratedListSorted | src/pages/People.tsx:113-139 | the list is ordered by the mode's comparator |
| People.DecoratedListKeepsInputOrderOnTies | src/pages/People.tsx:113-139 | rows the mode's comparator ties appear in the order of the filtered query result |
| People.LastContactModeOrder | src/pages/People.tsx:117-121 | latest last contact first, no last contact read as time 0 |
| People.NextContactModeOrder | src/pages/People.tsx:122-130 | earliest next date first; rows without one come last |
| People.OverdueCompareMeaning | src/pages/People.tsx:131-138 | a row may precede an overdue row only when it is overdue too; within a group, fewer days until due first |
| People.OverdueModeOrder | src/pages/People.tsx:131-138 | every overdue row precedes every other; within each group ascending days until due, rows without one last |
| People.NameModeOrder | src/pages/People.tsx:114-116 | names go in collation order |
| People.DueLabel | src/pages/People.tsx:287-301 | "" exactly without a count, "Due today" exactly for zero, the text of the absolute value followed by " overdue" for a negative count, and "in " followed by the count's text for a positive one |
| People.DueLabelInjective | src/pages/People.tsx:287-301 | two counts with the same label are equal, so the label determines the count |
| People.DueLabelSingular | src/pages/People.tsx:289-300 | for a non-zero count, "day" without an "s" is written exactly when the absolute value is one: an overdue label ends in " day overdue" and a future one in " day" exactly then |
| People.DueLabelMatchesOverdue | src/pages/People.tsx:287-301 | a row is overdue exactly when its count is negative, so "Due today" is never overdue |
| Person.ParseDateOrNull | src/pages/Person.tsx:38-42 | null exactly when Date.parse gives no finite instant |
| Person.ParseDateOrNullAgreesWithParseDate | src/pages/Person.tsx:38-42 | on non-empty text the page's parse agrees with the schedule's |
| Person.RelativeLabelForDate | src/pages/Person.tsx:44-49 | "" exactly for an unreadable date, "today" exactly when the date is less than half a day ago or in the future, otherwise "… ago" and never the future wording |
| Person.RelativeLabelReadsBack | src/pages/Person.tsx:44-49 | the label shows count n exactly when n is the rounded days since the date |
| Person.RelativeLabelMonotone | src/pages/Person.tsx:44-49 | an earlier date never shows a smaller count |
| Person.LoadFrequency | src/pages/Person.tsx:145-150 | a stored number loads as it is; stored text loads as its number unless that is 0 or NaN, when it is 14; anything else loads as 14 |
| Person.SaveFrequency | src/pages/Person.tsx:214-219 | a frequency is saved exactly for a finite number above zero, rounded to the nearest integer; otherwise null |
| Person.SaveFrequencyIsSanitized | src/pages/Person.tsx:214-219 | the save normalises the frequency exactly as the schedule sanitises it |
| Person.ReloadThenSaveFrequency | src/pages/Person.tsx:145-150 | the save expression applied to the loaded value gives a positive stored frequency back unchanged, null for zero or a negative one, and 14 for a missing one |
| Person.SaveReloadSaveIsStable | src/pages/Person.tsx:214-219 | once a positive frequency is saved, reloading and saving again stores the same value |
| Person.SavePersonDetails | src/pages/Person.tsx:204-222 | nothing without an id; the error "Name is required" exactly for a blank name; otherwise the update with the trimmed name, the trimmed context or null when blank, and the saved frequency |
| Person.SavedNameIsTrimmed | src/pages/Person.tsx:205-209 | a saved name is not blank, has no whitespace at its ends and saves again unchanged |
| Person.NextContactLabel | src/pages/Person.tsx:423-434 | "Log an interaction" exactly when there is no next date |
| Person.NextContactLabelIsDueLabel | src/pages/Person.tsx:423-434 | with a next date and a count the label is word for word the people list's due label |
| Person.NextContactLabelOverdueWording | src/pages/Person.tsx:423-434 | the label ends in "overdue" exactly for a negative count |
| Person.NextContactLabelOfSchedule | src/pages/Person.tsx:423-434 | for the page's schedule the label says "overdue" exactly when the person is overdue and asks for an interaction exactly when no next date exists |
| Person.FindOption | src/pages/Person.tsx:630-631 | no option exactly for an unknown type; otherwise the first option with that value |
| Person.TypeLabel | src/pages/Person.tsx:629-632 | a known type shows its option's caption, any other text shows itself (the empty text too), no type shows "Interaction" |
| Person.CaptionsDistinct | src/pages/Person.tsx:26-33 | the option captions are pairwise different and none is "Interaction" |
| Person.KnownTypeLabelsDistinct | src/pages/Person.tsx:26-33 | distinct known types show distinct captions, none of them "Interaction" |
| Scenarios.FortnightlyContactFiveDaysOverdue | src/lib/contactDates.ts:31-70 | last contact 2024-01-01, every 14 days, seen 2024-01-20: 19 days since, due 2024-01-15, 5 days overdue |
| Scenarios.LatestReadableInteractionWins | src/lib/contactDates.ts:81-84 | of "2024-01-01", "bad" and "2024-03-01" the last is chosen |
| Scenarios.TimelineKnownTypeLabel | src/pages/Person.tsx:629-632 | the type "meeting" shows "In-person" |
| Scenarios.TimelineOtherTypeLabels | src/pages/Person.tsx:629-632 | "walk" shows itself, "" shows "", no type shows "Interaction" |

## Left out

- Storage and network: the SQLite queries, the hosted database and its authentication, and the AI and voice-note features are not part of this model. Query results (the latest interaction date, the importance with its default of 3, the open-loop count) are inputs.
- React rendering, state hooks, routing and styling are not modelled. Neither are the page handlers other than the save's guard and payload and the form's frequency default on load (`Person.LoadFrequency`): the rest of loading a person, adding an interaction, editing notes and deleting.
- The clock, `Date.parse`, `Number(string)`, `localeCompare` and `toLocaleDateString` are parameters (`today`/`now`, `parse`, `toNumber`, `collate`, `display`). The date grammar and locale rules are not modelled.
- Time zones and daylight saving: the start of a day is the instant rounded down to a multiple of 86 400 000 ms. With a single time zone and no shifts, the rounding over day differences is exact.
- Floating point: frequencies are exact reals. Instants and counts are unbounded integers, so precision loss above 2^53 and the ±8.64e15 ms range of a JavaScript Date are not modelled.
- `ContactDates.Schedule`: a `Date` object whose time is NaN (an Invalid Date passed as the last contact) is not representable. A Date value is always a valid instant.
- `People.Compare`: the sort mode is a four-valued type. Any mode string other than the first three falls through to the overdue comparator, and the model reads it as `OverdueFirst`.
- `People.NameModeOrder` and `People.ComparatorIsTotalPreorder` hold for collations that are total preorders; `localeCompare` is assumed to be one.
- `Js.IntToString` and `Js.NatToString` render integers only. The pages interpolate one other value: a missing days-until count in the person page's next-contact text (src/pages/Person.tsx:431), which JavaScript renders as "null". `Person.NextContactLabel` writes that text out as "in null days" directly.
- The person form's frequency field is a number input with a minimum of 1 and the default step of 1 (src/pages/Person.tsx:494, 529-531), so the browser refuses to submit zero, negative or fractional values. That validation is not modelled: `Person.SaveFrequency` and `Person.ReloadThenSaveFrequency` describe the save expression on any value, and the page never reaches its null-for-zero-or-negative and 0-for-below-one-half cases.
- `People.Decorate` reads the clock once for the whole list (`today`), while `calculateContactSchedule` defaults to a fresh `new Date()` for each row (src/lib/contactDates.ts:34, called per row at src/pages/People.tsx:107). Rows computed across a day boundary are not modelled.
- `Person.ParseDateOrNull` returns the instant rather than a `Date` object, and the timeline's display of it is locale formatting.
- `Person.SavePersonDetails` returns the update it would perform instead of executing it and reloading; database errors and the saving flag are not modelled.
