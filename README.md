# Weekly notes tool — a Dafny model of its rules

The tool keeps one short note per working day and turns a week's notes into
a meeting summary. This project models the parts of it that carry rules:

- **Calendar-date arithmetic.** A date is a civil triple `Calendar.Civil(year, month0, day)`, with a 0-based month as JavaScript's `getMonth` gives it. A closed-form day number counts days from 1970-01-01, so adding days, weekdays and comparison are integer arithmetic. `Calendar.MakeDate` is JavaScript's `new Date(y, m, d)` with overflowing months and days rolled over, for every year outside 0 to 99. The module covers several operations:
  - zero-padded `YYYY-MM-DD` rendering and reading it back;
  - `addDays`;
  - the Monday-to-Friday week range of a day;
  - inclusive range membership, and filtering and stable date sorting of notes;
  - the ISO 8601 week number (ISO 8601:2004 section 4.1.4, the Thursday rule);
  - the form's 6×7 month grid.
- **The note store.** This covers `upsertEntry` (replace the first note with the same id or append, then sort by date) and `deleteEntry`. It also covers the defaulting of fields when notes are loaded, and the main screen's one-note-per-day save rule.
- **Prompt assembly.** The browser-side `buildPrompt` and the relay's copy of it (`Prompt`, `Relay`).
- **The relay's decisions.** This is abstracted from HTTP:
  - routing and the entries check;
  - data-URL splitting, following section 3 of RFC 2397;
  - the message-part list;
  - mapping the upstream outcome to a response.
- **The two components as state machines.** `NotesApp.App` holds the main screen's state and handlers. `Forms.EntryForm` holds the note form's state and handlers. The month grid is built with the form's own loops.
- **Identifier generation.** The random-bytes branch sets the version and variant bits of section 4.4 of RFC 4122 in place. It then renders the bytes as 8-4-4-4-12 lowercase hex. The model also covers the `randomUUID` branch and the timestamp fallback.

The modules follow the source files:

| module | file | source |
|---|---|---|
| `Types` | `types.dfy` | `poc-app/src/types.ts` |
| `Util` | `util.dfy` | `Array.prototype.filter` / `join`, `String.prototype.trim` / `padStart`, `String(n)` |
| `Calendar` | `calendar.dfy` | the JavaScript `Date` arithmetic the files rely on |
| `Sorting` | `sorting.dfy` | the stable `Array.prototype.sort` |
| `Dates` | `dates.dfy` | `poc-app/src/utils/date.ts` |
| `Storage` | `storage.dfy` | `poc-app/src/utils/storage.ts` |
| `Prompt` | `prompt.dfy` | `poc-app/src/utils/prompt.ts` |
| `Relay` | `relay.dfy` | `poc-app/proxy/server.mjs` |
| `NotesApp` | `app.dfy` | `poc-app/src/App.tsx` |
| `Forms` | `entry_form.dfy` | `poc-app/src/components/EntryForm.tsx` |
| `Uuid` | `uuid.dfy` | `poc-app/src/utils/uuid.ts` |

Everything the source takes from its environment is a parameter. This includes:
- the clock (`now`, today's date);
- the id generator's output (`freshId`, `ids`);
- random bytes (`Uuid.Crypto`);
- the summary service's outcome (`CallOutcome`);
- the upstream API's outcome (`UpstreamOutcome`);
- the stored value (`StoredValue`);
- a file's contents as a data URL (`Forms.File`).

## Model

| member | source | states |
|---|---|---|
| Util.Filter | poc-app/src/utils/date.ts:35-36 | every kept element is from the input and satisfies the predicate; every input element that satisfies it is kept |
| Util.FilterConcat | poc-app/src/utils/date.ts:35-36 | filtering distributes over concatenation, so relative order is kept |
| Util.FilterMultiset | poc-app/src/utils/storage.ts:40-41 | each value keeps its multiplicity when it satisfies the predicate and disappears otherwise |
| Util.FilterIdempotent | poc-app/src/utils/storage.ts:40-41 | filtering twice with one predicate equals filtering once |
| Util.FilterAll | poc-app/src/utils/storage.ts:40-41 | a filter that every element satisfies is the identity |
| Util.Trim | poc-app/src/utils/prompt.ts:18 | `String.prototype.trim`; its meaning is stated by `TrimIsSlice`, `LeadingSpace`, `TrailingSpace` and `TrimIdempotent` |
| Util.TrimIsSlice | poc-app/src/utils/prompt.ts:18 | `trim()` yields a contiguous slice of its input that neither starts nor ends with JavaScript whitespace |
| Util.TrimIdempotent | poc-app/src/utils/prompt.ts:18 | trimming a trimmed text changes nothing |
| Util.LeadingSpace | poc-app/src/utils/prompt.ts:18 | the leading run that `trim` removes is all whitespace and is followed by a non-whitespace character or the end |
| Util.TrailingSpace | poc-app/src/utils/prompt.ts:18 | the same for the trailing run |
| Util.PadStart | poc-app/src/utils/date.ts:3 | `String.prototype.padStart`; stated by `PadStartShape` |
| Util.NatToString | poc-app/src/utils/date.ts:3 | `String(n)` of a natural number; stated by `DigitsValueOfNatToString` and `DigitsInjective` |
| Util.PadStartShape | poc-app/src/utils/date.ts:3 | `padStart(width, fill)` has the target width, or the text's own length if longer; it ends with the text and is the fill before it |
| Util.DigitsValueOfNatToString | poc-app/src/utils/date.ts:3 | `String(n)` of a natural number is decimal digits that read back as `n` |
| Util.DigitsInjective | poc-app/src/utils/date.ts:3 | two digit strings of equal length and equal value are equal |
| Util.Join | poc-app/src/utils/prompt.ts:19 | `Array.prototype.join`; stated by `JoinLength` and `JoinSnoc` |
| Util.JoinLength | poc-app/src/utils/prompt.ts:17-19 | a join is all parts plus one separator between each adjacent pair |
| Util.JoinSnoc | poc-app/src/utils/prompt.ts:17-19 | appending a part to a non-empty list appends the separator and that part |
| Calendar.DaysInMonth | poc-app/src/components/EntryForm.tsx:87 | every month has 28 to 31 days |
| Calendar.NextDay | poc-app/src/utils/date.ts:7-8 | the day after a valid date is a valid date one day number later, across month and year ends |
| Calendar.PrevDay | poc-app/src/utils/date.ts:7-8 | the day before a valid date is a valid date one day number earlier |
| Calendar.MonthStart | poc-app/src/utils/date.ts:7-8 | a date lies `day - 1` days after the first of its month |
| Calendar.DayOfWeek | poc-app/src/utils/date.ts:15 | `getDay()` is 0 (Sunday) to 6 |
| Calendar.DayNumberInjective | poc-app/src/utils/date.ts:32 | distinct valid dates have distinct day numbers |
| Calendar.DayNumberOrder | poc-app/src/utils/date.ts:32 | day-number order is the lexicographic order of (year, month, day) |
| Calendar.DayNumberRoundTrip | poc-app/src/utils/date.ts:32 | day numbers and valid dates convert into each other both ways |
| Calendar.Shift | poc-app/src/utils/date.ts:20 | shifting by `n` days gives a valid date exactly `n` day numbers later |
| Calendar.ShiftCompose | poc-app/src/utils/date.ts:20-23 | shifts compose additively |
| Calendar.DayOfWeekShift | poc-app/src/utils/date.ts:15-20 | shifting by `n` days advances the weekday by `n` modulo 7 |
| Calendar.MakeDate | poc-app/src/utils/date.ts:7-8 | `new Date(y, m, d)` is a valid date: day `d` counted from the first of month `m`, with the month rolled into the year |
| Calendar.MakeDateFrom | poc-app/src/utils/date.ts:7-8 | `new Date(y, m, day + n)` lies exactly `n` days after the date |
| Calendar.MakeDateValid | poc-app/src/utils/date.ts:10-11 | normalising a valid date gives the same date |
| Calendar.MakeDateLastOfMonth | poc-app/src/components/EntryForm.tsx:87 | day 0 of the next month is the last day of this month |
| Calendar.MonthBasePrev | poc-app/src/components/EntryForm.tsx:221-225 | month `m - 1` starts on the first of the previous month, which is that month's length before the first of `m` |
| Calendar.MonthBaseNext | poc-app/src/components/EntryForm.tsx:227-231 | month `m + 1` starts on the first of the next month, which is this month's length after the first of `m` |
| Sorting.SortBy | poc-app/src/utils/date.ts:38-42 | the result is a stable sort of the input: a permutation, ascending by key, with equal keys in input order |
| Sorting.StableSortUnique | poc-app/src/utils/date.ts:38-42 | there is only one stable sort of a list, so any stable sort equals `SortBy` |
| Sorting.SortBySorted | poc-app/src/utils/date.ts:38-42 | sorting an already sorted list changes nothing |
| Sorting.FilterSorted | poc-app/src/utils/storage.ts:40-41 | filtering a sorted list leaves it sorted |
| Dates.Pad | poc-app/src/utils/date.ts:3 | `pad`; stated by `PadTwoDigits` |
| Dates.ToLocalISODate | poc-app/src/utils/date.ts:4-5 | `toLocalISODate`; stated by `ToLocalISODateFormat`, `ParseToLocalISODate` and `ToLocalISODateInjective` |
| Dates.PadTwoDigits | poc-app/src/utils/date.ts:3 | `pad(n)` for `n` < 100 is exactly two digits that read back as `n` |
| Dates.ToLocalISODateFormat | poc-app/src/utils/date.ts:4-5 | for a four-digit year the text is `YYYY-MM-DD`; its fields read back as the year, the 0-based month plus one, and the day |
| Dates.ParseISO | poc-app/src/utils/date.ts:29 | a date-only text that reads as a date names a valid date with a year of at most four digits |
| Dates.ParseToLocalISODate | poc-app/src/utils/date.ts:4-5 | reading a rendered date gives back the date (four-digit years) |
| Dates.ParseISOCanonical | poc-app/src/utils/date.ts:29 | a text that reads as a date with a four-digit year is that date's rendering |
| Dates.ToLocalISODateInjective | poc-app/src/utils/date.ts:4-5 | two dates with four-digit years render alike exactly when they are equal |
| Dates.AddDays | poc-app/src/utils/date.ts:7-8 | `addDays(d, n)` is a valid date exactly `n` days after `d` |
| Dates.AddDaysCompose | poc-app/src/utils/date.ts:7-8 | `addDays(addDays(d, a), b)` equals `addDays(d, a + b)` |
| Dates.DiffToMonday | poc-app/src/utils/date.ts:17 | the step back to Monday, Sunday going back six days; stated by `WeekMondayIsMonday` |
| Dates.WeekMonday | poc-app/src/utils/date.ts:19-20 | the `monday` of `getWeekRange`, a valid date; stated by `WeekMondayIsMonday` and `WeekMondayConstant` |
| Dates.WeekFriday | poc-app/src/utils/date.ts:22-23 | the `friday` of `getWeekRange`, a valid date; stated by `WeekFridayIsFriday` |
| Dates.GetWeekRange | poc-app/src/utils/date.ts:13-26 | `getWeekRange`; stated by `WeekMondayIsMonday`, `WeekFridayIsFriday`, `WeekRangeConstant`, `GetWeekRangeIdempotent` and `InWeekRangeExactly` |
| Dates.WeekMondayIsMonday | poc-app/src/utils/date.ts:15-20 | the week start is a Monday, and the base day lies in the seven days from it (Sunday goes back six days) |
| Dates.WeekFridayIsFriday | poc-app/src/utils/date.ts:22-23 | the week end is the week start plus four days, a Friday |
| Dates.WeekRangeConstant | poc-app/src/utils/date.ts:13-26 | every day of one Monday-to-Sunday week has the same week range |
| Dates.WeekMondayConstant | poc-app/src/utils/date.ts:15-20 | all days of one Monday-to-Sunday week go back to the same Monday |
| Dates.GetWeekRangeIdempotent | poc-app/src/utils/date.ts:13-26 | the week range of the week start is the same range |
| Dates.IsDateInRange | poc-app/src/utils/date.ts:28-33 | `isDateInRange`; stated by `InRangeOfRendered`, `InWeekRangeExactly`, `WeekRangeEndpoints` and `WeekRangeNeighbours` |
| Dates.InWeekRangeExactly | poc-app/src/utils/date.ts:28-33 | a rendered date is in a week range exactly when it lies from that Monday through the Friday |
| Dates.InRangeOfRendered | poc-app/src/utils/date.ts:28-33 | membership of rendered dates is inclusive day-number comparison at both ends |
| Dates.WeekRangeEndpoints | poc-app/src/utils/date.ts:28-33 | a range contains its own start and end |
| Dates.WeekRangeNeighbours | poc-app/src/utils/date.ts:28-33 | the day before the start and the day after the end are outside the range |
| Dates.FilterEntriesInRange | poc-app/src/utils/date.ts:35-36 | `filterEntriesInRange`; stated by `FilterEntriesInRangeExact` |
| Dates.FilterEntriesInRangeExact | poc-app/src/utils/date.ts:35-36 | the kept notes are exactly those whose date is in range, in input order, with their multiplicities |
| Dates.SortByDateAsc | poc-app/src/utils/date.ts:38-42 | the result is a permutation of the input, ascending by date |
| Dates.SortByDateAscStable | poc-app/src/utils/date.ts:38-42 | notes with equal dates keep their input order, and it is the only such ordering |
| Storage.FindIndexById | poc-app/src/utils/storage.ts:31 | `findIndex` gives -1 exactly when no note has the id, otherwise the first index holding it |
| Storage.Placed | poc-app/src/utils/storage.ts:32-37 | the list before sorting contains `next` |
| Storage.PlacedContents | poc-app/src/utils/storage.ts:31-37 | for an absent id, `next` is appended; for a present id, slot `i` becomes `next` and every other slot is kept; unique ids stay unique |
| Storage.Upserted | poc-app/src/utils/storage.ts:30-38 | the result contains `next` and is sorted ascending by date |
| Storage.UpsertedContents | poc-app/src/utils/storage.ts:31-37 | for an absent id, length + 1 and the old notes plus `next`; for a present id, length unchanged and only the first note with that id is replaced by `next` |
| Storage.UpsertEntry | poc-app/src/utils/storage.ts:30-38 | the copying and overwriting method computes `Upserted`; its input is a value and is not written |
| Storage.UpsertKeepsOthers | poc-app/src/utils/storage.ts:35-37 | every note other than `next` and the replaced one keeps its multiplicity |
| Storage.UpsertSingleId | poc-app/src/utils/storage.ts:30-38 | with unique ids, the result has unique ids and `next` is the only note with its id |
| Storage.DeleteEntry | poc-app/src/utils/storage.ts:40-41 | no kept note has the id, and every note with another id is kept |
| Storage.DeleteEntryExact | poc-app/src/utils/storage.ts:40-41 | each note with another id keeps its multiplicity, in original order |
| Storage.DeleteEntrySorted | poc-app/src/utils/storage.ts:40-41 | deleting from a sorted list leaves it sorted |
| Storage.DeleteEntryIdempotent | poc-app/src/utils/storage.ts:40-41 | deleting twice equals deleting once, and deleting an absent id is the identity |
| Storage.Restore | poc-app/src/utils/storage.ts:12-19 | on load, a missing text becomes `""`, a missing time becomes now, missing images become `[]`; id and date are copied |
| Storage.LoadEntries | poc-app/src/utils/storage.ts:6-23 | an absent or unparseable stored value gives `[]`; otherwise record `k` becomes note `k` |
| Storage.SaveEntries | poc-app/src/utils/storage.ts:25-28 | saving stores one complete record per note |
| Storage.LoadSaveRoundTrip | poc-app/src/utils/storage.ts:6-28 | loading what was saved gives back the notes |
| Prompt.BuildPrompt | poc-app/src/utils/prompt.ts:3-22 | `buildPrompt`; stated by `HeaderTextLayout`, `BodyEmpty`, `BodyAppend`, `BodyNoTrailingNewline`, `FallbackExactlyWhenEmpty` and `NoColonInFallback` |
| Prompt.HeaderText | poc-app/src/utils/prompt.ts:4-15 | `header.join("\n")`; stated by `HeaderTextLayout` |
| Prompt.PromptLine | poc-app/src/utils/prompt.ts:18 | one note's body line; stated by `Lines` |
| Prompt.Lines | poc-app/src/utils/prompt.ts:17-18 | body line `i` is note `i`'s date, `": "` and its trimmed text, in input order (no sorting) |
| Prompt.HeaderTextLayout | poc-app/src/utils/prompt.ts:4-21 | the header is the fixed lines joined by newlines, with the period line `기간: <start> ~ <end>`, an empty line and the title last |
| Prompt.BodyEmpty | poc-app/src/utils/prompt.ts:17-19 | the body is empty exactly when there are no notes, and begins with the first note's line |
| Prompt.BodyAppend | poc-app/src/utils/prompt.ts:17-19 | one more note appends a newline and its line |
| Prompt.BodyNoTrailingNewline | poc-app/src/utils/prompt.ts:17-19 | a non-empty body does not end with a newline |
| Prompt.FallbackExactlyWhenEmpty | poc-app/src/utils/prompt.ts:17-21 | the prompt is the header followed directly by the fallback message exactly when there are no notes |
| Prompt.NoColonInFallback | poc-app/src/utils/prompt.ts:21 | the fallback contains no `:`, so it cannot be mistaken for a body line |
| Relay.BuildHeader | poc-app/proxy/server.mjs:59-71 | the header that the pushes build is `RelayHeaderLines` |
| Relay.RelayHeaderShape | poc-app/proxy/server.mjs:59-71 | the period line is present exactly when both dates are present and non-empty; the header always ends with `""` and the title |
| Relay.RelayLine | poc-app/proxy/server.mjs:73-75 | one posted note's line; stated by `RelayLines` |
| Relay.RelayLines | poc-app/proxy/server.mjs:73-75 | line `i` is the date, `": "` and the trimmed text (empty when missing) of note `i` |
| Relay.UserText | poc-app/proxy/server.mjs:76 | `userText`; stated by `UserTextStart` and `RelayHeaderShape` |
| Relay.UserTextStart | poc-app/proxy/server.mjs:76 | the user text is the joined header, a newline, and then the first note's line |
| Relay.FindMarker | poc-app/proxy/server.mjs:81 | the lazy `(.*?)` ends at the first `;base64,` at or after the start |
| Relay.ExtractImage | poc-app/proxy/server.mjs:78-86 | an extracted image always has a non-empty media type |
| Relay.ExtractDataUrl | poc-app/proxy/server.mjs:80-83 | `data:<mt>;base64,<d>` splits at the first marker; an empty type becomes `application/octet-stream` |
| Relay.ExtractRaw | poc-app/proxy/server.mjs:85 | any other non-empty text is raw data of type `application/octet-stream` |
| Relay.ExtractNone | poc-app/proxy/server.mjs:79-82 | a missing or empty value, or a `data:` URL without `;base64,`, gives no image |
| Relay.UpstreamContent | poc-app/proxy/server.mjs:55-102 | the content sent upstream; stated by `BuildContent`, `ContentLength` and `SentInDateOrder` |
| Relay.BuildContent | poc-app/proxy/server.mjs:88-102 | the nested loops build the text part followed by one image part per extractable image, in note then image order |
| Relay.ContentLength | poc-app/proxy/server.mjs:88-102 | there are as many image parts as extractable images |
| Relay.ImagePartsAppend | poc-app/proxy/server.mjs:89-102 | the image parts of two lists of notes are the parts of each, in order |
| Relay.ImagePartsFromImages | poc-app/proxy/server.mjs:89-101 | every image part comes from an image of some note |
| Relay.MapOutcome | poc-app/proxy/server.mjs:120-141 | a non-ok status is passed on with `{error: body}`; ok gives 200 with the trimmed first text; a thrown error gives 500 with its message |
| Relay.Handle | poc-app/proxy/server.mjs:27-143 | OPTIONS gives 204; another method or path gives 404 `Not found`; an unreadable body gives 500; missing, non-array or empty entries give 400 and nothing is sent; otherwise the sorted content is sent and the outcome mapped |
| Relay.SentInDateOrder | poc-app/proxy/server.mjs:55-76 | the text sent is built from a sorted permutation of the posted notes, and the content has one part plus one per extractable image |
| NotesApp.Conflicts | poc-app/src/App.tsx:52-55 | the refusal condition of `handleSave`; stated by `OtherOnDateExists`, `SaveDraft` and `App.HandleSave` |
| NotesApp.KeepFor | poc-app/src/App.tsx:68 | the `withoutDate` filter; stated by `ApplySaveMembers`, `ApplySaveOnePerDate` and `ApplySaveKeepsOthers` |
| NotesApp.OtherOnDateExists | poc-app/src/App.tsx:52-55 | the conflict search succeeds exactly when a note on that date with another id exists |
| NotesApp.Complete | poc-app/src/App.tsx:60-66 | missing draft fields become the fresh id, today, `""`, now and `[]`; supplied fields are kept |
| NotesApp.ApplySave | poc-app/src/App.tsx:67-70 | after an accepted save the note is present and the list is sorted by date |
| NotesApp.SaveDraft | poc-app/src/App.tsx:50-70 | a conflicting draft is refused and the list is unchanged; otherwise the completed note is saved by `ApplySave` |
| NotesApp.ApplySaveMembers | poc-app/src/App.tsx:67-70 | the result keeps unique ids, and each of its notes is the saved one or an old note kept by the date rule |
| NotesApp.ApplySaveOnePerDate | poc-app/src/App.tsx:67-70 | the saved note occurs once and is the only note on its date |
| NotesApp.ApplySaveKeepsOthers | poc-app/src/App.tsx:67-70 | notes on other dates with other ids keep their multiplicities |
| NotesApp.ApplySaveUniqueDates | poc-app/src/App.tsx:52-70 | a list with one note per date keeps that property through an accepted save |
| NotesApp.UpsertedMembers | poc-app/src/utils/storage.ts:30-38 | every note of an upsert's result is `next` or an old note |
| NotesApp.WeekRangeFor | poc-app/src/App.tsx:33-36 | the `weekRange` memo; stated by `AdjacentWeekStarts` and `WeekNumberOfRange` |
| NotesApp.AdjacentWeekStarts | poc-app/src/App.tsx:33-36 | the week starts of adjacent offsets are exactly seven days apart |
| NotesApp.MondaysWeekApart | poc-app/src/App.tsx:33-36 | days a week apart have Mondays a week apart |
| NotesApp.DisabledDates | poc-app/src/App.tsx:178 | the dates handed to the form are exactly the dates of the week's notes other than the edited one |
| NotesApp.IsoWeekday | poc-app/src/App.tsx:27 | `getUTCDay() \|\| 7` is 1 to 7 and agrees with the weekday modulo 7 |
| NotesApp.CeilDiv7 | poc-app/src/App.tsx:30 | `Math.ceil(x / 7)` is the `r` with `7(r - 1) < x <= 7r` |
| NotesApp.Ordinal | poc-app/src/App.tsx:29-30 | the days since 1 January of the Thursday's year lie within that year |
| NotesApp.WeekThursday | poc-app/src/App.tsx:27-28 | the day `setUTCDate` moves to, a valid date; stated by `ThursdayOfWeek` |
| NotesApp.ISOWeek | poc-app/src/App.tsx:26-30 | the week number of a date; stated by `ISOWeekBounds`, `ISOWeekConstant`, `ISOWeekFirstThursday` and `ISOWeekNext` |
| NotesApp.GetISOWeek | poc-app/src/App.tsx:24-31 | `getISOWeek`: no number for a text that is not a date, otherwise `ISOWeek`; stated by `WeekNumberOfRange` |
| NotesApp.ThursdayOfWeek | poc-app/src/App.tsx:27-28 | the date moved to `+ 4 - dayNum` is the Thursday of its Monday-to-Sunday week |
| NotesApp.ISOWeekBounds | poc-app/src/App.tsx:24-31 | the week number is 1 to 53 |
| NotesApp.ISOWeekConstant | poc-app/src/App.tsx:24-31 | all seven days of a Monday-to-Sunday week have the same week number |
| NotesApp.ISOWeekFirstThursday | poc-app/src/App.tsx:24-31 | the week with the year's first Thursday is week 1 |
| NotesApp.ISOWeekNext | poc-app/src/App.tsx:24-31 | a week later the number goes up by one, or restarts at 1 when the Thursday is in a new year |
| NotesApp.WeekNumberOfRange | poc-app/src/App.tsx:123 | the number shown is the ISO week of the day the selected range was taken from |
| NotesApp.App.constructor | poc-app/src/App.tsx:18-23 | the initial state: no notes, no draft, no summary, not loading, no error, offset 0 |
| NotesApp.App.Load | poc-app/src/App.tsx:42-44 | the mount effect replaces the list by the loaded notes and changes nothing else |
| NotesApp.App.HandleSave | poc-app/src/App.tsx:50-72 | refused exactly on a conflict, leaving notes and draft as they were; otherwise the notes become `ApplySave` of the completed draft and the draft is cleared |
| NotesApp.App.HandleEdit | poc-app/src/App.tsx:74 | the note becomes the draft, nothing else changes |
| NotesApp.App.HandleCancelEdit | poc-app/src/App.tsx:76 | the draft is cleared, nothing else changes |
| NotesApp.App.HandleDelete | poc-app/src/App.tsx:78-80 | the notes become `DeleteEntry` of the old notes, nothing else changes |
| NotesApp.App.HandlePrevWeek | poc-app/src/App.tsx:117 | the offset decreases by one |
| NotesApp.App.HandleNextWeek | poc-app/src/App.tsx:118 | the offset increases by one but never passes 0 |
| NotesApp.App.HandleGenerate | poc-app/src/App.tsx:82-103 | the week is the one `weekOffset` weeks from today (`WeekRangeFor`); no notes in it gives the error and no request; otherwise the week's notes and range are sent, and the summary or the failure message is stored; loading is off on every path |
| Forms.StartDay | poc-app/src/components/EntryForm.tsx:85-86 | the weekday of the first of the month is 0 to 6 |
| Forms.MonthShape | poc-app/src/components/EntryForm.tsx:85-88 | the three `Date` computations give the start weekday, this month's length and the previous month's length |
| Forms.MonthFacts | poc-app/src/components/EntryForm.tsx:85-88 | the first day's weekday is the start day, day 0 of the next month is this month's length, day 0 of this month is the previous month's length |
| Forms.CalendarCells | poc-app/src/components/EntryForm.tsx:84-139 | the grid is 6 weeks of 7 cells, and cell `d` of week `w` is `GridCell` at position `7w + d` |
| Forms.LeadingCells | poc-app/src/components/EntryForm.tsx:97-107 | the first loop pushes the cells of the first `startDay` grid dates |
| Forms.PushLeading | poc-app/src/components/EntryForm.tsx:98-106 | one pass of the first loop appends the cell of the next leading grid date |
| Forms.MonthCells | poc-app/src/components/EntryForm.tsx:109-119 | the second loop pushes the cells of the month's days |
| Forms.PushMonth | poc-app/src/components/EntryForm.tsx:110-118 | one pass of the second loop appends the cell of the next day of the month |
| Forms.TrailingCells | poc-app/src/components/EntryForm.tsx:121-132 | the `while` loop fills the grid to exactly 42 cells |
| Forms.PushTrailing | poc-app/src/components/EntryForm.tsx:122-131 | one pass of the `while` loop appends the cell of the next day after the month |
| Forms.Chunk | poc-app/src/components/EntryForm.tsx:134-137 | 42 cells chunk into 6 weeks, where week `w` is cells `7w` to `7w + 6` |
| Forms.WeeksOfGrid | poc-app/src/components/EntryForm.tsx:134-137 | the chunked weeks hold the grid cells at their positions |
| Forms.GridLabels | poc-app/src/components/EntryForm.tsx:97-132 | out-of-month cells ending at `prevMonthDays`, then in-month labels 1 to `daysInMonth`, then out-of-month labels 1, 2, … |
| Forms.GridDateLeading | poc-app/src/components/EntryForm.tsx:97-107 | a leading cell is the matching day of the last days of the previous month |
| Forms.GridDateInMonth | poc-app/src/components/EntryForm.tsx:109-119 | an in-month cell is day `k - startDay + 1` of the month |
| Forms.GridDateTrailing | poc-app/src/components/EntryForm.tsx:121-132 | a trailing cell is the matching day of the next month |
| Forms.GridConsecutive | poc-app/src/components/EntryForm.tsx:97-132 | consecutive cells are consecutive days, and column `k mod 7` is that weekday, Sunday first |
| Forms.GridMarksUnique | poc-app/src/components/EntryForm.tsx:104-130 | at most one cell is today and, for four-digit years, at most one is selected |
| Forms.SelectedDateShown | poc-app/src/components/EntryForm.tsx:105-117 | in its own month's view a date's cell is in the month and selected |
| Forms.ParsedDateShown | poc-app/src/components/EntryForm.tsx:212-219 | after selecting a date, its day's cell in the new view is in the month and selected |
| Forms.TodayShown | poc-app/src/components/EntryForm.tsx:233-240 | after `handleToday`, today's cell in the new view is in the month, selected and marked as today |
| Forms.PrevMonthFirst | poc-app/src/components/EntryForm.tsx:221-225 | `new Date(y, m - 1, 1)` is the first of the previous month |
| Forms.NextMonthFirstDay | poc-app/src/components/EntryForm.tsx:227-231 | `new Date(y, m + 1, 1)` is the first of the next month |
| Forms.MonthNavigationRoundTrip | poc-app/src/components/EntryForm.tsx:221-231 | going forward then back, or back then forward, returns to the same month |
| Forms.MonthNavigationDistance | poc-app/src/components/EntryForm.tsx:221-231 | the shown month's first day moves by exactly the length of the month passed over |
| Forms.ReadImages | poc-app/src/components/EntryForm.tsx:141-163 | one image is read per readable file |
| Forms.ReadImagesAt | poc-app/src/components/EntryForm.tsx:142-156 | image `i` carries the `i`-th readable file's name and contents and the `i`-th id; the type is the file's `image/` type, or `application/octet-stream` when the file's type is empty |
| Forms.ReadImagesCount | poc-app/src/components/EntryForm.tsx:142-145 | nothing is read exactly when no file is an image or of unknown type; when all are, all are read |
| Forms.RemoveImageExact | poc-app/src/components/EntryForm.tsx:242-244 | removal drops exactly the images with the id, keeps the others with their multiplicities and in order |
| Forms.RemoveAbsentImage | poc-app/src/components/EntryForm.tsx:242-244 | removing an absent id changes nothing |
| Forms.RemoveAfterAppend | poc-app/src/components/EntryForm.tsx:165-169 | removing an id that no existing image has, after appending, leaves the existing images in front |
| Forms.WeekSyncedDate | poc-app/src/components/EntryForm.tsx:61-65 | the synced date is the old date or the week start |
| Forms.WeekSyncedDateSettles | poc-app/src/components/EntryForm.tsx:61-65 | for a new note the synced date is in the week, and syncing again changes nothing |
| Forms.MonthOf | poc-app/src/components/EntryForm.tsx:215-217 | the view year and month are those of the parsed date |
| Forms.EntryForm.constructor | poc-app/src/components/EntryForm.tsx:39-44 | the initial state takes date, text and images from the initial value or the defaults, and shows the current month, closed |
| Forms.EntryForm.LoadInitialValue | poc-app/src/components/EntryForm.tsx:50-59 | a given value replaces date, text and images and moves the view to its date's month (or today's month); no value changes nothing |
| Forms.EntryForm.ReceiveDisabledDates | poc-app/src/App.tsx:178 | every render of the main screen hands the mounted form the current disabled dates, and nothing else of the form's state changes |
| Forms.EntryForm.SyncToWeek | poc-app/src/components/EntryForm.tsx:61-65 | for a new note a date outside the week becomes the week start; otherwise nothing changes |
| Forms.EntryForm.HandleSubmit | poc-app/src/components/EntryForm.tsx:67-79 | the draft has the edited id, the date, the trimmed text and the images; the form then resets to today with empty text and images, closed |
| Forms.EntryForm.HandleSelectDate | poc-app/src/components/EntryForm.tsx:212-219 | accepted exactly when the date is not disabled or is the edited note's own; if accepted, date and view move to it and the calendar closes; otherwise nothing changes |
| Forms.EntryForm.HandlePrevMonth | poc-app/src/components/EntryForm.tsx:221-225 | the view moves to the previous month |
| Forms.EntryForm.HandleNextMonth | poc-app/src/components/EntryForm.tsx:227-231 | the view moves to the next month |
| Forms.EntryForm.HandleToday | poc-app/src/components/EntryForm.tsx:233-240 | date becomes today, the view today's month, and the calendar closes |
| Forms.EntryForm.AppendImages | poc-app/src/components/EntryForm.tsx:165-169 | the read images are appended after the existing ones |
| Forms.EntryForm.HandleRemoveImage | poc-app/src/components/EntryForm.tsx:242-244 | the images become those without the id, in order |
| Forms.EntryForm.ToggleCalendar | poc-app/src/components/EntryForm.tsx:246 | the calendar flips between open and closed |
| Forms.EntryForm.CloseCalendar | poc-app/src/components/EntryForm.tsx:247 | the calendar is closed |
| Uuid.Masked | poc-app/src/utils/uuid.ts:12-13 | the two masks on sixteen bytes; stated by `MaskedBits`, `MaskedIdempotent` and `MaskedFixed` |
| Uuid.SetVersionBits | poc-app/src/utils/uuid.ts:12-13 | the array becomes the masked bytes |
| Uuid.MaskedBits | poc-app/src/utils/uuid.ts:12-13 | byte 6 has high nibble 4 and keeps its low nibble; byte 8 has top bits `10` and keeps its low six bits; the other fourteen bytes are unchanged |
| Uuid.MaskedIdempotent | poc-app/src/utils/uuid.ts:12-13 | masking twice equals masking once |
| Uuid.MaskedFixed | poc-app/src/utils/uuid.ts:12-13 | the masks leave the bytes unchanged exactly when they already carry version 4 and the RFC 4122 variant |
| Uuid.VersionDigit | poc-app/src/utils/uuid.ts:12 | masked byte 6 starts with the hex digit `4` |
| Uuid.VariantDigit | poc-app/src/utils/uuid.ts:13 | masked byte 8 starts with `8`, `9`, `a` or `b` |
| Uuid.ToHex | poc-app/src/utils/uuid.ts:14 | `toHex`; stated by `ToHexDigits` |
| Uuid.ToHexDigits | poc-app/src/utils/uuid.ts:14 | `toString(16).padStart(2, "0")` of a byte is exactly two lowercase digits, the high nibble then the low one |
| Uuid.HexCharValue | poc-app/src/utils/uuid.ts:14 | each digit reads back as its value |
| Uuid.HexAt | poc-app/src/utils/uuid.ts:16-20 | a group's text is twice as long as its bytes, with byte `i` at `2i` |
| Uuid.FormatUuid | poc-app/src/utils/uuid.ts:15-22 | the segments joined by hyphens; stated by `FormatLayout`, `FormatHexChars`, `ParseFormat` and `FormatInjective` |
| Uuid.FormatLayout | poc-app/src/utils/uuid.ts:15-22 | the text is 36 characters with hyphens at 8, 13, 18 and 23, and every byte's two digits stand at its place |
| Uuid.FormatHexChars | poc-app/src/utils/uuid.ts:15-22 | apart from the hyphens, every character is lowercase hex |
| Uuid.FormatMaskedIsV4 | poc-app/src/utils/uuid.ts:12-22 | formatting the masked bytes gives canonical version-4 text, with `4` at 14 and one of `8`, `9`, `a`, `b` at 19 |
| Uuid.ParseFormat | poc-app/src/utils/uuid.ts:15-22 | reading the two digits at each byte's place gives back the byte values |
| Uuid.FormatInjective | poc-app/src/utils/uuid.ts:15-22 | distinct byte strings give distinct texts |
| Uuid.GenerateId | poc-app/src/utils/uuid.ts:2-27 | `randomUUID`'s value when offered; otherwise the masked random bytes formatted, which is version-4 text; otherwise `id-<now>-<digits of the random fraction>`, which starts with `id-` |

## Left out

- HTTP and network I/O are not modelled: the server, body streaming, the upstream `fetch`, environment and prompt-file loading. The parsed request body and the upstream outcome are datatypes (`Relay.RequestBody`, `Relay.UpstreamOutcome`).
- `max_tokens`, `temperature`, the system prompt and the request JSON are passed through to the upstream API unchanged, so the model does not carry them.
- The upstream reply beyond its first text field is not modelled. The relay's `JSON.parse` of it is the outcome `NotJson` (a 500) or `Json(firstText)`.
- `localStorage`, `JSON.parse` and `JSON.stringify` are not modelled. The stored value is absent, unparseable or a list of records (`Storage.StoredValue`), and `saveEntries` writes a record list.
- The client wrappers `openai.ts` and `ocr.ts` are not modelled. The summary call is a `CallOutcome` parameter of `HandleGenerate`.
- Rendering is not modelled: JSX, `SummaryPanel`, `EntryList`, `Header`, locale formatting, the clipboard, drag state and the file input.
- React scheduling is not modelled. Effects and state setters are method calls that take effect at once, with no batching or re-render ordering.
- Clocks, randomness and the id generator are parameters: `now`, today's date (`todayISO`, `today`), `freshId`, the image `ids`, and the `Uuid.Crypto` sources.
- Time zones are not modelled. JavaScript reads `new Date("YYYY-MM-DD")` as UTC and the getters as local time. The model uses one civil calendar with no offsets, so a date text always means its own day. This covers `isDateInRange` and the form's `new Date(iso)`.
- `Calendar.MakeDate`, `Calendar.MakeDateFrom`, `Calendar.MakeDateValid` and `Dates.AddDays`: JavaScript's `Date` constructor reads a year of 0 to 99 as 1900 + y, and these members agree with it only for other years. For such a year `addDays`, `normalizeDate` and the form's grid land in the twentieth century in the source, while the model keeps the year as written.
- `NotesApp.GetISOWeek`, `NotesApp.ISOWeek` and `NotesApp.WeekThursday`: `Date.UTC` also reads a year of 0 to 99 as 1900 + y, and these members agree with `getISOWeek` only when neither the date's year nor its Thursday's year is in 0 to 99. For `"0001-12-30"` the source takes the week of 1901-12-30, which is 1, while the model gives 52. For `"0100-01-01"`, a Friday, the Thursday is 0099-12-31 and its year start is read as 1999-01-01, so the source gives a large negative number while the model gives 53.
- Only date-only texts are modelled (`Dates.ParseISO`: exactly `YYYY-MM-DD`, a valid day). Any other text is no date, so it is outside every range (NaN comparisons are false).
- `Dates.SortByDateAsc`, `Storage.Upserted`, `Storage.UpsertEntry`, `NotesApp.ApplySave`, `NotesApp.SaveDraft`, `NotesApp.App.HandleSave`, `NotesApp.App.Load`, `Relay.Handle`: these require every note's date to parse. With NaN keys the JavaScript comparator gives an engine-defined order.
- `Forms.EntryForm.HandleSelectDate`, `Forms.EntryForm.HandleToday`, `Forms.EntryForm.LoadInitialValue` and `Forms.MonthOf` require the date they move the view to to parse. Otherwise the source sets the view to NaN, which the model does not represent.
- `Dates.ParseToLocalISODate`, `Dates.ToLocalISODateInjective`, `Dates.InWeekRangeExactly`, `Dates.WeekRangeEndpoints`, `Dates.WeekRangeNeighbours`, `Forms.TodayShown`, `Forms.ParsedDateShown` and `Forms.GridMarksUnique` hold for four-digit years only. `String(year)` is not padded, so other years do not give the `YYYY-MM-DD` form that reads back.
- `NotesApp.AdjacentWeekStarts` and `NotesApp.WeekNumberOfRange` have the same four-digit-year limit.
- `Forms.ReadImages` and `Forms.EntryForm.AppendImages`: the `FileReader` is asynchronous and can fail. The model reads every readable file at once, with contents given as its data URL, and takes one generated id per readable file as a parameter (`ids`); a failed read is not modelled.
- `Uuid.GenerateId` takes the sixteen bytes `getRandomValues` writes as a parameter. The fallback takes the random number's `toString(16)` text and the clock as parameters.
- Floating-point values are not modelled. `Math.random()` is not modelled either; of its hex text only `slice(2)` is kept.
- `handleCopy`, `formatGeneratedAt`, `weekLabel` and the save effect (`saveEntries` on every change) are display or I/O only.
- A `Dafny` integer is unbounded. The source's numbers (times, offsets) are doubles whose range the tool's values never reach, so no wrap-around is modelled.
