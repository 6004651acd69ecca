# Heatmap habit tracker — a Dafny model

This project models the core of a habit tracker. Each *topic* (a tracked metric such as "Coding" in hours) holds sparse data: one value per calendar date. The core has these parts:

- **The shared record** (`shared/schema.ts`): `Topic` is `{id, name, unit, data}`. Both stores merge a partial update into a record with the spread `{...topic, ...updates}` (`client/src/lib/localStorage.ts:66`, `server/storage.ts:98`).
- **The client store** (`client/src/lib/localStorage.ts`): a `Map<string, Topic>` that is mirrored into one localStorage item after every change. It offers create, update, delete, export, import and clear.
- **The server store** (`server/storage.ts`): the same Map held in memory. It is seeded with three sample topics, one of them filled with random sample data.
- **The HTTP handlers** (`server/routes.ts`): they map what the server store reports to status codes. The import handler validates an uploaded JSON array element by element.
- **The heatmap engine** (`client/src/components/heatmap.tsx`):
  - the intensity level of a value
  - the 371-cell calendar grid ending in the current week
  - the statistics: total, this week, today, and the current streak
- **The page and its components** (`client/src/pages/home.tsx`, `sidebar.tsx`, `modals.tsx`):
  - the edit path, which sets a date's value or deletes the date when the value is 0
  - the download filename stamp
  - the file import
  - the quick-add form and the two dialogs

The model uses these representations:

- A calendar date is a day number counted from 1970-01-01 (a Thursday).
- A point in time is milliseconds since the epoch. Every date computation is taken in UTC.
- A topic's data object is the sequence of its `(date, value)` properties in property order. This is the order `Object.values` and `Object.entries` visit them in. The sums add the same values; the grouping of the additions differs from the source's left-to-right `reduce`, which only matters for floating-point rounding, and that is not modelled.
- A `Map` is a key order plus a key-to-topic map, which gives JavaScript's insertion-order iteration.
- Stateful objects are classes whose methods update their fields:
  - the two stores
  - the page state
  - the sidebar form
  - the two dialogs
- The grid and streak loops, and the import validation loop, are methods with loop invariants. Each is proved against a specification predicate or function.

Things the model cannot compute are parameters:

- The clock (`now`, and the `Clock` fields of the stamp).
- Fresh ids: an `id` argument required not to be a key yet.
- `Math.random()`: a stream of draws in [0, 1).
- `parseFloat`: `string -> Option<real>`, where `None` is NaN.
- The number formatting of `toString()`.
- The JSON parser: a parsed value is given.

## Model

| member | source | states |
|---|---|---|
| Schema.Merge | client/src/lib/localStorage.ts:66 | each field present in the partial update replaces the stored one; absent fields keep their values |
| Schema.Get | client/src/components/heatmap.tsx:41 | `data[date]` is absent exactly when no property has that date; a value found is the value of a property with that date |
| Schema.GetEntry | client/src/components/heatmap.tsx:41 | in an object with unique dates, looking up an entry's date yields that entry's value |
| Schema.ValueOn | client/src/components/heatmap.tsx:41 | `data[d]` with 0 as fallback is the value of a property dated `d`, or 0 when no property has that date |
| Schema.DayOf | client/src/components/heatmap.tsx:56 | the UTC date of an instant is the day whose midnight is at or before it and whose next midnight is after it |
| Schema.Positive | client/src/components/heatmap.tsx:64 | `data[date] && data[date] > 0` holds only when a property dated `date` has a positive value, and with unique dates exactly then |
| Schema.DayOfWeek | client/src/components/heatmap.tsx:35 | `getDay()` is 0 to 6, and 0 (Sunday) exactly on the days 3 modulo 7 from 1970-01-01 |
| Schema.Delete | client/src/pages/home.tsx:117-118 | `delete data[d]` keeps exactly the other properties; `d` is then absent and every other date reads as before; it shrinks only when `d` was present; unique dates stay unique |
| Schema.Put | client/src/pages/home.tsx:119-120 | `data[d] = v` makes `d` read `v`; every other date reads as before; the length grows only when `d` was absent; no other entry appears; unique dates stay unique |
| TopicMap.Values | client/src/lib/localStorage.ts:44-46 | `Array.from(topics.values())` lists one record per key, in key order |
| TopicMap.Remove | client/src/lib/localStorage.ts:76 | the key order after `delete(k)` holds exactly the other keys; stays duplicate-free; is one shorter when `k` was present; is unchanged when it was not |
| TopicMap.Insert | client/src/lib/localStorage.ts:26 | the key order after `set(k, v)` starts with the old order unchanged, contains `k`, grows by one exactly when `k` was new (so a new key goes last), and stays duplicate-free |
| TopicMap.InsertWellFormed | client/src/lib/localStorage.ts:26 | `set(k, v)` keeps the key order duplicate-free and in step with the map |
| TopicMap.Find | client/src/pages/home.tsx:51 | `find` returns nothing exactly when no topic has the id; otherwise it returns the first topic with that id |
| TopicMap.Without | client/src/pages/home.tsx:93 | `filter(t => t.id !== id)` keeps exactly the topics with another id |
| TopicMap.ImportWellFormed | client/src/lib/localStorage.ts:84-88 | the store that `forEach(set)` builds has a duplicate-free key order and every record under its own id |
| TopicMap.ImportKeys | client/src/lib/localStorage.ts:86-88 | after an import, the keys are exactly the ids of the imported records |
| TopicMap.ImportLaterWins | client/src/lib/localStorage.ts:86-88 | among records with the same id, the last one is the one stored |
| TopicMap.ExportImportRoundTrip | client/src/lib/localStorage.ts:80-91 | importing what `exportData` returns rebuilds the same store: the same keys, order and records |
| TopicMap.ImportValuesPrefix | client/src/lib/localStorage.ts:80-91 | importing the values of any duplicate-free key list rebuilds that key order and exactly those records |
| TopicMap.ValuesAfterRemove | client/src/pages/home.tsx:89-99 | listing the store after deleting a key gives the old listing without the records carrying that id |
| ClientStore.ClientStorage.constructor | client/src/lib/localStorage.ts:20-33 | loading sets every saved record under its id, in array order; nothing saved gives an empty store |
| ClientStore.ClientStorage.SetEach | client/src/lib/localStorage.ts:25-27 | the `forEach(set)` loop builds exactly the imported store and leaves the saved item alone |
| ClientStore.ClientStorage.GetAllTopics | client/src/lib/localStorage.ts:44-46 | the listing has one record per key, in insertion order, and every stored record is in it |
| ClientStore.ClientStorage.GetTopicById | client/src/lib/localStorage.ts:48-50 | the record under `id`, present exactly when the key is |
| ClientStore.ClientStorage.CreateTopic | client/src/lib/localStorage.ts:52-58 | the new record takes the fresh id and becomes the last key; nothing else changes; the store is saved |
| ClientStore.ClientStorage.UpdateTopic | client/src/lib/localStorage.ts:60-70 | a missing id is the not-found error with no change; otherwise the merged record replaces the old one in the same place and the store is saved |
| ClientStore.ClientStorage.DeleteTopic | client/src/lib/localStorage.ts:72-78 | a missing id is the not-found error with no change; otherwise exactly that key goes and the store is saved |
| ClientStore.ClientStorage.ExportData | client/src/lib/localStorage.ts:80-82 | the export lists the store in insertion order, and importing it gives back the same store |
| ClientStore.ClientStorage.ImportData | client/src/lib/localStorage.ts:84-91 | the store is replaced by the imported records alone and saved; the input comes back with the success message |
| ClientStore.ClientStorage.ImportNonArray | client/src/lib/localStorage.ts:84-86 | given a non-array, the Map is cleared and `forEach` throws before saving: the store is empty and the saved item is untouched |
| ClientStore.ClientStorage.ClearAllData | client/src/lib/localStorage.ts:93-96 | the store is empty and the saved item is removed |
| ServerStore.GenerateSampleData | server/storage.ts:48-72 | 365 days from 2024-01-01 produce increasing dates; whole values are 1 to 8 on weekdays and 1 to 3 on weekends; zeros are not stored |
| ServerStore.IsWeekday | server/storage.ts:57-60 | `getDay()` is 1 to 5 exactly on the days that are not 2 (Saturday) or 3 (Sunday) modulo 7 from 1970-01-01 |
| ServerStore.SampleIsPositive | server/storage.ts:66-68 | the sample data holds no zero or negative value and no repeated date |
| ServerStore.MemStorage.constructor | server/storage.ts:15-46 | three topics in the order Coding (hours, sample data), Reading (pages), Exercise (minutes), each under its own id |
| ServerStore.MemStorage.GetTopic | server/storage.ts:74-76 | the record under `id`, present exactly when the key is |
| ServerStore.MemStorage.GetAllTopics | server/storage.ts:78-80 | one record per key, in insertion order, and every stored record is in it |
| ServerStore.MemStorage.CreateTopic | server/storage.ts:82-92 | the fresh id with the given name and unit; data defaults to empty; becomes the last key; records stay keyed by id |
| ServerStore.MemStorage.UpdateTopic | server/storage.ts:94-101 | a missing id gives nothing and no change; otherwise the merged record replaces the old one under the same key; an `id` in the update is stored in the record, so the record's id then differs from its key |
| ServerStore.MemStorage.DeleteTopic | server/storage.ts:103-105 | reports whether the key was present; afterwards it is gone and the rest is unchanged |
| Routes.ListTopics | server/routes.ts:10-17 | 200 with every topic in insertion order |
| Routes.GetTopic | server/routes.ts:20-30 | 404 "Topic not found" for an unknown id, else 200 with the record |
| Routes.CreateTopic | server/routes.ts:33-44 | a body failing the schema is 400 and stores nothing; a valid one is 201 with the new record, which carries the fresh id and the body's name, unit and data (data defaulting to empty), and is stored as the last key |
| Routes.PatchTopic | server/routes.ts:47-57 | 404 with no change for an unknown id, else 200 with the merged record, which is also stored |
| Routes.DeleteTopic | server/routes.ts:60-70 | 404 when the key was absent, else 204 with no body; the key is gone either way |
| Routes.Truthy | server/routes.ts:101 | a value is truthy exactly when it is present and is not one of null, false, 0 and the empty string |
| Routes.Property | server/routes.ts:101 | `topic.key` reads a member only of an object; on an object it reads something exactly when some member has the key, and what it reads is that member's value |
| Routes.IsObjectType | server/routes.ts:101 | `typeof v === 'object'` holds exactly for a present value that is not a boolean, number or string: objects, arrays and null |
| Routes.Member | server/routes.ts:101 | a missing member reads as undefined exactly when no member has the key; a value read belongs to a member with that key |
| Routes.MemberLastWins | server/routes.ts:92 | with repeated keys in the parsed text, the value of the last one is the member's value |
| Routes.CheckTopic | server/routes.ts:100-104 | an element throws exactly when it is null; it passes exactly when it is an object with truthy `id`, `name` and `unit` and an object-typed `data` |
| Routes.FirstFailure | server/routes.ts:100-104 | the array passes exactly when every element passes |
| Routes.FirstFailureAt | server/routes.ts:100-104 | the first element that fails decides the outcome |
| Routes.ImportResponse | server/routes.ts:86-111 | all or nothing: the import answers 200 exactly when every element passes and the store takes the array, and then echoes the array; otherwise it answers 400 or 500 |
| Routes.EmptyStringRejected | server/routes.ts:101-102 | an element whose id, name or unit is the empty string, after only valid elements, makes the whole upload 400 |
| Routes.HandleImport | server/routes.ts:86-111 | the handler's early-return loop answers as the import specification says; the array reaches the store exactly when all elements pass |
| Heatmap.Total | client/src/components/heatmap.tsx:49 | the year total is 0 for no data and never negative for non-negative values |
| Heatmap.MaxValue | client/src/components/heatmap.tsx:24 | the maximum is at least 1, bounds every value, and is 1 or one of the values |
| Heatmap.Since | client/src/components/heatmap.tsx:52-53 | the filter keeps exactly the entries dated at or after the cutoff |
| Heatmap.WeekAgo | client/src/components/heatmap.tsx:50-51 | seven days before now: the same time of day, on the date seven days earlier |
| Heatmap.WeekTotal | client/src/components/heatmap.tsx:50-54 | this week's total is 0 when every entry's midnight is before seven days ago |
| Heatmap.WeekWindow | client/src/components/heatmap.tsx:50-54 | an entry counts in this week exactly when it is in the data and its date's midnight is at or after seven days before now |
| Heatmap.WeekTotalAtMostTotal | client/src/components/heatmap.tsx:49-54 | for non-negative values, this week's total lies between 0 and the year total |
| Heatmap.Level | client/src/components/heatmap.tsx:11-19 | the level is 0 to 5; it is 0 exactly for 0; a positive value gets the smallest level `l` with ratio at most `l/5`; a negative value gets level 1 |
| Heatmap.LevelMonotone | client/src/components/heatmap.tsx:11-19 | a larger non-negative value never gets a lower level |
| Heatmap.PeakGetsTopLevel | client/src/components/heatmap.tsx:11-24 | a largest value of at least 1 is the maximum and shows at level 5 |
| Heatmap.NoTopLevelBelowFourFifths | client/src/components/heatmap.tsx:11-24 | when every value is at most 0.8, the maximum is 1 and no cell reaches level 5 |
| Heatmap.GridCoversYear | client/src/components/heatmap.tsx:27-46 | the grid starts on or before the date 364 days ago and ends within the 7 days from today |
| Heatmap.DayOfWeekStep | client/src/components/heatmap.tsx:35-37 | stepping back a day steps back the weekday, except from Sunday |
| Heatmap.BuildGrid | client/src/components/heatmap.tsx:27-46 | 371 consecutive cells from the Sunday on or before 364 days ago, each with its date's value and level |
| Heatmap.StreakIsLongest | client/src/components/heatmap.tsx:60-70 | the streak is the longest run of positive days ending today |
| Heatmap.RunFitsInData | client/src/components/heatmap.tsx:60-70 | a run of dates that all have entries is no longer than the data, so the streak loop ends |
| Heatmap.CurrentStreak | client/src/components/heatmap.tsx:60-70 | the loop counts exactly the run of positive days ending today |
| Heatmap.Project | client/src/components/heatmap.tsx:21-83 | the grid plus the four statistics: year total, this week, today's value, streak |
| Heatmap.StreakExample | client/src/components/heatmap.tsx:60-70 | values on the 10th and 9th and a gap on the 8th give a streak of 2 |
| Heatmap.WeekExample | client/src/components/heatmap.tsx:49-54 | an entry from exactly seven days before today's date is outside this week if now is past midnight, but counts in the total |
| SidebarPanel.WeekSumIsHeatmapWeek | client/src/components/sidebar.tsx:28-36 | the sidebar's fused filter-and-sum equals the heatmap's filter then sum |
| SidebarPanel.GetWeekTotal | client/src/components/sidebar.tsx:28-36 | the sidebar's weekly total of a topic equals the heatmap's "this week" |
| SidebarPanel.WeekSum | client/src/components/sidebar.tsx:33-35 | the fused filter-and-sum of no entries is 0 |
| SidebarPanel.Sidebar.constructor | client/src/components/sidebar.tsx:25-26 | the form starts with no value and today's date |
| SidebarPanel.Sidebar.QuickSubmit | client/src/components/sidebar.tsx:38-44 | a value that parses to a number of at least 0, with a date set, is handed on and clears the input; otherwise nothing changes |
| Modals.TrimStart | client/src/components/modals.tsx:24-27 | drops exactly the leading white space |
| Modals.TrimEnd | client/src/components/modals.tsx:24-27 | drops exactly the trailing white space |
| Modals.TrimEmpty | client/src/components/modals.tsx:24 | a field trims to empty exactly when it is all white space |
| Modals.Trim | client/src/components/modals.tsx:24-27 | `trim()` is the field without its leading and trailing white space: a contiguous piece of the field, everything before and after it white space, and itself neither starting nor ending with white space |
| Modals.TrimIdempotent | client/src/components/modals.tsx:27 | trimming twice is trimming once |
| Modals.AddTopicModal.constructor | client/src/components/modals.tsx:17-19 | empty fields, not creating |
| Modals.AddTopicModal.Edit | client/src/components/modals.tsx:54-72 | the inputs set the fields |
| Modals.AddTopicModal.Submit | client/src/components/modals.tsx:22-27 | a request is made exactly when both fields are non-blank and no creation is under way; it carries the trimmed fields and marks creation as under way |
| Modals.AddTopicModal.Settle | client/src/components/modals.tsx:27-35 | on success, the new id is selected and the fields are cleared; on failure, the fields are kept; creation ends either way |
| Modals.AddTopicModal.Close | client/src/components/modals.tsx:39-43 | the fields are cleared |
| Modals.EditEntryModal.constructor | client/src/components/modals.tsx:100 | the input starts empty |
| Modals.EditEntryModal.EntryChanged | client/src/components/modals.tsx:103-107 | a new entry shows its formatted value; no entry leaves the input as it is |
| Modals.EditEntryModal.Edit | client/src/components/modals.tsx:149 | the input sets the value |
| Modals.EditEntryModal.Submit | client/src/components/modals.tsx:109-117 | saves exactly when there is an entry and the input parses to a number of at least 0, under the entry's own date |
| Modals.EditEntryModal.Close | client/src/components/modals.tsx:119-122 | the input is cleared |
| Home.SetOrDelete | client/src/pages/home.tsx:115-121 | a value of 0 makes the date absent; any other value is stored under it; other dates are unchanged; unique dates and all-positive values are kept for values of at least 0 |
| Home.DeleteAbsent | client/src/pages/home.tsx:117-118 | deleting an absent date changes nothing |
| Home.PutTwice | client/src/pages/home.tsx:119-120 | setting the same value twice is setting it once |
| Home.SetOrDeleteIdempotent | client/src/pages/home.tsx:112-126 | saving the same value for the same date twice is saving it once |
| Home.SaveZeroOnEmptyDate | client/src/pages/home.tsx:117-118 | saving 0 on a date with no entry changes nothing |
| Home.TotalAfterPut | client/src/pages/home.tsx:119-120 | setting a date changes the year total by the new value minus the old one |
| Home.TotalAfterDelete | client/src/pages/home.tsx:117-118 | deleting a date lowers the year total by its old value |
| Home.TotalAfterSave | client/src/pages/home.tsx:112-126 | a save changes the year total by the new value minus the old one |
| Home.DigitChar | client/src/pages/home.tsx:148 | a digit's character reads back as that digit |
| Home.NatToString | client/src/pages/home.tsx:148 | `String(n)` is non-empty digits; one digit exactly below 10, two exactly from 10 to 99 |
| Home.NatToStringValue | client/src/pages/home.tsx:148 | `String(n)` spells `n` |
| Home.PadStart2 | client/src/pages/home.tsx:148-152 | `padStart(2, '0')` keeps the string as its suffix, reaches length 2 when shorter, and fills only with `0` |
| Home.SliceLast2 | client/src/pages/home.tsx:150 | `slice(-2)` is the string's last two characters, or the whole string when shorter |
| Home.Pad2 | client/src/pages/home.tsx:148 | `String(n).padStart(2, '0')` is all digits, at least two of them, and exactly two below 100 |
| Home.Pad2Value | client/src/pages/home.tsx:148-152 | a number below 100, padded, is two digits spelling it |
| Home.YearDigits | client/src/pages/home.tsx:150 | the last two digits of a year from 10 on spell the year modulo 100 |
| Home.Stamp | client/src/pages/home.tsx:147-153 | the stamp is all digits, and exactly 10 of them for a real clock reading from year 10 on |
| Home.DownloadFileName | client/src/pages/home.tsx:159 | the name is `heatmap-data-`, then the digits of the stamp, then `.json`; 28 characters for a real clock reading from year 10 on |
| Home.StampRoundTrip | client/src/pages/home.tsx:147-153 | the stamp is 10 digits that read back as day, month counted from 1, two-digit year, hour and minute |
| Home.HomePage.constructor | client/src/pages/home.tsx:13-18 | no topics, nothing selected, no edit open, loading |
| Home.HomePage.CurrentTopic | client/src/pages/home.tsx:51 | the current topic is absent exactly when no listed topic has the selected id, and otherwise is a listed topic with that id |
| Home.HomePage.Refresh | client/src/pages/home.tsx:42-49 | the page takes the store's listing; nothing else changes |
| Home.HomePage.Load | client/src/pages/home.tsx:23-40 | the listing is loaded; its first topic is selected when none was; loading ends |
| Home.HomePage.CreateTopic | client/src/pages/home.tsx:53-69 | an empty topic is stored, saved, listed and selected |
| Home.HomePage.UpdateTopicData | client/src/pages/home.tsx:71-80 | succeeds exactly when the id is stored, replacing only that topic's data and refreshing; a missing id changes nothing |
| Home.HomePage.DeleteTopic | client/src/pages/home.tsx:82-105 | refused while at most one topic is listed; otherwise the key goes, the store is saved, the listing drops it, and deleting the current topic selects the first remaining one |
| Home.HomePage.EntryEdit | client/src/pages/home.tsx:107-110 | the clicked date and value open the edit dialog |
| Home.HomePage.QuickAdd | client/src/pages/home.tsx:128-140 | with a current topic, its data has the date set or deleted; with none, nothing happens; stored values stay positive |
| Home.HomePage.EntrySave | client/src/pages/home.tsx:112-126 | as the quick add, then the dialog closes; stored values stay positive |
| Home.HomePage.SubmitQuickAdd | client/src/components/sidebar.tsx:38-44 | whatever is typed in the quick-add form, the page stays consistent, the listing matches the store, and the store keeps only positive values |
| Home.HomePage.SubmitEdit | client/src/components/modals.tsx:109-117 | whatever is typed in the edit dialog, the page stays consistent, the listing matches the store, and the store keeps only positive values |
| Home.HomePage.ImportTopics | client/src/pages/home.tsx:185-193 | the store is replaced by the array and saved, the listing is refreshed, and the first imported topic is selected |
| Home.IsJsonFile | client/src/pages/home.tsx:176 | no file fails the guard; a chosen file passes exactly when its type is `application/json` |
| Home.HomePage.ImportFile | client/src/pages/home.tsx:174-203 | imports exactly a JSON file holding an array; any other file, parse error or non-array leaves store, saved item and page as they were |
| Home.HomePage.ImportFileAsWritten | client/src/pages/home.tsx:174-203 | as written, a JSON file holding a non-array empties the in-memory store; the saved item and the page keep the old topics |

## Left out

- Rendering, styling, toasts, tooltips and the month headers of the heatmap are left out: they compute nothing the model can state.
- The PNG download (`handleDownload`, html2canvas) is left out because it is a foreign library.
- The upload button's click relay is left out because it is only a DOM call.
- JSON encoding is not modelled. The localStorage item holds the records themselves, and a parsed file is given as a value. Text that does not parse is the `Unparsable` case.
- A failing `localStorage.setItem` is left out, because browser quotas are not modelled. Such a failure is logged and ignored at `client/src/lib/localStorage.ts:39-41`.
- Unreadable saved data is not distinguished from no saved data. Per `client/src/lib/localStorage.ts:29-32`, both load as an empty store.
- The singleton accessor (`getInstance`) is left out. The page is given its store.
- Asynchrony is left out: every `await` is taken to complete before the next step.
- Time zones are not modelled. Every date is taken in UTC, so `getDate`/`getDay` and `toISOString` agree.
- The clock is a parameter.
- Real numbers stand for JavaScript numbers. Floating-point rounding, NaN and infinities are not modelled. In particular `Heatmap.Total` and `SidebarPanel.WeekSum` add from the last entry back, whereas the source's `reduce` adds from the first, so the real sums agree but the rounding order is not captured. `parseFloat` is a parameter whose `None` result is NaN.
- Home.StampRoundTrip: stated for years from 10 on. Earlier years make `slice(-2)` return a single digit.
- Client import: an imported element's shape is not checked. Records are given as `Topic` values, as the source's unchecked `Topic[]` annotation assumes.
- `express`/`multer` request handling and the zod schema are abstracted away. A create body arrives already validated, as an `Option`.
- Routes.PatchTopic: the request body is taken as a well-typed partial topic (optional `id`, `name`, `unit`, `data`). The source hands `req.body` to `updateTopic` unvalidated (`server/routes.ts:49`, `server/storage.ts:98`), so extra keys, a non-string `name` or a `data` of `null` are stored and answered 200; those untyped or extra fields are not modelled.
- The 500 answers of handlers whose store call cannot throw are left out.
- `GET /api/export` (`server/routes.ts:73-82`) is not modelled. It calls `storage.exportData`, which `MemStorage` in `server/storage.ts` does not define. As written, the handler throws and answers 500.
- Routes.HandleImport: the result of `storage.importData` (`server/routes.ts:106`) is the parameter `stored`. `MemStorage` does not define that method, so with this server store the call throws and `stored` is false. Then every upload that passes validation is answered 500, and no import ever answers 200.
- `server/index.ts` (process startup, logging and the dev server) is not part of this model.

## Findings

| source | as written | input that shows it | evidently intended | confidence | as-written member | corrected member |
|---|---|---|---|---|---|---|
| client/src/pages/home.tsx:183-185 with client/src/lib/localStorage.ts:84-89 | `JSON.parse` output goes to `importData` unchecked. `importData` clears the Map and then throws at `forEach` on a non-array. The page keeps its old topics and localStorage keeps its old item, but the in-memory store is empty, so later updates of listed topics fail and the next save overwrites the item with only the new data | a `.json` file whose content is `{}` while topics exist | a non-array file is rejected before the store is touched, and store, saved item and page stay as they were | not executed | Home.HomePage.ImportFileAsWritten | Home.HomePage.ImportFile |
