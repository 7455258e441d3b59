# Lock Diary: a verified model of the storage and derived-state core

Lock Diary is a browser diary app. Entries are kept in an on-device
IndexedDB store, and a storage router can send them to a remote
`diary_entries` table instead. A plaintext lock password gates the app.
A day streak and a catalogue of eight achievements are derived from the
entries. The pages add small pure pieces of logic: the editor's tag
field and save validation, the dashboard's sort, search and preview, the
calendar's grouping by day, the mood-to-emoji lookup, and the rules for
setting the lock password.

This project models that core in Dafny and proves what each part
promises. There is one module per source file:

- `Common` (`common.dfy`) holds the shared vocabulary:
  - optional values and results;
  - the order IndexedDB gives string keys;
  - decimal rendering of timestamps;
  - the JavaScript string primitives `trim`, `split` on one character and `includes`.
- `Db` (`db.dfy`) models `src/lib/db.ts`. `LocalDb` is a class whose two
  tables, `entries` and `settings`, are maps. Its methods are the store
  operations. Days are integers, so the day before `today` is `today - 1`.
- `Achievements` (`achievements.dfy`) models `src/lib/achievements.ts`:
  - the catalogue;
  - the rule chain of `checkAchievements`, kept as the source's imperative `if` sequence and proved against a specification function;
  - the notices;
  - the read-only `getAchievements` projection.
- `Storage` (`storage.dfy`) models `src/lib/storage.ts`. The remote side is
  a `Remote` object holding a map of rows and the signed-in user, or none
  when there is no session. Whatever the server decides is a parameter:
  the id and clock of an insert, and whether a request reports an error.
- `EntryEditor` (`entry_editor.dfy`), `Dashboard` (`dashboard.dfy`),
  `CalendarView` (`calendar_view.dfy`), `MoodSelector` (`mood_selector.dfy`)
  and `LockSetup` (`lock_setup.dfy`) model the page logic.

The clock, the locale and the calendar are parameters throughout:

- `now` is the time in milliseconds;
- `today` is a day number;
- `hourOf` gives the local hour of a timestamp;
- `dayKey` gives the `yyyy-MM-dd` text of a timestamp;
- `isoDate` is the ISO text of the current time.

## Model

| member | source | states |
|---|---|---|
| Common.SortedKeysExact | src/lib/db.ts:59-62 | `getAll` enumerates every key once and nothing else, in strictly ascending key order |
| Common.TrimEmpty | src/pages/EntryEditor.tsx:43-51 | `s.trim()` is empty exactly when every character of `s` is ECMAScript white space |
| Common.SplitAtSeparator | src/pages/EntryEditor.tsx:53 | splitting `a + "," + b` on `,`, where `a` has no comma, gives `a` followed by the pieces of `b` |
| Db.EntryIdInjective | src/lib/db.ts:75 | `entry-<now>` ids of two clock readings are equal exactly when the readings are |
| Db.NewEntry | src/lib/db.ts:69-79 | the new record has id `entry-<now>`, `createdAt == updatedAt == now`, and every other field copied from the draft |
| Db.Merge | src/lib/db.ts:86 | the merged record takes each supplied field from the patch, keeps every other field, and sets `updatedAt` to now |
| Db.MergeKeepsIdentity | src/lib/db.ts:82-89 | a patch without `id` and `createdAt` keeps both, and re-applying it later only moves `updatedAt` |
| Db.Listing | src/lib/db.ts:59-62 | the listing has one record per stored key, each as stored, every stored record appears, ordered by ascending id |
| Db.NextStreak | src/lib/db.ts:122-143 | the streak is the stored count on the same day, the stored count plus one the day after, and 1 otherwise, including the first entry ever |
| Db.AfterStreak | src/lib/db.ts:122-143 | after the update the stored count is the new streak, `lastEntryDate` is today, and every other setting is unchanged |
| Db.SameDayIdempotent | src/lib/db.ts:127-140 | a second update on the same day writes nothing and returns the same count |
| Db.ConsecutiveDays | src/lib/db.ts:129-137 | `n` entries on `n` consecutive days, starting fresh, leave a streak of exactly `n` ending on the last day |
| Db.SkippedDayResets | src/lib/db.ts:133-136 | a gap of more than one day resets the streak to 1 |
| Db.LocalDb.GetAllEntries | src/lib/db.ts:59-62 | every stored entry exactly once, each as stored, by ascending id |
| Db.LocalDb.GetEntry | src/lib/db.ts:64-67 | the record under `id` when it exists, none otherwise |
| Db.LocalDb.AddEntry | src/lib/db.ts:69-80 | a fresh id stores the new record and returns it, and `getEntry` of its id returns it; an id already present fails with a constraint error and changes nothing |
| Db.LocalDb.UpdateEntry | src/lib/db.ts:82-89 | an absent id changes nothing; for a present one the merged record is `put` under its own id, which is `id` unless the patch sets one; when the patch leaves `id` out, only that entry changes |
| Db.LocalDb.DeleteEntry | src/lib/db.ts:91-94 | removes that key only; an absent key is no error and leaves the store as it was |
| Db.LocalDb.GetSetting | src/lib/db.ts:97-101 | the stored value of the key, none for a key never set |
| Db.LocalDb.SetSetting | src/lib/db.ts:103-106 | the key now reads back the value, and every other key reads as before |
| Db.LocalDb.IsLockSetup | src/lib/db.ts:108-111 | true exactly when a truthy lock password is stored, so never for an absent or empty one |
| Db.LocalDb.SetLockPassword | src/lib/db.ts:113-115 | afterwards exactly that password verifies, and the lock counts as set up iff the password is non-empty |
| Db.LocalDb.VerifyLockPassword | src/lib/db.ts:117-120 | true exactly when the stored value is that password, so false when none was ever set |
| Db.LocalDb.UpdateStreak | src/lib/db.ts:122-143 | returns the next streak, which is also the stored count afterwards; on the same day nothing is written |
| Achievements.EligibleMembership | src/lib/achievements.ts:33-69 | an id is newly unlocked iff it is one of the checked ids, its rule holds, and it was not already unlocked |
| Achievements.EligibleDistinct | src/lib/achievements.ts:33-69 | no id is unlocked twice in one check |
| Achievements.EligibleIdempotent | src/lib/achievements.ts:33-74 | checking again against the extended list unlocks nothing |
| Achievements.RuleTable | src/lib/achievements.ts:33-54 | in check order, the thresholds are at least 1, 10, 50 and 100 entries, then a streak of at least 7 and 30 |
| Achievements.RuleMeaning | src/lib/achievements.ts:57-69 | `all_moods` holds iff at least 6 distinct moods are used; `night_writer` holds iff some entry was created at an hour from 0 to 5 |
| Achievements.CatalogueConsistent | src/lib/achievements.ts:15-24 | each catalogue target equals its rule's threshold, the checks cover the 8 catalogue ids, and none is checked twice |
| Achievements.AfterCheck | src/lib/achievements.ts:72-74 | the stored list becomes the old list followed by the new ids; nothing is written when there is nothing new; other settings are untouched |
| Achievements.CheckOnlyAppends | src/lib/achievements.ts:72-74 | the old list is a prefix of the new one, so no id is ever removed |
| Achievements.CheckIdempotent | src/lib/achievements.ts:33-74 | a second check on the same entries and streak unlocks nothing and writes nothing |
| Achievements.CheckUnlocksEverythingEarned | src/lib/achievements.ts:33-74 | after a check every earned id is stored, and an id already stored is never newly unlocked |
| Achievements.FindIn | src/lib/achievements.ts:77 | the catalogue item with that id, or none when no item has it |
| Achievements.FindChecked | src/lib/achievements.ts:77 | every id the rules can unlock has a catalogue item, so no new id goes without a notice |
| Achievements.NoticesPerId | src/lib/achievements.ts:76-84 | exactly one notice per newly unlocked id, in unlock order, each the catalogue item with that id |
| Achievements.RulesPassed | src/lib/achievements.ts:30-69 | the `if` chain yields the earned, not yet unlocked ids in check order |
| Achievements.Notify | src/lib/achievements.ts:76-84 | the `forEach` raises the notices of the specification, in order |
| Achievements.CheckAchievements | src/lib/achievements.ts:26-86 | the settings become the specified post-check settings, entries are untouched, and the notices are those of the new ids |
| Achievements.Project | src/lib/achievements.ts:94-118 | one item per catalogue entry, in catalogue order; `unlocked` iff the id is stored; progress is the metric the item's rule counts, and 0 for `night_writer` |
| Achievements.MetricAgrees | src/lib/achievements.ts:97-111 | the progress shown for a metric is the same number that metric's rule tests |
| Achievements.GetAchievements | src/lib/achievements.ts:88-119 | reads only: one item per catalogue entry, unlocked iff stored |
| Storage.RowFor | src/lib/storage.ts:79-90 | the inserted row carries the session's user and the server's id and clock, and reads back as the draft that was sent |
| Storage.ToEntry | src/lib/storage.ts:30-39 | a row in the local shape: fields copied, a null `tags` becomes the empty list |
| Storage.Revise | src/lib/storage.ts:113-122 | a cloud update changes only the supplied content fields, never the id, owner or timestamps |
| Storage.RowEntries | src/lib/storage.ts:30-39 | every remote row exactly once, normalised |
| Storage.Remote.Insert | src/lib/storage.ts:79-92 | an insert succeeds iff the server reports no error and the id is free, and then adds exactly that row |
| Storage.Remote.Update | src/lib/storage.ts:113-124 | an update revises the matching row, if any, unless the server reports an error |
| Storage.Remote.Delete | src/lib/storage.ts:135-140 | a delete removes the matching row, if any, unless the server reports an error |
| Storage.StorageMode | src/lib/storage.ts:7-10 | the stored mode when it is truthy, `local` when it is absent or falsy |
| Storage.IsCloud | src/lib/storage.ts:16 | routing goes to the remote table exactly when the stored mode is the text `cloud` |
| Storage.GetAllEntries | src/lib/storage.ts:13-43 | local mode delegates to the local listing; in cloud mode there is an empty list without a session or on an error, and otherwise every remote row, normalised |
| Storage.GetEntry | src/lib/storage.ts:45-70 | local mode delegates; in cloud mode there is no session check, and an error or a missing row reads as none |
| Storage.AddEntry | src/lib/storage.ts:72-107 | local mode delegates and leaves the remote table alone; cloud mode without a session fails "not authenticated" and inserts nothing; a success returns what was sent and reads back by its id |
| Storage.UpdateEntry | src/lib/storage.ts:109-129 | local mode delegates and leaves the remote table alone; cloud mode revises the remote row or fails on an error, leaving the local store alone |
| Storage.DeleteEntry | src/lib/storage.ts:131-145 | the routed store loses the id, the other store is untouched, and a remote error fails with nothing deleted |
| Storage.Migrated | src/lib/storage.ts:154-163 | the copy loop never changes or removes an existing row and adds at most one row per local entry |
| Storage.MigrateCopiesAll | src/lib/storage.ts:152-163 | when every insert goes through, the table gains exactly one row per local entry, in local order, holding that entry's content |
| Storage.MigratedNewKeys | src/lib/storage.ts:154-163 | every row the loop added has the server id of one of its inserts |
| Storage.MigrateToCloud | src/lib/storage.ts:148-166 | without a session it fails before reading or writing; otherwise it offers each local entry, each insert with its own server id, clock and outcome, ignores insert results, leaves the local entries alone and always sets the mode to `cloud` |
| Storage.MigrateTwiceDuplicates | src/lib/storage.ts:148-166 | running the migration twice stores each local entry's content under two different remote ids |
| EntryEditor.NewForm | src/pages/EntryEditor.tsx:21-24 | a new entry starts empty with the mood `happy`, the first mood in the table |
| EntryEditor.CleanTags | src/pages/EntryEditor.tsx:53 | trimming and dropping empty pieces leaves only non-empty, trimmed, comma-free tags |
| EntryEditor.ParseTags | src/pages/EntryEditor.tsx:53 | no parsed tag is empty, has white space at an end, or holds a comma |
| EntryEditor.TrimKeepsOut | src/pages/EntryEditor.tsx:53 | trimming a piece cannot introduce a comma |
| EntryEditor.LeadingSpaceIgnored | src/pages/EntryEditor.tsx:38-53 | the space after each comma of the joined field is trimmed away again |
| EntryEditor.TagsRoundTrip | src/pages/EntryEditor.tsx:38-53 | joining tags with `", "` and parsing the field gives the same list back whenever the tags are non-empty, trimmed and comma-free |
| EntryEditor.LoadForm | src/pages/EntryEditor.tsx:32-40 | the form shows the entry's title, content and mood; its tag field is the tags joined with `", "`, and it parses back to the entry's tags when every tag is non-empty, trimmed and comma-free |
| EntryEditor.Validate | src/pages/EntryEditor.tsx:43-51 | the title is refused iff it is all white space; otherwise the content is refused iff it is all white space; otherwise the form is accepted |
| EntryEditor.DraftFrom | src/pages/EntryEditor.tsx:58-65 | a new entry is created from the form's fields, the parsed tags and the current date |
| EntryEditor.PatchFrom | src/pages/EntryEditor.tsx:73-79 | an edit sends the form's fields, the parsed tags and the date, never an id or a creation time |
| EntryEditor.AsWrittenMissesNewEntry | src/pages/EntryEditor.tsx:56-83 | after a new save, the route the source builds never names the entry just created |
| EntryEditor.SavedPath | src/pages/EntryEditor.tsx:83 | after a new save the route carries the new entry's id; after an edit it carries the edited id |
| EntryEditor.HandleSave | src/pages/EntryEditor.tsx:42-84 | an invalid form changes nothing; a new entry is added, then the streak is updated, then achievements are checked against the updated entries and streak, and the corrected route `/view/<new id>` is returned; an edit only updates that entry |
| EntryEditor.SaveUnlocksFirstEntry | src/pages/EntryEditor.tsx:58-67 | once an entry is stored, the check that follows leaves `first_entry` unlocked |
| Dashboard.Insert | src/pages/Dashboard.tsx:27 | inserting keeps every entry and adds exactly the new one |
| Dashboard.InsertSorted | src/pages/Dashboard.tsx:27 | inserting into a newest-first list keeps it newest first |
| Dashboard.SortNewest | src/pages/Dashboard.tsx:27 | the loaded entries, ordered by `createdAt` descending and a permutation of the input |
| Dashboard.InsertStable | src/pages/Dashboard.tsx:27 | inserting puts the new entry ahead of the entries that have the same creation time |
| Dashboard.SortStable | src/pages/Dashboard.tsx:27 | entries with the same creation time keep their loaded order |
| Dashboard.Lower | src/pages/Dashboard.tsx:37-38 | lower-casing keeps the length and maps each character on its own |
| Dashboard.Search | src/pages/Dashboard.tsx:36-39 | an entry is kept iff its lowered title or lowered content contains the lowered query |
| Dashboard.SearchKeepsOrder | src/pages/Dashboard.tsx:36-39 | the filtered list is a subsequence of the sorted list |
| Dashboard.EmptyQueryKeepsAll | src/pages/Dashboard.tsx:36-39 | an empty query keeps every entry, in order |
| Dashboard.SearchIgnoresCase | src/pages/Dashboard.tsx:36-39 | a query and its lower-case form select the same entries |
| Dashboard.CloseAt | src/pages/Dashboard.tsx:138 | the position of the first `>`, or none when there is no `>` |
| Dashboard.StripTags | src/pages/Dashboard.tsx:138 | the result is no longer than the input and adds no character; no `<` in it is followed by a `>`; text without `<` is unchanged |
| Dashboard.StripWithoutClose | src/pages/Dashboard.tsx:138 | text without `>` holds no complete tag and is left unchanged |
| Dashboard.StripPlainHead | src/pages/Dashboard.tsx:138 | a leading character other than `<` is kept, and the rest is stripped after it |
| Dashboard.StripTagRun | src/pages/Dashboard.tsx:138 | a complete tag `<t>` at the front, with no `>` inside `t`, is removed entirely, and the text after it is stripped in turn |
| Dashboard.Preview | src/pages/Dashboard.tsx:138 | exactly the first `min(n, 150)` characters of the stripped text of length `n`, then `...` |
| CalendarView.OnDay | src/pages/CalendarView.tsx:35-41 | the entries created on that day, in input order |
| CalendarView.OnDayAppend | src/pages/CalendarView.tsx:40 | one more entry extends only its own day's group, at the end |
| CalendarView.GroupedNewDay | src/pages/CalendarView.tsx:37-40 | for a day not seen before, creating its list and pushing keeps every group equal to its day's entries and non-empty, and records the day once |
| CalendarView.GroupedSameDay | src/pages/CalendarView.tsx:40 | for a day seen before, pushing onto its list keeps every group equal to its day's entries |
| CalendarView.GroupedFacts | src/pages/CalendarView.tsx:34-41 | a day has a group exactly when some entry was created on it |
| CalendarView.GroupSizesSum | src/pages/CalendarView.tsx:35-41 | each entry is counted in exactly one group, so the group sizes sum to the number of entries |
| CalendarView.OccursOnce | src/pages/CalendarView.tsx:37-39 | a day key is recorded once |
| CalendarView.GroupedLookup | src/pages/CalendarView.tsx:49-53 | the list read back for any day is exactly that day's entries, and empty for a day with none |
| CalendarView.GroupedSizes | src/pages/CalendarView.tsx:34-41 | a complete grouping accounts for every entry |
| CalendarView.SelectedEntries | src/pages/CalendarView.tsx:49-53 | no selected date, or a day without a group, gives the empty list |
| CalendarView.DaysOfMembership | src/pages/CalendarView.tsx:37-39 | a day is listed exactly when some entry was created on it |
| CalendarView.DaysOfOrder | src/pages/CalendarView.tsx:34-41 | a day listed before another has an entry earlier than every entry of the later day |
| CalendarView.DaysOrdered | src/pages/CalendarView.tsx:34-41 | first-occurrence order holds for every pair of listed days |
| CalendarView.GroupByDay | src/pages/CalendarView.tsx:34-41 | the `forEach` builds one non-empty group per day that occurs, each holding that day's entries in input order, with day keys listed once each in first-occurrence order (equal to `DaysOf`) |
| MoodSelector.MoodTable | src/components/MoodSelector.tsx:3-12 | 8 moods with pairwise distinct values and non-empty emojis; `happy` is first |
| MoodSelector.FindMood | src/components/MoodSelector.tsx:45 | the first row with that value, or none when no row has it |
| MoodSelector.GetMoodEmoji | src/components/MoodSelector.tsx:44-46 | a listed mood gives its own emoji, an unlisted one gives the happy emoji, and the result is always one of the table's emojis |
| LockSetup.ValidateSetup | src/pages/LockSetup.tsx:18-26 | a password shorter than 4 characters is refused first; otherwise a mismatched confirmation is refused; otherwise the pair is accepted |
| LockSetup.HandleSetup | src/pages/LockSetup.tsx:17-31 | a refused pair stores nothing; an accepted password is stored, after which the lock counts as set up and exactly that password verifies |

## Left out

- Opening the IndexedDB database, the upgrade callback, the `by-date` index and the cached handle (src/lib/db.ts:35-56). The store is two in-memory maps.
- The remote client library: query builders, authentication flows and the server's own access rules. `Remote.rows` stands for the rows the server lets this client see.
- Time and locale. `Date.now`, `toDateString`, `getHours`, `toISOString` and the `yyyy-MM-dd` formatting are parameters. `lastEntryDate` is a day number, not a date string.
- JSON encoding of the achievements list. The setting holds the list of ids directly.
- Strings are sequences of Unicode characters, not UTF-16 code units. So lengths, `substring(0, 150)` and key comparison can differ from the browser on characters outside the Basic Multilingual Plane.
- Settings values have three shapes: text, number and a list of ids. A `streakCount` or `lastEntryDate` of another shape reads as absent.
- Toasts, confetti, navigation side effects, rendering, the calendar's date markers and mood colours, the editor's delete button, and the dashboard's streak and unlocked-count badges.
- Every operation runs to completion before the next one begins; asynchronous interleaving is not modelled.
- Storage.GetAllEntries: the remote query's `order('date', { ascending: false })` is not modelled. Remote rows come back in key order. The ordering is done by the server, and the dashboard sorts again by creation time.
- Storage.UpdateEntry: the remote `updated_at` is left as it was, because any server-side change to it is not visible in this code.
- Storage.Remote: the created and updated times of a row are kept as the milliseconds that `new Date(...).getTime()` yields, not as timestamp text.
- Dashboard.Lower: lower-cases only the ASCII letters `A` to `Z`, not the full Unicode case mapping of `toLowerCase`.
- EntryEditor.HandleSave: after a new save it returns the intended route `/view/<new id>` (`SavedPath`), not the `/view/[object Object]` the source builds. The as-written route is `SavedPathAsWritten`; see Findings.
- Achievements.Catalogue: the icons appear garbled in the source file because of a double encoding. The model uses the emoji they evidently encode.
- Two behaviours of the code that a reader might not expect. The model follows the code as written:
  - `migrateToCloud` does not stop at a failed insert. It ignores every insert result and always switches the mode to `cloud`.
  - `all_moods` needs 6 distinct moods, while the mood table lists 8.

## Findings

| source | as written | input that shows it | evidently intended | confidence | as-written member | corrected member |
|---|---|---|---|---|---|---|
| src/pages/EntryEditor.tsx:56-83 | `savedId` is assigned the whole record `addEntry` returns, so the editor navigates to `/view/[object Object]` | saving any valid new entry on the `new` route | navigate to `/view/` followed by the new entry's id | high; not executed | EntryEditor.AsWrittenMissesNewEntry | EntryEditor.SavedPath |
