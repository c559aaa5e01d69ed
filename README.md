# Journal store of the devotional calendar app, in Dafny

This project models the journal entry store of a small mobile devotional app
(`utils/journalStorage.ts`). The store keeps every `JournalEntry` in one
key-value persistence slot (key `spiritual_journal_entries`). Each operation
reads the whole collection, and the writing ones write the whole collection
back:

- `saveJournalEntry` upserts by `id`: it drops any record with the entry's id and appends the entry.
- `getJournalEntries` lists the collection. A missing slot, unreadable contents or a failed read all give the empty list.
- `getJournalEntryByDay` returns the first record, in stored order, for a given day.
- `deleteJournalEntry` drops every record with a given id.
- `searchJournalEntries` filters by a case-insensitive substring match over title, content and tags.

Files:

- `journal_data.dfy` (module `JournalData`): the record shape and the five-value mood, from `data/journalData.ts:1-11`.
- `sequences.dfy` (module `Sequences`): `Filter`, the order-preserving filter the store uses for delete, upsert and search, with its laws.
- `text.dfy` (module `Text`): ASCII `toLowerCase` and `includes`. `includes` is proved equal to "occurs at some index".
- `journal_storage.dfy` (module `JournalStorage`): the slot, the pure list operations (`RemoveId`, `Upsert`, `FindByDay`, `Search`) and their lemmas. It also holds the class `JournalStore`, whose `slot` field the save and delete methods update.
- `scenarios.dfy` (module `Scenarios`): caller-level sequences of store operations and what they leave behind.
- `wrappers.dfy` (module `Wrappers`): `Option` and `Outcome`.

How the environment is modelled:

- The slot is `Missing`, `Malformed` or `Stored(entries)`. `Malformed` stands for any stored text the loader cannot turn into an array: the empty string, text that is not JSON, or JSON that is not an array.
- A failing storage read is the parameter `readFails`. A failing storage write is the parameter `writeFails`.
- A write either completes or leaves the slot untouched.
- A failed write is returned as `Fail(PersistenceFailure)`. This stands for the rethrown exception.

Behaviours of `utils/journalStorage.ts` that the model keeps and that a reader might not expect:

- Delete removes every record with the id, not only one (utils/journalStorage.ts:49).
- Lookup by day returns the first match in stored order (utils/journalStorage.ts:39).
- Nothing checks `createdAt <= updatedAt`, so the model does not claim it (utils/journalStorage.ts:6-12).
- A failed read and unreadable contents both load as the empty list (utils/journalStorage.ts:22, 30-32). Save and delete write back what they loaded, so:
  - a save after such a load writes a collection holding only the new entry and replaces what the slot held (utils/journalStorage.ts:8-12, `Scenarios.SaveOverUnreadableSlot`);
  - a delete after such a load writes an empty collection over a populated slot (utils/journalStorage.ts:48-51, `Scenarios.DeleteOverUnreadableSlot`).
- A delete on a never-written slot writes an empty collection (utils/journalStorage.ts:22, 48-51).

## Model

| member | source | states |
|---|---|---|
| `Sequences.Filter` | utils/journalStorage.ts:9 | every kept element is in the input and satisfies the predicate; every input element that satisfies it is kept |
| `Sequences.FilterIsSubsequence` | utils/journalStorage.ts:49 | filtering keeps the relative order of the kept elements (the result is a subsequence) |
| `Sequences.FilterCount` | utils/journalStorage.ts:63-67 | filtering keeps every occurrence of a satisfying element and none of any other |
| `Sequences.FilterConcat` | utils/journalStorage.ts:9-10 | filtering distributes over concatenation, so a filter after a push filters the pushed element on its own |
| `Sequences.FilterKeepsAll` | utils/journalStorage.ts:49 | a filter returns its input unchanged exactly when every element satisfies the predicate |
| `Sequences.FilterIdempotent` | utils/journalStorage.ts:49 | filtering twice by the same predicate equals filtering once |
| `Text.LowerChar` | utils/journalStorage.ts:61 | the result is never an upper-case ASCII letter; an upper-case letter maps to its lower-case partner, any other character to itself |
| `Text.Lower` | utils/journalStorage.ts:61 | lower-casing keeps the length and lower-cases each character in place |
| `Text.LowerIdempotent` | utils/journalStorage.ts:61 | lower-casing an already lower-cased string changes nothing |
| `Text.IncludesIff` | utils/journalStorage.ts:64-66 | the scanning `includes` holds exactly when the needle occurs in the string at some index |
| `Text.IncludesEmpty` | utils/journalStorage.ts:64 | every string includes the empty string |
| `Text.IncludesSelf` | utils/journalStorage.ts:64 | every string includes itself |
| `JournalStorage.RemoveIdSpec` | utils/journalStorage.ts:49 | delete keeps exactly the records with another id, in order and with their multiplicity, and removes every record with the id |
| `JournalStorage.RemoveAbsentId` | utils/journalStorage.ts:48-51 | delete leaves the collection unchanged exactly when no record has the id |
| `JournalStorage.RemoveIdIdempotent` | utils/journalStorage.ts:49 | deleting the same id twice equals deleting it once |
| `JournalStorage.RemoveIdKeepsIdsUnique` | utils/journalStorage.ts:49 | if ids were unique before a delete, they are unique after it |
| `JournalStorage.UpsertSpec` | utils/journalStorage.ts:8-12 | after a save the entry is the last record and the only one with its id; every record with another id is kept in order with its multiplicity; nothing else is added |
| `JournalStorage.UpsertIdempotent` | utils/journalStorage.ts:9-10 | saving the same entry twice leaves the same collection as saving it once |
| `JournalStorage.UpsertKeepsIdsUnique` | utils/journalStorage.ts:9-10 | if ids were unique before a save, they are unique after it |
| `JournalStorage.UpsertThenRemoveRestores` | utils/journalStorage.ts:9-10 | when no record had the entry's id, saving it and then deleting its id gives back the original collection |
| `JournalStorage.FindByDay` | utils/journalStorage.ts:39 | the result is none exactly when no record has the day; otherwise it is the record at the first index whose day matches |
| `JournalStorage.SearchSpec` | utils/journalStorage.ts:61-67 | search returns exactly the records whose lower-cased title, content or some tag includes the lower-cased query, in stored order and with their multiplicity |
| `JournalStorage.SearchIgnoresCase` | utils/journalStorage.ts:61 | the search result depends on the query only through its lower-cased form |
| `JournalStorage.SearchEmptyQuery` | utils/journalStorage.ts:63-67 | the empty query returns every stored record, in order |
| `JournalStorage.JournalStore.constructor` | utils/journalStorage.ts:4 | a store starts with the given slot contents |
| `JournalStorage.JournalStore.GetJournalEntries` | utils/journalStorage.ts:19-34 | a stored collection is returned as stored; a missing slot, unreadable contents or a failed read give the empty list |
| `JournalStorage.JournalStore.GetJournalEntryByDay` | utils/journalStorage.ts:36-44 | the result is none exactly when no loaded record has the day, and always when the load gave nothing; otherwise it is the loaded record at the first index whose day matches |
| `JournalStorage.JournalStore.SearchJournalEntries` | utils/journalStorage.ts:58-72 | the result is a subsequence of the loaded collection holding exactly the matching records, each with its full multiplicity; a failed or empty load gives the empty list |
| `JournalStorage.JournalStore.SaveJournalEntry` | utils/journalStorage.ts:6-17 | a successful write stores the upsert of the loaded collection; a failed write is reported and leaves the slot as it was |
| `JournalStorage.JournalStore.DeleteJournalEntry` | utils/journalStorage.ts:46-56 | a successful write stores the loaded collection without the id; a failed write is reported and leaves the slot as it was; an absent id is not an error |
| `Scenarios.SaveThenDelete` | utils/journalStorage.ts:6-17 | through the store object, saving a new entry then deleting it lists the original collection again |
| `Scenarios.SaveTwice` | utils/journalStorage.ts:8-10 | saving an entry and then an edited version with the same id lists only the edited version, and lookup by its day finds it |
| `Scenarios.SaveOverUnreadableSlot` | utils/journalStorage.ts:22 | a save after a failed or empty load replaces the slot's contents with the one new entry |
| `Scenarios.DeleteOverUnreadableSlot` | utils/journalStorage.ts:46-51 | a delete after a failed or empty load succeeds and leaves the slot holding the empty collection, whatever it held before |
| `Scenarios.DeleteAbsent` | utils/journalStorage.ts:46-51 | deleting an id that no record has returns success and lists the same collection before and after |
| `Scenarios.LookupByDay` | utils/journalStorage.ts:38-39 | with records for days 1, 5 and 12, lookup for day 5 finds the day-5 record and lookup for day 99 finds none |
| `Scenarios.SearchByTitleOrTag` | utils/journalStorage.ts:63-66 | a stored record is found by any query whose lower-cased form equals its lower-cased title or one of its lower-cased tags |

## Left out

- JSON serialisation and the rebuilding of `Date` values on load (utils/journalStorage.ts:12, 24-29). The slot holds the entry sequence directly, and timestamps are opaque integers.
- The loader does not validate records: a stored array of malformed objects loads without error in the source. The model's `Stored` slot always holds well-formed entries.
- `Text.Lower`: models `toLowerCase` for ASCII letters only. Full Unicode case mapping is not modelled.
- The asynchronous round trips and the lack of coordination between concurrent saves (last writer wins). The model runs operations one after another.
- The `catch` block of lookup (utils/journalStorage.ts:40-43): loading never throws and every loaded element is an object, so `find` cannot throw and the block is unreachable.
- The `catch` block of search (utils/journalStorage.ts:68-71): it is reachable in the source when a stored record has no string `title`, `content` or `tags` (for example a slot holding `[{"id":"x"}]`), and search then returns the empty list. The model's records are always well-formed, so it does not capture this path.
- `day` is a JavaScript number in the source; the model uses `int`. A `NaN` day (which the journal screen's `parseInt` can produce) never equals any day under `===` at utils/journalStorage.ts:39, so such a lookup always finds nothing; the model has no such value.
- `console.error` logging.
- The notification scheduler (`utils/notifications.ts`), the screens and the static calendar and prompt tables are not part of this model. They are platform calls, UI, and data without logic.
