/** What the callers of the journal store (the journal screens) can rely on when they chain its operations. */
module Scenarios {
  import opened Wrappers
  import opened JournalData
  import opened Text
  import opened JournalStorage

  /** Saving a new entry and then deleting it, with no storage failure, lists the original collection again. */
  method SaveThenDelete(entries: seq<JournalEntry>, entry: JournalEntry) returns (listed: seq<JournalEntry>)
    requires !HasId(entries, entry.id)
    ensures listed == entries
  {
    var store := new JournalStore(Stored(entries));
    var saved := store.SaveJournalEntry(entry, false, false);
    var deleted := store.DeleteJournalEntry(entry.id, false, false);
    listed := store.GetJournalEntries(false);
    UpsertThenRemoveRestores(entries, entry);
  }

  /** Saving twice under one id keeps one record, the second version, and it is the one found for its day. */
  method SaveTwice(first: JournalEntry, edited: JournalEntry) returns (listed: seq<JournalEntry>, found: Option<JournalEntry>)
    requires edited.id == first.id
    ensures listed == [edited]
    ensures found == Some(edited)
  {
    var store := new JournalStore(Missing);
    var r1 := store.SaveJournalEntry(first, false, false);
    var r2 := store.SaveJournalEntry(edited, false, false);
    listed := store.GetJournalEntries(false);
    found := store.GetJournalEntryByDay(edited.day, false);
  }

  /** A save over a slot that could not be read replaces whatever the slot held with the one new entry. */
  method SaveOverUnreadableSlot(initial: Slot, entry: JournalEntry, readFails: bool)
    returns (listed: seq<JournalEntry>)
    requires readFails || !initial.Stored?
    ensures listed == [entry]
  {
    var store := new JournalStore(initial);
    var saved := store.SaveJournalEntry(entry, readFails, false);
    listed := store.GetJournalEntries(false);
  }

  /** A delete after a failed or empty load writes an empty collection over whatever the slot held,
      whichever id it was asked to delete. */
  method DeleteOverUnreadableSlot(initial: Slot, id: string, readFails: bool)
    returns (deleted: Outcome<StorageError>, listed: seq<JournalEntry>)
    requires readFails || !initial.Stored?
    ensures deleted == Pass
    ensures listed == []
  {
    var store := new JournalStore(initial);
    deleted := store.DeleteJournalEntry(id, readFails, false);
    listed := store.GetJournalEntries(false);
  }

  /** Deleting an id nobody has, with no storage failure, lists the same collection afterwards. */
  method DeleteAbsent(initial: Slot, id: string, readFails: bool)
    returns (before: seq<JournalEntry>, deleted: Outcome<StorageError>, after: seq<JournalEntry>)
    requires !readFails
    requires initial.Stored? ==> !HasId(initial.entries, id)
    ensures deleted == Pass
    ensures after == before
  {
    var store := new JournalStore(initial);
    before := store.GetJournalEntries(readFails);
    deleted := store.DeleteJournalEntry(id, readFails, false);
    after := store.GetJournalEntries(readFails);
    RemoveAbsentId(before, id);
  }

  /** With entries for days 1, 5 and 12, the lookup for day 5 finds the day-5 entry and day 99 finds none. */
  method LookupByDay(e1: JournalEntry, e5: JournalEntry, e12: JournalEntry)
    returns (five: Option<JournalEntry>, ninetyNine: Option<JournalEntry>)
    requires e1.day == 1 && e5.day == 5 && e12.day == 12
    ensures five == Some(e5) && ninetyNine == None
  {
    var store := new JournalStore(Stored([e1, e5, e12]));
    five := store.GetJournalEntryByDay(5, false);
    ninetyNine := store.GetJournalEntryByDay(99, false);
  }

  /** A stored record is found by any query that lower-cases to its lower-cased title or to one of its lower-cased tags. */
  method SearchByTitleOrTag(entries: seq<JournalEntry>, entry: JournalEntry, query: string)
    returns (found: seq<JournalEntry>)
    requires entry in entries
    requires Lower(query) == Lower(entry.title) || exists tag :: tag in entry.tags && Lower(tag) == Lower(query)
    ensures entry in found
  {
    var store := new JournalStore(Stored(entries));
    IncludesSelf(Lower(query));
    found := store.SearchJournalEntries(query, false);
  }
}
