/**
 * The journal entry store of utils/journalStorage.ts: one collection of entries kept in a
 * single key-value slot (key "spiritual_journal_entries"), read whole and written whole.
 */
module JournalStorage {
  import opened Wrappers
  import opened JournalData
  import opened Sequences
  import opened Text

  /** What the persistence slot holds. `Malformed` is any stored text the loader cannot turn
      into an array of entries: the empty string, text that is not JSON, JSON that is not an array. */
  datatype Slot = Missing | Malformed | Stored(entries: seq<JournalEntry>)

  /** The one error the store reports: the underlying write did not complete. */
  datatype StorageError = PersistenceFailure

  /** No two records share an `id`. */
  ghost predicate UniqueIds(entries: seq<JournalEntry>) {
    forall i, j :: 0 <= i < j < |entries| ==> entries[i].id != entries[j].id
  }

  ghost predicate HasId(entries: seq<JournalEntry>, id: string) {
    exists e :: e in entries && e.id == id
  }

  // ---------------------------------------------------------------------------
  // Delete: filter out the records with a given id

  function NotId(id: string): JournalEntry -> bool {
    (e: JournalEntry) => e.id != id
  }

  /** `entries.filter(e => e.id !== id)`. */
  function RemoveId(entries: seq<JournalEntry>, id: string): seq<JournalEntry> {
    Filter(entries, NotId(id))
  }

  /** Removing an id keeps every other record, in order and with its multiplicity, and nothing else. */
  lemma RemoveIdSpec(entries: seq<JournalEntry>, id: string)
    ensures IsSubsequence(RemoveId(entries, id), entries)
    ensures forall e :: e in RemoveId(entries, id) <==> e in entries && e.id != id
    ensures forall e :: multiset(RemoveId(entries, id))[e] == if e.id != id then multiset(entries)[e] else 0
  {
    FilterIsSubsequence(entries, NotId(id));
    forall e ensures multiset(RemoveId(entries, id))[e] == if e.id != id then multiset(entries)[e] else 0 {
      FilterCount(entries, NotId(id), e);
    }
  }

  /** Deleting an id leaves the collection as it was exactly when no record has that id. */
  lemma RemoveAbsentId(entries: seq<JournalEntry>, id: string)
    ensures RemoveId(entries, id) == entries <==> !HasId(entries, id)
  {
    FilterKeepsAll(entries, NotId(id));
  }

  /** Deleting the same id twice is deleting it once. */
  lemma RemoveIdIdempotent(entries: seq<JournalEntry>, id: string)
    ensures RemoveId(RemoveId(entries, id), id) == RemoveId(entries, id)
  {
    FilterIdempotent(entries, NotId(id));
  }

  /** Removing records cannot make two ids collide. */
  lemma {:induction false} RemoveIdKeepsIdsUnique(entries: seq<JournalEntry>, id: string)
    requires UniqueIds(entries)
    ensures UniqueIds(RemoveId(entries, id))
  {
    if entries != [] {
      var tail := entries[1..];
      RemoveIdKeepsIdsUnique(tail, id);
      var r := RemoveId(tail, id);
      forall k | 0 <= k < |r| ensures r[k].id != entries[0].id {
        var j :| 0 <= j < |tail| && tail[j] == r[k];
        assert entries[j + 1] == r[k];
      }
    }
  }

  // ---------------------------------------------------------------------------
  // Save: upsert by id

  /** The collection save writes: the old records with a different id, then `entry`. */
  function Upsert(entries: seq<JournalEntry>, entry: JournalEntry): seq<JournalEntry> {
    RemoveId(entries, entry.id) + [entry]
  }

  /** After an upsert the new entry is the last record and the only one with its id; every
      record with another id is kept in order, and nothing else is added. */
  lemma UpsertSpec(entries: seq<JournalEntry>, entry: JournalEntry)
    ensures var r := Upsert(entries, entry);
      && |r| > 0 && r[|r| - 1] == entry
      && (forall i :: 0 <= i < |r| && r[i].id == entry.id ==> i == |r| - 1)
      && IsSubsequence(r[..|r| - 1], entries)
      && (forall e :: e in r <==> e == entry || (e in entries && e.id != entry.id))
      && (forall e :: e != entry ==> multiset(r)[e] == if e.id != entry.id then multiset(entries)[e] else 0)
  {
    var r := Upsert(entries, entry);
    RemoveIdSpec(entries, entry.id);
    assert r[..|r| - 1] == RemoveId(entries, entry.id);
    forall i | 0 <= i < |r| - 1 ensures r[i].id != entry.id {
      assert r[i] in RemoveId(entries, entry.id);
    }
  }

  /** Saving the same entry twice leaves the collection saving it once left. */
  lemma UpsertIdempotent(entries: seq<JournalEntry>, entry: JournalEntry)
    ensures Upsert(Upsert(entries, entry), entry) == Upsert(entries, entry)
  {
    var kept := RemoveId(entries, entry.id);
    FilterConcat(kept, [entry], NotId(entry.id));
    assert RemoveId([entry], entry.id) == [];
    RemoveIdIdempotent(entries, entry.id);
  }

  /** If ids were unique before a save, they are unique after it. */
  lemma UpsertKeepsIdsUnique(entries: seq<JournalEntry>, entry: JournalEntry)
    requires UniqueIds(entries)
    ensures UniqueIds(Upsert(entries, entry))
  {
    RemoveIdKeepsIdsUnique(entries, entry.id);
    UpsertSpec(entries, entry);
  }

  /** Saving an entry with a fresh id and then deleting that id restores the collection. */
  lemma UpsertThenRemoveRestores(entries: seq<JournalEntry>, entry: JournalEntry)
    requires !HasId(entries, entry.id)
    ensures RemoveId(Upsert(entries, entry), entry.id) == entries
  {
    FilterConcat(RemoveId(entries, entry.id), [entry], NotId(entry.id));
    assert RemoveId([entry], entry.id) == [];
    RemoveIdIdempotent(entries, entry.id);
    RemoveAbsentId(entries, entry.id);
  }

  // ---------------------------------------------------------------------------
  // Lookup by day

  /** `entries.find(e => e.day === day) || null`: the first record, in stored order, for `day`. */
  function FindByDay(entries: seq<JournalEntry>, day: int): (r: Option<JournalEntry>)
    ensures r.None? <==> forall i :: 0 <= i < |entries| ==> entries[i].day != day
    ensures r.Some? ==> exists i :: 0 <= i < |entries| && entries[i] == r.value && r.value.day == day
                                    && forall j :: 0 <= j < i ==> entries[j].day != day
  {
    if entries == [] then None
    else if entries[0].day == day then Some(entries[0])
    else FindByDay(entries[1..], day)
  }

  // ---------------------------------------------------------------------------
  // Search

  /** Whether `entry` matches an already lower-cased query: in its title, its content or one of its tags. */
  predicate MatchesQuery(entry: JournalEntry, lowerQuery: string) {
    || Includes(Lower(entry.title), lowerQuery)
    || Includes(Lower(entry.content), lowerQuery)
    || exists tag :: tag in entry.tags && Includes(Lower(tag), lowerQuery)
  }

  function Matcher(lowerQuery: string): JournalEntry -> bool {
    (e: JournalEntry) => MatchesQuery(e, lowerQuery)
  }

  /** Case-insensitive substring search over title, content and tags. */
  function Search(entries: seq<JournalEntry>, query: string): seq<JournalEntry> {
    Filter(entries, Matcher(Lower(query)))
  }

  /** Search returns exactly the records that match the lower-cased query, in stored order. */
  lemma SearchSpec(entries: seq<JournalEntry>, query: string)
    ensures IsSubsequence(Search(entries, query), entries)
    ensures forall e :: e in Search(entries, query) <==> e in entries && MatchesQuery(e, Lower(query))
    ensures forall e ::
      multiset(Search(entries, query))[e] == if MatchesQuery(e, Lower(query)) then multiset(entries)[e] else 0
  {
    FilterIsSubsequence(entries, Matcher(Lower(query)));
    forall e
      ensures multiset(Search(entries, query))[e] == if MatchesQuery(e, Lower(query)) then multiset(entries)[e] else 0
    {
      FilterCount(entries, Matcher(Lower(query)), e);
    }
  }

  /** The result depends on the query only through its lower-case form. */
  lemma SearchIgnoresCase(entries: seq<JournalEntry>, query: string)
    ensures Search(entries, Lower(query)) == Search(entries, query)
  {
    LowerIdempotent(query);
  }

  /** The empty query matches every record. */
  lemma SearchEmptyQuery(entries: seq<JournalEntry>)
    ensures Search(entries, "") == entries
  {
    forall e | e in entries ensures MatchesQuery(e, Lower("")) {
      IncludesEmpty(Lower(e.title));
    }
    FilterKeepsAll(entries, Matcher(Lower("")));
  }

  // ---------------------------------------------------------------------------
  // The store object

  /** The store: the slot's current content. Read failures of the underlying storage are passed
      in as `readFails`, write failures as `writeFails`. */
  class JournalStore {
    var slot: Slot

    constructor (initial: Slot)
      ensures slot == initial
    {
      slot := initial;
    }

    /** `getJournalEntries`: the stored collection; a missing slot, an unreadable blob and a
        failed read all give the empty collection. */
    function GetJournalEntries(readFails: bool): (r: seq<JournalEntry>)
      reads this
      ensures readFails || !slot.Stored? ==> r == []
      ensures !readFails && slot.Stored? ==> r == slot.entries
    {
      if readFails then []
      else match slot
        case Stored(entries) => entries
        case _ => []
    }

    /** `getJournalEntryByDay`: the first loaded record for `day`, or none. */
    function GetJournalEntryByDay(day: int, readFails: bool): (r: Option<JournalEntry>)
      reads this
      ensures readFails || !slot.Stored? ==> r.None?
      ensures r.Some? ==> r.value in GetJournalEntries(readFails) && r.value.day == day
      ensures r.None? <==> forall e :: e in GetJournalEntries(readFails) ==> e.day != day
      ensures r.Some? ==> exists i :: 0 <= i < |GetJournalEntries(readFails)| && GetJournalEntries(readFails)[i] == r.value
                                      && forall j :: 0 <= j < i ==> GetJournalEntries(readFails)[j].day != day
    {
      FindByDay(GetJournalEntries(readFails), day)
    }

    /** `searchJournalEntries`: the loaded records matching `query`, in stored order. */
    function SearchJournalEntries(query: string, readFails: bool): (r: seq<JournalEntry>)
      reads this
      ensures readFails || !slot.Stored? ==> r == []
      ensures IsSubsequence(r, GetJournalEntries(readFails))
      ensures forall e :: e in r <==> e in GetJournalEntries(readFails) && MatchesQuery(e, Lower(query))
      ensures forall e ::
        multiset(r)[e] == if MatchesQuery(e, Lower(query)) then multiset(GetJournalEntries(readFails))[e] else 0
    {
      SearchSpec(GetJournalEntries(readFails), query);
      Search(GetJournalEntries(readFails), query)
    }

    /** `saveJournalEntry`: load, drop the records with `entry.id`, append `entry`, write back.
        A failed write is reported and leaves the slot as it was. */
    method SaveJournalEntry(entry: JournalEntry, readFails: bool, writeFails: bool)
      returns (outcome: Outcome<StorageError>)
      modifies this
      ensures outcome == if writeFails then Fail(PersistenceFailure) else Pass
      ensures writeFails ==> slot == old(slot)
      ensures !writeFails ==> slot == Stored(Upsert(old(GetJournalEntries(readFails)), entry))
    {
      var existing := GetJournalEntries(readFails);
      var updated := RemoveId(existing, entry.id);
      updated := updated + [entry];
      if writeFails {
        return Fail(PersistenceFailure);
      }
      slot := Stored(updated);
      outcome := Pass;
    }

    /** `deleteJournalEntry`: load, drop the records with `id`, write back. A failed write is
        reported and leaves the slot as it was; an absent id is not an error. */
    method DeleteJournalEntry(id: string, readFails: bool, writeFails: bool)
      returns (outcome: Outcome<StorageError>)
      modifies this
      ensures outcome == if writeFails then Fail(PersistenceFailure) else Pass
      ensures writeFails ==> slot == old(slot)
      ensures !writeFails ==> slot == Stored(RemoveId(old(GetJournalEntries(readFails)), id))
    {
      var existing := GetJournalEntries(readFails);
      var updated := RemoveId(existing, id);
      if writeFails {
        return Fail(PersistenceFailure);
      }
      slot := Stored(updated);
      outcome := Pass;
    }
  }
}
