/** The record shape of one journal entry (data/journalData.ts). */
module JournalData {

  /** The five moods a user can attach to an entry. */
  datatype Mood = Peaceful | Grateful | Challenged | Joyful | Reflective

  /** Creation and update times, treated as opaque values: the store never compares them. */
  type Timestamp = int

  /** One journal record tied to a calendar day. */
  datatype JournalEntry = JournalEntry(
    id: string,
    day: int,
    date: string,
    title: string,
    content: string,
    mood: Mood,
    tags: seq<string>,
    createdAt: Timestamp,
    updatedAt: Timestamp)
}
