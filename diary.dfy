/**
 The mood diary document kept by the backend: a table from date to user to
 the ordered list of that user's entries for the day, and the pure rules the
 request handlers apply to it.
 */
module MoodDiary {

  datatype Option<T> = None | Some(value: T)

  /** The `mood` part of an entry: a free-text label and a score. */
  datatype Mood = Mood(text: string, score: int)

  /** The `photo` part of an entry: the stored file name and its description. */
  datatype Photo = Photo(file: string, description: string)

  /** One diary entry. An absent key of the JSON object is `None`. */
  datatype Entry = Entry(mood: Option<Mood>, photo: Option<Photo>, time: string)

  /** One day's record: user name to that user's entries, oldest first. */
  type DayRecord = map<string, seq<Entry>>

  /** The whole document: date string ("YYYY-MM-DD") to that day's record. */
  type Diary = map<string, DayRecord>

  /** Every entry the handlers create carries a mood or a photo (or both). */
  predicate EntryWellFormed(e: Entry) {
    e.mood.Some? || e.photo.Some?
  }

  predicate EntriesWellFormed(es: seq<Entry>) {
    forall i :: 0 <= i < |es| ==> EntryWellFormed(es[i])
  }

  predicate DiaryWellFormed(d: Diary) {
    forall day, user :: day in d && user in d[day] ==> EntriesWellFormed(d[day][user])
  }

  /** The entry `post_mood` appends: a mood, no photo, stamped with `now`. */
  function MoodEntry(text: string, score: int, now: string): (e: Entry)
    ensures e.mood == Some(Mood(text, score)) && e.photo.None? && e.time == now
    ensures EntryWellFormed(e)
  {
    Entry(Some(Mood(text, score)), None, now)
  }

  /** The entry `upload_photo` appends when no entry can take the photo. */
  function PhotoEntry(photo: Photo, now: string): (e: Entry)
    ensures e.mood.None? && e.photo == Some(photo) && e.time == now
    ensures EntryWellFormed(e)
  {
    Entry(None, Some(photo), now)
  }

  /** The name an upload is stored under: the user name, an underscore, the original name. */
  function StoredFilename(user: string, originalName: string): (name: string)
    ensures |name| == |user| + 1 + |originalName|
    ensures name[..|user|] == user && name[|user|] == '_'
    ensures name[|user| + 1..] == originalName
  {
    user + "_" + originalName
  }

  /**
   The index of the last entry that has no photo, the one a reversed scan of
   the list meets first; `None` when every entry already has a photo.
   */
  function LastWithoutPhoto(es: seq<Entry>): (r: Option<nat>)
    ensures r.Some? ==> r.value < |es| && es[r.value].photo.None?
    ensures r.Some? ==> forall j :: r.value < j < |es| ==> es[j].photo.Some?
    ensures r.None? <==> forall j :: 0 <= j < |es| ==> es[j].photo.Some?
  {
    if |es| == 0 then None
    else if es[|es| - 1].photo.None? then Some(|es| - 1)
    else LastWithoutPhoto(es[..|es| - 1])
  }

  /**
   The attach-or-append rule of a photo upload: the photo goes onto the last
   entry without one, which keeps its mood and time; if there is none, a
   photo-only entry stamped `now` is appended.
   */
  function AttachPhoto(es: seq<Entry>, photo: Photo, now: string): (r: seq<Entry>)
    ensures |r| == |es| <==> exists j :: 0 <= j < |es| && es[j].photo.None?
    ensures |r| != |es| ==> r == es + [PhotoEntry(photo, now)]
  {
    match LastWithoutPhoto(es)
    case Some(k) => es[k := es[k].(photo := Some(photo))]
    case None => es + [PhotoEntry(photo, now)]
  }

  /** A user's entries for a day; a missing date or user reads as no entries. */
  function Entries(d: Diary, day: string, user: string): (es: seq<Entry>)
    ensures day in d && user in d[day] ==> es == d[day][user]
    ensures day !in d || user !in d[day] ==> es == []
  {
    if day in d && user in d[day] then d[day][user] else []
  }

  /**
   The diary with `user`'s list for `day` replaced by `es`, creating the date
   and the user slot when they are missing and touching nothing else.
   */
  function SetEntries(d: Diary, day: string, user: string, es: seq<Entry>): (r: Diary)
    ensures r.Keys == d.Keys + {day}
    ensures r[day].Keys == (if day in d then d[day].Keys else {}) + {user}
    ensures r[day][user] == es
    ensures forall other :: other in d && other != day ==> r[other] == d[other]
    ensures forall u :: u in r[day] && u != user ==> day in d && u in d[day] && r[day][u] == d[day][u]
  {
    var record := if day in d then d[day] else map[];
    d[day := record[user := es]]
  }

  /** The document after `post_mood(user, text, score)` on `today` at `now`. */
  function RecordMood(d: Diary, today: string, user: string, text: string, score: int, now: string): (r: Diary)
    ensures r.Keys == d.Keys + {today} && user in r[today]
    ensures Entries(r, today, user) == Entries(d, today, user) + [MoodEntry(text, score, now)]
  {
    SetEntries(d, today, user, Entries(d, today, user) + [MoodEntry(text, score, now)])
  }

  /** The document after `upload_photo(user, description, originalName)` on `today` at `now`. */
  function RecordPhoto(d: Diary, today: string, user: string, originalName: string, description: string, now: string): (r: Diary)
    ensures r.Keys == d.Keys + {today} && user in r[today]
    ensures Entries(r, today, user) == AttachPhoto(Entries(d, today, user), Photo(user + "_" + originalName, description), now)
  {
    var photo := Photo(StoredFilename(user, originalName), description);
    SetEntries(d, today, user, AttachPhoto(Entries(d, today, user), photo, now))
  }
}
