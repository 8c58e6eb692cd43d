# Mood diary backend, modelled in Dafny

The backend keeps a mood diary for several named users in one JSON document.
The document maps a calendar date to a day record. A day record maps a user
name to that user's entries for the day, oldest first. An entry has an
optional mood (text and score), an optional photo (stored file name and
description) and a creation time.

Four request handlers change the document:

- posting a mood,
- uploading a photo,
- clearing today,
- clearing everything.

Posting a mood and uploading a photo load the whole document, change it in
memory and save it. Clearing today saves only when the date is present.
Clearing everything overwrites the file with the empty document without
loading it. Loading a missing data file gives the empty document.

The model has three files:

- `diary.dfy` (module `MoodDiary`) holds the value types and the pure rules.
  These are the stored file name `user_original`, the reversed search for the
  last entry without a photo (`LastWithoutPhoto`), the attach-or-append rule
  (`AttachPhoto`), and the effect of a mood posting (`RecordMood`) and of a
  photo upload (`RecordPhoto`) on the document.
- `diary_properties.dfy` (module `DiaryProperties`) proves what those rules
  promise. It covers where a mood or photo lands, what stays unchanged, that
  no existing photo is overwritten, and that every entry keeps a mood or a
  photo.
- `server.dfy` (module `MoodServer`) is the imperative part. The class
  `Server` holds the data file as state: whether it exists and what it holds.
  It has one method per handler. `PostMood` and `UploadPhoto` load, update
  the nested map step by step as the handlers do, and save; `ClearToday`
  saves only when the date is present; `ClearAll` only saves. `AttachOrAppend` is the
  handler's reversed `for`/`else` scan, written as a backwards `while` loop
  with `break`. It is proved equal to `AttachPhoto`.

The clock is an input. The handlers take `today` (the date key) and `now`
(the entry timestamp) as parameters.

A photo does not go only onto the most recent entry. The code scans the
whole list from the end, so an earlier entry without a photo still receives
the upload even when the last entry has one (`EarlierGapReceivesPhoto`).

The fixed replies are the constants `MoodSavedMessage` (main.py:52),
`PhotoUploadedMessage` (main.py:92) and `ClearedAllMessage` (main.py:126),
and the functions `ClearedDayMessage` and `NothingToClearMessage`, which
include the date (main.py:119, main.py:121).

Stored file names are not unique across users. `StoredFilenameCrossUserClash`
shows that user `a` uploading `b_c` and user `a_b` uploading `c` both get
`a_b_c`. For a single user, different original names always give different
stored names (`StoredFilenameDistinguishesUploads`).

## Model

| member | source | states |
|---|---|---|
| `MoodDiary.StoredFilename` | main.py:60 | the stored name is the user name, then `_`, then the original name, so it always starts with `user_` |
| `MoodDiary.LastWithoutPhoto` | main.py:74-75 | the reversed scan finds the highest index whose entry has no photo, with every later entry having one; it finds nothing exactly when every entry has a photo |
| `MoodDiary.MoodEntry` | main.py:42-48 | defines the entry a mood posting creates: the posted text and score as its mood, no photo, time `now`; it carries a mood |
| `MoodDiary.PhotoEntry` | main.py:83-89 | defines the entry an upload appends when nothing can take the photo: no mood, the photo, time `now`; it carries a photo |
| `MoodDiary.AttachPhoto` | main.py:74-89 | defines the attach-or-append rule; the list keeps its length exactly when some entry lacks a photo, and otherwise becomes the old list plus a photo-only entry |
| `MoodDiary.Entries` | main.py:37-40 | defines a user's list for a day, reading a missing date or user as the empty list that the handlers create |
| `MoodDiary.RecordMood` | main.py:35-49 | defines the document after a mood posting: the date and user keys exist, no other date is added, and the user's list is the old one (empty if missing) plus the mood entry |
| `MoodDiary.RecordPhoto` | main.py:60-89 | defines the document after an upload: the date and user keys exist, no other date is added, and the user's list is the attach-or-append rule applied with photo `{user_original, description}` |
| `MoodDiary.SetEntries` | main.py:37-40 | replacing a user's list for a day creates the date and user keys only if missing and leaves every other date and every other user of that day as they were |
| `DiaryProperties.RecordMoodAppendsEntry` | main.py:42-49 | a mood posting makes the list one longer, keeps the earlier entries, and ends it with an entry that has the posted text and score, no photo, and time `now` |
| `DiaryProperties.RecordMoodFrame` | main.py:37-40 | a mood posting adds the date key only when it is absent and the user key only when it is absent; other dates and other users of today are unchanged |
| `DiaryProperties.RecordMoodsAppendsInOrder` | main.py:32-52 | after any run of mood postings by one user on one day, the list is the old list followed by one mood entry per posting, in posting order |
| `DiaryProperties.AttachPhotoFillsLastGap` | main.py:74-80 | when entry k lacks a photo and every later entry has one, the upload puts the photo on entry k, which keeps its mood and time; the count is unchanged and every other entry is unchanged |
| `DiaryProperties.AttachPhotoAppendsWhenNoGap` | main.py:81-89 | when every entry has a photo (including an empty or new list), the result is the old list plus one photo-only entry stamped `now` |
| `DiaryProperties.EarlierGapReceivesPhoto` | main.py:74-80 | for any list whose last entry has a photo while an earlier one does not, an earlier entry gets the upload, the last entry is unchanged and nothing is appended |
| `DiaryProperties.AttachPhotoKeepsExisting` | main.py:74-76 | an upload never overwrites a photo: every entry that had one is unchanged, and every old entry keeps its mood and time; the uploaded photo ends up on some entry |
| `DiaryProperties.AttachPhotoFillsOneGap` | main.py:73-89 | an upload either fills exactly one photoless entry without changing the count, or, when there is none, adds one entry and leaves no photoless entry |
| `DiaryProperties.StoredFilenameDistinguishesUploads` | main.py:60 | for one user, equal stored names come from equal original names |
| `DiaryProperties.StoredFilenameCrossUserClash` | main.py:60-62 | two different users can get the same stored name, so one upload can overwrite another user's file |
| `DiaryProperties.RecordPhotoFrame` | main.py:65-89 | a photo upload creates missing date and user keys, applies the attach-or-append rule with photo `{user_original, description}` to the user's list, and leaves every other date and user unchanged |
| `DiaryProperties.PhotoJoinsPrecedingMood` | main.py:73-80 | a photo uploaded right after a mood posting goes onto that mood's entry, which keeps its time |
| `DiaryProperties.AttachPhotoPreservesWellFormed` | main.py:76-89 | if every entry has a mood or a photo before an upload, the same holds afterwards |
| `DiaryProperties.RecordMoodPreservesWellFormed` | main.py:42-49 | a mood posting keeps every entry of the document with a mood or a photo |
| `DiaryProperties.RecordPhotoPreservesWellFormed` | main.py:68-89 | a photo upload keeps every entry of the document with a mood or a photo |
| `DiaryProperties.RemoveDayPreservesWellFormed` | main.py:116-117 | removing a date keeps the remaining entries with a mood or a photo |
| `MoodServer.AttachOrAppend` | main.py:74-89 | the backwards loop with early exit and the append-if-not-found branch give exactly the attach-or-append result |
| `MoodServer.ClearedDayMessage` | main.py:119 | the reply after clearing today contains the date between its fixed words |
| `MoodServer.NothingToClearMessage` | main.py:121 | the reply when nothing is stored for today starts with the date |
| `MoodServer.Server.constructor` | main.py:20-24 | the disk as a request finds it: whether the data file exists, and the document it holds |
| `MoodServer.Server.ReadData` | main.py:22-26 | loading gives the empty document when the data file does not exist, and the stored document otherwise |
| `MoodServer.Server.WriteData` | main.py:28-30 | saving creates or replaces the file, and loading afterwards gives back the saved document |
| `MoodServer.Server.PostMood` | main.py:32-52 | the file then exists and holds the old document with one mood entry appended to `user`'s list for `today`; other dates are unchanged; the well-formedness invariant is kept; the reply is the fixed confirmation |
| `MoodServer.Server.UploadPhoto` | main.py:54-92 | the file then exists and holds the old document with the attach-or-append rule applied to `user`'s list for `today`, using the name `user_original`; other dates are unchanged; the invariant is kept |
| `MoodServer.Server.ClearToday` | main.py:112-121 | when `today` is stored, the file is rewritten without exactly that date; otherwise the file is not touched; the reply says which case happened |
| `MoodServer.Server.ClearAll` | main.py:123-126 | the file always ends up holding the empty document, and loading it gives the empty diary |
| `MoodServer.Server.GetAllSummary` | main.py:108-110 | the summary is the loaded document, or the empty document when there is no data file |

## Left out

- Writing the uploaded bytes to the uploads directory and serving them back (main.py:61-63, main.py:94-96). This is file I/O. The model keeps only the derived file name.
- UploadPhoto: a failed file write aborts the request before the diary is touched (main.py:61-63 run before main.py:66); the model always records the photo, because the outcome of the file write is not modelled.
- Failures of loading or saving the data file itself (an unreadable file, invalid JSON, a full disk) are not modelled; loading and saving always succeed.
- FastAPI routing, form parsing and validation, CORS, the HTML pages and the static mount (main.py:1-18, main.py:98-106, main.py:129). This is framework plumbing with no logic of its own.
- JSON encoding and decoding (main.py:25-26, main.py:29-30). The data file holds a `Diary` value directly. A file that is not valid JSON, or that does not match the entry schema, is not modelled. The order in which dates and users were first inserted, which the stored and returned JSON keeps, is not modelled: a Dafny `map` has no order.
- The clock. `date.today()` and `datetime.now().isoformat()` become the parameters `today` and `now`. The model makes no claim that timestamps are non-decreasing.
- Concurrency. The handlers are asynchronous and unsynchronised, so two requests can race between load and save and lose an update. Each method here runs as one uninterrupted step.
- In-place mutation of entry dictionaries is modelled by value, as an update of the list at one index. The document is freshly loaded on each request, so no other reference to an entry can observe the difference.
