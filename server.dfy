/**
 The request handlers of the mood backend. The data file is the object's
 state. Posting a mood and uploading a photo load the document, change it
 and save it; clearing today saves only when the date is present; clearing
 everything overwrites the file without loading it. The calendar date and
 the clock are passed in as `today` and `now`.
 */
module MoodServer {
  import opened MoodDiary
  import DiaryProperties

  const MoodSavedMessage: string := "心情已儲存"
  const PhotoUploadedMessage: string := "照片已上傳"
  const ClearedAllMessage: string := "已清除所有心情日記"

  /** The reply when today's entries were removed; it names the date. */
  function ClearedDayMessage(today: string): (m: string)
    ensures |m| == |today| + 10 && m[4..4 + |today|] == today
  {
    "已清除 " + today + " 的心情日記"
  }

  /** The reply when there was nothing stored for today; it starts with the date. */
  function NothingToClearMessage(today: string): (m: string)
    ensures |m| == |today| + 10 && m[..|today|] == today
  {
    today + " 沒有心情日記可清除"
  }

  /**
   The reversed scan of an upload: walk the list from its last entry back,
   put the photo on the first entry met that has none and stop; if the walk
   ends without one, append a photo-only entry stamped `now`.
   */
  method AttachOrAppend(entries: seq<Entry>, photo: Photo, now: string) returns (updated: seq<Entry>)
    ensures updated == AttachPhoto(entries, photo, now)
  {
    updated := entries;
    var found := false;
    var i := |entries|;
    while i > 0
      invariant 0 <= i <= |entries|
      invariant forall j :: i <= j < |entries| ==> entries[j].photo.Some?
      invariant !found && updated == entries
    {
      i := i - 1;
      if entries[i].photo.None? {
        updated := updated[i := updated[i].(photo := Some(photo))];
        found := true;
        break;
      }
    }
    if !found {
      updated := updated + [PhotoEntry(photo, now)];
    } else {
      DiaryProperties.AttachPhotoFillsLastGap(entries, photo, now, i);
    }
  }

  class Server {
    /** Whether the data file exists on disk. */
    var fileExists: bool
    /** The document the data file holds when it exists. */
    var fileDocument: Diary

    /** The disk as a request finds it: whether the data file exists, and what it holds. */
    constructor (exists_: bool, document: Diary)
      ensures fileExists == exists_ && fileDocument == document
    {
      fileExists := exists_;
      fileDocument := document;
    }

    /** Loading the data file: a missing file reads as the empty document. */
    function ReadData(): (data: Diary)
      reads this
      ensures !fileExists ==> data == map[]
      ensures fileExists ==> data == fileDocument
    {
      if fileExists then fileDocument else map[]
    }

    /** Saving replaces the file, creating it if needed; loading afterwards gives back `data`. */
    method WriteData(data: Diary)
      modifies this
      ensures fileExists && fileDocument == data
      ensures ReadData() == data
    {
      fileExists := true;
      fileDocument := data;
    }

    /** Every stored entry has a mood or a photo. */
    predicate WellFormed()
      reads this
    {
      DiaryWellFormed(ReadData())
    }

    /** POST /mood: append a mood-only entry to the user's list for today. */
    method PostMood(user: string, mood: string, score: int, today: string, now: string) returns (message: string)
      modifies this
      ensures fileExists
      ensures ReadData() == RecordMood(old(ReadData()), today, user, mood, score, now)
      ensures today in ReadData() && user in ReadData()[today]
      ensures ReadData()[today][user] == Entries(old(ReadData()), today, user) + [Entry(Some(Mood(mood, score)), None, now)]
      ensures forall day :: day in old(ReadData()) && day != today ==> day in ReadData() && ReadData()[day] == old(ReadData())[day]
      ensures old(WellFormed()) ==> WellFormed()
      ensures message == MoodSavedMessage
    {
      var data := ReadData();
      ghost var before := data;
      if today !in data {
        data := data[today := map[]];
      }
      if user !in data[today] {
        data := data[today := data[today][user := []]];
      }
      var entry := Entry(Some(Mood(mood, score)), None, now);
      data := data[today := data[today][user := data[today][user] + [entry]]];
      ghost var record := if today in before then before[today] else map[];
      assert data[today] == record[user := Entries(before, today, user) + [entry]];
      assert data == before[today := data[today]];
      if DiaryWellFormed(before) {
        DiaryProperties.RecordMoodPreservesWellFormed(before, today, user, mood, score, now);
      }
      WriteData(data);
      message := MoodSavedMessage;
    }

    /**
     POST /photo: store the photo under `user_originalName` and put it on the
     user's last entry for today that has no photo, or append a photo-only entry.
     */
    method UploadPhoto(user: string, description: string, originalName: string, today: string, now: string)
      returns (message: string)
      modifies this
      ensures fileExists
      ensures ReadData() == RecordPhoto(old(ReadData()), today, user, originalName, description, now)
      ensures today in ReadData() && user in ReadData()[today]
      ensures ReadData()[today][user] == AttachPhoto(Entries(old(ReadData()), today, user), Photo(user + "_" + originalName, description), now)
      ensures forall day :: day in old(ReadData()) && day != today ==> day in ReadData() && ReadData()[day] == old(ReadData())[day]
      ensures old(WellFormed()) ==> WellFormed()
      ensures message == PhotoUploadedMessage
    {
      var filename := StoredFilename(user, originalName);
      var data := ReadData();
      ghost var before := data;
      if today !in data {
        data := data[today := map[]];
      }
      if user !in data[today] {
        data := data[today := data[today][user := []]];
      }
      assert data[today][user] == Entries(before, today, user);
      var updated := AttachOrAppend(data[today][user], Photo(filename, description), now);
      data := data[today := data[today][user := updated]];
      ghost var record := if today in before then before[today] else map[];
      assert data[today] == record[user := updated];
      assert data == before[today := data[today]];
      if DiaryWellFormed(before) {
        DiaryProperties.RecordPhotoPreservesWellFormed(before, today, user, originalName, description, now);
      }
      WriteData(data);
      message := PhotoUploadedMessage;
    }

    /** DELETE /clear/today: drop today's date if present; otherwise write nothing. */
    method ClearToday(today: string) returns (message: string)
      modifies this
      ensures today in old(ReadData()) ==> fileExists && fileDocument == old(ReadData()) - {today}
      ensures today !in old(ReadData()) ==> fileExists == old(fileExists) && fileDocument == old(fileDocument)
      ensures ReadData().Keys == old(ReadData()).Keys - {today}
      ensures forall day :: day in ReadData() ==> ReadData()[day] == old(ReadData())[day]
      ensures old(WellFormed()) ==> WellFormed()
      ensures message == if today in old(ReadData()) then ClearedDayMessage(today) else NothingToClearMessage(today)
    {
      var data := ReadData();
      if today in data {
        data := data - {today};
        WriteData(data);
        message := ClearedDayMessage(today);
      } else {
        message := NothingToClearMessage(today);
      }
    }

    /** DELETE /clear/all: overwrite the file with the empty document. */
    method ClearAll() returns (message: string)
      modifies this
      ensures fileExists && fileDocument == map[]
      ensures ReadData() == map[]
      ensures WellFormed()
      ensures message == ClearedAllMessage
    {
      WriteData(map[]);
      message := ClearedAllMessage;
    }

    /** GET /summary/all: the whole document as loaded. */
    method GetAllSummary() returns (data: Diary)
      ensures !fileExists ==> data == map[]
      ensures fileExists ==> data == fileDocument
    {
      data := ReadData();
    }
  }
}
