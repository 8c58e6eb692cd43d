/**
 What the diary rules promise: where a recorded mood lands, where an uploaded
 photo lands, what stays unchanged, and that every entry keeps a mood or a photo.
 */
module DiaryProperties {
  import opened MoodDiary

  // ---------------------------------------------------------------------
  // Recording a mood

  /** A mood posting adds exactly one mood-only entry at the end of the user's list for the day. */
  lemma RecordMoodAppendsEntry(d: Diary, today: string, user: string, text: string, score: int, now: string)
    ensures var r := RecordMood(d, today, user, text, score, now);
      && today in r && user in r[today]
      && |r[today][user]| == |Entries(d, today, user)| + 1
      && r[today][user][..|Entries(d, today, user)|] == Entries(d, today, user)
      && r[today][user][|Entries(d, today, user)|] == Entry(Some(Mood(text, score)), None, now)
  {
  }

  /**
   A mood posting creates the date and the user slot only when they are
   missing; every other date, and every other user of the day, is untouched.
   */
  lemma RecordMoodFrame(d: Diary, today: string, user: string, text: string, score: int, now: string)
    ensures var r := RecordMood(d, today, user, text, score, now);
      && r.Keys == d.Keys + {today}
      && (today in d ==> r.Keys == d.Keys)
      && r[today].Keys == (if today in d then d[today].Keys else {}) + {user}
      && (forall day :: day in d && day != today ==> r[day] == d[day])
      && (forall u :: u in r[today] && u != user ==> today in d && u in d[today] && r[today][u] == d[today][u])
  {
  }

  /** One mood posting: its text, score and timestamp. */
  datatype MoodPosting = MoodPosting(text: string, score: int, time: string)

  /** The document after each posting of `posts`, in order, for one user on one day. */
  function RecordMoods(d: Diary, today: string, user: string, posts: seq<MoodPosting>): Diary
    decreases |posts|
  {
    if posts == [] then d
    else
      var p := posts[0];
      RecordMoods(RecordMood(d, today, user, p.text, p.score, p.time), today, user, posts[1..])
  }

  /** The entries a run of mood postings creates, one per posting, in posting order. */
  function PostedEntries(posts: seq<MoodPosting>): (es: seq<Entry>)
    ensures |es| == |posts|
    ensures forall i :: 0 <= i < |posts| ==> es[i] == MoodEntry(posts[i].text, posts[i].score, posts[i].time)
  {
    if posts == [] then []
    else [MoodEntry(posts[0].text, posts[0].score, posts[0].time)] + PostedEntries(posts[1..])
  }

  /**
   After a run of mood postings the user's list for the day holds what it held
   before followed by one mood entry per posting, in posting order.
   */
  lemma {:induction false} RecordMoodsAppendsInOrder(d: Diary, today: string, user: string, posts: seq<MoodPosting>)
    decreases |posts|
    ensures Entries(RecordMoods(d, today, user, posts), today, user) == Entries(d, today, user) + PostedEntries(posts)
  {
    if posts != [] {
      var p := posts[0];
      var d1 := RecordMood(d, today, user, p.text, p.score, p.time);
      RecordMoodsAppendsInOrder(d1, today, user, posts[1..]);
      assert Entries(d1, today, user) == Entries(d, today, user) + [MoodEntry(p.text, p.score, p.time)];
    }
  }

  // ---------------------------------------------------------------------
  // Attaching a photo

  /**
   When some entry has no photo, the photo goes onto the last such entry,
   which keeps its mood and time; the count is unchanged and no other entry
   changes.
   */
  lemma AttachPhotoFillsLastGap(es: seq<Entry>, photo: Photo, now: string, k: nat)
    requires k < |es| && es[k].photo.None?
    requires forall j :: k < j < |es| ==> es[j].photo.Some?
    ensures var r := AttachPhoto(es, photo, now);
      && |r| == |es|
      && r[k] == Entry(es[k].mood, Some(photo), es[k].time)
      && forall j :: 0 <= j < |es| && j != k ==> r[j] == es[j]
  {
  }

  /**
   When every entry already has a photo (the list may be empty), one
   photo-only entry stamped `now` is appended after them.
   */
  lemma AttachPhotoAppendsWhenNoGap(es: seq<Entry>, photo: Photo, now: string)
    requires forall j :: 0 <= j < |es| ==> es[j].photo.Some?
    ensures AttachPhoto(es, photo, now) == es + [Entry(None, Some(photo), now)]
  {
  }

  /**
   The scan looks past a final entry that has a photo: when an earlier entry
   has none, an earlier entry receives the upload, the last entry is unchanged
   and nothing is appended.
   */
  lemma EarlierGapReceivesPhoto(es: seq<Entry>, photo: Photo, now: string)
    requires |es| > 0 && es[|es| - 1].photo.Some?
    requires exists j :: 0 <= j < |es| - 1 && es[j].photo.None?
    ensures var r := AttachPhoto(es, photo, now);
      && |r| == |es|
      && r[|es| - 1] == es[|es| - 1]
      && exists j :: 0 <= j < |es| - 1 && r[j].photo == Some(photo)
  {
    var k := LastWithoutPhoto(es).value;
    AttachPhotoFillsLastGap(es, photo, now, k);
  }

  /**
   No upload overwrites a photo: every entry that had one keeps it unchanged,
   and every old entry keeps its mood and time. The uploaded photo is on some entry.
   */
  lemma AttachPhotoKeepsExisting(es: seq<Entry>, photo: Photo, now: string)
    ensures var r := AttachPhoto(es, photo, now);
      && |es| <= |r| <= |es| + 1
      && (forall j :: 0 <= j < |es| && es[j].photo.Some? ==> r[j] == es[j])
      && (forall j :: 0 <= j < |es| ==> r[j].mood == es[j].mood && r[j].time == es[j].time)
      && exists j :: 0 <= j < |r| && r[j].photo == Some(photo)
  {
    var r := AttachPhoto(es, photo, now);
    match LastWithoutPhoto(es)
    case Some(k) =>
      assert r[k].photo == Some(photo);
    case None =>
      assert r[|es|].photo == Some(photo);
  }

  /** The number of entries that have no photo yet. */
  function PhotolessCount(es: seq<Entry>): nat {
    if es == [] then 0
    else PhotolessCount(es[..|es| - 1]) + (if es[|es| - 1].photo.None? then 1 else 0)
  }

  lemma {:induction false} PhotolessCountZero(es: seq<Entry>)
    ensures PhotolessCount(es) == 0 <==> forall j :: 0 <= j < |es| ==> es[j].photo.Some?
  {
    if es != [] {
      var init := es[..|es| - 1];
      PhotolessCountZero(init);
      assert forall j :: 0 <= j < |init| ==> init[j] == es[j];
    }
  }

  lemma {:induction false} PhotolessCountFill(es: seq<Entry>, k: nat, photo: Photo)
    requires k < |es| && es[k].photo.None?
    ensures PhotolessCount(es[k := es[k].(photo := Some(photo))]) == PhotolessCount(es) - 1
  {
    var filled := es[k := es[k].(photo := Some(photo))];
    var n := |es| - 1;
    if k == n {
      assert filled[..n] == es[..n];
    } else {
      assert filled[..n] == es[..n][k := es[k].(photo := Some(photo))];
      PhotolessCountFill(es[..n], k, photo);
    }
  }

  /**
   Each upload either fills one photoless entry, keeping the count of
   entries, or, when there is none, appends an entry that has its photo.
   */
  lemma AttachPhotoFillsOneGap(es: seq<Entry>, photo: Photo, now: string)
    ensures var r := AttachPhoto(es, photo, now);
      if PhotolessCount(es) > 0
      then |r| == |es| && PhotolessCount(r) == PhotolessCount(es) - 1
      else |r| == |es| + 1 && PhotolessCount(r) == 0
  {
    var r := AttachPhoto(es, photo, now);
    PhotolessCountZero(es);
    match LastWithoutPhoto(es)
    case Some(k) =>
      PhotolessCountFill(es, k, photo);
    case None =>
      assert r[..|es|] == es;
      PhotolessCountZero(r);
  }

  /** The stored file name of one user's two uploads differs when the original names differ. */
  lemma StoredFilenameDistinguishesUploads(user: string, a: string, b: string)
    requires StoredFilename(user, a) == StoredFilename(user, b)
    ensures a == b
  {
  }

  /** Two users can still be given the same stored file name: the prefix is not a separator. */
  lemma StoredFilenameCrossUserClash()
    ensures StoredFilename("a", "b_c") == StoredFilename("a_b", "c")
  {
  }

  // ---------------------------------------------------------------------
  // Recording a photo in the document

  /**
   A photo upload changes only the uploading user's list for today, by the
   attach-or-append rule with the stored file name `user_originalName`.
   */
  lemma RecordPhotoFrame(d: Diary, today: string, user: string, originalName: string, description: string, now: string)
    ensures var r := RecordPhoto(d, today, user, originalName, description, now);
      && r.Keys == d.Keys + {today}
      && (today in d ==> r.Keys == d.Keys)
      && r[today].Keys == (if today in d then d[today].Keys else {}) + {user}
      && r[today][user] == AttachPhoto(Entries(d, today, user), Photo(user + "_" + originalName, description), now)
      && (forall day :: day in d && day != today ==> r[day] == d[day])
      && (forall u :: u in r[today] && u != user ==> today in d && u in d[today] && r[today][u] == d[today][u])
  {
  }

  /** A photo uploaded right after a mood posting is put on that mood's entry. */
  lemma PhotoJoinsPrecedingMood(d: Diary, today: string, user: string, text: string, score: int, t0: string,
                                originalName: string, description: string, t1: string)
    ensures var r := RecordPhoto(RecordMood(d, today, user, text, score, t0), today, user, originalName, description, t1);
      Entries(r, today, user) ==
        Entries(d, today, user) + [Entry(Some(Mood(text, score)), Some(Photo(StoredFilename(user, originalName), description)), t0)]
  {
  }

  // ---------------------------------------------------------------------
  // Every entry has a mood or a photo

  lemma AttachPhotoPreservesWellFormed(es: seq<Entry>, photo: Photo, now: string)
    requires EntriesWellFormed(es)
    ensures EntriesWellFormed(AttachPhoto(es, photo, now))
  {
  }

  lemma RecordMoodPreservesWellFormed(d: Diary, today: string, user: string, text: string, score: int, now: string)
    requires DiaryWellFormed(d)
    ensures DiaryWellFormed(RecordMood(d, today, user, text, score, now))
  {
  }

  lemma RecordPhotoPreservesWellFormed(d: Diary, today: string, user: string, originalName: string, description: string, now: string)
    requires DiaryWellFormed(d)
    ensures DiaryWellFormed(RecordPhoto(d, today, user, originalName, description, now))
  {
  }

  /** Removing a date keeps every remaining entry well formed. */
  lemma RemoveDayPreservesWellFormed(d: Diary, today: string)
    requires DiaryWellFormed(d)
    ensures DiaryWellFormed(d - {today})
  {
  }
}
