/** The two merges of a reading-list item: `update`, which folds freshly scraped
    structure into a stored item, and `updateFromRemote`, which applies the
    authoritative remote copy. Both walk the chapter slots the way the source's
    loop does, on a JavaScript array: `delete` leaves a hole, and writing past the
    end grows the array. */
module ListMerge {
  import opened Wrappers
  import opened ListItems

  function Max(a: int, b: int): int {
    if a < b then b else a
  }

  /** `a[i]`; a slot past the end reads as a hole. */
  function At<T>(a: seq<Option<T>>, i: nat): Option<T> {
    if i < |a| then a[i] else None
  }

  /** `a[i] = x`: writing past the end grows the array to `i + 1`, with holes between. */
  function JsSet<T>(a: seq<Option<T>>, i: nat, x: T): (r: seq<Option<T>>)
    ensures |r| == Max(|a|, i + 1)
    ensures forall j :: 0 <= j < |r| ==> r[j] == if j == i then Some(x) else At(a, j)
  {
    if i < |a| then a[i := Some(x)] else a + seq(i - |a|, _ => None) + [Some(x)]
  }

  /** `delete a[i]`: the slot becomes a hole and the length stays. */
  function JsDelete<T>(a: seq<Option<T>>, i: nat): (r: seq<Option<T>>)
    ensures |r| == |a|
    ensures forall j :: 0 <= j < |r| ==> r[j] == if j == i then None else a[j]
  {
    if i < |a| then a[i := None] else a
  }

  /** One past the last slot that is not a hole; 0 when there is none. */
  function PresentExtent<T>(a: seq<Option<T>>): (n: nat)
    ensures n <= |a|
    ensures n > 0 ==> a[n - 1].Some?
    ensures forall j :: n <= j < |a| ==> a[j].None?
  {
    if |a| == 0 then 0
    else if a[|a| - 1].Some? then |a|
    else PresentExtent(a[..|a| - 1])
  }

  /** What one step of a merge leaves in a slot: `onBoth` when both sides have a
      chapter there, a hole when only the existing side has one, `onNew` when only
      the incoming side has one, and nothing otherwise. */
  function MergeSlot<D>(t: Option<Chapter>, d: Option<D>, i: nat,
                        onBoth: (Chapter, D) -> Chapter, onNew: (nat, D) -> Chapter): Option<Chapter>
  {
    match (t, d)
    case (Some(tc), Some(dc)) => Some(onBoth(tc, dc))
    case (Some(_), None) => None
    case (None, Some(dc)) => Some(onNew(i, dc))
    case (None, None) => None
  }

  /** The loop `for (i = 0; i < max(this.chapters.length, data.chapters.length); i++)`
      from slot `i` on. Slots before `i` are done; the incoming list has no chapter
      between the current end of the array and `i` (a chapter there would have been
      written, growing the array past it). The array ends up as long as the longer
      of the existing array and the incoming list without its trailing holes. */
  function Walk<D>(ts: seq<Option<Chapter>>, ds: seq<Option<D>>, i: nat,
                   onBoth: (Chapter, D) -> Chapter, onNew: (nat, D) -> Chapter): (r: seq<Option<Chapter>>)
    requires forall j :: |ts| <= j < i ==> At(ds, j).None?
    ensures |r| == Max(|ts|, PresentExtent(ds))
    ensures forall j :: 0 <= j < |r| ==>
      r[j] == if j < i then At(ts, j) else MergeSlot(At(ts, j), At(ds, j), j, onBoth, onNew)
    decreases Max(|ts|, |ds|) - i
  {
    if i >= Max(|ts|, |ds|) then
      assert PresentExtent(ds) > 0 ==> At(ds, PresentExtent(ds) - 1).Some?;
      ts
    else
      match (At(ts, i), At(ds, i))
      case (Some(tc), Some(dc)) => Walk(ts[i := Some(onBoth(tc, dc))], ds, i + 1, onBoth, onNew)
      case (Some(_), None) => Walk(JsDelete(ts, i), ds, i + 1, onBoth, onNew)
      case (None, Some(dc)) => Walk(JsSet(ts, i, onNew(i, dc)), ds, i + 1, onBoth, onNew)
      case (None, None) => Walk(ts, ds, i + 1, onBoth, onNew)
  }

  // ---- update ---------------------------------------------------------------

  /** The result of `update`: the merged item and the returned `change` flag. */
  datatype Updated = Updated(item: ReadingListItem, changed: bool)

  /** `ts.chapterId = ds.chapterId` when the scraped chapter has an id. */
  function AdoptChapterId(t: Chapter, d: Chapter): Chapter {
    if d.chapterId.Some? then t.(chapterId := d.chapterId) else t
  }

  /** `this.chapters[i] = data.chapters[i]`: the scraped chapter itself. */
  function KeepIncoming(i: nat, d: Chapter): Chapter {
    d
  }

  /** Slot `j` holds a chapter on both sides and the scraped one brings a
      different, defined chapter id. */
  predicate ReplacesIdAt(ec: seq<Option<Chapter>>, dc: seq<Option<Chapter>>, j: int) {
    0 <= j < |ec| && j < |dc| && ec[j].Some? && dc[j].Some?
    && dc[j].value.chapterId.Some? && ec[j].value.chapterId != dc[j].value.chapterId
  }

  /** Whether some slot from `from` on gets a new chapter id. */
  function IdsReplaced(ec: seq<Option<Chapter>>, dc: seq<Option<Chapter>>, from: nat): (b: bool)
    ensures b <==> exists j :: from <= j && ReplacesIdAt(ec, dc, j)
    decreases |ec| - from
  {
    if from >= |ec| then false
    else ReplacesIdAt(ec, dc, from) || IdsReplaced(ec, dc, from + 1)
  }

  /** One of the fields `update` copies differs. */
  predicate SimpleFieldsDiffer(e: ReadingListItem, d: ReadingListItem) {
    e.workId != d.workId || e.title != d.title || e.author != d.author
    || e.totalChapters != d.totalChapters
  }

  /** `ReadingListItem.update(data)`. */
  function Update(e: ReadingListItem, d: ReadingListItem): (r: Updated)
    ensures r.item.workId == d.workId && r.item.title == d.title
         && r.item.author == d.author && r.item.totalChapters == d.totalChapters
    ensures r.item.status == e.status && r.item.rating == e.rating
         && r.item.bookmarkId == e.bookmarkId
    ensures |r.item.chapters| == Max(|e.chapters|, PresentExtent(d.chapters))
    ensures forall j :: 0 <= j < |r.item.chapters| && At(e.chapters, j).Some? && At(d.chapters, j).Some? ==>
      r.item.chapters[j] == Some(e.chapters[j].value.(chapterId :=
        if d.chapters[j].value.chapterId.Some? then d.chapters[j].value.chapterId
        else e.chapters[j].value.chapterId))
    ensures forall j :: 0 <= j < |r.item.chapters| && At(e.chapters, j).Some? && At(d.chapters, j).None? ==>
      r.item.chapters[j].None?
    ensures forall j :: 0 <= j < |r.item.chapters| && At(e.chapters, j).None? ==>
      r.item.chapters[j] == At(d.chapters, j)
    ensures r.changed <==>
      SimpleFieldsDiffer(e, d) || |e.chapters| != |d.chapters|
      || exists j :: ReplacesIdAt(e.chapters, d.chapters, j)
  {
    var chapters := Walk(e.chapters, d.chapters, 0, AdoptChapterId, KeepIncoming);
    var changed := SimpleFieldsDiffer(e, d) || |e.chapters| != |d.chapters|
                   || IdsReplaced(e.chapters, d.chapters, 0);
    Updated(e.(workId := d.workId, title := d.title, author := d.author,
               totalChapters := d.totalChapters, chapters := chapters),
            changed)
  }

  /** The merged list is what the scraped data says at every slot it covers, so a
      second merge with the same data changes no slot. */
  lemma UpdateSlotsSettled(e: ReadingListItem, d: ReadingListItem)
    ensures var m := Update(e, d).item;
      forall j :: 0 <= j < |m.chapters| && At(d.chapters, j).Some? ==>
        m.chapters[j].Some?
        && (d.chapters[j].value.chapterId.Some? ==> m.chapters[j].value.chapterId == d.chapters[j].value.chapterId)
    ensures var m := Update(e, d).item;
      forall j :: 0 <= j < |m.chapters| && At(d.chapters, j).None? ==> m.chapters[j].None?
  {
  }

  /** `update` is idempotent on the item, but its flag is not: the second call with
      the same data still reports a change whenever the merged array is longer than
      the data's, which happens whenever the stored list was longer, because
      `delete` never shortens it. */
  lemma {:induction false} UpdateTwice(e: ReadingListItem, d: ReadingListItem)
    ensures Update(Update(e, d).item, d).item == Update(e, d).item
    ensures Update(Update(e, d).item, d).changed
        <==> Max(|e.chapters|, PresentExtent(d.chapters)) != |d.chapters|
    ensures PresentExtent(d.chapters) == |d.chapters| ==>
      (Update(Update(e, d).item, d).changed <==> |e.chapters| > |d.chapters|)
  {
    var m := Update(e, d).item;
    var m2 := Update(m, d).item;
    UpdateSlotsSettled(e, d);
    assert |m2.chapters| == |m.chapters|;
    forall j | 0 <= j < |m.chapters| ensures m2.chapters[j] == m.chapters[j] {
      if At(d.chapters, j).Some? {
        assert At(m.chapters, j).Some?;
      }
    }
    assert m2.chapters == m.chapters;
    assert !exists j :: ReplacesIdAt(m.chapters, d.chapters, j);
  }

  /** A merged item counts as work in progress exactly when the scraped total
      differs from the merged array's length, holes included. */
  lemma UpdateSetsWip(e: ReadingListItem, d: ReadingListItem)
    ensures IsWorkWIP(Update(e, d).item)
        <==> d.totalChapters != Some(Max(|e.chapters|, PresentExtent(d.chapters)))
  {
  }

  // ---- update, corrected ----------------------------------------------------

  /** `update` as its structural-shrink intent reads: slots the scraped data does not
      cover are removed, so the merged list has exactly the data's length. */
  function UpdateTruncating(e: ReadingListItem, d: ReadingListItem): (r: Updated)
    ensures |r.item.chapters| == |d.chapters|
    ensures forall j :: 0 <= j < |d.chapters| ==>
      r.item.chapters[j] == At(Update(e, d).item.chapters, j)
    ensures r.changed == Update(e, d).changed
    ensures r.item == Update(e, d).item.(chapters := r.item.chapters)
  {
    var u := Update(e, d);
    var chapters := seq(|d.chapters|, j requires 0 <= j < |d.chapters| =>
      if j < |u.item.chapters| then u.item.chapters[j] else None);
    assert forall j :: |u.item.chapters| <= j < |d.chapters| ==> d.chapters[j].None?;
    Updated(u.item.(chapters := chapters), u.changed)
  }

  /** With truncation, merging the same data twice is a no-op that reports no change. */
  lemma {:induction false} UpdateTruncatingIdempotent(e: ReadingListItem, d: ReadingListItem)
    ensures UpdateTruncating(UpdateTruncating(e, d).item, d) == Updated(UpdateTruncating(e, d).item, false)
  {
    var m := UpdateTruncating(e, d).item;
    var m2 := UpdateTruncating(m, d).item;
    UpdateSlotsSettled(e, d);
    UpdateSlotsSettled(m, d);
    forall j | 0 <= j < |d.chapters| ensures m2.chapters[j] == m.chapters[j] {
      assert m.chapters[j] == At(Update(e, d).item.chapters, j);
      if d.chapters[j].Some? {
        assert At(m.chapters, j).Some?;
      }
    }
    assert m2.chapters == m.chapters;
    assert !exists j :: ReplacesIdAt(m.chapters, d.chapters, j);
  }

  /** The source's `update` keeps reporting a change: a stored list of two chapters
      merged with data of one chapter. */
  lemma UpdateReportsChangeForever()
    ensures var c := Chapter(0, 1, None, None);
      var e := NewItem(1, "t", "a", Unread, [Some(c), Some(c.(index := 1))], None);
      var d := NewItem(1, "t", "a", Unread, [Some(c)], None);
      var m := Update(e, d).item;
      m.chapters == [Some(c), None] && Update(m, d).changed
      && !UpdateTruncating(UpdateTruncating(e, d).item, d).changed
  {
    var c := Chapter(0, 1, None, None);
    var e := NewItem(1, "t", "a", Unread, [Some(c), Some(c.(index := 1))], None);
    var d := NewItem(1, "t", "a", Unread, [Some(c)], None);
    UpdateTruncatingIdempotent(e, d);
    assert Update(e, d).item.chapters == [Some(c), None];
  }

  // ---- updateFromRemote -----------------------------------------------------

  datatype RemoteChapter = RemoteChapter(readDate: Option<int>)

  /** The remote copy: no title or author, and no work id (it is the key). */
  datatype RemoteReadingListItem = RemoteReadingListItem(
    chapters: seq<Option<RemoteChapter>>,
    totalChapters: Option<int>,
    status: ReadingStatus,
    bookmarkId: Option<int>,
    rating: int)

  /** `ts.readDate = dayjs(ds.readDate)` when the remote chapter has a read date. */
  function AdoptReadDate(t: Chapter, d: RemoteChapter): Chapter {
    if d.readDate.Some? then t.(readDate := d.readDate) else t
  }

  /** `ReadingListItem.updateFromRemote(data)`. */
  function UpdateFromRemote(e: ReadingListItem, rd: RemoteReadingListItem): (r: ReadingListItem)
    ensures r.status == rd.status && r.rating == rd.rating
    ensures r.workId == e.workId && r.title == e.title && r.author == e.author
         && r.totalChapters == e.totalChapters && r.bookmarkId == e.bookmarkId
    ensures |r.chapters| == Max(|e.chapters|, PresentExtent(rd.chapters))
    ensures forall j :: 0 <= j < |r.chapters| && At(e.chapters, j).Some? && At(rd.chapters, j).Some? ==>
      r.chapters[j] == Some(e.chapters[j].value.(readDate :=
        if rd.chapters[j].value.readDate.Some? then rd.chapters[j].value.readDate
        else e.chapters[j].value.readDate))
    ensures forall j :: 0 <= j < |r.chapters| && At(e.chapters, j).Some? && At(rd.chapters, j).None? ==>
      r.chapters[j].None?
    ensures forall j :: 0 <= j < |r.chapters| && At(e.chapters, j).None? && At(rd.chapters, j).Some? ==>
      r.chapters[j] == Some(Chapter(j, e.workId, None, None))
    ensures forall j :: 0 <= j < |r.chapters| && At(e.chapters, j).None? && At(rd.chapters, j).None? ==>
      r.chapters[j].None?
  {
    var chapters := Walk(e.chapters, rd.chapters, 0, AdoptReadDate,
                         (i: nat, _: RemoteChapter) => Chapter(i, e.workId, None, None));
    e.(status := rd.status, rating := rd.rating, chapters := chapters)
  }

  /** The remote merge never un-reads a chapter it keeps, and never changes a
      kept chapter's id, index or work id. */
  lemma RemoteMergeKeepsReadMarks(e: ReadingListItem, rd: RemoteReadingListItem)
    ensures var r := UpdateFromRemote(e, rd);
      forall j :: ReadAt(e.chapters, j) && At(rd.chapters, j).Some? ==> ReadAt(r.chapters, j)
    ensures var r := UpdateFromRemote(e, rd);
      forall j :: 0 <= j < |e.chapters| && e.chapters[j].Some? && At(rd.chapters, j).Some? ==>
        r.chapters[j].Some?
        && r.chapters[j].value.chapterId == e.chapters[j].value.chapterId
        && r.chapters[j].value.index == e.chapters[j].value.index
        && r.chapters[j].value.workId == e.chapters[j].value.workId
  {
  }

  /** After a remote merge with any status but `Unread` the item is in the list. */
  lemma RemoteMergeKeepsInList(e: ReadingListItem, rd: RemoteReadingListItem)
    requires rd.status != Unread
    ensures IsInList(UpdateFromRemote(e, rd))
  {
  }

  /** A chapter the remote merge creates starts unread even when the remote copy
      has a read date for it; only a second merge with the same data copies that
      date. Everything else is settled by the first merge. */
  lemma {:induction false} RemoteMergeTwice(e: ReadingListItem, rd: RemoteReadingListItem)
    ensures var r1 := UpdateFromRemote(e, rd);
      var r2 := UpdateFromRemote(r1, rd);
      |r2.chapters| == |r1.chapters|
      && r2 == r1.(chapters := r2.chapters)
      && forall j :: 0 <= j < |r1.chapters| ==>
        r2.chapters[j] == if At(e.chapters, j).None? && At(rd.chapters, j).Some?
                          then Some(Chapter(j, e.workId, None, rd.chapters[j].value.readDate))
                          else r1.chapters[j]
  {
    var r1 := UpdateFromRemote(e, rd);
    var r2 := UpdateFromRemote(r1, rd);
    forall j | 0 <= j < |r1.chapters|
      ensures r2.chapters[j] == if At(e.chapters, j).None? && At(rd.chapters, j).Some?
                                then Some(Chapter(j, e.workId, None, rd.chapters[j].value.readDate))
                                else r1.chapters[j]
    {
      if At(rd.chapters, j).Some? {
        assert At(r1.chapters, j).Some?;
      } else {
        assert At(r1.chapters, j).None?;
      }
    }
  }
}
