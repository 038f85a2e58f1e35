/** The reading-list record model: a tracked work (`ReadingListItem`), its
    chapters, the reading statuses, and the getters derived from them.

    A chapter list is a JavaScript array that may have holes: `delete` during a
    merge leaves an empty slot without shortening the array. A list is therefore
    a `seq<Option<Chapter>>` whose `None` entries are the holes. */
module ListItems {
  import opened Wrappers
  import opened Text

  datatype ReadingStatus = Reading | Read | ToRead | Dropped | Unread | OnHold

  /** The statuses a user can pick, in menu order; `Unread` is not among them. */
  const STATUSES: seq<ReadingStatus> := [Reading, ToRead, OnHold, Read, Dropped]

  function StatusText(s: ReadingStatus): string {
    match s
    case Dropped => "dropped"
    case ToRead => "plan to read"
    case Read => "fully read"
    case Reading => "currently reading"
    case Unread => "never read"
    case OnHold => "on hold"
  }

  function UpperStatusText(s: ReadingStatus): string {
    Capitalize(StatusText(s))
  }

  /** `STATUSES` lists every status except `Unread`, each once. */
  lemma StatusesAreTheSelectable()
    ensures forall s :: s in STATUSES <==> s != Unread
    ensures forall i, j :: 0 <= i < j < |STATUSES| ==> STATUSES[i] != STATUSES[j]
  {
    forall s ensures s in STATUSES <==> s != Unread {
      match s
      case Reading => assert STATUSES[0] == s;
      case ToRead => assert STATUSES[1] == s;
      case OnHold => assert STATUSES[2] == s;
      case Read => assert STATUSES[3] == s;
      case Dropped => assert STATUSES[4] == s;
      case Unread =>
    }
  }

  /** Reads a status back from its text (the inverse of `StatusText`). */
  function StatusOfText(t: string): Option<ReadingStatus> {
    if t == "dropped" then Some(Dropped)
    else if t == "plan to read" then Some(ToRead)
    else if t == "fully read" then Some(Read)
    else if t == "currently reading" then Some(Reading)
    else if t == "never read" then Some(Unread)
    else if t == "on hold" then Some(OnHold)
    else None
  }

  /** Every status text reads back as its status, so different statuses read
      differently. */
  lemma StatusTextRoundTrip(s: ReadingStatus)
    ensures StatusOfText(StatusText(s)) == Some(s)
  {
    var t := StatusText(s);
    match s {
      case Dropped =>
      case ToRead => assert t != "dropped";
      case Read => assert t[0] != "dropped"[0] && t[0] != "plan to read"[0];
      case Reading => assert |t| == 17;
      case Unread => assert t[0] == 'n';
      case OnHold => assert t[0] == 'o' && |t| == 7;
    }
  }

  /** The capitalised status text lower-cases back to the plain one, and so reads
      back as its status too. */
  lemma UpperStatusTextRoundTrip(s: ReadingStatus)
    ensures |UpperStatusText(s)| == |StatusText(s)| > 0
    ensures 'A' <= UpperStatusText(s)[0] <= 'Z'
    ensures UpperStatusText(s)[1..] == StatusText(s)[1..]
    ensures StatusOfText(Lower(UpperStatusText(s))) == Some(s)
  {
    var t := StatusText(s);
    StatusTextIsLower(s);
    CapitalizeRoundTrip(t);
    StatusTextRoundTrip(s);
  }

  /** Every status text is lower-case and starts with a letter. */
  lemma StatusTextIsLower(s: ReadingStatus)
    ensures |StatusText(s)| > 0 && 'a' <= StatusText(s)[0] <= 'z'
    ensures NoUpper(StatusText(s))
  {
    match s {
      case Dropped =>
      case ToRead =>
      case Read =>
      case Reading =>
      case Unread =>
      case OnHold =>
    }
  }

  /** One chapter. `index` and `workId` are not stored; they come from the
      chapter's position and its work. `readDate` is epoch milliseconds. */
  datatype Chapter = Chapter(index: nat, workId: int, chapterId: Option<int>, readDate: Option<int>)

  datatype ReadingListItem = ReadingListItem(
    workId: int,
    title: string,
    author: string,
    totalChapters: Option<int>,
    status: ReadingStatus,
    bookmarkId: Option<int>,
    rating: int,
    chapters: seq<Option<Chapter>>)

  /** The constructor: every given field is stored as given, and a new item has no
      bookmark (so no bookmark link) and a rating of 0. */
  function NewItem(workId: int, title: string, author: string, status: ReadingStatus,
                   chapters: seq<Option<Chapter>>, totalChapters: Option<int>): (r: ReadingListItem)
    ensures r.workId == workId && r.title == title && r.author == author
    ensures r.status == status && r.chapters == chapters && r.totalChapters == totalChapters
    ensures r.rating == 0 && r.bookmarkId.None? && BookmarkHref(r).None?
  {
    ReadingListItem(workId, title, author, totalChapters, status, None, 0, chapters)
  }

  /** Every present chapter carries its position as index and the item's work id. */
  predicate Stamped(item: ReadingListItem) {
    forall i :: 0 <= i < |item.chapters| && item.chapters[i].Some? ==>
      item.chapters[i].value.index == i && item.chapters[i].value.workId == item.workId
  }

  /** What saving keeps of a chapter: its `index` and `workId` are excluded, here set to 0. */
  function StoredChapter(c: Option<Chapter>): Option<Chapter> {
    match c
    case None => None
    case Some(ch) => Some(ch.(index := 0, workId := 0))
  }

  /** What saving keeps of an item: its own `workId` is excluded too. */
  function Stored(item: ReadingListItem): ReadingListItem {
    item.(workId := 0,
          chapters := seq(|item.chapters|, i requires 0 <= i < |item.chapters| =>
            StoredChapter(item.chapters[i])))
  }

  /** The chapter transform of `fromPlain`: `map` assigns `workId` and `index` on every
      entry it visits, and a `null` entry (what JSON makes of a hole) throws. */
  function StampChapters(cs: seq<Option<Chapter>>, workId: int, from: nat): (r: Result<seq<Option<Chapter>>, ScriptError>)
    ensures r.Failure? <==> !Dense(cs)
    ensures r.Success? ==> |r.value| == |cs|
    ensures r.Success? ==> forall i :: 0 <= i < |cs| ==>
      r.value[i].Some? && r.value[i].value.index == from + i && r.value[i].value.workId == workId
      && StoredChapter(r.value[i]) == StoredChapter(cs[i])
    decreases |cs|
  {
    if |cs| == 0 then Success([])
    else match cs[0]
      case None => Failure(TypeError)
      case Some(c) =>
        match StampChapters(cs[1..], workId, from + 1)
        case Failure(e) => Failure(e)
        case Success(rest) => Success([Some(c.(index := from, workId := workId))] + rest)
  }

  /** `fromPlain`: the work id comes from the storage key and is stamped on the item and
      on every chapter, with the chapter's position as index. A decoded item has no hole
      and differs from its input in no field that saving keeps. */
  function FromPlain(workId: int, plain: ReadingListItem): (r: Result<ReadingListItem, ScriptError>)
    ensures r.Failure? <==> !Dense(plain.chapters)
    ensures r.Success? ==> r.value.workId == workId && Dense(r.value.chapters) && Stamped(r.value)
    ensures r.Success? ==> Stored(r.value) == Stored(plain)
  {
    match StampChapters(plain.chapters, workId, 0)
    case Failure(e) => Failure(e)
    case Success(cs) => Success(plain.(workId := workId, chapters := cs))
  }

  /** Saving a decoded item and decoding it under its own key gives the item back. */
  lemma FromPlainRoundTrip(x: ReadingListItem)
    requires Dense(x.chapters) && Stamped(x)
    ensures FromPlain(x.workId, Stored(x)) == Success(x)
  {
    var p := Stored(x);
    assert Dense(p.chapters);
    var r := FromPlain(x.workId, p);
    assert r.value.chapters == x.chapters by {
      forall i | 0 <= i < |x.chapters|
        ensures r.value.chapters[i] == x.chapters[i]
      {
        assert StoredChapter(r.value.chapters[i]) == StoredChapter(p.chapters[i]);
      }
    }
  }

  // ---- Getters over the chapter array -------------------------------------

  /** Slot `i` holds a chapter that has been read. */
  predicate ReadAt(cs: seq<Option<Chapter>>, i: int) {
    0 <= i < |cs| && cs[i].Some? && cs[i].value.readDate.Some?
  }

  /** Slot `i` holds a chapter that has not been read. */
  predicate UnreadAt(cs: seq<Option<Chapter>>, i: int) {
    0 <= i < |cs| && cs[i].Some? && cs[i].value.readDate.None?
  }

  /** No slot is a hole. */
  predicate Dense(cs: seq<Option<Chapter>>) {
    forall i :: 0 <= i < |cs| ==> cs[i].Some?
  }

  /** How the read and unread slots of a list relate to those of its tail. */
  lemma SlotsOfTail(cs: seq<Option<Chapter>>)
    requires |cs| > 0
    ensures (exists i :: ReadAt(cs, i)) <==> ReadAt(cs, 0) || exists i :: ReadAt(cs[1..], i)
    ensures (exists i :: UnreadAt(cs, i)) <==> UnreadAt(cs, 0) || exists i :: UnreadAt(cs[1..], i)
    ensures (forall i :: 0 <= i < |cs| ==> ReadAt(cs, i))
        <==> ReadAt(cs, 0) && forall i :: 0 <= i < |cs| - 1 ==> ReadAt(cs[1..], i)
  {
    if i :| ReadAt(cs, i) && i > 0 {
      assert ReadAt(cs[1..], i - 1);
    }
    if i :| ReadAt(cs[1..], i) {
      assert ReadAt(cs, i + 1);
    }
    if i :| UnreadAt(cs, i) && i > 0 {
      assert UnreadAt(cs[1..], i - 1);
    }
    if i :| UnreadAt(cs[1..], i) {
      assert UnreadAt(cs, i + 1);
    }
    if ReadAt(cs, 0) && forall i :: 0 <= i < |cs| - 1 ==> ReadAt(cs[1..], i) {
      forall i | 0 < i < |cs| ensures ReadAt(cs, i) {
        assert ReadAt(cs[1..], i - 1);
      }
    }
    if forall i :: 0 <= i < |cs| ==> ReadAt(cs, i) {
      forall i | 0 <= i < |cs| - 1 ensures ReadAt(cs[1..], i) {
        assert ReadAt(cs, i + 1);
      }
    }
  }

  /** `chapters.some(c => !!c.readDate)`; `some` skips holes. */
  function SomeRead(cs: seq<Option<Chapter>>): (b: bool)
    ensures b <==> exists i :: ReadAt(cs, i)
  {
    if |cs| == 0 then false
    else if ReadAt(cs, 0) then true
    else
      SlotsOfTail(cs);
      SomeRead(cs[1..])
  }

  /** `chapters.every(c => !!c.readDate)`; `every` skips holes. */
  function EveryRead(cs: seq<Option<Chapter>>): (b: bool)
    ensures b <==> !exists i :: UnreadAt(cs, i)
  {
    if |cs| == 0 then true
    else if UnreadAt(cs, 0) then false
    else
      SlotsOfTail(cs);
      EveryRead(cs[1..])
  }

  /** `chapters.filter(c => c.readDate).length`; `filter` skips holes. */
  function CountRead(cs: seq<Option<Chapter>>): (n: nat)
    ensures n <= |cs|
    ensures n == 0 <==> !exists i :: ReadAt(cs, i)
    ensures n == |cs| <==> forall i :: 0 <= i < |cs| ==> ReadAt(cs, i)
  {
    if |cs| == 0 then 0
    else
      SlotsOfTail(cs);
      (if ReadAt(cs, 0) then 1 else 0) + CountRead(cs[1..])
  }

  /** A single slot counts 1 exactly when it is a read chapter. */
  lemma CountReadSingle(x: Option<Chapter>)
    ensures CountRead([x]) == (if x.Some? && x.value.readDate.Some? then 1 else 0)
  {
    assert [x][1..] == [];
  }

  /** The count adds up over a split of the list, so with `CountReadSingle` it is the
      number of read slots. */
  lemma {:induction false} CountReadAppend(a: seq<Option<Chapter>>, b: seq<Option<Chapter>>)
    ensures CountRead(a + b) == CountRead(a) + CountRead(b)
    decreases |a|
  {
    if |a| == 0 {
      assert a + b == b;
    } else {
      assert (a + b)[1..] == a[1..] + b;
      assert ReadAt(a + b, 0) == ReadAt(a, 0);
      CountReadAppend(a[1..], b);
    }
  }

  function IsAnyChaptersRead(item: ReadingListItem): bool {
    SomeRead(item.chapters)
  }

  function IsAllChaptersRead(item: ReadingListItem): bool {
    EveryRead(item.chapters)
  }

  function ChaptersReadCount(item: ReadingListItem): nat {
    CountRead(item.chapters)
  }

  /** `chapters.length !== totalChapters`: holes count towards the length, and an
      unknown total (`null`) always differs. */
  function IsWorkWIP(item: ReadingListItem): bool {
    item.totalChapters != Some(|item.chapters|)
  }

  function IsInList(item: ReadingListItem): (b: bool)
    ensures b <==> (exists i :: ReadAt(item.chapters, i)) || item.status != Unread
  {
    IsAnyChaptersRead(item) || item.status != Unread
  }

  /** Reading `.readDate` of a hole throws. */
  datatype ScriptError = TypeError

  /** The slot `findIndex` is looking for: read when `wantRead`, unread otherwise. */
  predicate Hit(cs: seq<Option<Chapter>>, i: int, wantRead: bool) {
    if wantRead then ReadAt(cs, i) else UnreadAt(cs, i)
  }

  /** A slot `findIndex` passes over: present, but not the one looked for. */
  predicate Miss(cs: seq<Option<Chapter>>, i: int, wantRead: bool) {
    if wantRead then UnreadAt(cs, i) else ReadAt(cs, i)
  }

  /** `findIndex` from slot `from` on. Unlike `some`, it visits holes, and its
      callback throws on one; `Success(None)` is the `-1` of the source. */
  function FindFrom(cs: seq<Option<Chapter>>, from: nat, wantRead: bool): (r: Result<Option<nat>, ScriptError>)
    requires from <= |cs|
    ensures r.Success? && r.value.Some? ==>
      from <= r.value.value < |cs| && Hit(cs, r.value.value, wantRead)
      && forall j :: from <= j < r.value.value ==> Miss(cs, j, wantRead)
    ensures r == Success(None) ==> forall j :: from <= j < |cs| ==> Miss(cs, j, wantRead)
    ensures r.Failure? ==>
      exists k :: from <= k < |cs| && cs[k].None? && forall j :: from <= j < k ==> Miss(cs, j, wantRead)
    decreases |cs| - from
  {
    if from == |cs| then Success(None)
    else if cs[from].None? then Failure(TypeError)
    else if Hit(cs, from, wantRead) then Success(Some(from))
    else FindFrom(cs, from + 1, wantRead)
  }

  function Reverse(cs: seq<Option<Chapter>>): (r: seq<Option<Chapter>>)
    ensures |r| == |cs|
    ensures forall i :: 0 <= i < |cs| ==> r[i] == cs[|cs| - 1 - i]
  {
    seq(|cs|, i requires 0 <= i < |cs| => cs[|cs| - 1 - i])
  }

  /** `lastReadChapterIndex`: `findIndex` over a reversed copy, mapped back. The
      reported slot is read and every later slot holds an unread chapter. */
  function LastReadChapterIndex(item: ReadingListItem): (r: Result<Option<nat>, ScriptError>)
    ensures r.Success? && r.value.Some? ==>
      ReadAt(item.chapters, r.value.value)
      && forall j :: r.value.value < j < |item.chapters| ==> UnreadAt(item.chapters, j)
    ensures r == Success(None) ==> forall j :: 0 <= j < |item.chapters| ==> UnreadAt(item.chapters, j)
    ensures r.Failure? ==> !Dense(item.chapters)
  {
    var cs := item.chapters;
    var rev := Reverse(cs);
    match FindFrom(rev, 0, true)
    case Failure(e) => Failure(e)
    case Success(None) =>
      assert forall j :: 0 <= j < |cs| ==> UnreadAt(cs, j) by {
        forall j | 0 <= j < |cs| ensures UnreadAt(cs, j) {
          assert Miss(rev, |cs| - 1 - j, true);
        }
      }
      Success(None)
    case Success(Some(x)) =>
      assert forall j :: |cs| - 1 - x < j < |cs| ==> UnreadAt(cs, j) by {
        forall j | |cs| - 1 - x < j < |cs| ensures UnreadAt(cs, j) {
          assert Miss(rev, |cs| - 1 - j, true);
        }
      }
      assert Hit(rev, x, true);
      Success(Some(|cs| - 1 - x))
  }

  /** `firstUnreadChapterIndex`: the first slot with an unread chapter; every
      earlier slot holds a read one. */
  function FirstUnreadChapterIndex(item: ReadingListItem): (r: Result<Option<nat>, ScriptError>)
    ensures r.Success? && r.value.Some? ==>
      UnreadAt(item.chapters, r.value.value)
      && forall j :: 0 <= j < r.value.value ==> ReadAt(item.chapters, j)
    ensures r == Success(None) ==> forall j :: 0 <= j < |item.chapters| ==> ReadAt(item.chapters, j)
    ensures r.Failure? ==> !Dense(item.chapters)
  {
    assert forall j :: Miss(item.chapters, j, false) <==> ReadAt(item.chapters, j);
    FindFrom(item.chapters, 0, false)
  }

  /** The getters throw only when `findIndex` reaches a hole before any slot it is
      looking for: `lastReadChapterIndex` walks from the end, so every slot after the
      hole holds an unread chapter; `firstUnreadChapterIndex` walks from the start, so
      every slot before the hole holds a read one. */
  lemma GettersThrowAtHole(item: ReadingListItem)
    ensures LastReadChapterIndex(item).Failure? ==>
      exists k :: 0 <= k < |item.chapters| && item.chapters[k].None?
        && forall j :: k < j < |item.chapters| ==> UnreadAt(item.chapters, j)
    ensures FirstUnreadChapterIndex(item).Failure? ==>
      exists k :: 0 <= k < |item.chapters| && item.chapters[k].None?
        && forall j :: 0 <= j < k ==> ReadAt(item.chapters, j)
  {
    var cs := item.chapters;
    var rev := Reverse(cs);
    if LastReadChapterIndex(item).Failure? {
      assert FindFrom(rev, 0, true).Failure?;
      var k :| 0 <= k < |rev| && rev[k].None? && forall j :: 0 <= j < k ==> Miss(rev, j, true);
      var h := |cs| - 1 - k;
      assert cs[h].None?;
      forall j | h < j < |cs| ensures UnreadAt(cs, j) {
        assert Miss(rev, |cs| - 1 - j, true);
      }
    }
    if FirstUnreadChapterIndex(item).Failure? {
      assert forall j :: Miss(cs, j, false) <==> ReadAt(cs, j);
    }
  }

  /** On a list without holes the getters agree with each other: the count is
      positive exactly when some chapter is read, exactly when there is a last read
      slot, which is the greatest read slot; and there is no first unread slot
      exactly when all chapters are read. */
  lemma DenseGettersAgree(item: ReadingListItem)
    requires Dense(item.chapters)
    ensures ChaptersReadCount(item) <= |item.chapters|
    ensures IsAnyChaptersRead(item) <==> ChaptersReadCount(item) > 0
    ensures LastReadChapterIndex(item).Success? && FirstUnreadChapterIndex(item).Success?
    ensures IsAnyChaptersRead(item) <==> LastReadChapterIndex(item).value.Some?
    ensures LastReadChapterIndex(item).value.Some? ==>
      forall j :: ReadAt(item.chapters, j) ==> j <= LastReadChapterIndex(item).value.value
    ensures FirstUnreadChapterIndex(item).value.None? <==> IsAllChaptersRead(item)
    ensures FirstUnreadChapterIndex(item).value.Some? ==>
      forall j :: UnreadAt(item.chapters, j) ==> FirstUnreadChapterIndex(item).value.value <= j
  {
    var cs := item.chapters;
    var last, first := LastReadChapterIndex(item), FirstUnreadChapterIndex(item);
    if last == Success(None) {
      assert forall j :: !ReadAt(cs, j) by {
        forall j ensures !ReadAt(cs, j) {
          if 0 <= j < |cs| { assert UnreadAt(cs, j); }
        }
      }
    } else {
      var k := last.value.value;
      forall j | k < j < |cs| ensures !ReadAt(cs, j) {
        assert UnreadAt(cs, j);
      }
    }
    if first == Success(None) {
      assert forall j :: !UnreadAt(cs, j) by {
        forall j ensures !UnreadAt(cs, j) {
          if 0 <= j < |cs| { assert ReadAt(cs, j); }
        }
      }
    } else {
      var k := first.value.value;
      assert UnreadAt(cs, k);
      forall j | 0 <= j < k ensures !UnreadAt(cs, j) {
        assert ReadAt(cs, j);
      }
    }
  }

  // ---- Links ---------------------------------------------------------------

  const SITE := "https://archiveofourown.org"

  /** The chapter part of a chapter link: its chapter id when it has one, else
      nothing for the first chapter and the extension's own index path otherwise. */
  function ChapterPath(c: Chapter): string {
    match c.chapterId
    case Some(id) => "/chapters/" + IntText(id)
    case None => if c.index == 0 then "" else "/ao3e-chapter/" + Decimal(c.index)
  }

  /** `Chapter.getHref(absolute, workskin)`. */
  function GetHref(c: Chapter, absolute: bool, workskin: bool): string {
    (if absolute then SITE else "") + "/works/" + IntText(c.workId) + ChapterPath(c)
    + (if workskin then "#workskin" else "")
  }

  lemma StripAround(pre: string, x: string, y: string, suf: string)
    ensures pre + x + suf == pre + y + suf ==> x == y
  {
    if pre + x + suf == pre + y + suf {
      assert |x| == |y|;
      assert x == (pre + x + suf)[|pre|..|pre| + |x|];
      assert y == (pre + y + suf)[|pre|..|pre| + |y|];
    }
  }

  /** A chapter-id path never equals an index path. */
  lemma ChapterPathKindsDiffer(c1: Chapter, c2: Chapter)
    requires c1.chapterId.Some? && c2.chapterId.None?
    ensures ChapterPath(c1) != ChapterPath(c2)
  {
    var p1, p2 := ChapterPath(c1), ChapterPath(c2);
    assert |p1| > 10 && p1[1] == 'c';
    if c2.index != 0 {
      assert p2[1] == 'a';
    }
  }

  lemma ChapterPathInjective(c1: Chapter, c2: Chapter)
    ensures ChapterPath(c1) == ChapterPath(c2) ==>
      c1.chapterId == c2.chapterId && (c1.chapterId.None? ==> c1.index == c2.index)
  {
    var p1, p2 := ChapterPath(c1), ChapterPath(c2);
    if c1.chapterId.Some? && c2.chapterId.None? {
      ChapterPathKindsDiffer(c1, c2);
    } else if c1.chapterId.None? && c2.chapterId.Some? {
      ChapterPathKindsDiffer(c2, c1);
    } else if c1.chapterId.Some? {
      if p1 == p2 {
        assert IntText(c1.chapterId.value) == p1[10..];
        assert IntText(c2.chapterId.value) == p2[10..];
        IntTextInjective(c1.chapterId.value, c2.chapterId.value);
      }
    } else if c1.index != 0 && c2.index != 0 {
      if p1 == p2 {
        assert Decimal(c1.index) == p1[14..] && Decimal(c2.index) == p2[14..];
        DecimalInjective(c1.index, c2.index);
      }
    }
  }

  /** Two chapters of one work get the same link only when they have the same
      chapter id, or, both lacking one, the same index. */
  lemma GetHrefIdentifiesChapter(c1: Chapter, c2: Chapter, absolute: bool, workskin: bool)
    requires c1.workId == c2.workId
    ensures GetHref(c1, absolute, workskin) == GetHref(c2, absolute, workskin) ==>
      c1.chapterId == c2.chapterId && (c1.chapterId.None? ==> c1.index == c2.index)
  {
    var pre := (if absolute then SITE else "") + "/works/" + IntText(c1.workId);
    var suf := if workskin then "#workskin" else "";
    StripAround(pre, ChapterPath(c1), ChapterPath(c2), suf);
    ChapterPathInjective(c1, c2);
  }

  /** `linkURL`: the extension's own page for the work. */
  function LinkUrl(item: ReadingListItem): string {
    SITE + "/ao3e-reading-list/" + IntText(item.workId)
  }

  /** `bookmarkHref`: `!this.bookmarkId` also holds for a bookmark id of 0, so that
      id gets no link. */
  function BookmarkHref(item: ReadingListItem): (r: Option<string>)
    ensures r.None? <==> item.bookmarkId.None? || item.bookmarkId.value == 0
  {
    if item.bookmarkId.None? || item.bookmarkId.value == 0 then None
    else Some(SITE + "/bookmarks/" + IntText(item.bookmarkId.value))
  }

  /** Distinct works have distinct list links, and distinct bookmarks distinct
      bookmark links. */
  lemma LinksIdentify(a: ReadingListItem, b: ReadingListItem)
    ensures LinkUrl(a) == LinkUrl(b) ==> a.workId == b.workId
    ensures BookmarkHref(a).Some? && BookmarkHref(a) == BookmarkHref(b) ==> a.bookmarkId == b.bookmarkId
  {
    var lp := SITE + "/ao3e-reading-list/";
    if LinkUrl(a) == LinkUrl(b) {
      assert IntText(a.workId) == LinkUrl(a)[|lp|..];
      assert IntText(b.workId) == LinkUrl(b)[|lp|..];
      IntTextInjective(a.workId, b.workId);
    }
    var bp := SITE + "/bookmarks/";
    if BookmarkHref(a).Some? && BookmarkHref(a) == BookmarkHref(b) {
      var h := BookmarkHref(a).value;
      assert IntText(a.bookmarkId.value) == h[|bp|..];
      assert IntText(b.bookmarkId.value) == h[|bp|..];
      IntTextInjective(a.bookmarkId.value, b.bookmarkId.value);
    }
  }
}
