# ao3-reading-list: a verified model of the reading-list core

This project models three pure cores of the AO3 reading-list browser extension in
Dafny and proves what they promise:

- **The reading-list record** (`src/common/listData.ts`). It covers reading statuses and their texts, the tracked work (`ReadingListItem`) and its chapters, and the getters derived from them. It also covers chapter and bookmark links, the structural merge `update`, the authoritative merge `updateFromRemote`, the `Conflict` holder with its `value` gate and `checkPath`, and the ordered dispatch of change batches to listeners registered with a work-id filter.
- **The work-hiding decision** (`src/content_script/units/HideWorks.tsx`). For one listing blurb it computes the ordered list of hide reasons under the language, crossover, author and tag filters. This includes the first-match `find` and the invert suppression. It also models `tagFilterMatchesTag` and the unit's `enabled` getter.
- **Duration formatting** (`src/content_script/units/Stats/utils.tsx`). `processTime` splits a seconds count into days, hours and minutes. `formatTime` joins the non-zero parts.

A chapter list is a JavaScript array that can have holes. During a merge, `delete this.chapters[i]` empties a slot without shortening the array. Assigning past the end grows the array. So a list is a `seq<Option<Chapter>>`, and `None` marks a hole. `some`, `every` and `filter` skip holes. `findIndex` visits them and throws on them. The getters built on `findIndex` therefore return a `Result`, whose `Failure(TypeError)` stands for that exception.

Files:

| file | contents |
|---|---|
| `wrappers.dfy` | `Option` and `Result` |
| `text.dfy` | decimal digits, joining, ASCII case mapping, substring search |
| `list_items.dfy` | statuses, `Chapter`, `ReadingListItem`, `fromPlain`, derived getters, links |
| `list_merge.dfy` | the JavaScript array walk, `update`, its corrected variant, `updateFromRemote` |
| `list_conflict.dfy` | `Conflict`, `value`, `checkPath` |
| `list_listeners.dfy` | `addListener` and the dispatch of change batches |
| `hide_works.dfy` | filters, matching, the hide reasons of one blurb |
| `stats_time.dfy` | `processTime`, `formatTime` |

Calls into code outside the model become parameters:

- The `regex` tag matcher takes `new RegExp(pattern).test(subject)` as a function `regexTest`.
- `formatTime` takes `pluralize` as a function.
- Read dates are integers (epoch milliseconds) rather than `dayjs` objects.

## Model

| member | source | states |
|---|---|---|
| ListItems.StatusesAreTheSelectable | src/common/listData.ts:13-19 | the selectable statuses are every status except `unread`, each listed once |
| ListItems.StatusTextRoundTrip | src/common/listData.ts:21-36 | every status text reads back as its own status, so no two statuses share a text |
| ListItems.UpperStatusTextRoundTrip | src/common/listData.ts:38-41 | the capitalised status text has the plain text's length, an upper-case first letter and the plain text's remaining characters; lower-casing it gives back the plain text, so it reads back as its status |
| Text.CapitalizeRoundTrip | src/common/listData.ts:38-41 | capitalising turns a leading lower-case letter into an upper-case one, and lower-casing undoes it for a text with no capitals |
| ListItems.NewItem | src/common/listData.ts:131-146 | a new item stores every given field as given, has no bookmark id and so no bookmark link, and a rating of 0 |
| ListItems.StampChapters | src/common/listData.ts:110-119 | the chapter transform throws exactly when an entry is `null`; otherwise every entry gets the item's work id and its position as index, keeps every saved field, and the list keeps its length |
| ListItems.FromPlain | src/common/listData.ts:199-202 | decoding throws exactly when the stored chapter list holds a `null`; a decoded item carries the key's work id, has no hole, has each chapter stamped with its position and that work id, and agrees with its input on every field that saving keeps |
| ListItems.FromPlainRoundTrip | src/common/listData.ts:199-202 | saving a decoded item, which drops the excluded work ids and indices, and decoding it under its own key gives the item back |
| ListItems.SomeRead | src/common/listData.ts:212-214 | true exactly when some present chapter has a read date; holes are skipped |
| ListItems.EveryRead | src/common/listData.ts:216-218 | true exactly when no present chapter lacks a read date; holes are skipped |
| ListItems.CountRead | src/common/listData.ts:224-226 | the count is at most the length; it is zero exactly when no chapter is read, and equals the length exactly when every slot is a read chapter |
| ListItems.CountReadSingle | src/common/listData.ts:224-226 | one slot counts 1 exactly when it holds a chapter with a read date, and 0 when it is a hole or unread |
| ListItems.CountReadAppend | src/common/listData.ts:224-226 | the count of a list is the sum of the counts of any split of it, so with the single-slot case it is the number of read slots |
| ListItems.IsInList | src/common/listData.ts:264-266 | a work is in the list exactly when some chapter is read or its status is not `unread` |
| ListItems.LastReadChapterIndex | src/common/listData.ts:228-237 | the result is the greatest read index, or undefined when no chapter is read; a hole reached before a read chapter makes `findIndex` throw, which only a list with a hole can do |
| ListItems.FirstUnreadChapterIndex | src/common/listData.ts:239-245 | the result is the least unread index, or undefined when every chapter is read; a hole reached first makes it throw, which only a list with a hole can do |
| ListItems.GettersThrowAtHole | src/common/listData.ts:228-245 | a getter throws only when `findIndex` reaches a hole before a slot it looks for: from the end, past unread chapters only, for the last read index; from the start, past read chapters only, for the first unread index |
| ListItems.DenseGettersAgree | src/common/listData.ts:212-245 | on a list without holes: count ≤ length; any-read ⇔ count > 0 ⇔ a last-read index exists, and that index is the greatest read one; the first-unread index is the least unread one, and it is undefined ⇔ all chapters are read |
| ListItems.GetHrefIdentifiesChapter | src/common/listData.ts:358-368 | two chapters of one work get the same link only when they have the same chapter id or, both lacking one, the same index |
| ListItems.ChapterPathInjective | src/common/listData.ts:360-365 | the chapter part of a link determines the chapter id, and the index when there is no id |
| ListItems.ChapterPathKindsDiffer | src/common/listData.ts:360-365 | a `/chapters/` path never equals a first-chapter or `/ao3e-chapter/` path |
| ListItems.BookmarkHref | src/common/listData.ts:259-262 | there is no bookmark link exactly when the bookmark id is absent or 0 |
| ListItems.LinksIdentify | src/common/listData.ts:255-262 | distinct works get distinct list links; equal bookmark links mean equal bookmark ids |
| Text.Decimal | src/common/listData.ts:256 | a number's text is non-empty, all digits, and has no leading zero unless the number is 0 |
| Text.DecimalRoundTrip | src/common/listData.ts:256 | reading a number's decimal text back gives the number |
| Text.DecimalInjective | src/common/listData.ts:256 | different numbers have different decimal texts |
| Text.IntTextInjective | src/common/listData.ts:261 | different integers, negative ones included, have different texts |
| ListMerge.JsSet | src/common/listData.ts:304 | assigning at index i keeps every other slot, fills slot i, and grows the array to i+1 with holes when i is past the end |
| ListMerge.PresentExtent | src/common/listData.ts:289 | the extent is the length without trailing holes: the slot before it is present and every slot from it on is a hole |
| ListMerge.Walk | src/common/listData.ts:287-306 | the walk over both arrays yields max(existing length, data length without trailing holes) slots, each merged by the three cases of the loop; the `delete` of a slot the data lacks empties it without changing the length or any other slot |
| ListMerge.Update | src/common/listData.ts:268-309 | work id, title, author and total come from the data; status, rating and bookmark id are kept; the length is the longer of the stored length and the data's length without trailing holes; slots present on both sides keep their chapter and adopt the data's chapter id only when it is defined; slots only in the stored list become holes; other slots take the data's; the flag is true exactly when a simple field differed, the lengths differed, or a chapter id was replaced |
| ListMerge.IdsReplaced | src/common/listData.ts:294-300 | true exactly when some slot present on both sides gets a defined chapter id different from the stored one |
| ListMerge.UpdateSlotsSettled | src/common/listData.ts:294-305 | after the merge every slot the data covers is present with the data's defined chapter id, and every slot the data lacks is a hole |
| ListMerge.UpdateTwice | src/common/listData.ts:284-306 | merging the same data again leaves the item unchanged; it still reports a change exactly when the merged length differs from the data's, which is when the stored list was longer |
| ListMerge.UpdateSetsWip | src/common/listData.ts:220-222 | after a merge the work counts as in progress exactly when the scraped total differs from the merged length, holes included |
| ListMerge.UpdateTruncating | src/common/listData.ts:268-309 | the corrected merge has exactly the data's length, agrees with `update` on every slot the data covers and reports the same change flag; every other field is `update`'s, so work id, title, author and total come from the data and status, rating and bookmark id are kept |
| ListMerge.UpdateTruncatingIdempotent | src/common/listData.ts:284-306 | with truncation, merging the same data twice changes nothing and reports no change |
| ListMerge.UpdateReportsChangeForever | src/common/listData.ts:284-306 | a stored list of two chapters merged with data of one keeps a trailing hole, so every later merge with the same data reports a change; the corrected merge does not |
| ListMerge.UpdateFromRemote | src/common/listData.ts:311-333 | status and rating come from the remote; work id, title, author, total and bookmark id are kept; slots on both sides adopt the remote read date only when it is defined and keep their chapter id; slots only local become holes; slots only remote get a fresh chapter with no id and no read date |
| ListMerge.RemoteMergeKeepsReadMarks | src/common/listData.ts:321-326 | a kept chapter that was read stays read, and no chapter id changes |
| ListMerge.RemoteMergeKeepsInList | src/common/listData.ts:264-266 | after a remote merge with a status other than `unread` the work is in the list |
| ListMerge.RemoteMergeTwice | src/common/listData.ts:329-331 | a chapter created by the first remote merge picks up the remote read date only on a second merge |
| ListConflict.NewConflict | src/common/listData.ts:77-89 | a new conflict has no side chosen |
| ListConflict.Value | src/common/listData.ts:91-95 | `value` fails exactly when no side is chosen; otherwise it returns the local or the remote item |
| ListConflict.ValueGate | src/common/listData.ts:77-95 | a fresh conflict's value fails; after choosing a side it returns exactly that side's item |
| ListConflict.CheckPath | src/common/listData.ts:103-105 | true exactly when some recorded path has the queried path's key at some same position; false when there are no recorded paths |
| ListConflict.CheckPathExamples | src/common/listData.ts:103-105 | a path sharing its first key with a recorded path checks; a different chapter's read date checks against a recorded chapter path, so this is not a prefix test; `status` does not check against `rating` |
| ListListeners.Delivered | src/common/listData.ts:403-407 | a `null` item is passed as `null`; decoding a stored item throws exactly when its chapters hold a `null`; a decoded item carries the change's work id with every chapter stamped, and agrees with the stored item on every field that saving keeps |
| ListListeners.CallsForSpec | src/common/listData.ts:397-409 | for one change, only listeners whose filter is null, the work id, or an array holding it are called, each at most once, in registration order, with the change's work id and decoded item |
| ListListeners.CallsForComplete | src/common/listData.ts:397-409 | for one change, every listener whose filter matches the work id is called |
| ListListeners.DispatchSound | src/common/listData.ts:394-410 | every call goes to a matching listener and carries a change of the batch with that work id whose decoding gave the call's item, a null item staying null |
| ListListeners.DispatchConcat | src/common/listData.ts:394-410 | dispatching two batches joined delivers the first batch's calls, then the second's unless a change of the first ended the handler, so all calls for a change precede the next change's |
| ListListeners.DispatchStopsAtThrow | src/common/listData.ts:402-407 | a change whose decoding throws for a matching listener ends the handler: the trace is that of the changes before it |
| ListListeners.LaterListenerKeepsEarlierCalls | src/common/listData.ts:431-434 | `addListener` puts the new filter last: the earlier listeners get exactly the calls they got before, and the new one's call, when its filter matches, comes after them |
| ListListeners.DispatchExample | src/common/listData.ts:394-410 | listeners for work 5, works 5 and 7, and all works get a batch changing work 5, stored without a `null` chapter, and deleting work 9; all three hear about 5, and only the catch-all hears of 9, with null |
| ListListeners.DispatchThrowExample | src/common/listData.ts:394-410 | the same listeners get a deletion of 9, a change of 5 whose stored chapters hold a `null`, and another deletion of 9: only the first deletion is delivered |
| HideWorks.TagFilterRules | src/content_script/units/HideWorks.tsx:183-196 | a filter with a different type never matches; `contains` is a substring test on lower-cased names; a missing or `exact` matcher is case-sensitive equality of names |
| HideWorks.MatcherCaseRules | src/content_script/units/HideWorks.tsx:188-195 | `contains` gives the same answer for tag names that lower-case alike, and every exact match is also a `contains` match |
| HideWorks.AuthorMatchFirst | src/content_script/units/HideWorks.tsx:62-66 | an author is matched to the first filter with the same user id whose pseud is undefined or the author's; no match exactly when no filter qualifies |
| HideWorks.TagMatchFirst | src/content_script/units/HideWorks.tsx:77-79 | a tag is matched to the first filter that matches it; no match exactly when no filter does |
| HideWorks.SomesConcat | src/content_script/units/HideWorks.tsx:69 | dropping the undefined matches keeps the others in order and with their repetitions: it distributes over joining lists |
| HideWorks.SomesSingle | src/content_script/units/HideWorks.tsx:69 | one match is kept exactly when it is defined |
| HideWorks.AuthorLabel | src/content_script/units/HideWorks.tsx:69 | a label is the filter's user id, followed by the pseud in parentheses exactly when the pseud is a non-empty string |
| HideWorks.AuthorLabelDistinguishes | src/content_script/units/HideWorks.tsx:69 | filters for different users, with no space in their ids, get different labels |
| HideWorks.AuthorLabelPseudsDiffer | src/content_script/units/HideWorks.tsx:69 | filters for the same user with different non-empty pseuds get different labels |
| HideWorks.AuthorLabelsConcat | src/content_script/units/HideWorks.tsx:61-70 | the labels for a list of authors are those of its parts in order, each author adding its matched filter's label or nothing |
| HideWorks.AuthorLabelsOfMatches | src/content_script/units/HideWorks.tsx:61-70 | mapping, filtering and labelling the matches gives the author-by-author labels |
| HideWorks.TagNamesConcat | src/content_script/units/HideWorks.tsx:76-83 | the names for a list of tags are those of its parts in order, each tag adding its matched filter's name or nothing |
| HideWorks.TagNamesOfMatches | src/content_script/units/HideWorks.tsx:76-83 | mapping, filtering and naming the matches gives the tag-by-tag names |
| HideWorks.AuthorReasons | src/content_script/units/HideWorks.tsx:61-74 | the author rule yields at most one reason; it lists the labels of the authors' matched filters, in author order, and names at least one and at most all authors |
| HideWorks.AuthorRule | src/content_script/units/HideWorks.tsx:61-74 | there is an author reason exactly when the rule is enabled, no author is matched to an inverted filter, and at least one author is matched |
| HideWorks.TagReasons | src/content_script/units/HideWorks.tsx:76-87 | the tag rule yields at most one reason; it lists the names of the tags' matched filters, in tag order, and names at least one and at most all tags |
| HideWorks.TagRule | src/content_script/units/HideWorks.tsx:76-87 | there is a tag reason exactly when the rule is enabled, no tag is matched to an inverted filter, and at least one tag is matched |
| HideWorks.HideByLanguage | src/content_script/units/HideWorks.tsx:50-54 | a language reason exists exactly when the rule is enabled and the language is present, non-empty and the label of no `show` entry |
| HideWorks.HideByCrossover | src/content_script/units/HideWorks.tsx:56-59 | a crossover reason exists exactly when the rule is enabled and the fandom count exceeds the maximum |
| HideWorks.HideByAuthor | src/content_script/units/HideWorks.tsx:61-74 | the reasons of a blurb include an author reason exactly under the author rule's condition |
| HideWorks.HideByTag | src/content_script/units/HideWorks.tsx:76-87 | the reasons of a blurb include a tag reason exactly under the tag rule's condition |
| HideWorks.HideReasonsOrdered | src/content_script/units/HideWorks.tsx:48-87 | reasons come in the order language, crossover, author, tag, each at most once |
| HideWorks.HideReasonsCarry | src/content_script/units/HideWorks.tsx:50-59 | the language reason carries the blurb's language and the crossover reason its fandom count |
| HideWorks.HideReasonsAuthorLabels | src/content_script/units/HideWorks.tsx:61-74 | the author reason of a blurb lists the matched filters' labels in author order, never empty and never more than the blurb's authors |
| HideWorks.HideReasonsTagNames | src/content_script/units/HideWorks.tsx:76-87 | the tag reason of a blurb lists the matched filters' names in tag order, never empty and never more than the blurb's tags |
| HideWorks.DisabledHidesNothing | src/content_script/units/HideWorks.tsx:20-27 | when the unit is not enabled, no blurb gets a reason, so none is hidden |
| HideWorks.InvertedAuthorShields | src/content_script/units/HideWorks.tsx:68 | one author matched to an inverted filter rules out the author reason, whatever the other authors match |
| HideWorks.ReasonTextKinds | src/content_script/units/HideWorks.tsx:52-85 | reasons of different kinds never have the same text |
| HideWorks.ReasonTextValues | src/content_script/units/HideWorks.tsx:52-58 | two language reasons, or two crossover reasons, with different values have different texts |
| StatsTime.ProcessTime | src/content_script/units/Stats/utils.tsx:11-24 | days are whole days of the input; hours < 24 and minutes < 60; from 60 seconds up only the leftover seconds are dropped; under 60 seconds the result is 0 days, 0 hours, 1 minute; never all zero |
| StatsTime.ProcessTimeReference | src/content_script/units/Stats/utils.tsx:11-24 | from 60 seconds up the split is the remainders of division by a day, an hour and a minute |
| StatsTime.FormatTime | src/content_script/units/Stats/utils.tsx:29-42 | the text is the non-zero parts in day, hour, min order joined with ", ", and it is never empty |
| StatsTime.NonZeroPiecesOfEntries | src/content_script/units/Stats/utils.tsx:32-40 | mapping the entries and dropping the nulls keeps exactly the non-zero parts, in order |
| StatsTime.FormatTimeUnderAMinute | src/content_script/units/Stats/utils.tsx:19-21 | under a minute the text is "1 " followed by the pluralised `min` |
| StatsTime.FormatTimeAllComponents | src/content_script/units/Stats/utils.tsx:29-42 | 90061 seconds reads as one day, one hour and one minute, joined with ", " |
| Text.JoinWithSingle | src/content_script/units/Stats/utils.tsx:41 | joining one part gives that part |
| Text.JoinWithConcat | src/content_script/units/Stats/utils.tsx:41 | joining two non-empty lists joined is the first join, one separator, then the second join |
| Text.Lower | src/content_script/units/HideWorks.tsx:189 | lower-casing keeps the length, leaves no upper-case letter, and leaves a text without upper-case letters unchanged |
| Text.LowerIdempotent | src/content_script/units/HideWorks.tsx:189 | lower-casing twice is lower-casing once |
| Text.Includes | src/content_script/units/HideWorks.tsx:189 | true exactly when the needle occurs at some position of the text |

## Left out

- DOM scraping and manipulation: `fromWorkPage`, `fromListingBlurb`, `getBlurb` (with its URL parsing), `hideWork`, `clean` and `finishAtValueElement`. The blurb is taken as already extracted. The reasons are modelled; the wrapping and buttons are not.
- Browser messaging and storage: `save`, `ReadingListData.get`, the port wiring around the dispatch loop, `getRawListData` and `setRawListData`. Dispatch is a function from the registered filters and a batch to the trace of calls.
- Conflict detection: it happens in the external `trimerge` library, so `Conflict` is only a data holder here. `Conflict.fromPlain` and class-transformer (de)serialisation are left out, except `ReadingListItem.fromPlain` with its chapter transform and the fields that saving excludes.
- ListItems.FromPlain: a `None` chapter in a stored item stands for the `null` that JSON makes of a hole, on which the transform throws. How class-transformer turns a list with holes into a plain object, and whether a plain array with real holes is compacted, is not modelled.
- ListListeners.Dispatch: a callback is assumed to return normally. A callback that throws would end the handler there, as a failed decode does in the model.
- `dayjs`: read dates are integers. `readText` and `formatFinishAt` depend on date formatting and the wall clock.
- JavaScript regular expressions: the `regex` matcher is the parameter `regexTest`. An invalid pattern, which would throw, is not modelled.
- `pluralize`: a parameter of `formatTime`.
- StatsTime.ProcessTime: takes a `nat`. Negative and fractional seconds, which are floating-point values in the source, are not modelled.
- Text.Lower: maps only ASCII letters. Unicode case mapping is not modelled.
- Ratings, ids and totals are unbounded integers. JavaScript numbers are doubles; ids past 2^53 are not modelled.
- `src/common/options.ts`, `src/common/index.ts` and `scripts/builder/common.ts`: storage plumbing, re-exports and build tooling, with no logic in the modelled core.

## Findings

| source | as written | input that shows it | evidently intended | confidence | as-written member | corrected member |
|---|---|---|---|---|---|---|
| src/common/listData.ts:284-306 | `delete this.chapters[i]` leaves a hole, so a stored list longer than the scraped one keeps its length; `this.chapters.length !== data.chapters.length` then holds on every later call, `update` reports a change every time, and `isWorkWIP` compares a length that counts the holes | stored item with chapters [c0, c1], scraped data with chapters [c0]: the merged item is [c0, hole], and merging [c0] again reports a change | chapters gone from the work are removed, so the merged list has the data's length and a repeated merge reports no change | medium, not executed | ListMerge.UpdateReportsChangeForever | ListMerge.UpdateTruncating |
