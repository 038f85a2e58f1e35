/** Change notification: listeners registered with a work-id filter, and the
    dispatch of a batch of changes to them in order. */
module ListListeners {
  import opened Wrappers
  import opened ListItems

  /** A listener's filter: `null` (every work), one work id, or an array of ids. */
  datatype WorkFilter = AllWorks | OneWork(id: int) | SomeWorks(ids: seq<int>)

  /** One entry of a change batch; `item` is the stored form, `None` for `null`. */
  datatype Change = Change(workId: int, item: Option<ReadingListItem>)

  /** One callback invocation: which listener (its registration index) got what. */
  datatype Call = Call(listener: nat, workId: int, item: Option<ReadingListItem>)

  /** `addListener`: the new filter goes last. */
  function AddListener(filters: seq<WorkFilter>, f: WorkFilter): (r: seq<WorkFilter>)
    ensures |r| == |filters| + 1 && r[|filters|] == f
    ensures forall k :: 0 <= k < |filters| ==> r[k] == filters[k]
  {
    filters + [f]
  }

  predicate Matches(f: WorkFilter, workId: int) {
    match f
    case AllWorks => true
    case OneWork(id) => id == workId
    case SomeWorks(ids) => workId in ids
  }

  /** The item handed to callbacks: decoded with the change's work id, or `null`.
      Decoding throws when the stored item has a `null` chapter. */
  function Delivered(c: Change): (r: Result<Option<ReadingListItem>, ScriptError>)
    ensures c.item.None? ==> r == Success(None)
    ensures c.item.Some? ==> (r.Failure? <==> !Dense(c.item.value.chapters))
    ensures r.Success? && r.value.Some? ==> r.value.value.workId == c.workId && Stamped(r.value.value)
    ensures c.item.Some? && r.Success? ==> r.value.Some? && Stored(r.value.value) == Stored(c.item.value)
  {
    match c.item
    case None => Success(None)
    case Some(plain) =>
      match FromPlain(c.workId, plain)
      case Failure(e) => Failure(e)
      case Success(x) => Success(Some(x))
  }

  /** Some listener from index `from` on listens to `workId`. */
  predicate AnyMatchFrom(filters: seq<WorkFilter>, workId: int, from: nat) {
    exists k :: from <= k < |filters| && Matches(filters[k], workId)
  }

  /** Decoding the change throws, and it is decoded because some listener matches:
      the handler ends here, before any call for this change. */
  predicate Throws(filters: seq<WorkFilter>, c: Change) {
    Delivered(c).Failure? && AnyMatchFrom(filters, c.workId, 0)
  }

  /** Some change of the batch ends the handler. */
  predicate Aborts(filters: seq<WorkFilter>, batch: seq<Change>) {
    exists b :: 0 <= b < |batch| && Throws(filters, batch[b])
  }

  /** The inner loop over listeners from index `from` on, for one change whose decoded
      item is `item`. */
  function CallsFor(filters: seq<WorkFilter>, workId: int, item: Option<ReadingListItem>, from: nat): seq<Call>
    decreases |filters| - from
  {
    if from >= |filters| then []
    else if Matches(filters[from], workId) then
      [Call(from, workId, item)] + CallsFor(filters, workId, item, from + 1)
    else CallsFor(filters, workId, item, from + 1)
  }

  /** For one change, only matching listeners are called, each at most once, in
      registration order, with the change's work id and decoded item. */
  lemma {:induction false} CallsForSpec(filters: seq<WorkFilter>, workId: int, item: Option<ReadingListItem>, from: nat)
    ensures forall j :: 0 <= j < |CallsFor(filters, workId, item, from)| ==>
      var call := CallsFor(filters, workId, item, from)[j];
      from <= call.listener < |filters| && Matches(filters[call.listener], workId)
      && call.workId == workId && call.item == item
    ensures forall j, j' :: 0 <= j < j' < |CallsFor(filters, workId, item, from)| ==>
      CallsFor(filters, workId, item, from)[j].listener < CallsFor(filters, workId, item, from)[j'].listener
    decreases |filters| - from
  {
    if from < |filters| {
      CallsForSpec(filters, workId, item, from + 1);
      var rest := CallsFor(filters, workId, item, from + 1);
      var r := CallsFor(filters, workId, item, from);
      if Matches(filters[from], workId) {
        assert r == [Call(from, workId, item)] + rest;
        assert forall j :: 0 < j < |r| ==> r[j] == rest[j - 1];
      } else {
        assert r == rest;
      }
    }
  }

  /** For one change, every matching listener from `from` on is called. */
  lemma {:induction false} CallsForComplete(filters: seq<WorkFilter>, workId: int, item: Option<ReadingListItem>, from: nat)
    ensures forall k :: from <= k < |filters| && Matches(filters[k], workId) ==>
      exists j :: 0 <= j < |CallsFor(filters, workId, item, from)| && CallsFor(filters, workId, item, from)[j].listener == k
    decreases |filters| - from
  {
    if from < |filters| {
      CallsForComplete(filters, workId, item, from + 1);
      var rest := CallsFor(filters, workId, item, from + 1);
      var r := CallsFor(filters, workId, item, from);
      forall k | from <= k < |filters| && Matches(filters[k], workId)
        ensures exists j :: 0 <= j < |r| && r[j].listener == k
      {
        if Matches(filters[from], workId) {
          assert r == [Call(from, workId, item)] + rest;
          if k == from {
            assert r[0].listener == k;
          } else {
            var j :| 0 <= j < |rest| && rest[j].listener == k;
            assert r[j + 1] == rest[j];
          }
        } else {
          assert r == rest;
          assert k != from;
        }
      }
      assert r == CallsFor(filters, workId, item, from);
    }
  }

  /** The calls for one change that does not end the handler: none when its decoding
      fails, since then no listener matches and it is never decoded. */
  function ChangeCalls(filters: seq<WorkFilter>, c: Change): seq<Call> {
    match Delivered(c)
    case Success(item) => CallsFor(filters, c.workId, item, 0)
    case Failure(_) => []
  }

  /** The outer loop: each change of the batch in order, all its calls before the
      next change's, until a change whose decoding throws. */
  function Dispatch(filters: seq<WorkFilter>, batch: seq<Change>): seq<Call> {
    if |batch| == 0 || Throws(filters, batch[0]) then []
    else ChangeCalls(filters, batch[0]) + Dispatch(filters, batch[1..])
  }

  /** Every call goes to a listener whose filter matches the call's work id, and
      carries a change of the batch with that work id that decoded to the call's item,
      `null` staying `null`. */
  lemma {:induction false} DispatchSound(filters: seq<WorkFilter>, batch: seq<Change>)
    ensures forall j :: 0 <= j < |Dispatch(filters, batch)| ==>
      var call := Dispatch(filters, batch)[j];
      call.listener < |filters| && Matches(filters[call.listener], call.workId)
      && exists b :: 0 <= b < |batch| && batch[b].workId == call.workId && Delivered(batch[b]) == Success(call.item)
  {
    if |batch| > 0 && !Throws(filters, batch[0]) {
      DispatchSound(filters, batch[1..]);
      var first := ChangeCalls(filters, batch[0]);
      var rest := Dispatch(filters, batch[1..]);
      var r := Dispatch(filters, batch);
      assert r == first + rest;
      forall j | 0 <= j < |r|
        ensures r[j].listener < |filters| && Matches(filters[r[j].listener], r[j].workId)
        ensures exists b :: 0 <= b < |batch| && batch[b].workId == r[j].workId && Delivered(batch[b]) == Success(r[j].item)
      {
        if j < |first| {
          var item := Delivered(batch[0]).value;
          CallsForSpec(filters, batch[0].workId, item, 0);
          assert r[j] == first[j];
          assert batch[0].workId == r[j].workId && Delivered(batch[0]) == Success(r[j].item);
        } else {
          assert r[j] == rest[j - |first|];
          var b :| 0 <= b < |batch[1..]| && batch[1..][b].workId == r[j].workId && Delivered(batch[1..][b]) == Success(r[j].item);
          assert batch[b + 1] == batch[1..][b];
        }
      }
    }
  }

  /** Dispatching the concatenation of two batches delivers the first, then the second
      unless a change of the first ended the handler. */
  lemma {:induction false} DispatchConcat(filters: seq<WorkFilter>, b1: seq<Change>, b2: seq<Change>)
    ensures Dispatch(filters, b1 + b2)
         == Dispatch(filters, b1) + (if Aborts(filters, b1) then [] else Dispatch(filters, b2))
    decreases |b1|
  {
    if |b1| == 0 {
      assert b1 + b2 == b2;
    } else {
      assert (b1 + b2)[0] == b1[0];
      assert (b1 + b2)[1..] == b1[1..] + b2;
      DispatchConcat(filters, b1[1..], b2);
      assert Aborts(filters, b1) <==> Throws(filters, b1[0]) || Aborts(filters, b1[1..]) by {
        if Aborts(filters, b1[1..]) {
          var b :| 0 <= b < |b1[1..]| && Throws(filters, b1[1..][b]);
          assert b1[b + 1] == b1[1..][b];
        }
        if Aborts(filters, b1) && !Throws(filters, b1[0]) {
          var b :| 0 <= b < |b1| && Throws(filters, b1[b]);
          assert b1[1..][b - 1] == b1[b];
        }
      }
    }
  }

  /** A change whose decoding throws for a matching listener cuts the trace: nothing
      from it on is delivered. */
  lemma DispatchStopsAtThrow(filters: seq<WorkFilter>, batch: seq<Change>, k: nat)
    requires k < |batch| && Throws(filters, batch[k])
    ensures Dispatch(filters, batch) == Dispatch(filters, batch[..k])
  {
    assert batch == batch[..k] + batch[k..];
    DispatchConcat(filters, batch[..k], batch[k..]);
    assert batch[k..][0] == batch[k];
  }

  /** A listener registered later never changes what the earlier ones receive: its
      calls are the only ones added, after theirs. */
  lemma {:induction false} LaterListenerKeepsEarlierCalls(filters: seq<WorkFilter>, f: WorkFilter, workId: int,
                                                          item: Option<ReadingListItem>, from: nat)
    requires from <= |filters|
    ensures CallsFor(AddListener(filters, f), workId, item, from)
         == CallsFor(filters, workId, item, from) + (if Matches(f, workId) then [Call(|filters|, workId, item)] else [])
    decreases |filters| - from
  {
    var fs := AddListener(filters, f);
    if from < |filters| {
      assert fs[from] == filters[from];
      LaterListenerKeepsEarlierCalls(filters, f, workId, item, from + 1);
    } else {
      assert fs[from] == f;
    }
  }

  /** Listeners for work 5, for works 5 and 7, and for every work, then a batch that
      changes work 5 and deletes work 9: the first two hear only about work 5, and
      the deletion reaches the catch-all listener as `null`. */
  lemma DispatchExample(x: ReadingListItem)
    requires Dense(x.chapters)
    ensures FromPlain(5, x).Success?
    ensures Dispatch([OneWork(5), SomeWorks([5, 7]), AllWorks], [Change(5, Some(x)), Change(9, None)])
         == [Call(0, 5, Some(FromPlain(5, x).value)), Call(1, 5, Some(FromPlain(5, x).value)),
             Call(2, 5, Some(FromPlain(5, x).value)), Call(2, 9, None)]
  {
    var fs := [OneWork(5), SomeWorks([5, 7]), AllWorks];
    var x' := Some(FromPlain(5, x).value);
    assert Delivered(Change(5, Some(x))) == Success(x');
    assert CallsFor(fs, 5, x', 3) == [];
    assert CallsFor(fs, 5, x', 2) == [Call(2, 5, x')];
    assert CallsFor(fs, 5, x', 1) == [Call(1, 5, x'), Call(2, 5, x')];
    assert CallsFor(fs, 5, x', 0) == [Call(0, 5, x'), Call(1, 5, x'), Call(2, 5, x')];
    assert !Matches(fs[1], 9);
    assert CallsFor(fs, 9, None, 2) == [Call(2, 9, None)];
    assert CallsFor(fs, 9, None, 0) == [Call(2, 9, None)];
    var batch := [Change(5, Some(x)), Change(9, None)];
    assert batch[1..] == [Change(9, None)];
    assert Dispatch(fs, batch[1..]) == [Call(2, 9, None)];
  }

  /** The same listeners, with a stored item for work 5 whose chapters hold a `null`:
      decoding it for the first listener throws, so the deletion of work 9 that comes
      after it is never delivered, while the earlier one is. */
  lemma DispatchThrowExample(x: ReadingListItem)
    requires !Dense(x.chapters)
    ensures Dispatch([OneWork(5), SomeWorks([5, 7]), AllWorks],
                     [Change(9, None), Change(5, Some(x)), Change(9, None)])
         == [Call(2, 9, None)]
  {
    var fs := [OneWork(5), SomeWorks([5, 7]), AllWorks];
    var batch := [Change(9, None), Change(5, Some(x)), Change(9, None)];
    assert Matches(fs[0], 5);
    assert Throws(fs, batch[1]);
    DispatchStopsAtThrow(fs, batch, 1);
    assert batch[..1] == [Change(9, None)];
    assert !Matches(fs[1], 9);
    assert CallsFor(fs, 9, None, 2) == [Call(2, 9, None)];
    assert CallsFor(fs, 9, None, 0) == [Call(2, 9, None)];
    assert batch[..1][1..] == [];
  }
}
