/** A detected disagreement between the local and the remote copy of one item:
    the disputed paths, three snapshots, and the user's choice. Detecting the
    disagreement happens elsewhere; this is the container the rest of the
    extension reads. */
module ListConflict {
  import opened Wrappers
  import opened ListItems

  /** One key of a path into an item: a property name or an array index. */
  datatype PathKey = Name(name: string) | Index(index: int)

  type Path = seq<PathKey>

  datatype Side = Local | Remote

  /** `chosen` is `null` (`None`) until the user picks a side. */
  datatype Conflict = Conflict(
    workId: int,
    paths: seq<Path>,
    local: ReadingListItem,
    remote: ReadingListItem,
    result: ReadingListItem,
    chosen: Option<Side>)

  /** Reading `value` before a side is chosen throws. */
  datatype ConflictError = NotResolved

  /** The constructor: nothing is chosen yet. */
  function NewConflict(workId: int, paths: seq<Path>, local: ReadingListItem,
                       remote: ReadingListItem, result: ReadingListItem): (c: Conflict)
    ensures c.chosen.None?
  {
    Conflict(workId, paths, local, remote, result, None)
  }

  /** Setting `chosen`. */
  function Choose(c: Conflict, side: Side): Conflict {
    c.(chosen := Some(side))
  }

  /** The `value` getter: the whole snapshot of the chosen side. */
  function Value(c: Conflict): (r: Result<ReadingListItem, ConflictError>)
    ensures r.Failure? <==> c.chosen.None?
    ensures r.Success? ==> r.value == c.local || r.value == c.remote
  {
    match c.chosen
    case Some(Local) => Success(c.local)
    case Some(Remote) => Success(c.remote)
    case None => Failure(NotResolved)
  }

  /** A fresh conflict cannot be read; after a choice it reads as exactly the
      chosen snapshot, and choosing again replaces the earlier choice. */
  lemma ValueGate(workId: int, paths: seq<Path>, local: ReadingListItem,
                  remote: ReadingListItem, result: ReadingListItem, side: Side, side': Side)
    ensures Value(NewConflict(workId, paths, local, remote, result)) == Failure(NotResolved)
    ensures var c := Choose(NewConflict(workId, paths, local, remote, result), side);
      Value(c) == Success(if side == Local then local else remote)
    ensures var c := Choose(NewConflict(workId, paths, local, remote, result), side);
      Value(Choose(c, side')) == Success(if side' == Local then local else remote)
  {
  }

  /** Paths `p` and `q` have the same key at position `i`. */
  predicate AgreeAt(p: Path, q: Path, i: int) {
    0 <= i < |p| && i < |q| && p[i] == q[i]
  }

  /** `p.some((v, i) => v === path[i])`; past the end of `path` there is only `undefined`. */
  function SomeKeyAgrees(p: Path, path: Path, from: nat): (b: bool)
    ensures b <==> exists i :: from <= i && AgreeAt(p, path, i)
    decreases |p| - from
  {
    if from >= |p| then false
    else AgreeAt(p, path, from) || SomeKeyAgrees(p, path, from + 1)
  }

  function SomePathAgrees(paths: seq<Path>, path: Path, from: nat): (b: bool)
    ensures b <==> exists k, i :: from <= k < |paths| && AgreeAt(paths[k], path, i)
    decreases |paths| - from
  {
    if from >= |paths| then false
    else SomeKeyAgrees(paths[from], path, 0) || SomePathAgrees(paths, path, from + 1)
  }

  /** `checkPath(path)`: some recorded path has the same key as `path` at some
      same position. This is not a prefix test. */
  function CheckPath(c: Conflict, path: Path): (b: bool)
    ensures b <==> exists k, i :: 0 <= k < |c.paths| && AgreeAt(c.paths[k], path, i)
    ensures |c.paths| == 0 ==> !b
  {
    SomePathAgrees(c.paths, path, 0)
  }

  /** Every non-empty recorded path checks, and so does any path that starts like
      one; but agreeing on one key suffices, so a different chapter's read date also
      checks. */
  lemma CheckPathExamples(c: Conflict, k: nat, path: Path)
    requires k < |c.paths| && |c.paths[k]| > 0 && |path| > 0 && path[0] == c.paths[k][0]
    ensures CheckPath(c, path)
    ensures CheckPath(c.(paths := [[Name("chapters"), Index(2), Name("readDate")]]),
                      [Name("chapters"), Index(3), Name("readDate")])
    ensures !CheckPath(c.(paths := [[Name("rating")]]), [Name("status")])
  {
    assert AgreeAt(c.paths[k], path, 0);
    var q: Path := [Name("chapters"), Index(3), Name("readDate")];
    var p: Path := [Name("chapters"), Index(2), Name("readDate")];
    assert AgreeAt(p, q, 0);
    assert [p][0] == p;
  }
}
