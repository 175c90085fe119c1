/** The tracker bookkeeping of `TrackerManager` (TrackerManager.hpp): the
    trackers read at construction are attached to the cells at their
    positions, on a plain grid or on a grid split into subgrids, where every
    copy of a subgrid receives a duplicate of the tracker; `_originals` and
    `_copies` record which duplicate belongs to which tracker, and
    `output_trackers` merges the duplicates back before output.

    Trackers are values: `Made(i)` is the tracker the factory made for block
    i of the tracker file, `Duplicate(t)` a duplicate of t. A cell holds the
    index of its tracker in the manager's list, which stands for the `Tracker *`
    the source stores. The grid geometry (`Box::inside`, `get_subgrid`,
    `get_cell`, `get_copies`) is given by functions fixed with the grid. */
module Trackers {

  /** The sentinel of `_copies`: "this tracker has no copies". */
  const NONE: nat := 0xffffffff

  datatype Position = Position(x: real, y: real, z: real)

  datatype Tracker = Made(block: nat) | Duplicate(original: Tracker)

  /** Why `add_trackers` stops with an error: tracker i lies outside the
      grid box, or a cell it is to be attached to already holds a tracker. */
  datatype Failure = NotInside(tracker: nat) | CellTaken(tracker: nat)

  datatype Result<T> = Ok(value: T) | Fail(failure: Failure)

  datatype Status = Success | Failed(failure: Failure)

  function StatusOf<T>(r: Result<T>): Status {
    if r.Ok? then Success else Failed(r.failure)
  }

  /** What can happen when a tracker and its copies are processed, as
      recorded by the manager: a merge of copy `from` into tracker `into`,
      and the output of a tracker to a named file. */
  datatype Event = Merge(into: nat, from: nat) | Output(tracker: nat, name: string)

  // ---------------------------------------------------------------------
  // Plain grid

  /** The box test and the cell lookup of a `DensityGrid`. */
  datatype GridLayout = GridLayout(inside: Position -> bool, cellOf: Position -> nat)

  class DensityGrid {
    const layout: GridLayout
    /** The cells that hold a tracker, with the index of that tracker. */
    var holders: map<nat, nat>

    constructor (layout: GridLayout)
      ensures this.layout == layout && holders == map[]
    {
      this.layout := layout;
      holders := map[];
    }
  }

  /** `add_trackers(DensityGrid&)` from tracker i on, with `holders` the
      cells already taken: the first failure, or the final holders. */
  function AttachFrom(g: GridLayout, ps: seq<Position>, i: nat, holders: map<nat, nat>): Result<map<nat, nat>>
    requires i <= |ps|
    decreases |ps| - i
  {
    if i == |ps| then Ok(holders)
    else if !g.inside(ps[i]) then Fail(NotInside(i))
    else if g.cellOf(ps[i]) in holders then Fail(CellTaken(i))
    else AttachFrom(g, ps, i + 1, holders[g.cellOf(ps[i]) := i])
  }

  /** The trackers from i on can all be attached exactly when each lies
      inside the box, lands in a cell not yet taken, and no two of them land
      in the same cell. */
  lemma {:induction false} AttachSucceedsIff(g: GridLayout, ps: seq<Position>, i: nat, holders: map<nat, nat>)
    requires i <= |ps|
    ensures AttachFrom(g, ps, i, holders).Ok? <==>
      (forall k :: i <= k < |ps| ==> g.inside(ps[k]) && g.cellOf(ps[k]) !in holders) &&
      (forall k, l :: i <= k < l < |ps| ==> g.cellOf(ps[k]) != g.cellOf(ps[l]))
    decreases |ps| - i
  {
    if i < |ps| && g.inside(ps[i]) && g.cellOf(ps[i]) !in holders {
      AttachSucceedsIff(g, ps, i + 1, holders[g.cellOf(ps[i]) := i]);
    }
  }

  /** A failure names the first tracker that cannot be attached: every
      tracker before it lies inside the box, in a cell not yet taken and in
      a cell of its own, and the failure says what went wrong with it: it
      lies outside the box, or its cell is taken (before the call or by an
      earlier tracker). */
  lemma {:induction false} AttachFailureIsFirst(g: GridLayout, ps: seq<Position>, i: nat, holders: map<nat, nat>)
    requires i <= |ps| && AttachFrom(g, ps, i, holders).Fail?
    ensures var f := AttachFrom(g, ps, i, holders).failure;
      var t := f.tracker;
      i <= t < |ps| &&
      (f.NotInside? <==> !g.inside(ps[t])) &&
      (f.CellTaken? ==>
         (g.cellOf(ps[t]) in holders || exists k :: i <= k < t && g.cellOf(ps[k]) == g.cellOf(ps[t]))) &&
      (forall k :: i <= k < t ==> g.inside(ps[k]) && g.cellOf(ps[k]) !in holders) &&
      (forall k, l :: i <= k < l < t ==> g.cellOf(ps[k]) != g.cellOf(ps[l]))
    decreases |ps| - i
  {
    if g.inside(ps[i]) && g.cellOf(ps[i]) !in holders {
      var c := g.cellOf(ps[i]);
      AttachFailureIsFirst(g, ps, i + 1, holders[c := i]);
      var t := AttachFrom(g, ps, i, holders).failure.tracker;
      if AttachFrom(g, ps, i, holders).failure.CellTaken? && g.cellOf(ps[t]) == c {
        assert i < t && g.cellOf(ps[i]) == g.cellOf(ps[t]);
      }
    }
  }

  /** On success tracker k is held by the cell at its position, the cells
      held before keep their tracker, and exactly one more cell is tracked
      per tracker (on an empty grid: as many tracked cells as trackers). */
  lemma {:induction false} AttachPlacesTrackers(g: GridLayout, ps: seq<Position>, i: nat, holders: map<nat, nat>)
    requires i <= |ps| && AttachFrom(g, ps, i, holders).Ok?
    ensures var h := AttachFrom(g, ps, i, holders).value;
      |h| == |holders| + (|ps| - i) &&
      (forall k :: i <= k < |ps| ==> g.cellOf(ps[k]) in h && h[g.cellOf(ps[k])] == k) &&
      (forall c :: c in holders ==> c in h && h[c] == holders[c]) &&
      (forall c :: c in h ==> c in holders || exists k :: i <= k < |ps| && c == g.cellOf(ps[k]))
    decreases |ps| - i
  {
    if i < |ps| {
      var c := g.cellOf(ps[i]);
      var next := holders[c := i];
      AttachPlacesTrackers(g, ps, i + 1, next);
      AttachSucceedsIff(g, ps, i + 1, next);
    }
  }

  /** On an empty grid, trackers that all lie inside the box and land in
      pairwise different cells are all attached, and the grid then has
      exactly as many tracked cells as there are trackers (three in the
      unit test). */
  lemma TrackedCellsOnEmptyGrid(g: GridLayout, ps: seq<Position>)
    requires forall k :: 0 <= k < |ps| ==> g.inside(ps[k])
    requires forall k, l :: 0 <= k < l < |ps| ==> g.cellOf(ps[k]) != g.cellOf(ps[l])
    ensures AttachFrom(g, ps, 0, map[]).Ok? && |AttachFrom(g, ps, 0, map[]).value| == |ps|
  {
    AttachSucceedsIff(g, ps, 0, map[]);
    AttachPlacesTrackers(g, ps, 0, map[]);
  }

  // ---------------------------------------------------------------------
  // Subgrids

  /** A cell of a subgrid. */
  datatype CellRef = CellRef(subgrid: nat, cell: nat)

  /** The box test of a `DensitySubGridCreator`, the subgrid holding a
      position, the copies of a subgrid (in iteration order) and the cell
      holding a position within a given subgrid. */
  datatype SubGridLayout = SubGridLayout(
    inside: Position -> bool, subgridOf: Position -> nat,
    copiesOf: nat -> seq<nat>, cellOf: (nat, Position) -> nat)

  class DensitySubGridCreator {
    const layout: SubGridLayout
    /** The cells that hold a tracker, with the index of that tracker. */
    var holders: map<CellRef, nat>

    constructor (layout: SubGridLayout)
      ensures this.layout == layout && holders == map[]
    {
      this.layout := layout;
      holders := map[];
    }
  }

  /** The manager's lists: `_trackers`, `_originals` and `_copies`. */
  datatype Books = Books(trackers: seq<Tracker>, originals: seq<nat>, copies: seq<nat>)

  /** What the subgrid overload of `add_trackers` changes: the cells and the
      manager's lists. */
  datatype Attached = Attached(holders: map<CellRef, nat>, books: Books)

  /** One copy of tracker i: its duplicate is appended to the trackers, i to
      the originals, and for the first copy its index becomes `_copies[i]`. */
  function AppendCopy(b: Books, i: nat, first: bool): (r: Books)
    requires i < |b.trackers| && i < |b.copies|
    ensures |r.trackers| == |b.trackers| + 1 && |r.originals| == |b.originals| + 1 && |r.copies| == |b.copies|
  {
    Books(b.trackers + [Duplicate(b.trackers[i])], b.originals + [i],
          if first then b.copies[i := |b.trackers|] else b.copies)
  }

  /** c is the index in `_trackers` of the first copy of tracker j, given
      the originals of the copies and n original trackers. */
  ghost predicate IsFirstCopy(c: nat, originals: seq<nat>, n: nat, j: nat) {
    n <= c < n + |originals| && originals[c - n] == j &&
    forall k :: 0 <= k < c - n ==> originals[k] != j
  }

  /** The bookkeeping after the trackers below i are processed, with n
      original trackers at the front of `_trackers`: copy k duplicates the
      tracker `_originals[k]`, which is below i; the originals are
      non-decreasing; and `_copies[j]` is the index of the first copy of j,
      or the sentinel when j has none. */
  ghost predicate BooksValid(b: Books, n: nat, i: nat) {
    i <= n && |b.copies| == n && |b.trackers| == n + |b.originals| &&
    (forall k :: 0 <= k < |b.originals| ==> b.originals[k] < i) &&
    (forall k, l :: 0 <= k < l < |b.originals| ==> b.originals[k] <= b.originals[l]) &&
    (forall k :: 0 <= k < |b.originals| ==> b.trackers[n + k] == Duplicate(b.trackers[b.originals[k]])) &&
    (forall j :: 0 <= j < n ==>
      (b.copies[j] == NONE && j !in b.originals) || IsFirstCopy(b.copies[j], b.originals, n, j))
  }

  /** Appending a copy of tracker i keeps the bookkeeping, for the first
      copy when i has none yet and for a later one when i already has one. */
  lemma AppendCopyValid(b: Books, n: nat, i: nat, first: bool)
    requires i < n
    requires if first then BooksValid(b, n, i) else
      BooksValid(b, n, i + 1) && 0 < |b.originals| && b.originals[|b.originals| - 1] == i
    ensures BooksValid(AppendCopy(b, i, first), n, i + 1)
  {
    if first {
      AppendFirstCopyValid(b, n, i);
    } else {
      AppendLaterCopyValid(b, n, i);
    }
  }

  lemma AppendFirstCopyValid(b: Books, n: nat, i: nat)
    requires i < n && BooksValid(b, n, i)
    ensures BooksValid(AppendCopy(b, i, true), n, i + 1)
  {
    var r := AppendCopy(b, i, true);
    var m := |b.originals|;
    assert r.originals[..m] == b.originals;
    forall j | 0 <= j < n
      ensures (r.copies[j] == NONE && j !in r.originals) || IsFirstCopy(r.copies[j], r.originals, n, j)
    {
      if j == i {
        assert r.copies[j] == n + m && r.originals[m] == i;
        assert forall k :: 0 <= k < m ==> r.originals[k] == b.originals[k] < i;
      } else if b.copies[j] == NONE && j !in b.originals {
        assert j !in r.originals;
      } else {
        assert IsFirstCopy(b.copies[j], b.originals, n, j);
      }
    }
  }

  lemma AppendLaterCopyValid(b: Books, n: nat, i: nat)
    requires i < n && BooksValid(b, n, i + 1)
    requires 0 < |b.originals| && b.originals[|b.originals| - 1] == i
    ensures BooksValid(AppendCopy(b, i, false), n, i + 1)
  {
    var r := AppendCopy(b, i, false);
    var m := |b.originals|;
    assert r.originals[..m] == b.originals;
    forall j | 0 <= j < n
      ensures (r.copies[j] == NONE && j !in r.originals) || IsFirstCopy(r.copies[j], r.originals, n, j)
    {
      if j == i {
        assert b.originals[m - 1] == i;
        assert IsFirstCopy(b.copies[j], b.originals, n, j);
      } else if b.copies[j] == NONE && j !in b.originals {
        assert j !in r.originals;
      } else {
        assert IsFirstCopy(b.copies[j], b.originals, n, j);
      }
    }
  }

  /** The copies loop of the subgrid overload for tracker i at position p,
      from the k-th copy of its subgrid on. */
  function CopiesFrom(g: SubGridLayout, p: Position, i: nat, qs: seq<nat>, k: nat, a: Attached): (r: Result<Attached>)
    requires k <= |qs| && i < |a.books.trackers| && i < |a.books.copies|
    ensures r.Ok? ==>
      |r.value.books.trackers| == |a.books.trackers| + (|qs| - k) &&
      |r.value.books.originals| == |a.books.originals| + (|qs| - k) &&
      |r.value.books.copies| == |a.books.copies|
    decreases |qs| - k
  {
    if k == |qs| then Ok(a)
    else
      var cell := CellRef(qs[k], g.cellOf(qs[k], p));
      if cell in a.holders then Fail(CellTaken(i))
      else CopiesFrom(g, p, i, qs, k + 1,
        Attached(a.holders[cell := |a.books.trackers|], AppendCopy(a.books, i, k == 0)))
  }

  /** One iteration of the subgrid overload: tracker i goes to the cell at
      its position in its subgrid, then its copies to their cells. */
  function SubAttachStep(g: SubGridLayout, ps: seq<Position>, i: nat, a: Attached): (r: Result<Attached>)
    requires i < |ps| <= |a.books.trackers| && |a.books.copies| == |ps|
    ensures r.Ok? ==>
      |r.value.books.copies| == |ps| &&
      |r.value.books.trackers| - |r.value.books.originals| == |a.books.trackers| - |a.books.originals| &&
      |r.value.books.trackers| >= |a.books.trackers|
  {
    if !g.inside(ps[i]) then Fail(NotInside(i))
    else
      var s := g.subgridOf(ps[i]);
      var home := CellRef(s, g.cellOf(s, ps[i]));
      if home in a.holders then Fail(CellTaken(i))
      else CopiesFrom(g, ps[i], i, g.copiesOf(s), 0, a.(holders := a.holders[home := i]))
  }

  /** The subgrid overload of `add_trackers` from tracker i on: the first
      failure, or the cells and lists at the end. */
  function SubAttachFrom(g: SubGridLayout, ps: seq<Position>, i: nat, a: Attached): (r: Result<Attached>)
    requires i <= |ps| <= |a.books.trackers| && |a.books.copies| == |ps|
    ensures r.Ok? ==>
      |r.value.books.copies| == |ps| &&
      |r.value.books.trackers| - |r.value.books.originals| == |a.books.trackers| - |a.books.originals|
    decreases |ps| - i
  {
    if i == |ps| then Ok(a)
    else
      var r := SubAttachStep(g, ps, i, a);
      if r.Fail? then r else SubAttachFrom(g, ps, i + 1, r.value)
  }

  /** One iteration keeps the bookkeeping, one tracker further on. */
  lemma SubAttachStepKeepsBooks(g: SubGridLayout, ps: seq<Position>, i: nat, a: Attached)
    requires i < |ps| && BooksValid(a.books, |ps|, i)
    requires SubAttachStep(g, ps, i, a).Ok?
    ensures BooksValid(SubAttachStep(g, ps, i, a).value.books, |ps|, i + 1)
  {
    var s := g.subgridOf(ps[i]);
    var home := CellRef(s, g.cellOf(s, ps[i]));
    CopiesKeepBooks(g, ps[i], i, g.copiesOf(s), 0, a.(holders := a.holders[home := i]), |ps|);
  }

  /** The copies loop keeps the bookkeeping. */
  lemma {:induction false} CopiesKeepBooks(g: SubGridLayout, p: Position, i: nat, qs: seq<nat>, k: nat, a: Attached, n: nat)
    requires k <= |qs| && i < n
    requires if k == 0 then BooksValid(a.books, n, i) else
      BooksValid(a.books, n, i + 1) && 0 < |a.books.originals| && a.books.originals[|a.books.originals| - 1] == i
    requires CopiesFrom(g, p, i, qs, k, a).Ok?
    ensures BooksValid(CopiesFrom(g, p, i, qs, k, a).value.books, n, i + 1)
    decreases |qs| - k
  {
    if k < |qs| {
      var cell := CellRef(qs[k], g.cellOf(qs[k], p));
      AppendCopyValid(a.books, n, i, k == 0);
      var next := AppendCopy(a.books, i, k == 0);
      assert next.originals[|next.originals| - 1] == i;
      CopiesKeepBooks(g, p, i, qs, k + 1, Attached(a.holders[cell := |a.books.trackers|], next), n);
    } else if k == 0 {
      assert BooksValid(a.books, n, i + 1);
    }
  }

  /** A successful subgrid attach keeps the bookkeeping: every copy
      duplicates its original, the originals are non-decreasing and
      `_copies` points at first copies. */
  lemma {:induction false} SubAttachKeepsBooks(g: SubGridLayout, ps: seq<Position>, i: nat, a: Attached)
    requires i <= |ps| && BooksValid(a.books, |ps|, i)
    requires SubAttachFrom(g, ps, i, a).Ok?
    ensures BooksValid(SubAttachFrom(g, ps, i, a).value.books, |ps|, |ps|)
    decreases |ps| - i
  {
    if i < |ps| {
      SubAttachStepKeepsBooks(g, ps, i, a);
      SubAttachKeepsBooks(g, ps, i + 1, SubAttachStep(g, ps, i, a).value);
    }
  }

  /** The copies of each tracker form one block of `_originals`, starting
      at `_copies[j] - n`. */
  lemma CopiesContiguous(b: Books, n: nat, j: nat)
    requires BooksValid(b, n, n) && j < n && j in b.originals
    ensures IsFirstCopy(b.copies[j], b.originals, n, j)
    ensures forall k :: 0 <= k < |b.originals| && b.originals[k] == j ==> b.copies[j] - n <= k
    ensures forall k1, k, k2 :: 0 <= k1 <= k <= k2 < |b.originals| && b.originals[k1] == j && b.originals[k2] == j ==>
      b.originals[k] == j
  {
  }

  /** The bookkeeping once the trackers below i are processed holds for
      any later bound as well. */
  lemma BooksValidUp(b: Books, n: nat, i: nat, j: nat)
    requires BooksValid(b, n, i) && i <= j <= n
    ensures BooksValid(b, n, j)
  {
  }

  // ---------------------------------------------------------------------
  // Output

  /** Merges into tracker i of its copies among the first `upto`, in index
      order. */
  function MergesOf(originals: seq<nat>, n: nat, i: nat, upto: nat): seq<Event>
    requires upto <= |originals|
  {
    if upto == 0 then []
    else
      MergesOf(originals, n, i, upto - 1) +
      (if originals[upto - 1] == i then [Merge(i, n + upto - 1)] else [])
  }

  /** What `output_trackers` is meant to do for the trackers below `upto`:
      for each in turn, merge every copy whose original it is, then output
      it. */
  function OutputEvents(originals: seq<nat>, names: seq<string>, n: nat, upto: nat): seq<Event>
    requires upto <= |names|
  {
    if upto == 0 then []
    else
      OutputEvents(originals, names, n, upto - 1) +
      MergesOf(originals, n, upto - 1, |originals|) + [Output(upto - 1, names[upto - 1])]
  }

  /** The merge events of a list of events, in order. */
  function MergesIn(events: seq<Event>): seq<Event>
  {
    if |events| == 0 then []
    else
      MergesIn(events[..|events| - 1]) +
      (if events[|events| - 1].Merge? then [events[|events| - 1]] else [])
  }

  /** Merges of the copies among the first `upto` whose original is below
      i, in index order. */
  function MergesBelow(originals: seq<nat>, n: nat, i: nat, upto: nat): seq<Event>
    requires upto <= |originals|
  {
    if upto == 0 then []
    else
      MergesBelow(originals, n, i, upto - 1) +
      (if originals[upto - 1] < i then [Merge(originals[upto - 1], n + upto - 1)] else [])
  }

  lemma {:induction false} MergesOfNone(originals: seq<nat>, n: nat, i: nat, upto: nat)
    requires upto <= |originals| && forall k :: 0 <= k < upto ==> originals[k] != i
    ensures MergesOf(originals, n, i, upto) == []
  {
    if upto > 0 {
      MergesOfNone(originals, n, i, upto - 1);
    }
  }

  /** With non-decreasing originals, the copies of originals below i are
      followed by those of i. */
  lemma {:induction false} MergesBelowStep(originals: seq<nat>, n: nat, i: nat, upto: nat)
    requires upto <= |originals|
    requires forall k, l :: 0 <= k < l < |originals| ==> originals[k] <= originals[l]
    ensures MergesBelow(originals, n, i + 1, upto) == MergesBelow(originals, n, i, upto) + MergesOf(originals, n, i, upto)
  {
    if upto > 0 {
      var u := upto - 1;
      MergesBelowStep(originals, n, i, u);
      if originals[u] < i {
        MergesOfNone(originals, n, i, upto);
        MergesOfNone(originals, n, i, u);
      }
    }
  }

  lemma MergesInAppend(a: seq<Event>, b: seq<Event>)
    ensures MergesIn(a + b) == MergesIn(a) + MergesIn(b)
    decreases |b|
  {
    if |b| == 0 {
      assert a + b == a;
    } else {
      assert (a + b)[..|a + b| - 1] == a + b[..|b| - 1];
      MergesInAppend(a, b[..|b| - 1]);
    }
  }

  /** Appending merges and then an output adds just those merges. */
  lemma MergesInStep(prev: seq<Event>, mine: seq<Event>, out: Event)
    requires out.Output? && MergesIn(mine) == mine
    ensures MergesIn(prev + mine + [out]) == MergesIn(prev) + mine
  {
    MergesInAppend(prev + mine, [out]);
    assert MergesIn([out]) == [];
    MergesInAppend(prev, mine);
  }

  lemma {:induction false} MergesInMerges(originals: seq<nat>, n: nat, i: nat, upto: nat)
    requires upto <= |originals|
    ensures MergesIn(MergesOf(originals, n, i, upto)) == MergesOf(originals, n, i, upto)
  {
    if upto > 0 {
      MergesInMerges(originals, n, i, upto - 1);
      MergesInAppend(MergesOf(originals, n, i, upto - 1),
        if originals[upto - 1] == i then [Merge(i, n + upto - 1)] else []);
    }
  }

  /** `output_trackers` merges every copy exactly once, into its original,
      and, the originals being non-decreasing, in the order of the copies:
      copy k is merged as the k-th merge. */
  lemma {:induction false} OutputMergesEachCopyOnce(originals: seq<nat>, names: seq<string>, n: nat, upto: nat)
    requires upto <= |names|
    requires forall k, l :: 0 <= k < l < |originals| ==> originals[k] <= originals[l]
    ensures MergesIn(OutputEvents(originals, names, n, upto)) == MergesBelow(originals, n, upto, |originals|)
  {
    if upto == 0 {
      MergesBelowZero(originals, n, |originals|);
    } else {
      var i := upto - 1;
      var prev := OutputEvents(originals, names, n, i);
      var mine := MergesOf(originals, n, i, |originals|);
      assert OutputEvents(originals, names, n, upto) == prev + mine + [Output(i, names[i])];
      OutputMergesEachCopyOnce(originals, names, n, i);
      MergesInMerges(originals, n, i, |originals|);
      MergesBelowStep(originals, n, i, |originals|);
      MergesInStep(prev, mine, Output(i, names[i]));
    }
  }

  lemma {:induction false} MergesBelowZero(originals: seq<nat>, n: nat, upto: nat)
    requires upto <= |originals|
    ensures MergesBelow(originals, n, 0, upto) == []
  {
    if upto > 0 {
      MergesBelowZero(originals, n, upto - 1);
    }
  }

  /** When every original is below i, the merges below i are all the
      copies, in index order. */
  lemma {:induction false} MergesBelowAll(originals: seq<nat>, n: nat, i: nat, upto: nat)
    requires upto <= |originals| && forall k :: 0 <= k < |originals| ==> originals[k] < i
    ensures MergesBelow(originals, n, i, upto) == seq(upto, k requires 0 <= k < upto => Merge(originals[k], n + k))
  {
    if upto > 0 {
      MergesBelowAll(originals, n, i, upto - 1);
    }
  }

  /** A tracker whose `_copies` entry is the sentinel is output without any
      merge (as long as no copy index reaches the sentinel value). */
  lemma SentinelMeansNoMerge(b: Books, n: nat, i: nat)
    requires BooksValid(b, n, n) && i < n && |b.trackers| <= NONE && b.copies[i] == NONE
    ensures MergesOf(b.originals, n, i, |b.originals|) == []
  {
    MergesOfNone(b.originals, n, i, |b.originals|);
  }

  // ---------------------------------------------------------------------
  // The manager

  class TrackerManager {
    /** `_tracker_positions`. */
    const positions: seq<Position>
    /** `_output_names`. */
    const outputNames: seq<string>
    /** `_number_of_photons` (a 64-bit unsigned value). */
    const numberOfPhotons: nat
    /** `_trackers`, `_originals`, `_copies`. */
    var trackers: seq<Tracker>
    var originals: seq<nat>
    var copies: seq<nat>

    function BooksOf(): Books
      reads this
    {
      Books(trackers, originals, copies)
    }

    /** The manager's invariant: one output name per tracker, the factory's
        trackers at the front of the list, and the bookkeeping of copies. */
    ghost predicate Valid()
      reads this
    {
      Front() && BooksValid(BooksOf(), |positions|, |positions|)
    }

    /** One output name per tracker, and the factory's trackers at the front
        of the list. */
    ghost predicate Front()
      reads this
    {
      |outputNames| == |positions| && |positions| <= |trackers| &&
      forall i :: 0 <= i < |positions| ==> trackers[i] == Made(i)
    }

    /** The constructor, with the tracker file already read: one tracker
        per position, every `_copies` entry the sentinel, no copies. */
    constructor (positions: seq<Position>, outputNames: seq<string>, numberOfPhotons: nat)
      requires |outputNames| == |positions| && numberOfPhotons < 0x1_0000_0000_0000_0000
      ensures Valid()
      ensures this.positions == positions && this.outputNames == outputNames
      ensures this.numberOfPhotons == numberOfPhotons
      ensures trackers == seq(|positions|, i requires 0 <= i < |positions| => Made(i))
      ensures originals == [] && copies == seq(|positions|, i => NONE)
    {
      this.positions := positions;
      this.outputNames := outputNames;
      this.numberOfPhotons := numberOfPhotons;
      trackers := seq(|positions|, i requires 0 <= i < |positions| => Made(i));
      originals := [];
      copies := seq(|positions|, i => NONE);
    }

    /** `get_number_of_photons`: the value given to the constructor, which
        no operation changes. */
    function GetNumberOfPhotons(): (r: nat)
      ensures r == numberOfPhotons
    {
      numberOfPhotons
    }

    /** `add_trackers(DensityGrid&)`: tracker i goes to the cell at its
        position; the first tracker outside the box or landing in a taken
        cell stops the run with that error. */
    method AddTrackers(grid: DensityGrid) returns (r: Status)
      modifies grid
      ensures var spec := AttachFrom(grid.layout, positions, 0, old(grid.holders));
        r == StatusOf(spec) && (r.Success? ==> grid.holders == spec.value)
    {
      ghost var spec := AttachFrom(grid.layout, positions, 0, grid.holders);
      var i := 0;
      while i < |positions|
        invariant 0 <= i <= |positions|
        invariant AttachFrom(grid.layout, positions, i, grid.holders) == spec
      {
        var p := positions[i];
        if !grid.layout.inside(p) {
          return Failed(NotInside(i));
        }
        var cell := grid.layout.cellOf(p);
        if cell in grid.holders {
          return Failed(CellTaken(i));
        }
        grid.holders := grid.holders[cell := i];
        i := i + 1;
      }
      r := Success;
    }

    /** `add_trackers(DensitySubGridCreator&)`, called once, before any
        copy exists: as for a plain grid, and for every copy of a tracker's
        subgrid a duplicate is attached to the copy's cell and recorded in
        the lists. After a success the bookkeeping is valid. */
    method AddTrackersToSubgrids(grid: DensitySubGridCreator) returns (r: Status)
      requires Valid() && originals == []
      modifies this, grid
      ensures Front() && (r.Success? ==> Valid())
      ensures var spec := SubAttachFrom(grid.layout, positions, 0, Attached(old(grid.holders), old(BooksOf())));
        r == StatusOf(spec) && (r.Success? ==> spec.value == Attached(grid.holders, BooksOf()))
    {
      ghost var spec := SubAttachFrom(grid.layout, positions, 0, Attached(grid.holders, BooksOf()));
      var i := 0;
      while i < |positions|
        invariant 0 <= i <= |positions| && Front() && BooksValid(BooksOf(), |positions|, i)
        invariant SubAttachFrom(grid.layout, positions, i, Attached(grid.holders, BooksOf())) == spec
      {
        r := AttachTracker(grid, i);
        if r.Failed? {
          return;
        }
        i := i + 1;
      }
      r := Success;
    }

    /** One iteration of the subgrid overload of `add_trackers`: tracker i
        goes to the cell at its position in its subgrid, which must be
        free, then its duplicates to the copies of that subgrid. */
    method AttachTracker(grid: DensitySubGridCreator, i: nat) returns (r: Status)
      requires Front() && i < |positions| && BooksValid(BooksOf(), |positions|, i)
      modifies this, grid
      ensures Front()
      ensures var step := SubAttachStep(grid.layout, positions, i, old(Attached(grid.holders, BooksOf())));
        r == StatusOf(step) &&
        (r.Success? ==> step.value == Attached(grid.holders, BooksOf()) && BooksValid(BooksOf(), |positions|, i + 1))
    {
      var p := positions[i];
      if !grid.layout.inside(p) {
        return Failed(NotInside(i));
      }
      var s := grid.layout.subgridOf(p);
      var home := CellRef(s, grid.layout.cellOf(s, p));
      if home in grid.holders {
        return Failed(CellTaken(i));
      }
      grid.holders := grid.holders[home := i];
      r := AttachCopies(grid, i, grid.layout.copiesOf(s));
    }

    /** The copy loop of the subgrid overload for tracker i: for every copy
        of its subgrid, in order, the copy's cell must be free; a duplicate
        of the tracker is appended to the trackers, i to the originals, the
        first duplicate's index is recorded in `_copies[i]`, and the copy's
        cell receives the duplicate. */
    method AttachCopies(grid: DensitySubGridCreator, i: nat, qs: seq<nat>) returns (r: Status)
      requires Front() && i < |positions| && BooksValid(BooksOf(), |positions|, i)
      modifies this, grid
      ensures Front()
      ensures var c := CopiesFrom(grid.layout, positions[i], i, qs, 0, old(Attached(grid.holders, BooksOf())));
        r == StatusOf(c) &&
        (r.Success? ==> c.value == Attached(grid.holders, BooksOf()) && BooksValid(BooksOf(), |positions|, i + 1))
    {
      var n := |positions|;
      var p := positions[i];
      ghost var start := Attached(grid.holders, BooksOf());
      var first := true;
      var k := 0;
      while k < |qs|
        invariant 0 <= k <= |qs| && first == (k == 0) && Front() && |copies| == n
        invariant CopiesFrom(grid.layout, p, i, qs, k, Attached(grid.holders, BooksOf())) ==
          CopiesFrom(grid.layout, p, i, qs, 0, start)
      {
        var q := qs[k];
        var cell := CellRef(q, grid.layout.cellOf(q, p));
        if cell in grid.holders {
          return Failed(CellTaken(i));
        }
        ghost var before := Attached(grid.holders, BooksOf());
        AppendCopyOf(i, first);
        first := false;
        grid.holders := grid.holders[cell := |trackers| - 1];
        assert Attached(grid.holders, BooksOf()) ==
          Attached(before.holders[cell := |before.books.trackers|], AppendCopy(before.books, i, k == 0));
        k := k + 1;
      }
      CopiesKeepBooks(grid.layout, p, i, qs, 0, start, n);
      r := Success;
    }

    /** The list updates for one copy of tracker i. */
    method AppendCopyOf(i: nat, first: bool)
      requires Front() && i < |positions| && |copies| == |positions|
      modifies this
      ensures Front() && BooksOf() == AppendCopy(old(BooksOf()), i, first)
    {
      trackers := trackers + [Duplicate(trackers[i])];
      originals := originals + [i];
      if first {
        copies := copies[i := |trackers| - 1];
      }
    }

    /** `output_trackers`: for each tracker, merge its copies, then output
        it. With fewer than 2^32 trackers this is exactly `OutputEvents`:
        every copy merged into its original once. */
    method OutputTrackers() returns (events: seq<Event>)
      requires Valid()
      ensures |trackers| <= NONE ==> events == OutputEvents(originals, outputNames, |positions|, |positions|)
    {
      events := [];
      var i := 0;
      while i < |positions|
        invariant 0 <= i <= |positions|
        invariant |trackers| <= NONE ==> events == OutputEvents(originals, outputNames, |positions|, i)
      {
        var merges := MergeCopies(i);
        events := events + merges + [Output(i, outputNames[i])];
        i := i + 1;
      }
    }

    /** The copy loop of `output_trackers` for tracker i: unless `_copies[i]`
        is the sentinel, walk the copies from there while their original is
        i, merging each into i. With fewer than 2^32 trackers these are
        exactly the merges of all copies of i, in index order. */
    method MergeCopies(i: nat) returns (merges: seq<Event>)
      requires Valid() && i < |positions|
      ensures |trackers| <= NONE ==> merges == MergesOf(originals, |positions|, i, |originals|)
    {
      var n := |positions|;
      merges := [];
      if copies[i] != NONE {
        assert IsFirstCopy(copies[i], originals, n, i);
        var copy := copies[i] - n;
        MergesOfNone(originals, n, i, copy);
        while copy < |originals| && originals[copy] == i
          invariant copies[i] - n <= copy <= |originals|
          invariant copy > copies[i] - n ==> originals[copy - 1] == i
          invariant merges == MergesOf(originals, n, i, copy)
        {
          assert MergesOf(originals, n, i, copy + 1) == MergesOf(originals, n, i, copy) + [Merge(i, n + copy)];
          merges := merges + [Merge(i, copy + n)];
          copy := copy + 1;
        }
        MergesAfterBlock(originals, n, i, copy);
      } else if |trackers| <= NONE {
        MergesOfNone(originals, n, i, |originals|);
      }
    }
  }

  /** Once the block of i's copies has ended at `stop`, no later copy
      belongs to i. */
  lemma MergesAfterBlock(originals: seq<nat>, n: nat, i: nat, stop: nat)
    requires 0 < stop <= |originals| && originals[stop - 1] == i
    requires stop == |originals| || originals[stop] != i
    requires forall k, l :: 0 <= k < l < |originals| ==> originals[k] <= originals[l]
    ensures MergesOf(originals, n, i, |originals|) == MergesOf(originals, n, i, stop)
  {
    assert forall k :: stop <= k < |originals| ==> originals[stop - 1] <= originals[k];
    MergesTail(originals, n, i, stop, |originals|);
  }

  lemma {:induction false} MergesTail(originals: seq<nat>, n: nat, i: nat, stop: nat, upto: nat)
    requires stop <= upto <= |originals|
    requires forall k :: stop <= k < upto ==> originals[k] != i
    ensures MergesOf(originals, n, i, upto) == MergesOf(originals, n, i, stop)
    decreases upto
  {
    if upto > stop {
      MergesTail(originals, n, i, stop, upto - 1);
    }
  }
}
