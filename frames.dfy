/** The table the transformer works on and `pd.concat(frames, ignore_index=True)`. */
module Frames {
  import opened Wrappers
  import opened Errors
  import opened ColumnNames
  import Seqs

  /** A cell: its text, or `None` for NaN / NaT. Cell values are never inspected beyond that. */
  type Cell = Option<string>

  /** A table: its column labels and its rows. The row index is positional (a `RangeIndex`). */
  datatype Table = Table(columns: seq<Label>, rows: seq<seq<Cell>>)

  /** Every row has one cell per column. */
  predicate Rectangular(t: Table) {
    forall r :: 0 <= r < |t.rows| ==> |t.rows[r]| == |t.columns|
  }

  type Frame = t: Table | Rectangular(t) witness Table([], [])

  /** `seen` followed by the labels of `more` it lacks, in order of first appearance. */
  function AppendNew(seen: seq<Label>, more: seq<Label>): (r: seq<Label>)
    ensures |seen| <= |r| && r[..|seen|] == seen
    ensures forall j :: |seen| <= j < |r| ==> r[j] !in seen && r[j] in more
    ensures forall l :: l in r <==> l in seen || l in more
    ensures Seqs.Distinct(seen) ==> Seqs.Distinct(r)
    decreases more
  {
    if more == [] then seen
    else AppendNew(if more[0] in seen then seen else seen + [more[0]], more[1..])
  }

  /** The labels `AppendNew` goes on with after looking at the head of `more`: the step its body
      takes inline, named here for the proofs about the order of the appended labels. */
  function Next(seen: seq<Label>, more: seq<Label>): (next: seq<Label>)
    requires more != []
    ensures more[0] in next && |next| <= |seen| + 1
  {
    if more[0] in seen then seen else seen + [more[0]]
  }

  /** A label appended after the head's turn comes from the tail, one place further on in `more`. */
  lemma AppendNewLater(seen: seq<Label>, more: seq<Label>, j: nat)
    requires more != [] && |Next(seen, more)| <= j < |AppendNew(seen, more)|
    ensures j < |AppendNew(Next(seen, more), more[1..])|
    ensures AppendNew(seen, more)[j] == AppendNew(Next(seen, more), more[1..])[j]
    ensures Seqs.IndexOf(more, AppendNew(seen, more)[j]) == 1 + Seqs.IndexOf(more[1..], AppendNew(seen, more)[j])
  {
    var r := AppendNew(seen, more);
    var next := Next(seen, more);
    assert r == AppendNew(next, more[1..]);
    assert r[j] !in next;
    Seqs.IndexOfPastHead(more, r[j]);
  }

  /** A fresh head is the first label appended. */
  lemma AppendNewFirst(seen: seq<Label>, more: seq<Label>)
    requires more != [] && more[0] !in seen
    ensures |seen| < |AppendNew(seen, more)| && AppendNew(seen, more)[|seen|] == more[0]
  {
    var next := seen + [more[0]];
    assert AppendNew(seen, more) == AppendNew(next, more[1..]);
    assert AppendNew(seen, more)[..|next|] == next;
  }

  /** The appended labels come in the order of their first appearance in `more`. */
  lemma {:induction false} AppendNewOrder(seen: seq<Label>, more: seq<Label>, a: nat, b: nat)
    requires |seen| <= a < b < |AppendNew(seen, more)|
    ensures Seqs.IndexOf(more, AppendNew(seen, more)[a]) < Seqs.IndexOf(more, AppendNew(seen, more)[b])
    decreases more
  {
    assert more != [];
    var next := Next(seen, more);
    AppendNewLater(seen, more, b);
    if a >= |next| {
      AppendNewLater(seen, more, a);
      AppendNewOrder(next, more[1..], a, b);
    } else {
      AppendNewFirst(seen, more);
    }
  }

  /** Adding labels that are all present already changes nothing. */
  lemma {:induction false} AppendNewPresent(seen: seq<Label>, more: seq<Label>)
    requires forall l :: l in more ==> l in seen
    ensures AppendNew(seen, more) == seen
  {
    if more != [] {
      assert more[0] in seen;
      AppendNewPresent(seen, more[1..]);
    }
  }

  /** Labels that are all new and distinct are appended as they are, in their order. */
  lemma {:induction false} AppendNewFresh(seen: seq<Label>, more: seq<Label>)
    requires Seqs.Distinct(more) && forall l :: l in more ==> l !in seen
    ensures AppendNew(seen, more) == seen + more
    decreases more
  {
    if more != [] {
      FreshAfterHead(seen, more);
      AppendNewFresh(seen + [more[0]], more[1..]);
      AppendNewHead(seen, more);
      ConsTail(seen, more);
    }
  }

  /** A fresh head is appended, and the rest goes on from there. */
  lemma AppendNewHead(seen: seq<Label>, more: seq<Label>)
    requires more != [] && more[0] !in seen
    ensures AppendNew(seen, more) == AppendNew(seen + [more[0]], more[1..])
  {
  }

  /** `seen + more` regrouped around the head of `more`. */
  lemma ConsTail(seen: seq<Label>, more: seq<Label>)
    requires more != []
    ensures seen + more == (seen + [more[0]]) + more[1..]
  {
    assert more == [more[0]] + more[1..];
  }

  /** Once the head of fresh distinct labels is added, the rest are still fresh and distinct. */
  lemma FreshAfterHead(seen: seq<Label>, more: seq<Label>)
    requires more != [] && Seqs.Distinct(more) && forall l :: l in more ==> l !in seen
    ensures more[0] !in seen && Seqs.Distinct(more[1..])
    ensures forall l :: l in more[1..] ==> l !in seen + [more[0]]
  {
    Seqs.DistinctTail(more);
    forall l | l in more[1..] ensures l !in seen + [more[0]] {
      var k :| 0 <= k < |more[1..]| && more[1..][k] == l;
      assert more[k + 1] == l;
    }
  }

  /** The union of the column labels of all frames, in order of first appearance. */
  function UnionLabels(frames: seq<Frame>): (r: seq<Label>)
    ensures Seqs.Distinct(r)
    ensures forall l :: l in r <==> exists i :: 0 <= i < |frames| && l in frames[i].columns
  {
    if frames == [] then []
    else
      var init := frames[..|frames| - 1];
      var u := AppendNew(UnionLabels(init), frames[|frames| - 1].columns);
      assert forall i :: 0 <= i < |init| ==> init[i] == frames[i];
      u
  }

  /** Frame `f` laid out on the columns `cols`: a column `f` lacks is all null. */
  function Reindex(f: Frame, cols: seq<Label>): (r: Frame)
    requires Seqs.Distinct(f.columns)
    ensures r.columns == cols && |r.rows| == |f.rows|
  {
    Table(cols, seq(|f.rows|, i requires 0 <= i < |f.rows| =>
      seq(|cols|, j requires 0 <= j < |cols| =>
        if cols[j] in f.columns then f.rows[i][Seqs.IndexOf(f.columns, cols[j])] else None)))
  }

  /** Cell `(i, j)` of the reindexed frame is the cell of the same row under label `cols[j]`, or null. */
  lemma ReindexCell(f: Frame, cols: seq<Label>, i: nat, j: nat, k: nat)
    requires Seqs.Distinct(f.columns) && i < |f.rows| && j < |cols|
    ensures k < |f.columns| && f.columns[k] == cols[j] ==> Reindex(f, cols).rows[i][j] == f.rows[i][k]
    ensures cols[j] !in f.columns ==> Reindex(f, cols).rows[i][j] == None
  {
    if k < |f.columns| && f.columns[k] == cols[j] {
      Seqs.IndexOfDistinct(f.columns, k);
    }
  }

  /** Reindexing a frame on its own columns gives it back. */
  lemma ReindexSelf(f: Frame)
    requires Seqs.Distinct(f.columns)
    ensures Reindex(f, f.columns) == f
  {
    var r := Reindex(f, f.columns);
    forall i, j | 0 <= i < |f.rows| && 0 <= j < |f.columns|
      ensures r.rows[i][j] == f.rows[i][j]
    {
      ReindexCell(f, f.columns, i, j, j);
    }
    assert forall i :: 0 <= i < |f.rows| ==> r.rows[i] == f.rows[i];
  }

  /** The row lists of the frames. */
  function RowLists(frames: seq<Frame>): (r: seq<seq<seq<Cell>>>)
    ensures |r| == |frames| && forall i :: 0 <= i < |frames| ==> r[i] == frames[i].rows
  {
    seq(|frames|, i requires 0 <= i < |frames| => frames[i].rows)
  }

  /** The number of rows of all frames together. */
  function TotalRows(frames: seq<Frame>): nat {
    Seqs.TotalLength(RowLists(frames))
  }

  /** The rows of frames that share a width `w`, one frame after another, form a frame of width `w`. */
  lemma StackedWidth(frames: seq<Frame>, cols: seq<Label>)
    requires forall i :: 0 <= i < |frames| ==> |frames[i].columns| == |cols|
    ensures Rectangular(Table(cols, Seqs.Flatten(RowLists(frames))))
  {
    var rows := Seqs.Flatten(RowLists(frames));
    forall r | 0 <= r < |rows| ensures |rows[r]| == |cols| {
      Seqs.FlattenMembers(RowLists(frames), rows[r]);
      var i :| 0 <= i < |frames| && rows[r] in RowLists(frames)[i];
      var k :| 0 <= k < |frames[i].rows| && frames[i].rows[k] == rows[r];
    }
  }

  /** All frames carry exactly the same column labels. */
  predicate SameColumns(frames: seq<Frame>) {
    forall i :: 0 <= i < |frames| ==> frames[i].columns == frames[0].columns
  }

  /** No frame repeats a label. */
  predicate AllDistinct(frames: seq<Frame>) {
    forall i :: 0 <= i < |frames| ==> Seqs.Distinct(frames[i].columns)
  }

  /** Every frame reindexed onto the union of all labels. */
  function Aligned(frames: seq<Frame>): (r: seq<Frame>)
    requires AllDistinct(frames)
    ensures |r| == |frames|
    ensures forall i :: 0 <= i < |frames| ==> r[i] == Reindex(frames[i], UnionLabels(frames))
  {
    seq(|frames|, i requires 0 <= i < |frames| => Reindex(frames[i], UnionLabels(frames)))
  }

  /** `pd.concat(frames, ignore_index=True)` with pandas' default `sort=False`. When every frame has
      the same labels the rows are stacked; otherwise the columns become the union of all labels
      in order of first appearance and each frame is reindexed onto it, which fails when a frame
      has a repeated label. An empty list is refused. */
  function Concat(frames: seq<Frame>): (r: Result<Frame, Error>)
    ensures r.Err? <==> (frames == [] || (!SameColumns(frames) && !AllDistinct(frames)))
    ensures r.Ok? ==> |r.value.rows| == TotalRows(frames)
    ensures r.Ok? && SameColumns(frames) ==> r.value.columns == frames[0].columns
    ensures r.Ok? && !SameColumns(frames) ==> r.value.columns == UnionLabels(frames)
  {
    if frames == [] then Err(NothingToConcatenate)
    else if SameColumns(frames) then
      StackedWidth(frames, frames[0].columns);
      Seqs.FlattenLength(RowLists(frames));
      Ok(Table(frames[0].columns, Seqs.Flatten(RowLists(frames))))
    else if !AllDistinct(frames) then Err(DuplicateLabels)
    else
      var aligned := Aligned(frames);
      StackedWidth(aligned, UnionLabels(frames));
      Seqs.FlattenLength(RowLists(aligned));
      RowCountsAgree(aligned, frames);
      Ok(Table(UnionLabels(frames), Seqs.Flatten(RowLists(aligned))))
  }

  /** Frames with the same row counts have the same total. */
  lemma {:induction false} RowCountsAgree(a: seq<Frame>, b: seq<Frame>)
    requires |a| == |b| && forall i :: 0 <= i < |a| ==> |a[i].rows| == |b[i].rows|
    ensures TotalRows(a) == TotalRows(b)
  {
    if a != [] {
      var n := |a| - 1;
      assert RowLists(a)[..n] == RowLists(a[..n]);
      assert RowLists(b)[..n] == RowLists(b[..n]);
      RowCountsAgree(a[..n], b[..n]);
    }
  }

  /** Where frame `i`'s rows start in the result of `Concat`. */
  function RowOffset(frames: seq<Frame>, i: nat): nat
    requires i <= |frames|
  {
    Seqs.Offset(RowLists(frames), i)
  }

  /** Frames with the same row counts put their rows at the same offsets. */
  lemma OffsetsAgree(a: seq<Frame>, b: seq<Frame>, i: nat)
    requires |a| == |b| && forall k :: 0 <= k < |a| ==> |a[k].rows| == |b[k].rows|
    requires i <= |a|
    ensures RowOffset(a, i) == RowOffset(b, i)
  {
    assert RowLists(a)[..i] == RowLists(a[..i]);
    assert RowLists(b)[..i] == RowLists(b[..i]);
    RowCountsAgree(a[..i], b[..i]);
  }

  /** With equal columns, row `j` of frame `i` is copied to row `RowOffset + j` of the result:
      the rows keep their order and the index is renumbered from 0. */
  lemma ConcatRowSameColumns(frames: seq<Frame>, i: nat, j: nat)
    requires frames != [] && SameColumns(frames) && i < |frames| && j < |frames[i].rows|
    ensures RowOffset(frames, i) + j < |Concat(frames).value.rows|
    ensures Concat(frames).value.rows[RowOffset(frames, i) + j] == frames[i].rows[j]
  {
    Seqs.FlattenAt(RowLists(frames), i, j);
  }

  /** Otherwise row `j` of frame `i` becomes row `RowOffset + j` of the result, laid out on the
      union of the labels. */
  lemma ConcatRowUnion(frames: seq<Frame>, i: nat, j: nat)
    requires !SameColumns(frames) && AllDistinct(frames) && i < |frames| && j < |frames[i].rows|
    ensures RowOffset(frames, i) + j < |Concat(frames).value.rows|
    ensures Concat(frames).value.rows[RowOffset(frames, i) + j] ==
      Reindex(frames[i], UnionLabels(frames)).rows[j]
  {
    var aligned := Aligned(frames);
    var lists := RowLists(aligned);
    ConcatUnionRows(frames);
    OffsetsAgree(aligned, frames, i);
    assert lists[i] == Reindex(frames[i], UnionLabels(frames)).rows;
    Seqs.FlattenAt(lists, i, j);
  }

  /** Otherwise the rows of the result are those of the frames laid out on the union, in order. */
  lemma ConcatUnionRows(frames: seq<Frame>)
    requires !SameColumns(frames) && AllDistinct(frames) && frames != []
    ensures Concat(frames).Ok? && Concat(frames).value.rows == Seqs.Flatten(RowLists(Aligned(frames)))
  {
  }
}
