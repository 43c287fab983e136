/**
 * Marker-based task segmentation of an SMI/Tobii recording, shared by the
 * EMIP importer (utils/ogama.py:207-239) and the PyGaze Tobii preparer
 * (utils/pygazehelper/pygaze.py:77-120).
 *
 * Every `MSG` row names a message after `Message: `; the messages that
 * mention `.jpg` start a task. The rows from one task marker up to (not
 * including) the next form that task's segment, which is emitted unless the
 * task is one of the removed instruction screens. Rows before the first task
 * marker belong to no segment, and the segment from the last task marker to
 * the end of the recording is always emitted.
 */
module Segmentation {
  import opened Wrappers
  import opened Records
  import Strings

  const MessageKind := "MSG"
  const MessageSeparator := "Message: "
  const TaskImage := ".jpg"

  /** The tasks both importers skip (`removed_task_names`). */
  const InstructionTasks: set<string> := {"instruction_calibration.jpg", "instruction_comprehension.jpg"}

  /** A task marker: the row it sits on and the task it starts. */
  datatype Marker = Marker(row: nat, task: string)

  /** An emitted task segment: rows `lo` (inclusive) to `hi` (exclusive). */
  datatype Segment = Segment(task: string, lo: nat, hi: nat)

  /** The segment from `lo` to the end of the recording; `task` is `None` when no task marker was seen. */
  datatype Trailing = Trailing(task: Option<string>, lo: nat)

  datatype Plan = Plan(tasks: seq<Segment>, trailing: Trailing)

  /** The message of an `MSG` row: the text after `Message: `; `None` where the source raises. */
  function MessageOf(r: TobiiRow): Option<string> {
    match r.lRawX
    case Text(t) => Strings.SplitSecond(t, MessageSeparator)
    case Num(_) => None
  }

  /**
   * A row has a message exactly when its `L Raw X [px]` cell is text that
   * contains `Message: `, and the message never contains the separator.
   */
  lemma MessageOfMeaning(r: TobiiRow)
    ensures MessageOf(r).Some? ==> !Strings.Contains(MessageOf(r).value, MessageSeparator)
    ensures r.lRawX.Text? ==> (MessageOf(r).Some? <==> Strings.Contains(r.lRawX.text, MessageSeparator))
    ensures r.lRawX.Num? ==> MessageOf(r).None?
  {
    if r.lRawX.Text? {
      Strings.SplitSecondSpec(r.lRawX.text, MessageSeparator);
    }
  }

  /**
   * A cell written as `prefix + 'Message: ' + message` yields `message`
   * back, whenever neither part contains `Message: ` itself (the separator
   * cannot overlap itself, so nothing more is needed of `prefix`).
   */
  lemma MessageRoundTrip(prefix: string, message: string)
    requires !Strings.Contains(prefix, MessageSeparator)
    requires !Strings.Contains(message, MessageSeparator)
    ensures Strings.SplitSecond(prefix + MessageSeparator + message, MessageSeparator) == Some(message)
  {
    var sep := MessageSeparator;
    var u := prefix + sep[..|sep| - 1];
    Strings.ContainsSpec(prefix, sep);
    Strings.ContainsSpec(u, sep);
    forall i: nat | i + |sep| <= |u|
      ensures !Strings.MatchAt(u, sep, i)
    {
      if i + |sep| <= |prefix| {
        assert u[i..i + |sep|] == prefix[i..i + |sep|];
        assert !Strings.MatchAt(prefix, sep, i);
      } else {
        var d := |prefix| - i;
        assert u[i..i + |sep|][d] == u[|prefix|] == 'M';
        assert sep[d] != 'M';
        assert u[i..i + |sep|] != sep;
      }
    }
    Strings.SplitSecondRoundTrip(prefix, sep, message);
  }

  /** How the segmentation loop treats a row. */
  datatype RowClass = Sample | Unsplittable | OtherMessage | TaskStart(task: string)

  function Classify(r: TobiiRow): RowClass {
    if r.kind != MessageKind then Sample
    else
      match MessageOf(r)
      case None => Unsplittable
      case Some(m) => if Strings.Contains(m, TaskImage) then TaskStart(m) else OtherMessage
  }

  /**
   * A row starts a task exactly when it is an `MSG` row whose message
   * mentions `.jpg`, and aborts the import exactly when it is an `MSG` row
   * without a message.
   */
  lemma ClassifyMeaning(r: TobiiRow)
    ensures Classify(r).Unsplittable? <==> r.kind == MessageKind && MessageOf(r).None?
    ensures Classify(r).TaskStart? <==>
      r.kind == MessageKind && MessageOf(r).Some? && Strings.Contains(MessageOf(r).value, TaskImage)
    ensures Classify(r).TaskStart? ==> MessageOf(r) == Some(Classify(r).task)
  {
  }

  predicate Ascending(ms: seq<Marker>) {
    forall i, j :: 0 <= i < j < |ms| ==> ms[i].row < ms[j].row
  }

  /** The class of every row of a recording. */
  function Classes(rows: seq<TobiiRow>): (cs: seq<RowClass>)
    ensures |cs| == |rows|
    ensures forall i :: 0 <= i < |rows| ==> cs[i] == Classify(rows[i])
  {
    seq(|rows|, i requires 0 <= i < |rows| => Classify(rows[i]))
  }

  /**
   * The task markers among the first `k` rows, given the rows' classes, in
   * row order, or the first `MSG` row whose message cannot be split.
   */
  function Markers(cs: seq<RowClass>, k: nat): (r: Result<seq<Marker>, ImportError>)
    requires k <= |cs|
    ensures r.Success? ==> Ascending(r.value)
    ensures r.Success? ==> forall i :: 0 <= i < |r.value| ==> r.value[i].row < k
    ensures r.Success? ==> forall i :: 0 <= i < |r.value| ==> cs[r.value[i].row] == TaskStart(r.value[i].task)
    ensures r.Failure? ==> r.error.MalformedMarker? && r.error.row < k && cs[r.error.row].Unsplittable?
  {
    if k == 0 then Success([])
    else
      match Markers(cs, k - 1)
      case Failure(e) => Failure(e)
      case Success(ms) =>
        match cs[k - 1]
        case Unsplittable => Failure(MalformedMarker(k - 1))
        case TaskStart(task) => Success(ms + [Marker(k - 1, task)])
        case _ => Success(ms)
  }

  /** One more row extends the parsed markers as that row's class dictates. */
  lemma MarkersStep(cs: seq<RowClass>, k: nat)
    requires k < |cs|
    requires Markers(cs, k).Success?
    ensures Markers(cs, k + 1) ==
      match cs[k]
      case Unsplittable => Failure(MalformedMarker(k))
      case TaskStart(task) => Success(Markers(cs, k).value + [Marker(k, task)])
      case _ => Markers(cs, k)
  {
  }

  /** Once a prefix of the recording fails to parse, every longer prefix fails the same way. */
  lemma {:induction false} MarkersFailureSticks(cs: seq<RowClass>, k: nat, n: nat)
    requires k <= n <= |cs|
    requires Markers(cs, k).Failure?
    ensures Markers(cs, n) == Markers(cs, k)
    decreases n - k
  {
    if k < n {
      MarkersFailureSticks(cs, k, n - 1);
    }
  }

  /** Parsing the markers fails exactly when some `MSG` row cannot be split. */
  lemma {:induction false} MarkersSucceed(cs: seq<RowClass>, k: nat)
    requires k <= |cs|
    ensures Markers(cs, k).Success? <==> forall j :: 0 <= j < k ==> !cs[j].Unsplittable?
  {
    if k > 0 {
      MarkersSucceed(cs, k - 1);
    }
  }

  /** Every task marker among the first `k` rows is listed. */
  lemma {:induction false} MarkersComplete(cs: seq<RowClass>, k: nat, ms: seq<Marker>)
    requires k <= |cs|
    requires Markers(cs, k) == Success(ms)
    ensures forall j :: 0 <= j < k && cs[j].TaskStart? ==> exists i :: 0 <= i < |ms| && ms[i].row == j
  {
    if k > 0 {
      var prev := Markers(cs, k - 1).value;
      MarkersComplete(cs, k - 1, prev);
      forall j | 0 <= j < k && cs[j].TaskStart?
        ensures exists i :: 0 <= i < |ms| && ms[i].row == j
      {
        if j < k - 1 {
          var i :| 0 <= i < |prev| && prev[i].row == j;
          assert ms[i] == prev[i];
        } else {
          assert ms[|ms| - 1].row == j;
        }
      }
    }
  }

  /** No task marker follows the last listed one. */
  lemma {:induction false} MarkersLast(cs: seq<RowClass>, k: nat, ms: seq<Marker>)
    requires k <= |cs|
    requires Markers(cs, k) == Success(ms) && |ms| > 0
    ensures forall j :: ms[|ms| - 1].row < j < k ==> !cs[j].TaskStart?
  {
    var prev := Markers(cs, k - 1).value;
    if !cs[k - 1].TaskStart? {
      MarkersLast(cs, k - 1, prev);
    }
  }

  /** Segmentation looks only at the `Type` and `L Raw X [px]` columns. */
  lemma PlanIgnoresTime(a: seq<TobiiRow>, b: seq<TobiiRow>, removed: set<string>)
    requires |a| == |b|
    requires forall i :: 0 <= i < |a| ==> a[i].kind == b[i].kind && a[i].lRawX == b[i].lRawX
    ensures PlanOf(a, removed) == PlanOf(b, removed)
    ensures forall i :: 0 <= i < |a| ==> Classify(a[i]) == Classify(b[i])
  {
    forall i | 0 <= i < |a|
      ensures Classify(a[i]) == Classify(b[i])
    {
      assert MessageOf(a[i]) == MessageOf(b[i]);
    }
    assert Classes(a) == Classes(b);
  }

  /** The segment task marker `i` opens and marker `i + 1` closes. */
  function Between(ms: seq<Marker>, i: nat): Segment
    requires i + 1 < |ms|
  {
    Segment(ms[i].task, ms[i].row, ms[i + 1].row)
  }

  /** The segments closed by each task marker after the first, skipping removed tasks. */
  function TaskSegments(ms: seq<Marker>, removed: set<string>): seq<Segment> {
    if |ms| < 2 then []
    else
      TaskSegments(ms[..|ms| - 1], removed)
      + (if ms[|ms| - 2].task in removed then [] else [Between(ms, |ms| - 2)])
  }

  function TrailingOf(ms: seq<Marker>): Trailing {
    if |ms| == 0 then Trailing(None, 0) else Trailing(Some(ms[|ms| - 1].task), ms[|ms| - 1].row)
  }

  /** A new task marker closes the segment of the previous one, unless that task is removed. */
  lemma TaskSegmentsSnoc(ms: seq<Marker>, m: Marker, removed: set<string>)
    ensures TaskSegments(ms + [m], removed) ==
      TaskSegments(ms, removed)
      + (if |ms| > 0 && ms[|ms| - 1].task !in removed then [Segment(ms[|ms| - 1].task, ms[|ms| - 1].row, m.row)] else [])
    ensures TrailingOf(ms + [m]) == Trailing(Some(m.task), m.row)
  {
    assert (ms + [m])[..|ms|] == ms;
  }

  /**
   * The reference segmentation of a recording. It fails exactly when some
   * `MSG` row cannot be split, naming such a row; otherwise its segments fit
   * the recording.
   */
  function PlanOf(rows: seq<TobiiRow>, removed: set<string>): (r: Result<Plan, ImportError>)
    ensures r.Success? <==> forall j :: 0 <= j < |rows| ==> !Classify(rows[j]).Unsplittable?
    ensures r.Failure? ==>
      r.error.MalformedMarker? && r.error.row < |rows| && Classify(rows[r.error.row]).Unsplittable?
    ensures r.Success? ==> PlanFits(r.value, |rows|)
  {
    var cs := Classes(rows);
    MarkersSucceed(cs, |rows|);
    var ms :- Markers(cs, |rows|);
    MarkersFit(ms, removed, |rows|);
    Success(Plan(TaskSegments(ms, removed), TrailingOf(ms)))
  }

  /**
   * The task segments are non-empty, ordered and disjoint, and end before
   * the trailing segment, which starts inside a recording of `n` rows (or
   * at 0).
   */
  predicate PlanFits(p: Plan, n: nat) {
    && SegmentsOrdered(p.tasks)
    && SegmentsWithin(p.tasks, 0, p.trailing.lo)
    && p.trailing.lo <= n
  }

  /** Ascending markers inside `n` rows give a plan that fits them. */
  lemma MarkersFit(ms: seq<Marker>, removed: set<string>, n: nat)
    requires Ascending(ms)
    requires forall i :: 0 <= i < |ms| ==> ms[i].row < n
    ensures PlanFits(Plan(TaskSegments(ms, removed), TrailingOf(ms)), n)
  {
    if |ms| > 0 {
      TaskSegmentsOrdered(ms, removed);
    }
  }

  /**
   * The segmentation loop as written in both importers: one pass over the
   * rows, remembering the last task and the row it started on.
   */
  method SplitTasks(rows: seq<TobiiRow>, removed: set<string>) returns (r: Result<Plan, ImportError>)
    ensures r == PlanOf(rows, removed)
  {
    var tasks: seq<Segment> := [];
    var lastTask: Option<string> := None;
    var lastRow: nat := 0;
    ghost var ms: seq<Marker> := [];
    ghost var cs := Classes(rows);
    var i := 0;
    while i < |rows|
      invariant 0 <= i <= |rows|
      invariant Markers(cs, i) == Success(ms)
      invariant tasks == TaskSegments(ms, removed)
      invariant Trailing(lastTask, lastRow) == TrailingOf(ms)
    {
      var c := Classify(rows[i]);
      assert c == cs[i];
      MarkersStep(cs, i);
      match c {
        case Unsplittable =>
          MarkersFailureSticks(cs, i + 1, |rows|);
          return Failure(MalformedMarker(i));
        case TaskStart(task) =>
          TaskSegmentsSnoc(ms, Marker(i, task), removed);
          if lastTask.Some? && lastTask.value !in removed {
            tasks := tasks + [Segment(lastTask.value, lastRow, i)];
          }
          lastTask := Some(task);
          lastRow := i;
          ms := ms + [Marker(i, task)];
        case _ =>
      }
      i := i + 1;
    }
    return Success(Plan(tasks, Trailing(lastTask, lastRow)));
  }

  /** Every segment is non-empty and each ends at or before the next one starts. */
  predicate SegmentsOrdered(segs: seq<Segment>) {
    && (forall k :: 0 <= k < |segs| ==> segs[k].lo < segs[k].hi)
    && (forall j, k :: 0 <= j < k < |segs| ==> segs[j].hi <= segs[k].lo)
  }

  predicate SegmentsWithin(segs: seq<Segment>, lo: nat, hi: nat) {
    forall k :: 0 <= k < |segs| ==> lo <= segs[k].lo && segs[k].hi <= hi
  }

  /** Emitted segments are non-empty, ascending and pairwise disjoint, and lie between the first and last marker. */
  lemma {:induction false} TaskSegmentsOrdered(ms: seq<Marker>, removed: set<string>)
    requires Ascending(ms)
    requires |ms| > 0
    ensures SegmentsOrdered(TaskSegments(ms, removed))
    ensures SegmentsWithin(TaskSegments(ms, removed), ms[0].row, ms[|ms| - 1].row)
  {
    if |ms| >= 2 {
      var init := ms[..|ms| - 1];
      assert Ascending(init);
      assert init[0] == ms[0] && init[|init| - 1] == ms[|ms| - 2];
      TaskSegmentsOrdered(init, removed);
      var prev := TaskSegments(init, removed);
      var last := if ms[|ms| - 2].task in removed then [] else [Between(ms, |ms| - 2)];
      assert TaskSegments(ms, removed) == prev + last;
    }
  }

  /**
   * Exactly the consecutive marker pairs whose first task is not removed
   * become segments, in marker order.
   */
  lemma {:induction false} TaskSegmentsExact(ms: seq<Marker>, removed: set<string>)
    ensures var segs := TaskSegments(ms, removed);
      && (forall i :: 0 <= i < |ms| - 1 ==> (Between(ms, i) in segs <==> ms[i].task !in removed))
      && (forall s :: s in segs ==> exists i :: 0 <= i < |ms| - 1 && s == Between(ms, i))
  {
    if |ms| >= 2 {
      var init := ms[..|ms| - 1];
      TaskSegmentsExact(init, removed);
      var segs := TaskSegments(ms, removed);
      forall i | 0 <= i < |ms| - 1
        ensures Between(ms, i) in segs <==> ms[i].task !in removed
      {
        if i < |ms| - 2 {
          assert Between(ms, i) == Between(init, i);
          if Between(ms, i) == Between(ms, |ms| - 2) {
            assert ms[i + 1].row == ms[|ms| - 1].row;
          }
        }
      }
      forall s | s in segs
        ensures exists i :: 0 <= i < |ms| - 1 && s == Between(ms, i)
      {
        if s in TaskSegments(init, removed) {
          var i :| 0 <= i < |init| - 1 && s == Between(init, i);
          assert s == Between(ms, i);
        }
      }
    }
  }

  predicate InSegment(s: Segment, r: nat) {
    s.lo <= r < s.hi
  }

  /** No task marker occurs at or before row `r`. */
  predicate BeforeFirstTask(rows: seq<TobiiRow>, r: nat)
    requires r < |rows|
  {
    forall j :: 0 <= j <= r ==> !Classify(rows[j]).TaskStart?
  }

  /**
   * Task segments are non-empty, ascending, disjoint and inside the
   * recording, and the trailing segment starts after all of them.
   */
  lemma PlanOrdered(rows: seq<TobiiRow>, removed: set<string>, p: Plan)
    requires PlanOf(rows, removed) == Success(p)
    ensures SegmentsOrdered(p.tasks)
    ensures SegmentsWithin(p.tasks, 0, p.trailing.lo)
    ensures p.trailing.lo <= |rows|
    ensures forall k :: 0 <= k < |p.tasks| ==> p.tasks[k].task !in removed
  {
    var ms := Markers(Classes(rows), |rows|).value;
    if |ms| > 0 {
      TaskSegmentsOrdered(ms, removed);
    }
    TaskSegmentsExact(ms, removed);
    forall k | 0 <= k < |p.tasks|
      ensures p.tasks[k].task !in removed
    {
      assert p.tasks[k] in p.tasks;
      var i :| 0 <= i < |ms| - 1 && p.tasks[k] == Between(ms, i);
    }
  }

  /**
   * Without any task marker the trailing segment is the whole recording,
   * with no task, and there are no task segments; with one it carries a task.
   */
  lemma PlanWithoutTasks(rows: seq<TobiiRow>, removed: set<string>, p: Plan)
    requires PlanOf(rows, removed) == Success(p)
    ensures p.trailing.task.None? <==> forall j :: 0 <= j < |rows| ==> !Classify(rows[j]).TaskStart?
    ensures p.trailing.task.None? ==> p.trailing.lo == 0 && p.tasks == []
  {
    var cs := Classes(rows);
    var ms := Markers(cs, |rows|).value;
    if |ms| == 0 {
      MarkersComplete(cs, |rows|, ms);
      assert forall j :: 0 <= j < |rows| ==> !cs[j].TaskStart?;
    } else {
      var last := ms[|ms| - 1];
      assert Classify(rows[last.row]) == cs[last.row];
    }
  }

  /**
   * The trailing segment is always there: it starts at the last task marker
   * and carries its task even when that task is removed.
   */
  lemma PlanTrailing(rows: seq<TobiiRow>, removed: set<string>, p: Plan)
    requires PlanOf(rows, removed) == Success(p)
    ensures p.trailing.task.Some? ==>
      p.trailing.lo < |rows| && Classify(rows[p.trailing.lo]) == TaskStart(p.trailing.task.value)
    ensures p.trailing.task.Some? ==> forall j :: p.trailing.lo < j < |rows| ==> !Classify(rows[j]).TaskStart?
  {
    var cs := Classes(rows);
    var ms := Markers(cs, |rows|).value;
    if |ms| > 0 {
      var last := ms[|ms| - 1];
      assert Classify(rows[last.row]) == cs[last.row];
      MarkersLast(cs, |rows|, ms);
    }
  }

  /** Rows before the first task marker belong to no segment, the trailing one included. */
  lemma PlanSkipsPreamble(rows: seq<TobiiRow>, removed: set<string>, p: Plan, r: nat)
    requires PlanOf(rows, removed) == Success(p)
    requires r < |rows| && BeforeFirstTask(rows, r)
    ensures forall k :: 0 <= k < |p.tasks| ==> !InSegment(p.tasks[k], r)
    ensures p.trailing.task.Some? ==> r < p.trailing.lo
  {
    var cs := Classes(rows);
    var ms := Markers(cs, |rows|).value;
    if |ms| > 0 {
      TaskSegmentsOrdered(ms, removed);
      assert cs[ms[0].row].TaskStart?;
    }
  }
}
