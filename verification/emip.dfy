/**
 * The EMIP importer (utils/ogama.py:136-239): a whole SMI recording is
 * shifted to start at 0 ms, cut into task segments at the `.jpg` markers, and
 * each segment's right-eye-valid samples become raw rows plus one `Trials` row.
 */
module Emip {
  import opened Wrappers
  import opened Records
  import opened Seqs
  import Stats
  import Segmentation

  /** What `add_to_sql_emip` writes for one task: its raw rows and its `Trials` row. */
  datatype TaskWrite = TaskWrite(raw: seq<RawWrite<string>>, trial: TrialWrite<string>)

  /** Whole-recording time normalisation: microseconds since the earliest row, truncated to milliseconds. */
  function NormaliseTimes(rows: seq<TobiiRow>): (r: seq<TobiiRow>)
    ensures |r| == |rows|
    ensures forall i :: 0 <= i < |rows| ==> r[i] == rows[i].(time := r[i].time)
    ensures |rows| > 0 ==> forall i :: 0 <= i < |rows| ==>
      0 <= r[i].time && r[i].time * 1000 <= rows[i].time - Stats.MinOf(Project(rows, TimeOf)) < r[i].time * 1000 + 1000
    ensures |rows| > 0 ==> exists i :: 0 <= i < |rows| && r[i].time == 0
    ensures forall i, j :: 0 <= i < |rows| && 0 <= j < |rows| && rows[i].time <= rows[j].time ==> r[i].time <= r[j].time
  {
    if |rows| == 0 then []
    else
      var t0 := Stats.MinOf(Project(rows, TimeOf));
      var i0 :| 0 <= i0 < |rows| && rows[i0].time == t0;
      var r := seq(|rows|, i requires 0 <= i < |rows| => rows[i].(time := (rows[i].time - t0) / 1000));
      assert r[i0].time == 0;
      r
  }

  /**
   * `add_to_sql_emip` for a named task: nothing is written when no sample of
   * the segment has a valid right eye; otherwise the valid samples'
   * right-eye POR positions are written, and the trial starts at their
   * earliest time and lasts until their latest time plus 4 ms.
   */
  function WriteTask(name: string, seg: seq<TobiiRow>): (w: Option<TaskWrite>)
    ensures w.None? <==> forall i :: 0 <= i < |seg| ==> !RightEyeValid(seg[i])
    ensures w.Some? ==>
      var valid := Filter(seg, RightEyeValid);
      var t := w.value.trial;
      && t.name == name && t.id == name
      && |w.value.raw| == |valid|
      && (forall i :: 0 <= i < |valid| ==>
            w.value.raw[i] == RawWrite(name, valid[i].time, valid[i].rPorX, valid[i].rPorY))
      && (forall i :: 0 <= i < |valid| ==> t.start <= valid[i].time <= t.start + t.duration - 4)
      && (exists i :: 0 <= i < |valid| && valid[i].time == t.start)
      && (exists i :: 0 <= i < |valid| && valid[i].time == t.start + t.duration - 4)
  {
    var valid := Filter(seg, RightEyeValid);
    if |valid| == 0 then
      assert forall i :: 0 <= i < |seg| ==> seg[i] !in valid;
      None
    else
      assert valid[0] in seg;
      var times := Project(valid, TimeOf);
      var raw := seq(|valid|, i requires 0 <= i < |valid| => RawWrite(name, valid[i].time, valid[i].rPorX, valid[i].rPorY));
      var start := Stats.MinOf(times);
      var duration := Stats.MaxOf(times) - start + 4;
      Some(TaskWrite(raw, TrialWrite(name, name, start, duration)))
  }

  /** Some sample of `seg` has a valid right eye (`R Validity == 1`). */
  predicate HasValidSample(seg: seq<TobiiRow>) {
    exists i :: 0 <= i < |seg| && RightEyeValid(seg[i])
  }

  /**
   * `add_to_sql_emip` for the trailing segment, whose task is unknown when
   * the recording has no task marker: that case fails at the trial-id lookup
   * unless there is nothing to write. A named segment is written as usual.
   */
  function AddToSqlEmip(task: Option<string>, seg: seq<TobiiRow>): (r: Result<Option<TaskWrite>, ImportError>)
    ensures r.Failure? <==> task.None? && HasValidSample(seg)
    ensures r.Failure? ==> r.error == UnnamedTask
    ensures r.Success? ==> (r.value.None? <==> !HasValidSample(seg))
    ensures task.Some? ==> r == Success(WriteTask(task.value, seg))
  {
    match task
    case Some(name) => Success(WriteTask(name, seg))
    case None => if WriteTask("", seg).None? then Success(None) else Failure(UnnamedTask)
  }

  /** A segment of `rows` that produces a write: it holds a right-eye-valid sample. */
  predicate Live(rows: seq<TobiiRow>, s: Segmentation.Segment) {
    s.lo <= s.hi <= |rows| && HasValidSample(rows[s.lo..s.hi])
  }

  /** `Live` as a mask over segments. */
  function Writes(rows: seq<TobiiRow>): Segmentation.Segment -> bool {
    (s: Segmentation.Segment) => Live(rows, s)
  }

  /** Every segment is a slice of a recording of `n` rows. */
  predicate Sliceable(segs: seq<Segmentation.Segment>, n: nat) {
    forall k :: 0 <= k < |segs| ==> segs[k].lo <= segs[k].hi <= n
  }

  /** The writes of the task segments closed inside the segmentation loop, in order. */
  function WriteSegments(rows: seq<TobiiRow>, segs: seq<Segmentation.Segment>): (r: seq<TaskWrite>)
    requires Sliceable(segs, |rows|)
    ensures |r| <= |segs|
  {
    if |segs| == 0 then []
    else
      var s := segs[|segs| - 1];
      WriteSegments(rows, segs[..|segs| - 1]) + WriteTask(s.task, rows[s.lo..s.hi]).ToSeq()
  }

  /** The write of a segment that holds a right-eye-valid sample. */
  function SegmentWrite(rows: seq<TobiiRow>, s: Segmentation.Segment): TaskWrite
    requires Live(rows, s)
  {
    WriteTask(s.task, rows[s.lo..s.hi]).value
  }

  /**
   * The task segments write exactly the segments that hold a right-eye-valid
   * sample, one write each, in segment order.
   */
  lemma {:induction false} WriteSegmentsLive(rows: seq<TobiiRow>, segs: seq<Segmentation.Segment>)
    requires Sliceable(segs, |rows|)
    ensures var live := Filter(segs, Writes(rows));
      var r := WriteSegments(rows, segs);
      && |r| == |live|
      && forall k :: 0 <= k < |r| ==> r[k] == SegmentWrite(rows, live[k])
  {
    if |segs| > 0 {
      var s := segs[|segs| - 1];
      var init := segs[..|segs| - 1];
      assert Sliceable(init, |rows|);
      WriteSegmentsLive(rows, init);
      WriteSegmentsStep(rows, segs);
      LiveFiltered(rows, init);
      if Live(rows, s) {
        LiveSnoc(rows, WriteSegments(rows, init), Filter(init, Writes(rows)), s);
      }
    }
  }

  /** The last segment adds its write, if any, and itself to the live segments, if live. */
  lemma WriteSegmentsStep(rows: seq<TobiiRow>, segs: seq<Segmentation.Segment>)
    requires Sliceable(segs, |rows|) && |segs| > 0
    ensures var s, init := segs[|segs| - 1], segs[..|segs| - 1];
      && Sliceable(init, |rows|)
      && WriteSegments(rows, segs) ==
           WriteSegments(rows, init) + (if Live(rows, s) then [SegmentWrite(rows, s)] else [])
      && Filter(segs, Writes(rows)) == Filter(init, Writes(rows)) + (if Live(rows, s) then [s] else [])
  {
    var s := segs[|segs| - 1];
    var w := WriteTask(s.task, rows[s.lo..s.hi]);
    assert w.Some? <==> Live(rows, s);
  }

  /** Every segment the mask keeps is live. */
  lemma LiveFiltered(rows: seq<TobiiRow>, segs: seq<Segmentation.Segment>)
    ensures forall k :: 0 <= k < |Filter(segs, Writes(rows))| ==> Live(rows, Filter(segs, Writes(rows))[k])
  {
    var live := Filter(segs, Writes(rows));
    forall k | 0 <= k < |live|
      ensures Live(rows, live[k])
    {
      assert Writes(rows)(live[k]);
    }
  }

  /** Appending a live segment and its write keeps writes and segments aligned. */
  lemma LiveSnoc(rows: seq<TobiiRow>, prev: seq<TaskWrite>, liveInit: seq<Segmentation.Segment>, s: Segmentation.Segment)
    requires forall k :: 0 <= k < |liveInit| ==> Live(rows, liveInit[k])
    requires Live(rows, s)
    requires |prev| == |liveInit|
    requires forall k :: 0 <= k < |prev| ==> prev[k] == SegmentWrite(rows, liveInit[k])
    ensures var r, live := prev + [SegmentWrite(rows, s)], liveInit + [s];
      forall k :: 0 <= k < |r| ==> Live(rows, live[k]) && r[k] == SegmentWrite(rows, live[k])
  {
  }

  /** What the trailing segment writes when the import goes through. */
  function TrailingWrite(rows: seq<TobiiRow>, t: Segmentation.Trailing): seq<TaskWrite>
    requires t.lo <= |rows|
  {
    match t.task
    case None => []
    case Some(name) => WriteTask(name, rows[t.lo..]).ToSeq()
  }

  /**
   * The writes for a segmented recording: every kept task segment with a
   * valid sample, then the trailing segment. It fails exactly when no task
   * marker names the trailing segment (then the whole recording) and it has
   * a valid sample.
   */
  function WritePlan(rows: seq<TobiiRow>, removed: set<string>, plan: Segmentation.Plan): (r: Result<seq<TaskWrite>, ImportError>)
    requires Segmentation.PlanOf(rows, removed) == Success(plan)
    ensures r.Failure? <==>
      (forall j :: 0 <= j < |rows| ==> !Segmentation.Classify(rows[j]).TaskStart?) && HasValidSample(rows)
    ensures r.Failure? ==> r.error == UnnamedTask
    ensures r.Success? ==> r.value == WriteSegments(rows, plan.tasks) + TrailingWrite(rows, plan.trailing)
    ensures r.Success? ==> forall k :: 0 <= k < |r.value| - 1 ==> r.value[k].trial.name !in removed
  {
    Segmentation.PlanOrdered(rows, removed, plan);
    Segmentation.PlanWithoutTasks(rows, removed, plan);
    var ws := WriteSegments(rows, plan.tasks);
    WriteSegmentsKept(rows, plan.tasks, removed);
    assert plan.trailing.task.None? ==> rows[plan.trailing.lo..] == rows;
    var last :- AddToSqlEmip(plan.trailing.task, rows[plan.trailing.lo..]);
    assert last.ToSeq() == TrailingWrite(rows, plan.trailing);
    KeptBeforeLast(ws, last.ToSeq(), removed);
    Success(ws + last.ToSeq())
  }

  /** Segments of kept tasks produce writes of kept tasks only. */
  lemma WriteSegmentsKept(rows: seq<TobiiRow>, segs: seq<Segmentation.Segment>, removed: set<string>)
    requires Sliceable(segs, |rows|)
    requires forall j :: 0 <= j < |segs| ==> segs[j].task !in removed
    ensures forall k :: 0 <= k < |WriteSegments(rows, segs)| ==> WriteSegments(rows, segs)[k].trial.name !in removed
  {
    WriteSegmentsLive(rows, segs);
    var live := Filter(segs, Writes(rows));
    forall k | 0 <= k < |live|
      ensures live[k].task !in removed
    {
      assert live[k] in segs;
    }
  }

  /** Appending at most one write keeps every write but the last one a kept task. */
  lemma KeptBeforeLast(ws: seq<TaskWrite>, last: seq<TaskWrite>, removed: set<string>)
    requires forall k :: 0 <= k < |ws| ==> ws[k].trial.name !in removed
    requires |last| <= 1
    ensures forall k :: 0 <= k < |ws + last| - 1 ==> (ws + last)[k].trial.name !in removed
  {
    assert forall k :: 0 <= k < |ws| ==> (ws + last)[k] == ws[k];
  }

  /** Normalising times leaves the eye validity, and so the valid samples, as they were. */
  lemma NormaliseKeepsValidity(rows: seq<TobiiRow>)
    ensures HasValidSample(NormaliseTimes(rows)) <==> HasValidSample(rows)
  {
    var norm := NormaliseTimes(rows);
    assert forall i :: 0 <= i < |rows| ==> (RightEyeValid(norm[i]) <==> RightEyeValid(rows[i]));
  }

  /**
   * `import_data_into_ogama_emip` without the file reading and the database:
   * a segmentation failure is passed on; otherwise the import fails exactly
   * when the recording has no task marker but a valid sample, and else
   * writes, on the normalised times, every kept task segment with a valid
   * sample followed by the trailing segment.
   */
  function ImportEmip(rows: seq<TobiiRow>, removed: set<string>): (r: Result<seq<TaskWrite>, ImportError>)
    ensures Segmentation.PlanOf(rows, removed).Failure? ==> r == Failure(Segmentation.PlanOf(rows, removed).error)
    ensures Segmentation.PlanOf(rows, removed).Success? ==>
      (r.Failure? <==>
        (forall j :: 0 <= j < |rows| ==> !Segmentation.Classify(rows[j]).TaskStart?) && HasValidSample(rows))
    ensures Segmentation.PlanOf(rows, removed).Success? && r.Failure? ==> r.error == UnnamedTask
    ensures r.Success? ==>
      var plan := Segmentation.PlanOf(rows, removed).value;
      var norm := NormaliseTimes(rows);
      r.value == WriteSegments(norm, plan.tasks) + TrailingWrite(norm, plan.trailing)
    ensures r.Success? ==> forall k :: 0 <= k < |r.value| - 1 ==> r.value[k].trial.name !in removed
  {
    var norm := NormaliseTimes(rows);
    Segmentation.PlanIgnoresTime(rows, norm, removed);
    NormaliseKeepsValidity(rows);
    var plan :- Segmentation.PlanOf(norm, removed);
    WritePlan(norm, removed, plan)
  }

  /**
   * With the importer's own removed set, no task segment is written for the
   * two instruction screens; only the trailing write may carry one.
   */
  lemma InstructionTasksNotWritten(rows: seq<TobiiRow>)
    ensures var r := ImportEmip(rows, Segmentation.InstructionTasks);
      r.Success? ==> forall k :: 0 <= k < |r.value| - 1 ==>
        r.value[k].trial.name != "instruction_calibration.jpg"
        && r.value[k].trial.name != "instruction_comprehension.jpg"
  {
  }
}
