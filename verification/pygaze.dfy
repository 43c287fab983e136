/**
 * The PyGaze analysis driver (utils/pygazehelper/pygaze.py): recordings are
 * cut into task segments, each segment's samples are handed to a detector,
 * and one summary row per segment is appended to an info table.
 */
module PyGaze {
  import opened Wrappers
  import opened Records
  import opened Seqs
  import opened Detectors
  import opened Summaries
  import Stats
  import Strings
  import Segmentation

  /**
   * One call of a detector wrapper (`fn(info, participant, time, x, y, task, parameters)`).
   * `params` is `None` where the caller leaves `parameters` out and the
   * callee's defaults apply.
   */
  datatype DetectorCall<P> = DetectorCall(
    participant: string,
    task: Option<string>,
    time: seq<real>,
    x: seq<real>,
    y: seq<real>,
    params: Option<P>)

  predicate SameLength<P>(c: DetectorCall<P>) {
    |c.time| == |c.x| == |c.y|
  }

  /** The `fixation_info` dictionary: one list per column. */
  datatype FixationInfo = FixationInfo(
    participant: seq<string>,
    task: seq<Option<string>>,
    count: seq<nat>,
    total: seq<real>,
    average: seq<real>)

  /** The `saccade_info` dictionary: one list per column. */
  datatype SaccadeInfo = SaccadeInfo(
    participant: seq<string>,
    task: seq<Option<string>>,
    count: seq<nat>,
    total: seq<real>,
    average: seq<real>,
    distance: seq<real>)

  /** All columns have the same length, so the dictionary is a valid frame. */
  predicate FixationRectangular(info: FixationInfo) {
    |info.task| == |info.count| == |info.total| == |info.average| == |info.participant|
  }

  predicate SaccadeRectangular(info: SaccadeInfo) {
    |info.task| == |info.count| == |info.total| == |info.average| == |info.distance| == |info.participant|
  }

  const EmptyFixationInfo := FixationInfo([], [], [], [], [])
  const EmptySaccadeInfo := SaccadeInfo([], [], [], [], [], [])

  /**
   * `call_fixation_detection_on_data`: run the detector on the call's
   * columns (with the callee's defaults when no parameters are passed) and
   * append one entry to every column.
   */
  function CallFixationDetection(info: FixationInfo, c: DetectorCall<FixationParams>, detect: FixationDetector): (r: FixationInfo)
    ensures FixationRectangular(info) ==> FixationRectangular(r)
    ensures |r.participant| == |info.participant| + 1
    ensures r.participant[..|info.participant|] == info.participant && r.participant[|info.participant|] == c.participant
    ensures r.task == info.task + [c.task]
    ensures var es := detect(c.x, c.y, c.time, c.params.GetOr(DefaultFixationParams));
      && r.count == info.count + [|es|]
      && |r.total| == |info.total| + 1 && r.total[..|info.total|] == info.total
      && r.total[|info.total|] == Stats.Sum(Project(es, FixationDuration))
      && |r.average| == |info.average| + 1 && r.average[..|info.average|] == info.average
      && AverageOf(r.average[|info.average|], |es|, r.total[|info.total|])
  {
    var es := detect(c.x, c.y, c.time, c.params.GetOr(DefaultFixationParams));
    var s := FixationSummary(es);
    FixationInfo(
      info.participant + [c.participant],
      info.task + [c.task],
      info.count + [s.count],
      info.total + [s.total],
      info.average + [s.average])
  }

  function StartEndDistances(es: seq<Saccade>, norm: (real, real) -> real): (ds: seq<real>)
    ensures |ds| == |es|
    ensures forall i :: 0 <= i < |es| ==> ds[i] == norm(es[i].startX - es[i].endX, es[i].startY - es[i].endY)
  {
    seq(|es|, i requires 0 <= i < |es| => norm(es[i].startX - es[i].endX, es[i].startY - es[i].endY))
  }

  /**
   * `call_saccade_detection_on_data`: as for fixations, plus the mean
   * start-to-end distance of the saccades; `norm` is the Euclidean norm
   * `(dx**2 + dy**2)**0.5`.
   */
  function CallSaccadeDetection(info: SaccadeInfo, c: DetectorCall<SaccadeParams>, detect: SaccadeDetector, norm: (real, real) -> real): (r: SaccadeInfo)
    ensures SaccadeRectangular(info) ==> SaccadeRectangular(r)
    ensures r.participant == info.participant + [c.participant]
    ensures r.task == info.task + [c.task]
    ensures var es := detect(c.x, c.y, c.time, c.params.GetOr(DefaultSaccadeParams));
      && r.count == info.count + [|es|]
      && |r.total| == |info.total| + 1 && r.total[..|info.total|] == info.total
      && r.total[|info.total|] == Stats.Sum(Project(es, SaccadeDuration))
      && |r.average| == |info.average| + 1 && r.average[..|info.average|] == info.average
      && AverageOf(r.average[|info.average|], |es|, r.total[|info.total|])
      && |r.distance| == |info.distance| + 1 && r.distance[..|info.distance|] == info.distance
      && AverageOf(r.distance[|info.distance|], |es|, Stats.Sum(StartEndDistances(es, norm)))
  {
    var es := detect(c.x, c.y, c.time, c.params.GetOr(DefaultSaccadeParams));
    var s := SaccadeSummary(es);
    var d := Summarise(StartEndDistances(es, norm));
    SaccadeInfo(
      info.participant + [c.participant],
      info.task + [c.task],
      info.count + [s.count],
      info.total + [s.total],
      info.average + [s.average],
      info.distance + [d.average])
  }

  /** The fixation info after a series of detector calls, in order. */
  function RunFixationCalls(info: FixationInfo, calls: seq<DetectorCall<FixationParams>>, detect: FixationDetector): FixationInfo {
    if |calls| == 0 then info
    else CallFixationDetection(RunFixationCalls(info, calls[..|calls| - 1], detect), calls[|calls| - 1], detect)
  }

  /**
   * A series of calls keeps the frame rectangular, adds exactly one row per
   * call, keeps the earlier rows, and the row of call `k` holds the size of
   * that call's `Efix` and their summed duration.
   */
  lemma {:induction false} RunFixationCallsRows(info: FixationInfo, calls: seq<DetectorCall<FixationParams>>, detect: FixationDetector)
    requires FixationRectangular(info)
    ensures var r := RunFixationCalls(info, calls, detect);
      && FixationRectangular(r)
      && |r.count| == |info.count| + |calls|
      && r.count[..|info.count|] == info.count
      && r.total[..|info.total|] == info.total
      && forall k :: 0 <= k < |calls| ==>
           var es := detect(calls[k].x, calls[k].y, calls[k].time, calls[k].params.GetOr(DefaultFixationParams));
           r.count[|info.count| + k] == |es| && r.total[|info.total| + k] == Stats.Sum(Project(es, FixationDuration))
  {
    if |calls| > 0 {
      var init := calls[..|calls| - 1];
      RunFixationCallsRows(info, init, detect);
      var prev := RunFixationCalls(info, init, detect);
      assert forall k :: 0 <= k < |init| ==> init[k] == calls[k];
      assert prev.count[..|info.count|] == info.count;
      assert prev.total[..|info.total|] == info.total;
    }
  }

  /** The saccade info after a series of detector calls, in order. */
  function RunSaccadeCalls(info: SaccadeInfo, calls: seq<DetectorCall<SaccadeParams>>, detect: SaccadeDetector, norm: (real, real) -> real): SaccadeInfo {
    if |calls| == 0 then info
    else CallSaccadeDetection(RunSaccadeCalls(info, calls[..|calls| - 1], detect, norm), calls[|calls| - 1], detect, norm)
  }

  /**
   * A series of saccade calls keeps the frame rectangular, adds exactly one
   * row per call, keeps the earlier rows, and the row of call `k` holds the
   * size of that call's `Esac` and their summed duration.
   */
  lemma {:induction false} RunSaccadeCallsRows(info: SaccadeInfo, calls: seq<DetectorCall<SaccadeParams>>, detect: SaccadeDetector, norm: (real, real) -> real)
    requires SaccadeRectangular(info)
    ensures var r := RunSaccadeCalls(info, calls, detect, norm);
      && SaccadeRectangular(r)
      && |r.count| == |info.count| + |calls|
      && r.count[..|info.count|] == info.count
      && r.total[..|info.total|] == info.total
      && forall k :: 0 <= k < |calls| ==>
           var es := detect(calls[k].x, calls[k].y, calls[k].time, calls[k].params.GetOr(DefaultSaccadeParams));
           r.count[|info.count| + k] == |es| && r.total[|info.total| + k] == Stats.Sum(Project(es, SaccadeDuration))
  {
    if |calls| > 0 {
      var init := calls[..|calls| - 1];
      RunSaccadeCallsRows(info, init, detect, norm);
      var prev := RunSaccadeCalls(info, init, detect, norm);
      assert forall k :: 0 <= k < |init| ==> init[k] == calls[k];
      assert prev.count[..|info.count|] == info.count;
      assert prev.total[..|info.total|] == info.total;
    }
  }

  /**
   * `fixation_data_analysis` starts from empty columns: after its calls the
   * frame has exactly one row per call, in order, with that call's fixation
   * count and summed duration.
   */
  lemma {:induction false} FixationAnalysisFrame(calls: seq<DetectorCall<FixationParams>>, detect: FixationDetector)
    ensures var r := RunFixationCalls(EmptyFixationInfo, calls, detect);
      && FixationRectangular(r)
      && |r.count| == |calls|
      && forall k :: 0 <= k < |calls| ==>
           var es := detect(calls[k].x, calls[k].y, calls[k].time, calls[k].params.GetOr(DefaultFixationParams));
           r.count[k] == |es| && r.total[k] == Stats.Sum(Project(es, FixationDuration))
  {
    RunFixationCallsRows(EmptyFixationInfo, calls, detect);
  }

  /**
   * `saccade_data_analysis` starts from empty columns: after its calls the
   * frame has exactly one row per call, in order, with that call's saccade
   * count and summed duration.
   */
  lemma {:induction false} SaccadeAnalysisFrame(calls: seq<DetectorCall<SaccadeParams>>, detect: SaccadeDetector, norm: (real, real) -> real)
    ensures var r := RunSaccadeCalls(EmptySaccadeInfo, calls, detect, norm);
      && SaccadeRectangular(r)
      && |r.count| == |calls|
      && forall k :: 0 <= k < |calls| ==>
           var es := detect(calls[k].x, calls[k].y, calls[k].time, calls[k].params.GetOr(DefaultSaccadeParams));
           r.count[k] == |es| && r.total[k] == Stats.Sum(Project(es, SaccadeDuration))
  {
    RunSaccadeCallsRows(EmptySaccadeInfo, calls, detect, norm);
  }

  /** The columns handed to the detector for one segment of a Tobii recording. */
  function SegmentCall<P>(participant: string, task: Option<string>, seg: seq<TobiiRow>, params: Option<P>): (c: DetectorCall<P>)
    ensures c.participant == participant && c.task == task && c.params == params
    ensures SameLength(c)
    ensures var valid := Seqs.Filter(seg, RightEyeValid);
      && |c.time| == |valid|
      && (forall i :: 0 <= i < |valid| ==> c.x[i] == valid[i].rPorX && c.y[i] == valid[i].rPorY)
      && (forall i :: 0 <= i < |valid| ==> 0.0 <= c.time[i])
      && (|valid| > 0 ==> exists i :: 0 <= i < |valid| && c.time[i] == 0.0)
      && (forall i :: 0 <= i < |valid| ==>
            (c.time[i] - c.time[0]) * 1000.0 == (valid[i].time - valid[0].time) as real)
  {
    var valid := Seqs.Filter(seg, RightEyeValid);
    if |valid| == 0 then DetectorCall(participant, task, [], [], [], params)
    else
      var times := Project(valid, TimeOf);
      var t0 := Stats.MinOf(times);
      var i0 :| 0 <= i0 < |times| && times[i0] == t0;
      var time := MillisSince(times, t0);
      assert time[i0] == 0.0;
      DetectorCall(participant, task, time, Project(valid, RPorXOf), Project(valid, RPorYOf), params)
  }

  /** Microsecond time stamps as (fractional) milliseconds elapsed since `t0`. */
  function MillisSince(ts: seq<int>, t0: int): (r: seq<real>)
    ensures |r| == |ts|
    ensures forall i :: 0 <= i < |ts| ==> r[i] * 1000.0 == (ts[i] - t0) as real
    ensures forall i :: 0 <= i < |ts| ==> (t0 <= ts[i] <==> 0.0 <= r[i])
  {
    seq(|ts|, i requires 0 <= i < |ts| => (ts[i] - t0) as real / 1000.0)
  }

  /** The calls for the segments closed inside the segmentation loop. */
  function TaskCalls<P>(participant: string, rows: seq<TobiiRow>, segs: seq<Segmentation.Segment>, params: P): (cs: seq<DetectorCall<P>>)
    requires Segmentation.SegmentsOrdered(segs) && Segmentation.SegmentsWithin(segs, 0, |rows|)
    ensures |cs| == |segs|
    ensures forall k :: 0 <= k < |segs| ==>
      cs[k] == SegmentCall(participant, Some(segs[k].task), rows[segs[k].lo..segs[k].hi], Some(params))
  {
    seq(|segs|, k requires 0 <= k < |segs| =>
      SegmentCall(participant, Some(segs[k].task), rows[segs[k].lo..segs[k].hi], Some(params)))
  }

  /**
   * The `L Raw X [px]` cell of every right-eye-valid row reads as a number,
   * so that `astype(float)` on the column of those rows goes through.
   */
  predicate LeftXNumeric(seg: seq<TobiiRow>) {
    forall i :: 0 <= i < |seg| && RightEyeValid(seg[i]) ==> seg[i].lRawX.Num?
  }

  /**
   * `prepare_tobii_data`: one call per kept task segment, with the caller's
   * parameters, then one call for the trailing segment without them; the
   * participant is the file name up to its first `_`. A segmentation
   * failure is passed on, and the trailing segment's `astype(float)` fails
   * on a right-eye-valid row whose `L Raw X [px]` cell is text.
   */
  function PrepareTobii<P>(fileName: string, rows: seq<TobiiRow>, removed: set<string>, params: P): (r: Result<seq<DetectorCall<P>>, ImportError>)
    ensures Segmentation.PlanOf(rows, removed).Failure? ==>
      r == Failure(Segmentation.PlanOf(rows, removed).error)
    ensures Segmentation.PlanOf(rows, removed).Success? ==>
      (r.Failure? <==> !LeftXNumeric(rows[Segmentation.PlanOf(rows, removed).value.trailing.lo..]))
    ensures r.Failure? ==> r.error.MalformedMarker? || r.error == NonNumericCell
    ensures r.Success? ==>
      var plan := Segmentation.PlanOf(rows, removed).value;
      var participant := Strings.Before(fileName, '_');
      && |r.value| == |plan.tasks| + 1
      && (forall k :: 0 <= k < |plan.tasks| ==>
            r.value[k] == SegmentCall(participant, Some(plan.tasks[k].task), rows[plan.tasks[k].lo..plan.tasks[k].hi], Some(params)))
      && r.value[|plan.tasks|] == SegmentCall(participant, plan.trailing.task, rows[plan.trailing.lo..], None)
  {
    var plan :- Segmentation.PlanOf(rows, removed);
    if !LeftXNumeric(rows[plan.trailing.lo..]) then Failure(NonNumericCell)
    else
      var participant := Strings.Before(fileName, '_');
      var cs := TaskCalls(participant, rows, plan.tasks, params);
      var last := SegmentCall(participant, plan.trailing.task, rows[plan.trailing.lo..], None);
      assert forall k :: 0 <= k < |cs| ==> (cs + [last])[k] == cs[k];
      Success(cs + [last])
  }

  /**
   * Every call of a Tobii recording carries the participant prefix and
   * aligned columns; every call but the last is for a kept task with the
   * caller's parameters, and the last one has none.
   */
  lemma PrepareTobiiShape<P>(fileName: string, rows: seq<TobiiRow>, removed: set<string>, params: P)
    ensures var r := PrepareTobii(fileName, rows, removed, params);
      && (r.Success? ==> |r.value| > 0)
      && (r.Success? ==> forall k :: 0 <= k < |r.value| ==>
            r.value[k].participant == Strings.Before(fileName, '_') && SameLength(r.value[k]))
      && (r.Success? ==> forall k :: 0 <= k < |r.value| - 1 ==>
            r.value[k].params == Some(params) && r.value[k].task.Some? && r.value[k].task.value !in removed)
      && (r.Success? ==> r.value[|r.value| - 1].params.None?)
  {
    var r := PrepareTobii(fileName, rows, removed, params);
    if r.Success? {
      var plan := Segmentation.PlanOf(rows, removed).value;
      Segmentation.PlanOrdered(rows, removed, plan);
    }
  }

  /** The call for one image of an Ogama text export: raw start times and rescaled positions. */
  function ImageCall<P>(participant: string, image: string, rows: seq<OgamaRow>, params: P): (c: DetectorCall<P>)
    ensures c.participant == participant && c.task == Some(image) && c.params == Some(params)
    ensures SameLength(c) && |c.time| == |rows|
    ensures forall i :: 0 <= i < |rows| ==>
      c.time[i] == rows[i].startTime as real && c.x[i] == ScaleX(rows[i].x) && c.y[i] == ScaleY(rows[i].y)
  {
    DetectorCall(participant, Some(image),
      seq(|rows|, i requires 0 <= i < |rows| => rows[i].startTime as real),
      seq(|rows|, i requires 0 <= i < |rows| => ScaleX(rows[i].x)),
      seq(|rows|, i requires 0 <= i < |rows| => ScaleY(rows[i].y)),
      Some(params))
  }

  /**
   * `prepare_txt_data`: files without `ogama` in their name are skipped;
   * otherwise one call per distinct image among the included rows, in order
   * of first appearance, each with exactly that image's rows. The
   * participant is the last component of the directory path.
   */
  function PrepareTxt<P>(directory: string, fileName: string, rows: seq<OgamaRow>, params: P): (cs: seq<DetectorCall<P>>)
    ensures !Strings.Contains(fileName, "ogama") ==> cs == []
    ensures Strings.Contains(fileName, "ogama") ==>
      var kept := Seqs.Filter(rows, Included);
      var images := Distinct(Project(kept, ImageNameOf));
      && |cs| == |images|
      && forall k :: 0 <= k < |cs| ==>
           cs[k] == ImageCall(Strings.AfterLast(directory, '/'), images[k], Group(kept, ImageNameOf, images[k]), params)
  {
    if !Strings.Contains(fileName, "ogama") then []
    else ImageCalls(Strings.AfterLast(directory, '/'), Seqs.Filter(rows, Included), params)
  }

  /** One call per distinct image of `kept`, in order of first appearance. */
  function ImageCalls<P>(participant: string, kept: seq<OgamaRow>, params: P): (cs: seq<DetectorCall<P>>)
    ensures var images := Distinct(Project(kept, ImageNameOf));
      && |cs| == |images|
      && forall k :: 0 <= k < |cs| ==>
           cs[k] == ImageCall(participant, images[k], Group(kept, ImageNameOf, images[k]), params)
  {
    var images := Distinct(Project(kept, ImageNameOf));
    seq(|images|, k requires 0 <= k < |images| =>
      ImageCall(participant, images[k], Group(kept, ImageNameOf, images[k]), params))
  }

  function SampleTotal<P>(cs: seq<DetectorCall<P>>): nat {
    if |cs| == 0 then 0 else SampleTotal(cs[..|cs| - 1]) + |cs[|cs| - 1].time|
  }

  lemma {:induction false} SampleTotalIsCountSum<P>(cs: seq<DetectorCall<P>>, names: seq<string>, images: seq<string>)
    requires |cs| == |images|
    requires forall k :: 0 <= k < |cs| ==> |cs[k].time| == Count(names, images[k])
    ensures SampleTotal(cs) == CountSum(names, images)
  {
    if |cs| > 0 {
      SampleTotalIsCountSum(cs[..|cs| - 1], names, images[..|images| - 1]);
    }
  }

  /**
   * The calls of a text export are one per image and between them receive
   * every included row exactly once.
   */
  lemma PrepareTxtPartitions<P>(directory: string, fileName: string, rows: seq<OgamaRow>, params: P)
    requires Strings.Contains(fileName, "ogama")
    ensures var cs := PrepareTxt(directory, fileName, rows, params);
      && SampleTotal(cs) == |Seqs.Filter(rows, Included)|
      && forall j, k :: 0 <= j < k < |cs| ==> cs[j].task != cs[k].task
  {
    var cs := PrepareTxt(directory, fileName, rows, params);
    var kept := Seqs.Filter(rows, Included);
    var names := Project(kept, ImageNameOf);
    var images := Distinct(names);
    forall k | 0 <= k < |cs|
      ensures |cs[k].time| == Count(names, images[k])
    {
      GroupSize(kept, ImageNameOf, images[k]);
    }
    SampleTotalIsCountSum(cs, names, images);
    DistinctPartition(names);
  }

  /** Which preparer `ending_to_function` selects for a file. */
  datatype Handler = TobiiExport | OgamaExport | Ignored

  function HandlerFor(fileName: string): (h: Handler)
    ensures h == TobiiExport <==> Strings.Extension(fileName) == ".tsv"
    ensures h == OgamaExport <==> Strings.Extension(fileName) == ".txt"
  {
    var ext := Strings.Extension(fileName);
    if ext == ".tsv" then TobiiExport
    else if ext == ".txt" then OgamaExport
    else Ignored
  }

  /** `<stem>.tsv` goes to the Tobii preparer and `<stem>.txt` to the text preparer, whatever the stem holds. */
  lemma HandlerForNamedFile(stem: string)
    requires !Strings.AllDots(stem)
    ensures HandlerFor(stem + ".tsv") == TobiiExport
    ensures HandlerFor(stem + ".txt") == OgamaExport
  {
    Strings.ExtensionRoundTrip(stem, ".tsv");
    Strings.ExtensionRoundTrip(stem, ".txt");
  }
}
