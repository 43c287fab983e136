/**
 * The Peitek preprocessing shared by the Ogama importer
 * (utils/ogama.py:369-442) and the PyGaze fixation export
 * (utils/pygazehelper/pygaze_peitek.py:65-166): normalised display
 * coordinates are converted to pixels, each eye is classified as missing or
 * not, missing eyes get a sentinel position, and the gaze point is the mean
 * of the two eyes.
 */
module Peitek {
  import opened Wrappers
  import opened Records
  import opened Detectors
  import Stats
  import Registry
  import opened Seqs

  /** The screen settings read from the `opt` table: resolution and the missing-data sentinel. */
  datatype Screen = Screen(xres: real, yres: real, missingX: real, missingY: real)

  /** The values of utils/peitek_opt.py:6-13: a 1920x1080 screen, sentinel (-xres, -yres). */
  const DefaultScreen := Screen(1920.0, 1080.0, -1920.0, -1080.0)

  /** One eye of a sample: display position and the tracker's validity code. */
  datatype Eye = Eye(x: real, y: real, valid: real)

  /** A row of a Peitek eye-tracking file; positions are fractions of the screen size. */
  datatype Sample = Sample(time: real, left: Eye, right: Eye)

  /** A preprocessed row: both eyes in pixels after the sentinel step, and their mean. */
  datatype Gaze = Gaze(left: Eye, right: Eye, x: real, y: real)

  /**
   * Normalised display coordinates to pixels. Validity is kept, and on a
   * screen of positive size dividing by the resolution gives the
   * normalised position back.
   */
  function ToPixels(scr: Screen, e: Eye): (p: Eye)
    ensures p.valid == e.valid
    ensures scr.xres != 0.0 ==> p.x / scr.xres == e.x
    ensures scr.yres != 0.0 ==> p.y / scr.yres == e.y
  {
    Eye(e.x * scr.xres, e.y * scr.yres, e.valid)
  }

  /** The per-axis range flags (`*_miss_x`, `*_miss_y`) on pixel positions. */
  predicate OffScreenX(scr: Screen, x: real) {
    x < -scr.xres || x > 2.0 * scr.xres
  }

  predicate OffScreenY(scr: Screen, y: real) {
    y < -scr.yres || y > 2.0 * scr.yres
  }

  /** The per-eye flag (`l_miss`, `r_miss`) on a pixel-position eye. */
  predicate Missing(scr: Screen, e: Eye) {
    OffScreenX(scr, e.x) || OffScreenY(scr, e.y) || !(e.valid >= 1.0)
  }

  /** The accepted window, stated on the normalised position the tracker reports. */
  predicate Accepted(e: Eye) {
    -1.0 <= e.x <= 2.0 && -1.0 <= e.y <= 2.0 && 1.0 <= e.valid
  }

  /**
   * On any screen of positive size the classification does not depend on
   * the resolution: an eye counts as missing exactly when its normalised
   * position leaves [-1, 2] on either axis or its validity is below 1.
   */
  lemma MissingIffNotAccepted(scr: Screen, e: Eye)
    requires scr.xres > 0.0 && scr.yres > 0.0
    ensures Missing(scr, ToPixels(scr, e)) <==> !Accepted(e)
  {
    OffScreenXScaled(scr, e);
    OffScreenYScaled(scr, e);
  }

  /** The x flag on the pixel position is the normalised x leaving [-1, 2]. */
  lemma OffScreenXScaled(scr: Screen, e: Eye)
    requires scr.xres > 0.0
    ensures OffScreenX(scr, ToPixels(scr, e).x) <==> e.x < -1.0 || 2.0 < e.x
  {
    var px := ToPixels(scr, e).x;
    assert px == e.x * scr.xres;
    ScaledBelow(e.x, -1.0, scr.xres);
    ScaledBelow(2.0, e.x, scr.xres);
    assert -1.0 * scr.xres == -scr.xres;
  }

  /** The y flag on the pixel position is the normalised y leaving [-1, 2]. */
  lemma OffScreenYScaled(scr: Screen, e: Eye)
    requires scr.yres > 0.0
    ensures OffScreenY(scr, ToPixels(scr, e).y) <==> e.y < -1.0 || 2.0 < e.y
  {
    var py := ToPixels(scr, e).y;
    assert py == e.y * scr.yres;
    ScaledBelow(e.y, -1.0, scr.yres);
    ScaledBelow(2.0, e.y, scr.yres);
    assert -1.0 * scr.yres == -scr.yres;
  }

  lemma ScaledBelow(a: real, b: real, res: real)
    requires res > 0.0
    ensures a * res < b * res <==> a < b
  {
    if a < b {
      assert (b - a) * res > 0.0;
    } else {
      assert (a - b) * res >= 0.0;
    }
  }

  /** The sentinel step for one eye. */
  function MarkMissing(scr: Screen, e: Eye): (r: Eye)
    ensures r.valid == e.valid
    ensures Missing(scr, e) ==> r.x == scr.missingX && r.y == scr.missingY
    ensures !Missing(scr, e) ==> r == e
  {
    if Missing(scr, e) then Eye(scr.missingX, scr.missingY, e.valid) else e
  }

  /** Marking is idempotent: a second pass over its output changes nothing. */
  lemma MarkMissingIdempotent(scr: Screen, e: Eye)
    ensures MarkMissing(scr, MarkMissing(scr, e)) == MarkMissing(scr, e)
  {
    var once := MarkMissing(scr, e);
    if Missing(scr, e) && !Missing(scr, once) {
      assert MarkMissing(scr, once) == once;
    }
  }

  /**
   * The whole per-sample transform: pixels, miss flags, sentinels, and the
   * mean of the two eyes, which is taken whatever the flags say.
   */
  function Preprocess(scr: Screen, s: Sample): (g: Gaze)
    ensures g.left == MarkMissing(scr, ToPixels(scr, s.left))
    ensures g.right == MarkMissing(scr, ToPixels(scr, s.right))
    ensures 2.0 * g.x == g.left.x + g.right.x && 2.0 * g.y == g.left.y + g.right.y
  {
    var l := MarkMissing(scr, ToPixels(scr, s.left));
    var r := MarkMissing(scr, ToPixels(scr, s.right));
    Gaze(l, r, (l.x + r.x) / 2.0, (l.y + r.y) / 2.0)
  }

  /** With both eyes accepted the gaze point is the mean of the two measured positions. */
  lemma PreprocessBothAccepted(scr: Screen, s: Sample)
    requires scr.xres > 0.0 && scr.yres > 0.0
    requires Accepted(s.left) && Accepted(s.right)
    ensures var g := Preprocess(scr, s);
      && 2.0 * g.x == (s.left.x + s.right.x) * scr.xres
      && 2.0 * g.y == (s.left.y + s.right.y) * scr.yres
  {
    MissingIffNotAccepted(scr, s.left);
    MissingIffNotAccepted(scr, s.right);
  }

  /** With both eyes rejected the gaze point is exactly the sentinel. */
  lemma PreprocessBothRejected(scr: Screen, s: Sample)
    requires scr.xres > 0.0 && scr.yres > 0.0
    requires !Accepted(s.left) && !Accepted(s.right)
    ensures Preprocess(scr, s).x == scr.missingX && Preprocess(scr, s).y == scr.missingY
  {
    MissingIffNotAccepted(scr, s.left);
    MissingIffNotAccepted(scr, s.right);
  }

  /**
   * With one eye rejected, left or right, the sentinel enters the mean: on
   * the default screen the gaze point lies halfway between the accepted eye
   * and (-1920, -1080).
   */
  lemma PreprocessOneRejected(s: Sample)
    requires Accepted(s.left) != Accepted(s.right)
    ensures var g := Preprocess(DefaultScreen, s);
      var e := if Accepted(s.left) then s.left else s.right;
      && 2.0 * g.x == e.x * 1920.0 - 1920.0
      && 2.0 * g.y == e.y * 1080.0 - 1080.0
  {
    MissingIffNotAccepted(DefaultScreen, s.left);
    MissingIffNotAccepted(DefaultScreen, s.right);
  }

  /** The detector settings of the PyGaze export (`missing`, `maxdist`, `mindur`). */
  const PeitekFixationParams := FixationParams(0.0, 25.0, 50.0)

  /**
   * A sample with both eyes rejected reaches the detector as (-1920, -1080),
   * not as the value 0.0 the detector is told means missing data.
   */
  lemma RejectedSampleNotSeenAsMissing(s: Sample)
    requires !Accepted(s.left) && !Accepted(s.right)
    ensures Preprocess(DefaultScreen, s).x != PeitekFixationParams.missing
    ensures Preprocess(DefaultScreen, s).y != PeitekFixationParams.missing
  {
    PreprocessBothRejected(DefaultScreen, s);
  }

  /** The per-recording metadata of a behavioural row that the modelled code reads or copies. */
  datatype Metadata = Metadata(
    participant: string,
    algorithm: string,
    behavioral: string,
    startTime: real,
    endTime: real,
    duration: real,
    isOutlier: bool,
    skillScore: real)

  /** A behavioural row together with the samples of the eye-tracking file it names. */
  datatype Recording = Recording(meta: Metadata, samples: seq<Sample>)

  /**
   * Times for the detector: seconds since the first sample, in milliseconds.
   * An empty file has no first sample, which aborts the run.
   */
  function DetectorTimes(samples: seq<Sample>): (r: Result<seq<real>, ImportError>)
    ensures r.Failure? <==> |samples| == 0
    ensures r.Failure? ==> r.error == EmptyRecording
    ensures r.Success? ==> |r.value| == |samples| && r.value[0] == 0.0
    ensures r.Success? ==> forall i, j :: 0 <= i < |samples| && 0 <= j < |samples| ==>
      r.value[j] - r.value[i] == (samples[j].time - samples[i].time) * 1000.0
  {
    if |samples| == 0 then Failure(EmptyRecording)
    else
      var t0 := samples[0].time;
      Success(seq(|samples|, i requires 0 <= i < |samples| => (samples[i].time - t0) * 1000.0))
  }

  /** One row of the exported fixation frame: the copied metadata and one array per fixation field. */
  datatype FixationRow = FixationRow(
    meta: Metadata,
    startT: seq<real>,
    endT: seq<real>,
    x: seq<real>,
    y: seq<real>,
    xRange: seq<int>,
    yRange: seq<int>)

  /**
   * The fixation arrays of a row, taken from the detector's `Efix` list:
   * entry `k` of each array is the corresponding field of fixation `k`, and
   * the range arrays are zero.
   */
  function FixationRowOf(meta: Metadata, es: seq<Fixation>): (r: FixationRow)
    ensures r.meta == meta
    ensures |r.startT| == |r.endT| == |r.x| == |r.y| == |r.xRange| == |r.yRange| == |es|
    ensures forall k :: 0 <= k < |es| ==>
      r.startT[k] == es[k].start && r.endT[k] == es[k].end && r.x[k] == es[k].x && r.y[k] == es[k].y
    ensures forall k :: 0 <= k < |es| ==> r.xRange[k] == 0 && r.yRange[k] == 0
  {
    FixationRow(meta,
      seq(|es|, k requires 0 <= k < |es| => es[k].start),
      seq(|es|, k requires 0 <= k < |es| => es[k].end),
      seq(|es|, k requires 0 <= k < |es| => es[k].x),
      seq(|es|, k requires 0 <= k < |es| => es[k].y),
      seq(|es|, _ => 0),
      seq(|es|, _ => 0))
  }

  /**
   * The columns the detector is given for a recording: per sample, the
   * preprocessed gaze point and the milliseconds since the first sample.
   */
  predicate DetectorSees(scr: Screen, samples: seq<Sample>, xs: seq<real>, ys: seq<real>, ts: seq<real>) {
    && |xs| == |samples| && |ys| == |samples| && |ts| == |samples|
    && (forall i :: 0 <= i < |samples| ==> ts[i] == (samples[i].time - samples[0].time) * 1000.0)
    && (forall i :: 0 <= i < |samples| ==>
          xs[i] == Preprocess(scr, samples[i]).x && ys[i] == Preprocess(scr, samples[i]).y)
  }

  /**
   * The detector's time column starts at 0, and its differences are the
   * sample time differences in milliseconds.
   */
  lemma DetectorSeesTimes(scr: Screen, samples: seq<Sample>, xs: seq<real>, ys: seq<real>, ts: seq<real>)
    requires DetectorSees(scr, samples, xs, ys, ts)
    ensures |samples| > 0 ==> ts[0] == 0.0
    ensures forall i, j :: 0 <= i < |samples| && 0 <= j < |samples| ==>
      ts[j] - ts[i] == (samples[j].time - samples[i].time) * 1000.0
  {
  }

  /** In the detector's gaze columns a sample with both eyes rejected sits at the sentinel. */
  lemma DetectorSeesRejected(scr: Screen, samples: seq<Sample>, xs: seq<real>, ys: seq<real>, ts: seq<real>)
    requires scr.xres > 0.0 && scr.yres > 0.0
    requires DetectorSees(scr, samples, xs, ys, ts)
    ensures forall i :: 0 <= i < |samples| && !Accepted(samples[i].left) && !Accepted(samples[i].right) ==>
      xs[i] == scr.missingX && ys[i] == scr.missingY
  {
    forall i | 0 <= i < |samples| && !Accepted(samples[i].left) && !Accepted(samples[i].right)
      ensures xs[i] == scr.missingX && ys[i] == scr.missingY
    {
      var g := Preprocess(scr, samples[i]);
      assert xs[i] == g.x && ys[i] == g.y;
      PreprocessBothRejected(scr, samples[i]);
    }
  }

  /**
   * The detector's gaze point `(x, y)` is the mean of the sample's two
   * measured positions, scaled to pixels.
   */
  predicate AtPixelMean(scr: Screen, s: Sample, x: real, y: real) {
    && 2.0 * x == (s.left.x + s.right.x) * scr.xres
    && 2.0 * y == (s.left.y + s.right.y) * scr.yres
  }

  /**
   * In the detector's gaze columns a sample with both eyes accepted sits at
   * the mean of the two measured positions in pixels.
   */
  lemma DetectorSeesAccepted(scr: Screen, samples: seq<Sample>, xs: seq<real>, ys: seq<real>, ts: seq<real>)
    requires scr.xres > 0.0 && scr.yres > 0.0
    requires DetectorSees(scr, samples, xs, ys, ts)
    ensures forall i :: 0 <= i < |samples| && Accepted(samples[i].left) && Accepted(samples[i].right) ==>
      AtPixelMean(scr, samples[i], xs[i], ys[i])
  {
    forall i | 0 <= i < |samples| && Accepted(samples[i].left) && Accepted(samples[i].right)
      ensures AtPixelMean(scr, samples[i], xs[i], ys[i])
    {
      AcceptedColumns(scr, samples[i], xs[i], ys[i]);
    }
  }

  /** One sample's detector columns when both of its eyes are accepted. */
  lemma AcceptedColumns(scr: Screen, s: Sample, x: real, y: real)
    requires scr.xres > 0.0 && scr.yres > 0.0
    requires Accepted(s.left) && Accepted(s.right)
    requires x == Preprocess(scr, s).x && y == Preprocess(scr, s).y
    ensures AtPixelMean(scr, s, x, y)
  {
    PreprocessBothAccepted(scr, s);
  }

  /**
   * The body of the loop in `analyze_csv_data_pygaze` for one behavioural
   * row: an empty eye-tracking file aborts; otherwise the row holds the
   * metadata and the fixations the detector finds, with the fixed
   * settings, on the preprocessed gaze and the shifted millisecond times.
   */
  function AnalyzeRecording(rec: Recording, detect: FixationDetector, scr: Screen): (r: Result<FixationRow, ImportError>)
    ensures r.Failure? <==> |rec.samples| == 0
    ensures r.Failure? ==> r.error == EmptyRecording
    ensures r.Success? ==> exists xs, ys, ts ::
      DetectorSees(scr, rec.samples, xs, ys, ts)
      && r.value == FixationRowOf(rec.meta, detect(xs, ys, ts, PeitekFixationParams))
  {
    var time :- DetectorTimes(rec.samples);
    var gaze := seq(|rec.samples|, i requires 0 <= i < |rec.samples| => Preprocess(scr, rec.samples[i]));
    var xs := seq(|gaze|, i requires 0 <= i < |gaze| => gaze[i].x);
    var ys := seq(|gaze|, i requires 0 <= i < |gaze| => gaze[i].y);
    assert DetectorSees(scr, rec.samples, xs, ys, time);
    Success(FixationRowOf(rec.meta, detect(xs, ys, time, PeitekFixationParams)))
  }

  /**
   * `analyze_csv_data_pygaze`: exactly one output row per behavioural row,
   * in order, carrying that row's metadata; the run aborts on the first
   * recording without samples.
   */
  method AnalyzeAll(recs: seq<Recording>, detect: FixationDetector, scr: Screen) returns (r: Result<seq<FixationRow>, ImportError>)
    ensures r.Failure? <==> exists k :: 0 <= k < |recs| && |recs[k].samples| == 0
    ensures r.Failure? ==> r.error == EmptyRecording
    ensures r.Success? ==> |r.value| == |recs|
    ensures r.Success? ==> forall k :: 0 <= k < |recs| ==>
      r.value[k].meta == recs[k].meta && Success(r.value[k]) == AnalyzeRecording(recs[k], detect, scr)
  {
    var rows: seq<FixationRow> := [];
    for k := 0 to |recs|
      invariant |rows| == k
      invariant forall j :: 0 <= j < k ==> |recs[j].samples| > 0
      invariant forall j :: 0 <= j < k ==>
        rows[j].meta == recs[j].meta && Success(rows[j]) == AnalyzeRecording(recs[j], detect, scr)
    {
      var row := AnalyzeRecording(recs[k], detect, scr);
      if row.Failure? {
        return Failure(row.error);
      }
      rows := rows + [row.value];
    }
    return Success(rows);
  }

  /** What the Ogama importer writes for one recording. */
  datatype PeitekImport = PeitekImport(
    subject: string,
    raw: seq<RawWrite<int>>,
    trial: TrialWrite<int>,
    subjectInserted: bool)

  /**
   * Milliseconds as the importer stores them: seconds times 1000, truncated
   * toward zero, so never further from zero than the exact value and less
   * than 1 ms away from it.
   */
  function Millis(seconds: real): (ms: int)
    ensures 0.0 <= seconds ==> 0 <= ms && ms as real <= seconds * 1000.0 < ms as real + 1.0
    ensures seconds < 0.0 ==> ms <= 0 && ms as real - 1.0 < seconds * 1000.0 <= ms as real
  {
    Stats.Trunc(seconds * 1000.0)
  }

  /**
   * The stored trial duration differs from the true duration in
   * milliseconds by less than 2 ms, and by less than 1 ms when both times
   * are non-negative.
   */
  lemma DurationBound(start: real, end: real)
    ensures var d := Millis(end) - Millis(start);
      -2.0 < d as real - (end - start) * 1000.0 < 2.0
    ensures 0.0 <= start && 0.0 <= end ==>
      var d := Millis(end) - Millis(start);
      -1.0 < d as real - (end - start) * 1000.0 < 1.0
  {
  }

  /**
   * `import_data_into_ogama_peitek` followed by `add_to_sql_peitek`: the
   * raw rows of every sample under the algorithm's trial id, the trial row
   * with start and duration in milliseconds, and the subject's registration.
   */
  function ImportOgamaPeitek(st: Registry.Registry, rec: Recording, scr: Screen): (r: (Registry.Registry, PeitekImport))
    ensures var (st', w) := r;
      && w.subject == "S" + rec.meta.participant
      && w.trial.name == rec.meta.algorithm && rec.meta.algorithm in st'.ids && w.trial.id == st'.ids[rec.meta.algorithm]
      && w.trial.start == Millis(rec.meta.startTime)
      && w.trial.start + w.trial.duration == Millis(rec.meta.endTime)
      && |w.raw| == |rec.samples|
      && (forall i :: 0 <= i < |rec.samples| ==>
            var g := Preprocess(scr, rec.samples[i]);
            w.raw[i] == RawWrite(w.trial.id, Millis(rec.samples[i].time), g.x, g.y))
      && (w.subjectInserted <==> w.subject !in st.subjects)
      && (Registry.Consistent(st) ==> Registry.Consistent(st'))
    ensures var (st', w) := r; var alg := rec.meta.algorithm;
      && (alg in st.ids ==> w.trial.id == st.ids[alg] && st'.next == st.next)
      && (alg !in st.ids ==> w.trial.id == st.next && st'.next == st.next + 1)
      && st'.ids == st.ids[alg := w.trial.id]
      && st'.subjects == st.subjects + (if w.subjectInserted then [w.subject] else [])
  {
    var subject := SubjectName(rec);
    var (st1, id) := Registry.AllocateTrialId(st, rec.meta.algorithm);
    var raw := seq(|rec.samples|, i requires 0 <= i < |rec.samples| =>
      var g := Preprocess(scr, rec.samples[i]);
      RawWrite(id, Millis(rec.samples[i].time), g.x, g.y));
    var start := Millis(rec.meta.startTime);
    var duration := Millis(rec.meta.endTime) - start;
    var (st2, inserted) := Registry.RegisterSubject(st1, subject);
    (st2, PeitekImport(subject, raw, TrialWrite(id, rec.meta.algorithm, start, duration), inserted))
  }

  /**
   * Two imports in a row share a trial id exactly when they are for the same
   * algorithm.
   */
  lemma SameTrialIffSameAlgorithm(st: Registry.Registry, a: Recording, b: Recording, scr: Screen)
    requires Registry.Consistent(st)
    ensures var (st1, wa) := ImportOgamaPeitek(st, a, scr);
      var (st2, wb) := ImportOgamaPeitek(st1, b, scr);
      wa.trial.id == wb.trial.id <==> a.meta.algorithm == b.meta.algorithm
  {
  }

  /** The subject name a recording is filed under. */
  function SubjectName(rec: Recording): string {
    "S" + rec.meta.participant
  }

  function AlgorithmOf(rec: Recording): string {
    rec.meta.algorithm
  }

  /**
   * Importing recordings one after another, with the trial ids and the
   * inserted subjects carried from call to call in module-level state.
   */
  function ImportSeries(st: Registry.Registry, recs: seq<Recording>, scr: Screen): (r: (Registry.Registry, seq<PeitekImport>))
    ensures |r.1| == |recs|
  {
    if |recs| == 0 then (st, [])
    else
      var prev := ImportSeries(st, recs[..|recs| - 1], scr);
      var step := ImportOgamaPeitek(prev.0, recs[|recs| - 1], scr);
      (step.0, prev.1 + [step.1])
  }

  /** The i-th import of a series writes what one import does on the state the first i imports left behind. */
  lemma {:induction false} ImportSeriesWriteAt(st: Registry.Registry, recs: seq<Recording>, scr: Screen, i: nat)
    requires i < |recs|
    ensures ImportSeries(st, recs, scr).1[i] == ImportOgamaPeitek(ImportSeries(st, recs[..i], scr).0, recs[i], scr).1
  {
    var init := recs[..|recs| - 1];
    if i < |init| {
      ImportSeriesWriteAt(st, init, scr, i);
      assert init[..i] == recs[..i];
    } else {
      assert recs[..i] == init;
    }
  }

  /** The first i + 1 imports of a series leave the state one import leaves after the first i. */
  lemma ImportSeriesStateAt(st: Registry.Registry, recs: seq<Recording>, scr: Screen, i: nat)
    requires i < |recs|
    ensures ImportSeries(st, recs[..i + 1], scr).0 == ImportOgamaPeitek(ImportSeries(st, recs[..i], scr).0, recs[i], scr).0
  {
    assert recs[..i + 1][..i] == recs[..i];
  }

  /** A trial id, once handed out, is the same after any further imports. */
  lemma {:induction false} ImportSeriesKeepsIds(st: Registry.Registry, recs: seq<Recording>, scr: Screen, i: nat)
    requires i <= |recs|
    ensures var before := ImportSeries(st, recs[..i], scr).0.ids;
      var after := ImportSeries(st, recs, scr).0.ids;
      forall n :: n in before ==> n in after && after[n] == before[n]
  {
    if i < |recs| {
      var init := recs[..|recs| - 1];
      ImportSeriesKeepsIds(st, init, scr, i);
      assert init[..i] == recs[..i];
    } else {
      assert recs[..i] == recs;
    }
  }

  /** One import moves the registry as one allocation and one registration do. */
  lemma ImportStep(s1: Registry.Registry, a: Registry.Registry, g: Registry.Registry, rec: Recording, scr: Screen)
    requires s1.ids == a.ids && s1.next == a.next && s1.subjects == g.subjects
    ensures var s2 := ImportOgamaPeitek(s1, rec, scr).0;
      var a2 := Registry.AllocateTrialId(a, AlgorithmOf(rec)).0;
      && s2.ids == a2.ids && s2.next == a2.next
      && s2.subjects == Registry.RegisterSubject(g, SubjectName(rec)).0.subjects
  {
  }

  /**
   * A series of imports moves the registry exactly as allocating the
   * algorithms' trial ids and registering the subject names in order do.
   */
  lemma {:induction false} ImportSeriesState(st: Registry.Registry, recs: seq<Recording>, scr: Screen)
    ensures var s := ImportSeries(st, recs, scr).0;
      var a := Registry.AllocateAll(st, Project(recs, AlgorithmOf));
      && s.ids == a.ids && s.next == a.next
      && s.subjects == Registry.RegisterAll(st, Project(recs, SubjectName)).subjects
  {
    if |recs| > 0 {
      var init, last := recs[..|recs| - 1], recs[|recs| - 1];
      var algs, names := Project(recs, AlgorithmOf), Project(recs, SubjectName);
      ImportSeriesState(st, init, scr);
      assert algs[..|recs| - 1] == Project(init, AlgorithmOf);
      assert names[..|recs| - 1] == Project(init, SubjectName);
      ImportStep(ImportSeries(st, init, scr).0, Registry.AllocateAll(st, Project(init, AlgorithmOf)),
        Registry.RegisterAll(st, Project(init, SubjectName)), last, scr);
    }
  }

  /** The i-th import of a series from a fresh state carries its algorithm's final trial id. */
  lemma ImportSeriesIdAt(first: int, recs: seq<Recording>, scr: Screen, i: nat)
    requires i < |recs|
    ensures var r := ImportSeries(Registry.Initial(first), recs, scr);
      AlgorithmOf(recs[i]) in r.0.ids && r.1[i].trial.id == r.0.ids[AlgorithmOf(recs[i])]
  {
    ImportSeriesWriteAt(Registry.Initial(first), recs, scr, i);
    ImportSeriesStateAt(Registry.Initial(first), recs, scr, i);
    ImportSeriesKeepsIds(Registry.Initial(first), recs, scr, i + 1);
  }

  /**
   * The i-th import of a series from a fresh state inserts its subject
   * exactly when no earlier import had that subject.
   */
  lemma ImportSeriesInsertedAt(first: int, recs: seq<Recording>, scr: Screen, i: nat)
    requires i < |recs|
    ensures ImportSeries(Registry.Initial(first), recs, scr).1[i].subjectInserted
      <==> SubjectName(recs[i]) !in Project(recs[..i], SubjectName)
  {
    var init := Registry.Initial(first);
    var prefix := Project(recs[..i], SubjectName);
    ImportSeriesWriteAt(init, recs, scr, i);
    ImportSeriesState(init, recs[..i], scr);
    Registry.RegisterAllDistinct(init, prefix);
    assert init.subjects + prefix == prefix;
  }

  /**
   * From a fresh state a series of imports leaves consecutive trial ids for
   * the algorithms in order of first appearance, the counter just past
   * them, and the distinct subject names in order of first appearance.
   */
  lemma ImportSeriesFinal(first: int, recs: seq<Recording>, scr: Screen)
    ensures var s := ImportSeries(Registry.Initial(first), recs, scr).0;
      var d := Distinct(Project(recs, AlgorithmOf));
      && s.next == first + |d|
      && (forall k :: 0 <= k < |d| ==> d[k] in s.ids && s.ids[d[k]] == first + k)
      && s.subjects == Distinct(Project(recs, SubjectName))
  {
    var init := Registry.Initial(first);
    var names := Project(recs, SubjectName);
    ImportSeriesState(init, recs, scr);
    Registry.AllocateAllNumbersFirstAppearances(first, Project(recs, AlgorithmOf));
    Registry.RegisterAllDistinct(init, names);
    assert init.subjects + names == names;
  }

  /**
   * From a fresh state, over any series of imports: every import's trial
   * row carries its algorithm's final id, and a subject is inserted into
   * `Subjects` exactly at its first import and never again.
   */
  lemma ImportSeriesFromInitial(first: int, recs: seq<Recording>, scr: Screen)
    ensures var r := ImportSeries(Registry.Initial(first), recs, scr);
      && (forall i :: 0 <= i < |recs| ==> AlgorithmOf(recs[i]) in r.0.ids && r.1[i].trial.id == r.0.ids[AlgorithmOf(recs[i])])
      && (forall i :: 0 <= i < |recs| ==>
            (r.1[i].subjectInserted <==> SubjectName(recs[i]) !in Project(recs[..i], SubjectName)))
      && (forall i, j :: 0 <= i < j < |recs| && SubjectName(recs[i]) == SubjectName(recs[j]) ==> !r.1[j].subjectInserted)
  {
    var r := ImportSeries(Registry.Initial(first), recs, scr);
    forall i | 0 <= i < |recs|
      ensures AlgorithmOf(recs[i]) in r.0.ids && r.1[i].trial.id == r.0.ids[AlgorithmOf(recs[i])]
      ensures r.1[i].subjectInserted <==> SubjectName(recs[i]) !in Project(recs[..i], SubjectName)
    {
      ImportSeriesIdAt(first, recs, scr, i);
      ImportSeriesInsertedAt(first, recs, scr, i);
    }
    forall i, j | 0 <= i < j < |recs| && SubjectName(recs[i]) == SubjectName(recs[j])
      ensures !r.1[j].subjectInserted
    {
      ImportSeriesInsertedAt(first, recs, scr, j);
      assert Project(recs[..j], SubjectName)[i] == SubjectName(recs[i]);
    }
  }
}
