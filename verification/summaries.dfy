/**
 * Count / total / mean summaries of detector output per task
 * (utils/pygazehelper/pygaze.py:15-24, 35-48) and of Ogama's stored
 * fixations per trial (utils/ogama.py:93-119, 268-297).
 */
module Summaries {
  import opened Wrappers
  import opened Records
  import opened Seqs
  import opened Stats
  import opened Detectors

  /** One task's count, total duration and mean duration. */
  datatype Summary = Summary(count: nat, total: real, average: real)

  /** `average` is `total / count`, or 0 when there is nothing to count. */
  predicate AverageOf(average: real, count: nat, total: real) {
    if count == 0 then average == 0.0 else average * (count as real) == total
  }

  /** Count, total and mean of a duration column, the mean being 0 on no events. */
  function Summarise(durations: seq<real>): (s: Summary)
    ensures s.count == |durations|
    ensures s.total == Sum(durations)
    ensures AverageOf(s.average, s.count, s.total)
  {
    Summary(|durations|, Sum(durations), Mean(durations))
  }

  function FixationDuration(f: Fixation): real {
    f.duration
  }

  function SaccadeDuration(s: Saccade): real {
    s.duration
  }

  /** The summary of an `Efix` list: field 2 of every entry is its duration. */
  function FixationSummary(es: seq<Fixation>): (s: Summary)
    ensures s.count == |es|
    ensures s.total == Sum(Project(es, FixationDuration))
    ensures s.count == 0 ==> s.total == 0.0
    ensures AverageOf(s.average, s.count, s.total)
  {
    Summarise(Project(es, FixationDuration))
  }

  /** The summary of an `Esac` list. */
  function SaccadeSummary(es: seq<Saccade>): (s: Summary)
    ensures s.count == |es|
    ensures s.total == Sum(Project(es, SaccadeDuration))
    ensures s.count == 0 ==> s.total == 0.0
    ensures AverageOf(s.average, s.count, s.total)
  {
    Summarise(Project(es, SaccadeDuration))
  }

  /** When every fixation lasts between `lo` and `hi`, so does the average, and the total is `count` times that range. */
  lemma FixationAverageBounds(es: seq<Fixation>, lo: real, hi: real)
    requires forall i :: 0 <= i < |es| ==> lo <= es[i].duration <= hi
    ensures lo * (|es| as real) <= FixationSummary(es).total <= hi * (|es| as real)
    ensures |es| > 0 ==> lo <= FixationSummary(es).average <= hi
  {
    var ds := Project(es, FixationDuration);
    SumBounds(ds, lo, hi);
    if |es| > 0 {
      MeanBounds(ds, lo, hi);
    }
  }

  /** The saccade counterpart of `FixationAverageBounds`. */
  lemma SaccadeAverageBounds(es: seq<Saccade>, lo: real, hi: real)
    requires forall i :: 0 <= i < |es| ==> lo <= es[i].duration <= hi
    ensures lo * (|es| as real) <= SaccadeSummary(es).total <= hi * (|es| as real)
    ensures |es| > 0 ==> lo <= SaccadeSummary(es).average <= hi
  {
    var ds := Project(es, SaccadeDuration);
    SumBounds(ds, lo, hi);
    if |es| > 0 {
      MeanBounds(ds, lo, hi);
    }
  }

  /** Summaries are additive: the events of two runs summarise to the sum of their totals and counts. */
  lemma FixationSummaryAppend(a: seq<Fixation>, b: seq<Fixation>)
    ensures FixationSummary(a + b).count == FixationSummary(a).count + FixationSummary(b).count
    ensures FixationSummary(a + b).total == FixationSummary(a).total + FixationSummary(b).total
  {
    assert Project(a + b, FixationDuration) == Project(a, FixationDuration) + Project(b, FixationDuration);
    SumAppend(Project(a, FixationDuration), Project(b, FixationDuration));
  }

  /** The saccade counterpart of `FixationSummaryAppend`. */
  lemma SaccadeSummaryAppend(a: seq<Saccade>, b: seq<Saccade>)
    ensures SaccadeSummary(a + b).count == SaccadeSummary(a).count + SaccadeSummary(b).count
    ensures SaccadeSummary(a + b).total == SaccadeSummary(a).total + SaccadeSummary(b).total
  {
    assert Project(a + b, SaccadeDuration) == Project(a, SaccadeDuration) + Project(b, SaccadeDuration);
    SumAppend(Project(a, SaccadeDuration), Project(b, SaccadeDuration));
  }

  /** A row of Ogama's `GazeFixations` table: the columns the aggregation reads. */
  datatype GazeFixation = GazeFixation(trialId: int, length: real)

  /** One row of the per-trial result frame. */
  datatype TrialResult = TrialResult(trialId: int, count: nat, total: real, average: real)

  function TrialIdOf(f: GazeFixation): int {
    f.trialId
  }

  function LengthOf(f: GazeFixation): real {
    f.length
  }

  /** The count, summed length and mean length of the fixations of one trial. */
  function ResultFor(fs: seq<GazeFixation>, id: int): (r: TrialResult)
    requires id in Project(fs, TrialIdOf)
    ensures r.trialId == id
    ensures r.count == Count(Project(fs, TrialIdOf), id) && r.count > 0
    ensures r.total == Sum(Project(Group(fs, TrialIdOf, id), LengthOf))
    ensures AverageOf(r.average, r.count, r.total)
  {
    GroupSize(fs, TrialIdOf, id);
    GroupNonEmpty(fs, TrialIdOf, id);
    var lengths := Project(Group(fs, TrialIdOf, id), LengthOf);
    var s := Summarise(lengths);
    TrialResult(id, s.count, s.total, s.average)
  }

  /** `groupby('TrialID')` with `count`, `sum` and `mean`: one result per trial that has fixations. */
  function ResultsByTrial(fs: seq<GazeFixation>): (rs: seq<TrialResult>)
    ensures |rs| == |Distinct(Project(fs, TrialIdOf))|
    ensures forall k :: 0 <= k < |rs| ==> rs[k].trialId == Distinct(Project(fs, TrialIdOf))[k]
    ensures forall k :: 0 <= k < |rs| ==> rs[k].count == Count(Project(fs, TrialIdOf), rs[k].trialId)
    ensures forall k :: 0 <= k < |rs| ==> rs[k].total == Sum(Project(Group(fs, TrialIdOf, rs[k].trialId), LengthOf))
    ensures forall k :: 0 <= k < |rs| ==> rs[k].count > 0 && AverageOf(rs[k].average, rs[k].count, rs[k].total)
  {
    var ids := Distinct(Project(fs, TrialIdOf));
    assert forall k :: 0 <= k < |ids| ==> ids[k] in Project(fs, TrialIdOf);
    seq(|ids|, k requires 0 <= k < |ids| => ResultFor(fs, ids[k]))
  }

  function TotalCount(rs: seq<TrialResult>): nat {
    if |rs| == 0 then 0 else TotalCount(rs[..|rs| - 1]) + rs[|rs| - 1].count
  }

  lemma {:induction false} TotalCountIsCountSum(rs: seq<TrialResult>, ids: seq<int>, keys: seq<int>)
    requires |rs| == |keys|
    requires forall k :: 0 <= k < |rs| ==> rs[k].count == Count(ids, keys[k])
    ensures TotalCount(rs) == CountSum(ids, keys)
  {
    if |rs| > 0 {
      TotalCountIsCountSum(rs[..|rs| - 1], ids, keys[..|keys| - 1]);
    }
  }

  /** Every stored fixation is counted in exactly one trial's result. */
  lemma ResultsCoverAllFixations(fs: seq<GazeFixation>)
    ensures TotalCount(ResultsByTrial(fs)) == |fs|
  {
    var ids := Project(fs, TrialIdOf);
    TotalCountIsCountSum(ResultsByTrial(fs), ids, Distinct(ids));
    DistinctPartition(ids);
  }

  /**
   * `calculate_results_for_subject_emip`: no fixations give an empty result
   * frame, and otherwise the frame is the per-trial aggregation.
   */
  function EmipResults(fs: seq<GazeFixation>): (rs: seq<TrialResult>)
    ensures |fs| == 0 <==> |rs| == 0
    ensures |fs| > 0 ==> rs == ResultsByTrial(fs)
    ensures TotalCount(rs) == |fs|
  {
    ResultsCoverAllFixations(fs);
    assert |fs| > 0 ==> Project(fs, TrialIdOf)[0] in Distinct(Project(fs, TrialIdOf));
    ResultsByTrial(fs)
  }

  /**
   * `calculate_results_for_subject_sharafi`: without the empty-input branch
   * of the EMIP variant, naming the columns of an empty frame raises.
   */
  function SharafiResults(fs: seq<GazeFixation>): (r: Result<seq<TrialResult>, ImportError>)
    ensures r.Failure? <==> |fs| == 0
    ensures r.Success? ==> r.value == EmipResults(fs)
  {
    if |fs| == 0 then Failure(NoFixations) else Success(EmipResults(fs))
  }
}
