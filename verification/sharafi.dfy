/**
 * The Sharafi importer (utils/ogama.py:15-66): an Ogama `.txt` export is
 * reduced to its included samples, times are shifted to start at 0, positions
 * are rescaled, and every image becomes one trial.
 */
module Sharafi {
  import opened Records
  import opened Seqs
  import Stats
  import Strings

  /** The trial key of a row: its image name without the 4-character extension (`.PNG`). */
  function TrialName(r: OgamaRow): string {
    Strings.DropLast(r.imageName, 4)
  }

  function StartTimeOf(r: OgamaRow): int {
    r.startTime
  }

  /**
   * The frame after the preprocessing steps: included rows only, image names
   * without extension, start times relative to the earliest included row.
   */
  function Prepare(rows: seq<OgamaRow>): (r: seq<OgamaRow>)
    ensures var kept := Filter(rows, Included);
      && |r| == |kept|
      && (forall i :: 0 <= i < |r| ==>
            r[i] == kept[i].(imageName := TrialName(kept[i]), startTime := r[i].startTime) && Included(r[i]))
      && (forall i :: 0 <= i < |r| ==>
            r[i].startTime - r[0].startTime == kept[i].startTime - kept[0].startTime)
    ensures forall i :: 0 <= i < |r| ==> 0 <= r[i].startTime
    ensures |r| > 0 ==> exists i :: 0 <= i < |r| && r[i].startTime == 0
  {
    var kept := Filter(rows, Included);
    if |kept| == 0 then []
    else
      var starts := Project(kept, StartTimeOf);
      var t0 := Stats.MinOf(starts);
      var r := Renamed(kept, t0);
      assert forall i :: 0 <= i < |kept| ==> starts[i] == kept[i].startTime;
      assert exists i :: 0 <= i < |r| && r[i].startTime == 0 by {
        var i0 :| 0 <= i0 < |kept| && starts[i0] == t0;
        assert r[i0].startTime == 0;
      }
      r
  }

  /** Every row renamed to its trial and its start time moved back by `t0`. */
  function Renamed(kept: seq<OgamaRow>, t0: int): (r: seq<OgamaRow>)
    ensures |r| == |kept|
    ensures forall i :: 0 <= i < |r| ==>
      r[i] == kept[i].(imageName := TrialName(kept[i]), startTime := kept[i].startTime - t0)
  {
    seq(|kept|, i requires 0 <= i < |kept| =>
      kept[i].(imageName := TrialName(kept[i]), startTime := kept[i].startTime - t0))
  }

  /** `name` occurs among the image names of `data`, so its group is not empty. */
  predicate Listed(data: seq<OgamaRow>, name: string) {
    name in Project(data, ImageNameOf)
  }

  /**
   * The `Trials` row of one image: it starts at the group's earliest start
   * time and ends at its latest start time plus the duration of the group's
   * last row.
   */
  function TrialOf(data: seq<OgamaRow>, name: string): (t: TrialWrite<string>)
    requires Listed(data, name)
    ensures var group := Group(data, ImageNameOf, name);
      && |group| > 0
      && t.id == name && t.name == name
      && (forall i :: 0 <= i < |group| ==> t.start <= group[i].startTime)
      && (exists i :: 0 <= i < |group| && group[i].startTime == t.start)
      && (forall i :: 0 <= i < |group| ==>
            group[i].startTime <= t.start + t.duration - group[|group| - 1].duration)
      && (exists i :: 0 <= i < |group| &&
            group[i].startTime == t.start + t.duration - group[|group| - 1].duration)
  {
    var group := Group(data, ImageNameOf, name);
    GroupNonEmpty(data, ImageNameOf, name);
    var starts := Project(group, StartTimeOf);
    var lo := Stats.MinOf(starts);
    var hi := Stats.MaxOf(starts);
    TrialWrite(name, name, lo, hi - lo + group[|group| - 1].duration)
  }

  /** What the importer writes: raw rows in frame order and one `Trials` row per image. */
  datatype SharafiImport = SharafiImport(raw: seq<RawWrite<string>>, trials: seq<TrialWrite<string>>)

  function RawOf(r: OgamaRow): RawWrite<string> {
    RawWrite(r.imageName, r.startTime, ScaleX(r.x), ScaleY(r.y))
  }

  /** The distinct trial names of the prepared frame, in order of first appearance. */
  function TrialNames(data: seq<OgamaRow>): (names: seq<string>)
    ensures NoDuplicates(names)
    ensures forall k :: 0 <= k < |names| ==> Listed(data, names[k])
    ensures forall i :: 0 <= i < |data| ==> data[i].imageName in names
  {
    var names := Distinct(Project(data, ImageNameOf));
    assert forall k :: 0 <= k < |names| ==> names[k] in names;
    assert forall i :: 0 <= i < |data| ==> Project(data, ImageNameOf)[i] == data[i].imageName;
    names
  }

  /**
   * `import_data_into_ogama_sharafi` without the database: one raw row per
   * included sample, in frame order, with rescaled position, and one
   * `Trials` row per distinct image.
   */
  function ImportSharafi(rows: seq<OgamaRow>): (r: SharafiImport)
    ensures var data := Prepare(rows);
      var names := TrialNames(data);
      var kept := Filter(rows, Included);
      && |r.raw| == |kept|
      && (forall i :: 0 <= i < |kept| ==>
            r.raw[i] == RawWrite(TrialName(kept[i]), data[i].startTime, ScaleX(kept[i].x), ScaleY(kept[i].y)))
      && |r.trials| == |names|
      && forall k :: 0 <= k < |names| ==> r.trials[k] == TrialOf(data, names[k])
  {
    var data := Prepare(rows);
    var names := TrialNames(data);
    SharafiImport(Project(data, RawOf), seq(|names|, k requires 0 <= k < |names| => TrialOf(data, names[k])))
  }

  /** Each image has exactly one `Trials` row. */
  lemma TrialsAreUnique(rows: seq<OgamaRow>)
    ensures var r := ImportSharafi(rows);
      forall j, k :: 0 <= j < k < |r.trials| ==> r.trials[j].id != r.trials[k].id
  {
    var data := Prepare(rows);
    var names := TrialNames(data);
    assert forall k :: 0 <= k < |names| ==> ImportSharafi(rows).trials[k].id == names[k];
  }

  /**
   * Every raw row belongs to a trial, and that trial starts no later than
   * the row.
   */
  lemma RawRowsWithinTrials(rows: seq<OgamaRow>, i: nat)
    requires i < |Filter(rows, Included)|
    ensures var r := ImportSharafi(rows);
      exists k :: 0 <= k < |r.trials| && r.trials[k].id == r.raw[i].trial && r.trials[k].start <= r.raw[i].time
  {
    var r := ImportSharafi(rows);
    var data := Prepare(rows);
    var names := TrialNames(data);
    assert r.raw[i] == RawOf(data[i]);
    var k := TrialContaining(data, i);
    assert r.trials[k] == TrialOf(data, names[k]);
  }

  /** The position among the trial names of the trial that row `i` belongs to; that trial starts no later than the row. */
  function TrialContaining(data: seq<OgamaRow>, i: nat): (k: nat)
    requires i < |data|
    ensures k < |TrialNames(data)| && TrialNames(data)[k] == data[i].imageName
    ensures TrialOf(data, TrialNames(data)[k]).start <= data[i].startTime
  {
    var names := TrialNames(data);
    assert data[i].imageName in names;
    var k :| 0 <= k < |names| && names[k] == data[i].imageName;
    var group := Group(data, ImageNameOf, names[k]);
    assert data[i] in group;
    var j :| 0 <= j < |group| && group[j] == data[i];
    k
  }
}
