/**
 * The tabular records the importers read and the rows they would write.
 * Column names follow the vendor exports; only the columns the modelled
 * code reads are kept.
 */
module Records {

  /**
   * A cell of the `L Raw X [px]` column: `Num` is a cell that reads as a
   * number (a sample's coordinate), `Text` any other text, such as the
   * message of an `MSG` row.
   */
  datatype Cell = Num(number: real) | Text(text: string)

  /**
   * One row of an SMI/Tobii `.tsv` export (utils/ogama.py:187, utils/pygazehelper/pygaze.py:64).
   * `time` is in microseconds; `kind` is the `Type` column.
   */
  datatype TobiiRow = TobiiRow(
    time: int,
    kind: string,
    lRawX: Cell,
    lRawY: real,
    rValidity: int,
    rPorX: real,
    rPorY: real)

  function TimeOf(r: TobiiRow): int {
    r.time
  }

  /** The right eye's point of regard, the position handed to the detectors. */
  function RPorXOf(r: TobiiRow): real {
    r.rPorX
  }

  function RPorYOf(r: TobiiRow): real {
    r.rPorY
  }

  /** The mask `df['R Validity'] == 1`. */
  predicate RightEyeValid(r: TobiiRow) {
    r.rValidity == 1
  }

  /** One row of an Ogama `.txt` export (utils/ogama.py:18-33, utils/pygazehelper/pygaze.py:152-159). */
  datatype OgamaRow = OgamaRow(
    imageName: string,
    x: real,
    y: real,
    startTime: int,
    duration: int,
    included: string)

  /** The mask `df[' Included?'] == "Y"`. */
  predicate Included(r: OgamaRow) {
    r.included == "Y"
  }

  function ImageNameOf(r: OgamaRow): string {
    r.imageName
  }

  /** Ogama positions refer to a 1024x768 screen; both importers rescale them to 1920x1080. */
  function ScaleX(x: real): real {
    x * 1920.0 / 1024.0
  }

  function ScaleY(y: real): real {
    y * 1080.0 / 768.0
  }

  /** A row of a subject's `<subject>Rawdata` table: trial key, time in ms and gaze position. */
  datatype RawWrite<K> = RawWrite(trial: K, time: int, x: real, y: real)

  /** A row of the `Trials` table, without the subject column. */
  datatype TrialWrite<K> = TrialWrite(id: K, name: string, start: int, duration: int)

  /** The ways in which an import is aborted by an exception in the source program. */
  datatype ImportError =
    | MalformedMarker(row: nat)  // an `MSG` row whose text has no `Message: ` separator
    | UnnamedTask                // a segment without a preceding `.jpg` marker reaches the trial-id lookup
    | EmptyRecording             // `iloc[0]` on an eye-tracking file without samples
    | NoFixations                // column assignment on an empty fixation frame
    | NonNumericCell             // `astype(float)` on an `L Raw X [px]` cell that is not a number
}
