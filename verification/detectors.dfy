/**
 * The interface of the fixation and saccade detectors
 * (`fixation_detection_fixed`, `saccade_detection_fixed`). Their code is not
 * part of this model: a detector is a parameter of every operation that
 * calls one, and only the shape of its output is fixed here.
 */
module Detectors {

  /** An entry of `Efix`: `[starttime, endtime, duration, endx, endy]`. */
  datatype Fixation = Fixation(start: real, end: real, duration: real, x: real, y: real)

  /** An entry of `Esac`: `[starttime, endtime, duration, startx, starty, endx, endy]`. */
  datatype Saccade = Saccade(start: real, end: real, duration: real, startX: real, startY: real, endX: real, endY: real)

  /** Fixation detection settings: `missing`, `maxdist`, `mindur`. */
  datatype FixationParams = FixationParams(missing: real, maxDist: real, minDur: real)

  /** Saccade detection settings: `missing`, `minlen`, `maxvel`, `maxacc`. */
  datatype SaccadeParams = SaccadeParams(missing: real, minLen: int, maxVel: real, maxAcc: real)

  /** The default settings of `call_fixation_detection_on_data` (utils/pygazehelper/pygaze.py:7). */
  const DefaultFixationParams := FixationParams(0.0, 25.0, 50.0)

  /** The default settings of `call_saccade_detection_on_data` (utils/pygazehelper/pygaze.py:26). */
  const DefaultSaccadeParams := SaccadeParams(0.0, 5, 40.0, 340.0)

  /** A fixation detector applied to `(x, y, time)` columns; only the `Efix` list is used. */
  type FixationDetector = (seq<real>, seq<real>, seq<real>, FixationParams) -> seq<Fixation>

  /** A saccade detector applied to `(x, y, time)` columns; only the `Esac` list is used. */
  type SaccadeDetector = (seq<real>, seq<real>, seq<real>, SaccadeParams) -> seq<Saccade>
}
