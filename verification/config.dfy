/** Fixed table sizes and the tunable settings of the tracker.

    The sizes are the compile-time constants of ThermalTracker.h. The numeric
    settings of ThermalTracker and the process-wide static penalty weights of
    TrackedBlob are gathered into two explicit records, so that nothing in the
    model is shared mutable state.
 */
module Config {

  /** Sensor geometry: a FRAME_HEIGHT x FRAME_WIDTH grid of temperatures. */
  const FRAME_WIDTH: int := 16
  const FRAME_HEIGHT: int := 4
  const FRAME_SIZE: int := FRAME_WIDTH * FRAME_HEIGHT

  /** Capacity of the blob table and of the track table. */
  const MAX_BLOBS: int := 8

  /** Frames with blobs in view after which the background is refreshed anyway
      (REFRESH_RATE * 2). */
  const UNCHANGED_FRAME_DELAY: int := 32

  /** Number of movement categories: left, right, up, down, no direction. */
  const NUM_DIRECTION_CATEGORIES: int := 5

  /** The static weights of TrackedBlob, plus its static frame width. */
  datatype Weights = Weights(
    position: real,
    area: real,
    aspectRatio: real,
    temperature: real,
    direction: real,
    deadFrame: real,
    frameWidth: int)

  /** The numeric settings of a ThermalTracker. */
  datatype Settings = Settings(
    runningAverageSize: int,
    minBlobSize: int,
    minimumTravelThreshold: real,
    maxDifferenceThreshold: real,
    minimumTemperatureDifferential: real,
    activePixelVarianceScalar: real,
    maxDeadFrames: int,
    weights: Weights)

  /** Settings under which no operation divides by zero: the batch background
      divides by `runningAverageSize - 1` and the edge penalty by
      `frameWidth / 2`. */
  predicate SaneSettings(s: Settings) {
    s.runningAverageSize >= 2 && s.weights.frameWidth >= 2
  }
}

/** The C arithmetic the tracker relies on, written out over unbounded numbers. */
module Numerics {

  /** `absolute` on floats. */
  function Abs(r: real): (a: real)
    ensures a >= 0.0 && (a == r || a == -r)
  {
    if r < 0.0 then -r else r
  }

  /** Conversion of a float to `int`: truncation toward zero. */
  function TruncToInt(r: real): (n: int)
    ensures r >= 0.0 ==> 0 <= n && n as real <= r < n as real + 1.0
    ensures r < 0.0 ==> n <= 0 && n as real - 1.0 < r <= n as real
  {
    if r >= 0.0 then r.Floor else -((-r).Floor)
  }

  /** Integer division `a / b` for a positive divisor: truncation toward zero. */
  function CDiv(a: int, b: int): (q: int)
    requires b > 0
    ensures a >= 0 ==> q * b <= a < q * b + b
    ensures a < 0 ==> q * b - b < a <= q * b
  {
    if a >= 0 then a / b else -((-a) / b)
  }
}
