/** TrackedBlob: the persistent record of one object followed across frames.

    A track holds a snapshot of the last blob matched to it plus the tracking
    state derived from the sequence of matches: predicted position, signed and
    unsigned travel, high-water marks of size, width and height, running-mean
    and maximum difference statistics, and dead-frame counters. A track whose
    snapshot holds no pixel is a free slot.

    The per-factor differences that the original keeps in scratch fields are
    returned by `DifferenceTerms` instead. The start time and event duration,
    which read the board clock, are not modelled.
 */
module TrackedBlobs {
  import opened Config
  import opened Numerics
  import opened Blobs

  /** `COORDINATES`: the axis codes used to index the two-element arrays. */
  const AXIS_X: int := 1
  const AXIS_Y: int := 0

  /** The five factors of a difference score: position, area, aspect ratio,
      temperature and direction. */
  datatype Factors = Factors(position: real, area: real, aspectRatio: real, temperature: real, direction: real)

  const ZeroFactors: Factors := Factors(0.0, 0.0, 0.0, 0.0, 0.0)

  function Total(f: Factors): real {
    f.position + f.area + f.aspectRatio + f.temperature + f.direction
  }

  /** Everything `get_difference` computes: the five factors that are summed,
      the dead-frame term that is computed but not summed, and the edge penalty
      that scaled some of the factors. */
  datatype Difference = Difference(factors: Factors, deadFrame: real, edgePenalty: real)

  datatype TrackedBlob = TrackedBlob(
    blob: Shape,
    id: int,
    predicted: Vec2,
    travel: Vec2,
    totalTravelX: int,
    totalTravelY: int,
    hasUpdated: bool,
    timesUpdated: int,
    startPos: Vec2,
    averageDifference: real,
    maxDifference: real,
    maxSize: int,
    maxWidth: int,
    maxHeight: int,
    averageFactors: Factors,
    numDeadFrames: int,
    maxNumDeadFrames: int)

  /** A slot as built by the constructor (which clears it); the fields that
      `clear` leaves alone start at zero. */
  const FreeSlot: TrackedBlob :=
    TrackedBlob(EmptyShape, 0, Vec2(-1.0, -1.0), Vec2(0.0, 0.0), 0, 0, false, 0, Vec2(0.0, 0.0),
                0.0, 0.0, 0, 0, 0, ZeroFactors, 0, 0)

  /** `is_active`: the track follows a blob iff its snapshot holds a pixel. */
  predicate IsTracking(t: TrackedBlob) {
    t.blob.numPixels > 0
  }

  predicate IsUpdated(t: TrackedBlob) {
    t.hasUpdated
  }

  /** The state `clear` leaves a track in. */
  predicate IsCleared(t: TrackedBlob) {
    && t.blob == EmptyShape
    && t.predicted == Vec2(-1.0, -1.0)
    && t.travel == Vec2(0.0, 0.0)
    && t.totalTravelX == 0 && t.totalTravelY == 0
    && t.maxSize == 0 && t.maxWidth == 0 && t.maxHeight == 0
    && t.maxDifference == 0.0 && t.averageDifference == 0.0
    && t.averageFactors == ZeroFactors
    && t.numDeadFrames == 0 && t.maxNumDeadFrames == 0
    && !t.hasUpdated
  }

  /** Net travel from the start position: the signed travel equals the
      displacement of the current centroid from the centroid the track started at. */
  predicate TravelFromStart(t: TrackedBlob) {
    t.travel == Vec2(t.blob.centroid.x - t.startPos.x, t.blob.centroid.y - t.startPos.y)
  }

  /** The high-water marks bound the current snapshot. */
  predicate HighWater(t: TrackedBlob) {
    t.maxSize >= t.blob.numPixels && t.maxWidth >= t.blob.width && t.maxHeight >= t.blob.height
  }

  /** `clear`: the track becomes a free slot. Its id, start position and update
      count are left as they were. */
  function ClearTrack(t: TrackedBlob): (r: TrackedBlob)
    ensures IsCleared(r) && !IsTracking(r)
    ensures r.id == t.id && r.startPos == t.startPos && r.timesUpdated == t.timesUpdated
  {
    t.(blob := EmptyShape,
       predicted := Vec2(-1.0, -1.0),
       travel := Vec2(0.0, 0.0),
       totalTravelX := 0, totalTravelY := 0,
       maxSize := 0, maxDifference := 0.0, averageDifference := 0.0,
       maxWidth := 0, maxHeight := 0,
       numDeadFrames := 0,
       averageFactors := ZeroFactors,
       maxNumDeadFrames := 0,
       hasUpdated := false)
  }

  /** `reset_updated_status`: lower the updated flag and change nothing else. */
  function ResetUpdated(t: TrackedBlob): (r: TrackedBlob)
    ensures !IsUpdated(r)
    ensures r.(hasUpdated := t.hasUpdated) == t
  {
    t.(hasUpdated := false)
  }

  /** `set(blob)`: start following `b`. All earlier tracking data is lost; the id is kept. */
  function SetTrack(t: TrackedBlob, b: Blob): (r: TrackedBlob)
    ensures r.blob == b.shape && r.id == t.id
    ensures r.hasUpdated && r.timesUpdated == 0
    ensures r.maxSize == Size(b) && r.maxWidth == b.shape.width && r.maxHeight == b.shape.height
    ensures r.startPos == b.shape.centroid
    ensures r.predicted == Vec2(-1.0, -1.0)
    ensures r.travel == Vec2(0.0, 0.0) && r.totalTravelX == 0 && r.totalTravelY == 0
    ensures r.numDeadFrames == 0 && r.maxNumDeadFrames == 0
    ensures r.averageDifference == 0.0 && r.maxDifference == 0.0 && r.averageFactors == ZeroFactors
    ensures TravelFromStart(r) && HighWater(r)
    ensures IsActive(b) <==> IsTracking(r)
  {
    ClearTrack(t).(
      blob := b.shape,
      hasUpdated := true,
      startPos := b.shape.centroid,
      timesUpdated := 0,
      maxSize := Size(b),
      maxWidth := b.shape.width,
      maxHeight := b.shape.height)
  }

  /** `set(blob, id)`. */
  function SetTrackWithId(t: TrackedBlob, b: Blob, id: int): (r: TrackedBlob)
    ensures r.id == id && r.blob == b.shape && r.hasUpdated
  {
    SetTrack(t.(id := id), b)
  }

  /** `set` overwrites every field of the slot: the new track does not depend on
      what the slot held before. */
  lemma {:induction false} SetTrackForgetsSlot(t1: TrackedBlob, t2: TrackedBlob, b: Blob, id: int)
    ensures SetTrackWithId(t1, b, id) == SetTrackWithId(t2, b, id)
  {
  }

  /** `get_travel`: axis code X selects the horizontal travel, any other code the vertical one. */
  function GetTravel(t: TrackedBlob, axis: int): (r: real)
    ensures axis == AXIS_X ==> r == t.travel.x
    ensures axis != AXIS_X ==> r == t.travel.y
  {
    if axis == AXIS_X then t.travel.x else t.travel.y
  }

  /** `is_touching_side`, as written: the second test reads `<= frame_width - 1`,
      so it holds for every blob whose right half-width stays inside the frame. */
  predicate IsTouchingSide(blob: Shape, w: Weights) {
    var half := CDiv(blob.width, 2) as real;
    || blob.centroid.x - half <= 1.0
    || blob.centroid.x + half <= (w.frameWidth - 1) as real
  }

  /** As written, a track counts as "not touching a side" only when its blob
      reaches past the right edge of the frame. */
  lemma {:induction false} NotTouchingOnlyPastRightEdge(t: TrackedBlob, w: Weights)
    requires !IsTouchingSide(t.blob, w)
    ensures t.blob.centroid.x + CDiv(t.blob.width, 2) as real > (w.frameWidth - 1) as real
  {
  }

  /** `get_edge_penalty`: 1 away from the sides; near a side, one minus the
      distance of `position` from the middle column relative to half the frame
      width (both halvings are integer divisions). */
  function EdgePenalty(blob: Shape, position: real, w: Weights): (r: real)
    requires w.frameWidth >= 2
    ensures !IsTouchingSide(blob, w) ==> r == 1.0
    ensures r <= 1.0
    ensures 0.0 <= position <= (2 * CDiv(w.frameWidth, 2)) as real ==> 0.0 <= r
  {
    if IsTouchingSide(blob, w) then
      var half := CDiv(w.frameWidth, 2) as real;
      PenaltyFraction(Abs(half - position), half);
      1.0 - Abs(half - position) / half
    else
      1.0
  }

  /** A non-negative distance over a positive half-width is non-negative, and at
      most 1 when the distance is at most the half-width. */
  lemma {:induction false} PenaltyFraction(gap: real, half: real)
    requires gap >= 0.0 && half > 0.0
    ensures gap / half >= 0.0
    ensures gap <= half ==> gap / half <= 1.0
  {
    assert (gap / half) * half == gap;
  }

  /** `calculate_position_difference`: distance from the predicted position when
      both its coordinates are non-negative, otherwise from the last centroid. */
  function PositionDifference(t: TrackedBlob, other: Shape, edge: real, w: Weights): (r: real)
    ensures w.position >= 0.0 && edge >= 0.0 ==> r >= 0.0
  {
    var from := if t.predicted.x >= 0.0 && t.predicted.y >= 0.0 then t.predicted else t.blob.centroid;
    var dx := Abs(from.x - other.centroid.x);
    var dy := Abs(from.y - other.centroid.y);
    (dx * w.position + dy * w.position) * edge
  }

  /** A gap between two measurements, weighted and then scaled by the edge penalty. */
  function Penalised(gap: real, weight: real, edge: real): (r: real)
    ensures gap >= 0.0 && weight >= 0.0 && edge >= 0.0 ==> r >= 0.0
  {
    gap * weight * edge
  }

  /** A gap between two measurements, weighted. */
  function Weighted(gap: real, weight: real): (r: real)
    ensures gap >= 0.0 && weight >= 0.0 ==> r >= 0.0
  {
    gap * weight
  }

  /** `calculate_direction_difference`, as written. The latest step is truncated
      to `int`. The comparison `(travel >= 0)` in the original is made on the
      array `travel` itself, not on an element, so it is always true. */
  function DirectionDifference(t: TrackedBlob, w: Weights): (r: real)
    ensures r == 0.0 || r == w.direction
    ensures IsTouchingSide(t.blob, w) || t.timesUpdated <= 1 ==> r == 0.0
  {
    var latest := TruncToInt(t.predicted.x - t.blob.centroid.x);
    var travelNonNegative := true;
    if !IsTouchingSide(t.blob, w) && t.timesUpdated > 1 && (latest >= 0) != travelNonNegative then
      w.direction
    else
      0.0
  }

  /** The terms of `get_difference` between this track and a candidate blob:
      the edge penalty is taken at the candidate's column; it scales the
      position, area and aspect-ratio terms but not the temperature term; the
      direction term is 0 or the direction weight. */
  function DifferenceTerms(t: TrackedBlob, other: Shape, w: Weights): (r: Difference)
    requires w.frameWidth >= 2
    ensures r.edgePenalty == EdgePenalty(t.blob, other.centroid.x, w)
    ensures r.factors.position == PositionDifference(t, other, r.edgePenalty, w)
    ensures r.factors.area == Penalised(Abs((t.blob.numPixels - other.numPixels) as real), w.area, r.edgePenalty)
    ensures r.factors.aspectRatio == Penalised(Abs(t.blob.aspectRatio - other.aspectRatio), w.aspectRatio, r.edgePenalty)
    ensures r.factors.temperature == Weighted(Abs(t.blob.averageTemperature - other.averageTemperature), w.temperature)
    ensures r.factors.direction == DirectionDifference(t, w)
    ensures r.factors.direction == 0.0 || r.factors.direction == w.direction
    ensures r.deadFrame == t.numDeadFrames as real * w.deadFrame
  {
    var edge := EdgePenalty(t.blob, other.centroid.x, w);
    Difference(
      Factors(
        PositionDifference(t, other, edge, w),
        Penalised(Abs((t.blob.numPixels - other.numPixels) as real), w.area, edge),
        Penalised(Abs(t.blob.aspectRatio - other.aspectRatio), w.aspectRatio, edge),
        Weighted(Abs(t.blob.averageTemperature - other.averageTemperature), w.temperature),
        DirectionDifference(t, w)),
      t.numDeadFrames as real * w.deadFrame,
      edge)
  }

  /** `get_difference`: the sum of the position, area, aspect-ratio, temperature
      and direction terms. */
  function GetDifference(t: TrackedBlob, other: Shape, w: Weights): (r: real)
    requires w.frameWidth >= 2
    ensures var e := EdgePenalty(t.blob, other.centroid.x, w);
            r == PositionDifference(t, other, e, w)
                 + Penalised(Abs((t.blob.numPixels - other.numPixels) as real), w.area, e)
                 + Penalised(Abs(t.blob.aspectRatio - other.aspectRatio), w.aspectRatio, e)
                 + Weighted(Abs(t.blob.averageTemperature - other.averageTemperature), w.temperature)
                 + DirectionDifference(t, w)
  {
    Total(DifferenceTerms(t, other, w).factors)
  }

  /** The dead-frame term is computed but never summed: the score does not
      depend on how many frames the track has been missing. */
  lemma {:induction false} DifferenceIgnoresDeadFrames(t: TrackedBlob, other: Shape, w: Weights, k: int)
    requires w.frameWidth >= 2
    ensures GetDifference(t.(numDeadFrames := k), other, w) == GetDifference(t, other, w)
    ensures DifferenceTerms(t.(numDeadFrames := k), other, w).deadFrame == k as real * w.deadFrame
  {
    var t' := t.(numDeadFrames := k);
    assert t' == t.(numDeadFrames := k);
    SameGeometrySameFactors(t, t', other, w);
  }

  /** The factors read only the snapshot, the prediction and the update count. */
  lemma {:induction false} SameGeometrySameFactors(t: TrackedBlob, t': TrackedBlob, other: Shape, w: Weights)
    requires w.frameWidth >= 2
    requires t'.blob == t.blob && t'.predicted == t.predicted && t'.timesUpdated == t.timesUpdated
    ensures DifferenceTerms(t', other, w).factors == DifferenceTerms(t, other, w).factors
  {
    var e := EdgePenalty(t.blob, other.centroid.x, w);
    SameGeometrySameParts(t, t', other, w);
    assert DifferenceTerms(t, other, w).factors == Factors(
      PositionDifference(t, other, e, w),
      Penalised(Abs((t.blob.numPixels - other.numPixels) as real), w.area, e),
      Penalised(Abs(t.blob.aspectRatio - other.aspectRatio), w.aspectRatio, e),
      Weighted(Abs(t.blob.averageTemperature - other.averageTemperature), w.temperature),
      DirectionDifference(t, w));
  }

  lemma {:induction false} SameGeometrySameParts(t: TrackedBlob, t': TrackedBlob, other: Shape, w: Weights)
    requires w.frameWidth >= 2
    requires t'.blob == t.blob && t'.predicted == t.predicted && t'.timesUpdated == t.timesUpdated
    ensures var e := EdgePenalty(t.blob, other.centroid.x, w);
            && EdgePenalty(t'.blob, other.centroid.x, w) == e
            && PositionDifference(t', other, e, w) == PositionDifference(t, other, e, w)
            && DirectionDifference(t', w) == DirectionDifference(t, w)
  {
    SamePosition(t, t', other, EdgePenalty(t.blob, other.centroid.x, w), w);
    SameDirection(t, t', w);
  }

  lemma {:induction false} SamePosition(t: TrackedBlob, t': TrackedBlob, other: Shape, e: real, w: Weights)
    requires t'.blob == t.blob && t'.predicted == t.predicted
    ensures PositionDifference(t', other, e, w) == PositionDifference(t, other, e, w)
  {
    var from := if t.predicted.x >= 0.0 && t.predicted.y >= 0.0 then t.predicted else t.blob.centroid;
    assert from == if t'.predicted.x >= 0.0 && t'.predicted.y >= 0.0 then t'.predicted else t'.blob.centroid;
  }

  lemma {:induction false} SameDirection(t: TrackedBlob, t': TrackedBlob, w: Weights)
    requires t'.blob == t.blob && t'.predicted == t.predicted && t'.timesUpdated == t.timesUpdated
    ensures DirectionDifference(t', w) == DirectionDifference(t, w)
  {
  }

  /** The position term is the city-block distance from the reference point,
      weighted and scaled: the reference is the predicted position exactly when
      both its coordinates are non-negative, and the last centroid otherwise. */
  lemma {:induction false} PositionReference(t: TrackedBlob, other: Shape, e: real, w: Weights)
    ensures var from := if t.predicted.x >= 0.0 && t.predicted.y >= 0.0 then t.predicted else t.blob.centroid;
            PositionDifference(t, other, e, w)
            == (Abs(from.x - other.centroid.x) + Abs(from.y - other.centroid.y)) * w.position * e
  {
    var from := if t.predicted.x >= 0.0 && t.predicted.y >= 0.0 then t.predicted else t.blob.centroid;
    var dx := Abs(from.x - other.centroid.x);
    var dy := Abs(from.y - other.centroid.y);
    assert PositionDifference(t, other, e, w) == (dx * w.position + dy * w.position) * e;
    Distribute(dx, dy, w.position, e);
  }

  lemma {:induction false} Distribute(a: real, b: real, c: real, e: real)
    ensures (a * c + b * c) * e == (a + b) * c * e
  {
  }

  /** Away from the sides the edge penalty is 1: the area and aspect-ratio terms
      are the plain weighted gaps, and the temperature term never is scaled. */
  lemma {:induction false} AwayFromSidesUnscaled(t: TrackedBlob, other: Shape, w: Weights)
    requires w.frameWidth >= 2
    requires !IsTouchingSide(t.blob, w)
    ensures var f := DifferenceTerms(t, other, w).factors;
            && f.area == Abs((t.blob.numPixels - other.numPixels) as real) * w.area
            && f.aspectRatio == Abs(t.blob.aspectRatio - other.aspectRatio) * w.aspectRatio
            && f.temperature == Abs(t.blob.averageTemperature - other.averageTemperature) * w.temperature
  {
    assert EdgePenalty(t.blob, other.centroid.x, w) == 1.0;
  }

  /** For a candidate inside the frame and a non-negative area weight, touching
      a side only softens the area term: it lies between 0 and its unpenalised
      value. */
  lemma {:induction false} TouchingSideSoftensArea(t: TrackedBlob, other: Shape, w: Weights)
    requires w.frameWidth >= 2 && w.area >= 0.0
    requires 0.0 <= other.centroid.x <= (2 * CDiv(w.frameWidth, 2)) as real
    ensures 0.0 <= DifferenceTerms(t, other, w).factors.area
                 <= Weighted(Abs((t.blob.numPixels - other.numPixels) as real), w.area)
  {
    EdgePenaltyInUnitRange(t, other, w);
    Softened(Abs((t.blob.numPixels - other.numPixels) as real), w.area, DifferenceTerms(t, other, w).edgePenalty);
  }

  /** Likewise the aspect-ratio term lies between 0 and its unpenalised value. */
  lemma {:induction false} TouchingSideSoftensAspectRatio(t: TrackedBlob, other: Shape, w: Weights)
    requires w.frameWidth >= 2 && w.aspectRatio >= 0.0
    requires 0.0 <= other.centroid.x <= (2 * CDiv(w.frameWidth, 2)) as real
    ensures 0.0 <= DifferenceTerms(t, other, w).factors.aspectRatio
                 <= Weighted(Abs(t.blob.aspectRatio - other.aspectRatio), w.aspectRatio)
  {
    EdgePenaltyInUnitRange(t, other, w);
    Softened(Abs(t.blob.aspectRatio - other.aspectRatio), w.aspectRatio, DifferenceTerms(t, other, w).edgePenalty);
  }

  /** Likewise the position term lies between 0 and its unpenalised value. */
  lemma {:induction false} TouchingSideSoftensPosition(t: TrackedBlob, other: Shape, w: Weights)
    requires w.frameWidth >= 2 && w.position >= 0.0
    requires 0.0 <= other.centroid.x <= (2 * CDiv(w.frameWidth, 2)) as real
    ensures 0.0 <= DifferenceTerms(t, other, w).factors.position <= PositionDifference(t, other, 1.0, w)
  {
    EdgePenaltyInUnitRange(t, other, w);
    PositionScaledDown(t, other, DifferenceTerms(t, other, w).edgePenalty, w);
  }

  /** For a candidate inside the frame the edge penalty lies in [0, 1]. */
  lemma {:induction false} EdgePenaltyInUnitRange(t: TrackedBlob, other: Shape, w: Weights)
    requires w.frameWidth >= 2
    requires 0.0 <= other.centroid.x <= (2 * CDiv(w.frameWidth, 2)) as real
    ensures 0.0 <= DifferenceTerms(t, other, w).edgePenalty <= 1.0
  {
  }

  /** A weighted gap scaled by a penalty in [0, 1] lies between 0 and the
      weighted gap. */
  lemma {:induction false} Softened(gap: real, weight: real, e: real)
    requires gap >= 0.0 && weight >= 0.0 && 0.0 <= e <= 1.0
    ensures 0.0 <= Penalised(gap, weight, e) <= Weighted(gap, weight)
  {
    ScaleDown(gap, weight, e);
  }

  /** The position term under a penalty in [0, 1] lies between 0 and its
      unpenalised value. */
  lemma {:induction false} PositionScaledDown(t: TrackedBlob, other: Shape, e: real, w: Weights)
    requires w.position >= 0.0 && 0.0 <= e <= 1.0
    ensures 0.0 <= PositionDifference(t, other, e, w) <= PositionDifference(t, other, 1.0, w)
  {
    var from := if t.predicted.x >= 0.0 && t.predicted.y >= 0.0 then t.predicted else t.blob.centroid;
    var x := Abs(from.x - other.centroid.x) * w.position + Abs(from.y - other.centroid.y) * w.position;
    MulNonNegative(Abs(from.x - other.centroid.x), w.position);
    MulNonNegative(Abs(from.y - other.centroid.y), w.position);
    assert PositionDifference(t, other, e, w) == x * e;
    assert PositionDifference(t, other, 1.0, w) == x * 1.0;
    Shrink(x, e);
  }

  lemma {:induction false} Shrink(x: real, e: real)
    requires x >= 0.0 && 0.0 <= e <= 1.0
    ensures 0.0 <= x * e <= x
  {
    MulNonNegative(x, e);
    MulNonNegative(x, 1.0 - e);
  }

  /** Scaling a non-negative quantity by a factor in [0, 1] cannot grow it. */
  lemma {:induction false} ScaleDown(gap: real, weight: real, e: real)
    requires gap >= 0.0 && weight >= 0.0 && 0.0 <= e <= 1.0
    ensures 0.0 <= gap * weight * e <= gap * weight
  {
    MulNonNegative(gap, weight);
    MulNonNegative(gap * weight, e);
    MulNonNegative(gap * weight, 1.0 - e);
  }

  /** With non-negative weights and a non-negative edge penalty every term, and
      so the score, is non-negative. */
  lemma {:induction false} DifferenceNonNegative(t: TrackedBlob, other: Shape, w: Weights)
    requires w.frameWidth >= 2
    requires w.position >= 0.0 && w.area >= 0.0 && w.aspectRatio >= 0.0
    requires w.temperature >= 0.0 && w.direction >= 0.0
    requires EdgePenalty(t.blob, other.centroid.x, w) >= 0.0
    ensures GetDifference(t, other, w) >= 0.0
  {
    var f := DifferenceTerms(t, other, w).factors;
    assert f.position >= 0.0 && f.area >= 0.0 && f.aspectRatio >= 0.0;
    assert f.temperature >= 0.0 && f.direction >= 0.0;
    assert GetDifference(t, other, w) == Total(f);
  }

  lemma {:induction false} MulNonNegative(a: real, b: real)
    ensures a >= 0.0 && b >= 0.0 ==> a * b >= 0.0
  {
  }

  /** As written the direction penalty ignores the accumulated travel: it is
      charged exactly when the track is away from the sides, has been updated
      more than once, and its last step was at least one pixel to the left. */
  lemma {:induction false} DirectionPenaltyAsWritten(t: TrackedBlob, w: Weights, v: Vec2)
    requires w.direction != 0.0
    ensures DirectionDifference(t.(travel := v), w) == DirectionDifference(t, w)
    ensures DirectionDifference(t, w) == w.direction <==>
              !IsTouchingSide(t.blob, w) && t.timesUpdated > 1 && t.predicted.x - t.blob.centroid.x <= -1.0
  {
    var d := t.predicted.x - t.blob.centroid.x;
    assert TruncToInt(d) < 0 <==> d <= -1.0 by {
      if d < 0.0 {
        assert TruncToInt(d) == -((-d).Floor);
      }
    }
  }

  /** `update_movements`: the latest step is the move of the centroid, the
      prediction extrapolates one more step, the signed travel accumulates the
      step and the integer travel total accumulates its size, truncated. */
  function UpdateMovements(t: TrackedBlob, b: Blob): (r: TrackedBlob)
    ensures r.predicted.x - b.shape.centroid.x == b.shape.centroid.x - t.blob.centroid.x
    ensures r.predicted.y - b.shape.centroid.y == b.shape.centroid.y - t.blob.centroid.y
    ensures r.travel.x - t.travel.x == b.shape.centroid.x - t.blob.centroid.x
    ensures r.travel.y - t.travel.y == b.shape.centroid.y - t.blob.centroid.y
    ensures t.totalTravelX >= 0 ==>
              r.totalTravelX == t.totalTravelX + Abs(b.shape.centroid.x - t.blob.centroid.x).Floor
    ensures t.totalTravelY >= 0 ==>
              r.totalTravelY == t.totalTravelY + Abs(b.shape.centroid.y - t.blob.centroid.y).Floor
    ensures r == t.(predicted := r.predicted, travel := r.travel,
                    totalTravelX := r.totalTravelX, totalTravelY := r.totalTravelY)
  {
    var mx := b.shape.centroid.x - t.blob.centroid.x;
    var my := b.shape.centroid.y - t.blob.centroid.y;
    t.(predicted := Vec2(b.shape.centroid.x + mx, b.shape.centroid.y + my),
       travel := Vec2(t.travel.x + mx, t.travel.y + my),
       totalTravelX := TruncToInt(t.totalTravelX as real + Abs(mx)),
       totalTravelY := TruncToInt(t.totalTravelY as real + Abs(my)))
  }

  /** `update_geometry`: raise the high-water marks to the new blob. */
  function UpdateGeometry(t: TrackedBlob, b: Blob): (r: TrackedBlob)
    ensures r.maxSize >= Size(b) && r.maxSize >= t.maxSize && (r.maxSize == Size(b) || r.maxSize == t.maxSize)
    ensures r.maxWidth >= b.shape.width && r.maxWidth >= t.maxWidth
    ensures r.maxWidth == b.shape.width || r.maxWidth == t.maxWidth
    ensures r.maxHeight >= b.shape.height && r.maxHeight >= t.maxHeight
    ensures r.maxHeight == b.shape.height || r.maxHeight == t.maxHeight
    ensures r == t.(maxSize := r.maxSize, maxWidth := r.maxWidth, maxHeight := r.maxHeight)
  {
    t.(maxSize := if Size(b) > t.maxSize then Size(b) else t.maxSize,
       maxWidth := if b.shape.width > t.maxWidth then b.shape.width else t.maxWidth,
       maxHeight := if b.shape.height > t.maxHeight then b.shape.height else t.maxHeight)
  }

  /** One step of a running mean over `n` earlier samples. */
  function RunningMean(average: real, n: int, sample: real): real
    requires n >= 0
  {
    (average * n as real + sample) / (n + 1) as real
  }

  function MeanFactors(average: Factors, n: int, sample: Factors): Factors
    requires n >= 0
  {
    Factors(
      RunningMean(average.position, n, sample.position),
      RunningMean(average.area, n, sample.area),
      RunningMean(average.aspectRatio, n, sample.aspectRatio),
      RunningMean(average.temperature, n, sample.temperature),
      RunningMean(average.direction, n, sample.direction))
  }

  /** `update_differences`: fold the score against `b` into the running mean and
      the maximum, and each factor into its running mean. */
  function UpdateDifferences(t: TrackedBlob, b: Blob, w: Weights): (r: TrackedBlob)
    requires w.frameWidth >= 2 && t.timesUpdated >= 0
    ensures var d := GetDifference(t, b.shape, w);
            && r.averageDifference == RunningMean(t.averageDifference, t.timesUpdated, d)
            && r.maxDifference >= d && r.maxDifference >= t.maxDifference
            && (r.maxDifference == d || r.maxDifference == t.maxDifference)
    ensures r == t.(averageDifference := r.averageDifference, maxDifference := r.maxDifference,
                    averageFactors := r.averageFactors)
  {
    var f := DifferenceTerms(t, b.shape, w).factors;
    var d := Total(f);
    t.(averageDifference := RunningMean(t.averageDifference, t.timesUpdated, d),
       maxDifference := if d > t.maxDifference then d else t.maxDifference,
       averageFactors := MeanFactors(t.averageFactors, t.timesUpdated, f))
  }

  /** `update_blob`: record a match with `b`. */
  function UpdateBlob(t: TrackedBlob, b: Blob, w: Weights): (r: TrackedBlob)
    requires w.frameWidth >= 2 && t.timesUpdated >= 0
    ensures r.blob == b.shape && r.hasUpdated
    ensures r.timesUpdated == t.timesUpdated + 1
    ensures r.numDeadFrames == 0
    ensures r.maxNumDeadFrames >= t.numDeadFrames && r.maxNumDeadFrames >= t.maxNumDeadFrames
    ensures r.maxNumDeadFrames == t.numDeadFrames || r.maxNumDeadFrames == t.maxNumDeadFrames
    ensures r.id == t.id && r.startPos == t.startPos
    ensures TravelFromStart(t) ==> TravelFromStart(r)
    ensures HighWater(r)
    ensures t.totalTravelX >= 0 ==> r.totalTravelX >= t.totalTravelX
    ensures t.totalTravelY >= 0 ==> r.totalTravelY >= t.totalTravelY
    ensures IsActive(b) <==> IsTracking(r)
  {
    var differences := UpdateDifferences(t, b, w);
    var moved := UpdateMovements(differences, b);
    var copied := moved.(blob := b.shape);
    var grown := UpdateGeometry(copied, b);
    grown.(hasUpdated := true,
           maxNumDeadFrames := if t.numDeadFrames > t.maxNumDeadFrames then t.numDeadFrames else t.maxNumDeadFrames,
           numDeadFrames := 0,
           timesUpdated := t.timesUpdated + 1)
  }

  /** The track after matching it, in order, with each blob of `bs`. */
  function UpdateAll(t: TrackedBlob, bs: seq<Blob>, w: Weights): (r: TrackedBlob)
    requires w.frameWidth >= 2 && t.timesUpdated >= 0
    ensures r.timesUpdated == t.timesUpdated + |bs|
  {
    if |bs| == 0 then t else UpdateBlob(UpdateAll(t, bs[..|bs| - 1], w), bs[|bs| - 1], w)
  }

  /** The factors of the score recorded at each of those matches. */
  function RecordedFactors(t: TrackedBlob, bs: seq<Blob>, w: Weights): (r: seq<Factors>)
    requires w.frameWidth >= 2 && t.timesUpdated >= 0
    ensures |r| == |bs|
  {
    if |bs| == 0 then []
    else
      var before := UpdateAll(t, bs[..|bs| - 1], w);
      RecordedFactors(t, bs[..|bs| - 1], w) + [DifferenceTerms(before, bs[|bs| - 1].shape, w).factors]
  }

  function AddFactors(a: Factors, b: Factors): Factors {
    Factors(a.position + b.position, a.area + b.area, a.aspectRatio + b.aspectRatio,
            a.temperature + b.temperature, a.direction + b.direction)
  }

  function SumFactors(fs: seq<Factors>): Factors {
    if |fs| == 0 then ZeroFactors else AddFactors(SumFactors(fs[..|fs| - 1]), fs[|fs| - 1])
  }

  function Scale(f: Factors, k: real): Factors {
    Factors(f.position * k, f.area * k, f.aspectRatio * k, f.temperature * k, f.direction * k)
  }

  /** What `update_blob` does to the difference statistics. */
  lemma {:induction false} UpdateStatistics(t: TrackedBlob, b: Blob, w: Weights)
    requires w.frameWidth >= 2 && t.timesUpdated >= 0
    ensures var f := DifferenceTerms(t, b.shape, w).factors;
            var r := UpdateBlob(t, b, w);
            && r.averageDifference == RunningMean(t.averageDifference, t.timesUpdated, Total(f))
            && r.averageFactors == MeanFactors(t.averageFactors, t.timesUpdated, f)
            && r.maxDifference == if Total(f) > t.maxDifference then Total(f) else t.maxDifference
  {
  }

  /** One running-mean step keeps "average times count equals sum". */
  lemma {:induction false} RunningMeanStep(average: real, n: int, sum: real, sample: real)
    requires n >= 0
    requires average * n as real == sum
    ensures RunningMean(average, n, sample) * (n + 1) as real == sum + sample
  {
    var k := (n + 1) as real;
    assert RunningMean(average, n, sample) == (sum + sample) / k;
  }

  /** One running-mean step per factor keeps "average times count equals sum". */
  lemma {:induction false} MeanFactorsStep(average: Factors, n: int, sum: Factors, sample: Factors)
    requires n >= 0
    requires Scale(average, n as real) == sum
    ensures Scale(MeanFactors(average, n, sample), (n + 1) as real) == AddFactors(sum, sample)
  {
    var m := MeanFactors(average, n, sample);
    assert m.position * (n + 1) as real == sum.position + sample.position;
    assert m.area * (n + 1) as real == sum.area + sample.area;
    assert m.aspectRatio * (n + 1) as real == sum.aspectRatio + sample.aspectRatio;
    assert m.temperature * (n + 1) as real == sum.temperature + sample.temperature;
    assert m.direction * (n + 1) as real == sum.direction + sample.direction;
  }

  /** "Average times count equals sum" for the overall score and for each factor. */
  predicate MeanInvariant(average: real, averageFactors: Factors, fs: seq<Factors>) {
    && average * |fs| as real == Total(SumFactors(fs))
    && Scale(averageFactors, |fs| as real) == SumFactors(fs)
  }

  /** One running-mean step per statistic extends the mean invariant by one record. */
  lemma {:induction false} MeanInvariantStep(average: real, averageFactors: Factors, fs: seq<Factors>, f: Factors)
    requires MeanInvariant(average, averageFactors, fs)
    ensures MeanInvariant(RunningMean(average, |fs|, Total(f)), MeanFactors(averageFactors, |fs|, f), fs + [f])
  {
    SumFactorsSnoc(fs, f);
    ScoreMeanStep(average, |fs|, SumFactors(fs), f, |fs + [f]|);
    FactorsMeanStep(averageFactors, |fs|, SumFactors(fs), f, |fs + [f]|);
  }

  /** The overall-score half of the step, stated on the sums; `k` is the new count. */
  lemma {:induction false} ScoreMeanStep(average: real, n: int, sum: Factors, f: Factors, k: int)
    requires n >= 0 && k == n + 1
    requires average * n as real == Total(sum)
    ensures RunningMean(average, n, Total(f)) * k as real == Total(AddFactors(sum, f))
  {
    RunningMeanStep(average, n, Total(sum), Total(f));
    TotalAdd(sum, f);
  }

  /** The per-factor half of the step; `k` is the new count. */
  lemma {:induction false} FactorsMeanStep(average: Factors, n: int, sum: Factors, f: Factors, k: int)
    requires n >= 0 && k == n + 1
    requires Scale(average, n as real) == sum
    ensures Scale(MeanFactors(average, n, f), k as real) == AddFactors(sum, f)
  {
    MeanFactorsStep(average, n, sum, f);
  }

  /** Summing one more record adds it to the sum. */
  lemma {:induction false} SumFactorsSnoc(fs: seq<Factors>, f: Factors)
    ensures SumFactors(fs + [f]) == AddFactors(SumFactors(fs), f)
  {
    assert (fs + [f])[..|fs|] == fs;
  }

  /** The overall score of a sum of factors is the sum of the overall scores. */
  lemma {:induction false} TotalAdd(a: Factors, b: Factors)
    ensures Total(AddFactors(a, b)) == Total(a) + Total(b)
  {
  }

  /** Every recorded score is at most `bound`. */
  predicate BoundsAll(fs: seq<Factors>, bound: real) {
    forall k :: 0 <= k < |fs| ==> Total(fs[k]) <= bound
  }

  /** One match extends the maximum bound from the earlier records to the new one. */
  lemma {:induction false} MaxStep(before: TrackedBlob, b: Blob, w: Weights, fs: seq<Factors>)
    requires w.frameWidth >= 2 && before.timesUpdated >= 0
    requires BoundsAll(fs, before.maxDifference)
    ensures var r := UpdateBlob(before, b, w);
            && BoundsAll(fs + [DifferenceTerms(before, b.shape, w).factors], r.maxDifference)
            && r.maxDifference >= before.maxDifference
  {
    var f := DifferenceTerms(before, b.shape, w).factors;
    var r := UpdateBlob(before, b, w);
    UpdateStatistics(before, b, w);
    var fs' := fs + [f];
    forall k | 0 <= k < |fs'|
      ensures Total(fs'[k]) <= r.maxDifference
    {
      if k < |fs| {
        assert fs'[k] == fs[k];
      } else {
        assert fs'[k] == f;
      }
    }
  }

  /** Starting from a fresh track, the `average_*` statistics are the arithmetic
      means of the scores and factors recorded at the matches so far. */
  lemma {:induction false} StatisticsAreMeans(t: TrackedBlob, bs: seq<Blob>, w: Weights)
    requires w.frameWidth >= 2
    requires t.timesUpdated == 0 && t.averageDifference == 0.0 && t.averageFactors == ZeroFactors
    ensures var r := UpdateAll(t, bs, w);
            MeanInvariant(r.averageDifference, r.averageFactors, RecordedFactors(t, bs, w))
  {
    if |bs| > 0 {
      var bs' := bs[..|bs| - 1];
      var b := bs[|bs| - 1];
      StatisticsAreMeans(t, bs', w);
      var before := UpdateAll(t, bs', w);
      var f := DifferenceTerms(before, b.shape, w).factors;
      UpdateStatistics(before, b, w);
      MeanInvariantStep(before.averageDifference, before.averageFactors, RecordedFactors(t, bs', w), f);
      assert UpdateAll(t, bs, w) == UpdateBlob(before, b, w);
      assert RecordedFactors(t, bs, w) == RecordedFactors(t, bs', w) + [f];
    }
  }

  /** `max_difference` bounds every score recorded at a match, and never falls. */
  lemma {:induction false} MaxBoundsRecorded(t: TrackedBlob, bs: seq<Blob>, w: Weights)
    requires w.frameWidth >= 2 && t.timesUpdated >= 0
    ensures var r := UpdateAll(t, bs, w);
            && BoundsAll(RecordedFactors(t, bs, w), r.maxDifference)
            && r.maxDifference >= t.maxDifference
  {
    if |bs| > 0 {
      var bs' := bs[..|bs| - 1];
      var b := bs[|bs| - 1];
      MaxBoundsRecorded(t, bs', w);
      var before := UpdateAll(t, bs', w);
      MaxStep(before, b, w, RecordedFactors(t, bs', w));
      assert UpdateAll(t, bs, w) == UpdateBlob(before, b, w);
      assert RecordedFactors(t, bs, w) == RecordedFactors(t, bs', w) + [DifferenceTerms(before, b.shape, w).factors];
    }
  }
}
