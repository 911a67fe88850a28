/** The tracker as a whole: one call of `update` per sensor frame.

    While the background is being built every frame goes into it and nothing
    is tracked. Afterwards each frame is reduced to its active pixels, grouped
    into blobs, cleared of small blobs and handed to the track table. The
    frame is folded into the rolling background only when it shows no blob,
    or when blobs have been in view for more than `UNCHANGED_FRAME_DELAY`
    frames in a row.

    The frame, the square root and the pixel adjacency are parameters; the
    object state is an immutable record returned by each call.
 */
module Tracker {
  import opened Config
  import opened Tables
  import opened Pixels
  import opened Blobs
  import opened TrackedBlobs
  import opened Movements
  import opened Background
  import opened Detection
  import opened TrackTable

  datatype State = State(
    background: Background,
    tracks: seq<TrackedBlob>,
    log: MovementLog,
    unchangedFrames: int,
    lastBlobs: int,
    nextId: int)

  predicate Valid(t: State) {
    && ValidBackground(t.background)
    && |t.tracks| == MAX_BLOBS && Counted(t.tracks)
    && ValidLog(t.log)
  }

  /** Settings a frame can be processed under: the finishing warm-up frame
      divides by `runningAverageSize - 1`, the rolling refresh by
      `runningAverageSize`, and the edge penalty by half the frame width. */
  predicate Processable(t: State, s: Settings) {
    && s.runningAverageSize >= 1
    && (t.background.count + 1 == s.runningAverageSize ==> s.runningAverageSize >= 2)
    && s.weights.frameWidth >= 2
  }

  // ---------------------------------------------------------------------------
  // The activity check

  /** The counter of consecutive frames with blobs, and whether this frame
      goes into the background. */
  datatype Gate = Gate(unchangedFrames: int, addFrame: bool)

  /** The activity check of `update`: a frame with blobs bumps the counter and
      is kept out of the background until the counter passes the delay; a
      frame without blobs resets the counter and refreshes the background. */
  function Activity(busy: int, numBlobs: int): (r: Gate)
    ensures numBlobs > 0 ==> r.unchangedFrames == busy + 1
    ensures numBlobs <= 0 ==> r.unchangedFrames == 0 && r.addFrame
  {
    if numBlobs > 0 then
      var u := busy + 1;
      Gate(u, u > UNCHANGED_FRAME_DELAY)
    else
      Gate(0, true)
  }

  /** The counter after a run of frames with the given blob counts. */
  function Run(busy: int, counts: seq<int>): int {
    if |counts| == 0 then busy
    else Activity(Run(busy, counts[..|counts| - 1]), counts[|counts| - 1]).unchangedFrames
  }

  /** The counter counts the frames with blobs since the last frame without
      one: after a busy run it has grown by the length of the run. */
  lemma {:induction false} RunCountsBusyFrames(busy: int, counts: seq<int>)
    requires forall k :: 0 <= k < |counts| ==> counts[k] > 0
    ensures Run(busy, counts) == busy + |counts|
  {
    if |counts| > 0 {
      RunCountsBusyFrames(busy, counts[..|counts| - 1]);
    }
  }

  /** A frame without blobs restarts the count, whatever came before. */
  lemma {:induction false} RunRestarts(busy: int, counts: seq<int>, rest: seq<int>)
    requires forall k :: 0 <= k < |rest| ==> rest[k] > 0
    ensures Run(busy, counts + [0] + rest) == |rest|
  {
    var all := counts + [0] + rest;
    if |rest| == 0 {
      assert all[..|all| - 1] == counts;
    } else {
      assert all[..|all| - 1] == counts + [0] + rest[..|rest| - 1];
      RunRestarts(busy, counts, rest[..|rest| - 1]);
    }
  }

  /** Starting from a frame without blobs, a run of frames with blobs keeps
      the background frozen exactly for its first `UNCHANGED_FRAME_DELAY`
      frames: the next busy frame is folded in iff the run is already that long. */
  lemma {:induction false} FrozenForDelay(counts: seq<int>, next: int)
    requires forall k :: 0 <= k < |counts| ==> counts[k] > 0
    requires next > 0
    ensures Activity(Run(0, counts), next).addFrame <==> |counts| >= UNCHANGED_FRAME_DELAY
  {
    RunCountsBusyFrames(0, counts);
  }

  // ---------------------------------------------------------------------------
  // One frame

  /** `update`. Returns the new state and the blob table the frame produced
      (empty while the background is being built). Once the background is
      finished, the blob table is the one the frame's active pixels group into,
      with its small blobs removed; the new track table, log and id are what
      `track_blobs` makes of that table, and every track matched in the frame
      and still tracking is in the new table. */
  method Update(t: State, frame: Grid, s: Settings, sqrt: real -> real, adj: Adjacency)
    returns (t': State, blobs: seq<Blob>)
    requires Valid(t) && IsGrid(frame) && Processable(t, s)
    ensures Valid(t') && |blobs| == MAX_BLOBS
    ensures !IsBackgroundFinished(t.background, s.runningAverageSize) ==>
              && t'.background == BuildBackground(t.background, frame, s.runningAverageSize, sqrt)
              && t'.background.count == t.background.count + 1
              && t'.tracks == t.tracks && t'.log == t.log && t'.nextId == t.nextId
              && t'.unchangedFrames == t.unchangedFrames && t'.lastBlobs == t.lastBlobs
    ensures IsBackgroundFinished(t.background, s.runningAverageSize) ==>
              var gate := Activity(t.unchangedFrames, t'.lastBlobs);
              && t'.background.count == t.background.count
              && blobs == Padded(Survivors(BlobTable(Extract(ActiveUpToRow(t.background, frame, s, FRAME_HEIGHT), 0, adj).groups),
                                           s.minBlobSize))
              && (exists matched, marked, rows, cols ::
                    && TrackedFrame(t.tracks, blobs, t.log, t.nextId, s, matched, marked, rows, cols,
                                    t'.tracks, t'.log, t'.nextId)
                    && forall k :: 0 <= k < |matched| && IsUpdated(matched[k]) && IsTracking(matched[k]) ==>
                         matched[k] in t'.tracks)
              && t'.lastBlobs == NumBlobs(blobs) <= MAX_BLOBS
              && (forall k :: 0 <= k < MAX_BLOBS && IsActive(blobs[k]) ==> Size(blobs[k]) >= s.minBlobSize)
              && t'.unchangedFrames == gate.unchangedFrames
              && (gate.addFrame ==> t'.background == AddFrameToBackground(t.background, frame, s.runningAverageSize))
              && (!gate.addFrame ==> t'.background == t.background)
              && NoOverdue(t'.tracks, s.maxDeadFrames)
              && t.nextId <= t'.nextId
  {
    blobs := seq(MAX_BLOBS, _ => EmptyBlob);
    if !IsBackgroundFinished(t.background, s.runningAverageSize) {
      t' := t.(background := BuildBackground(t.background, frame, s.runningAverageSize, sqrt));
      return;
    }
    var addFrame := true;
    var active := GetActivePixels(t.background, frame, s);
    var found, numFound := GetBlobs(active, adj);
    blobs := RemoveSmallBlobs(found, s.minBlobSize);
    NoSmallBlobLeft(found, s.minBlobSize);
    var numBlobs := Count(blobs, IsActive);
    var busy := t.unchangedFrames;
    if numBlobs > 0 {
      addFrame := false;
      busy := busy + 1;
      if busy > UNCHANGED_FRAME_DELAY {
        addFrame := true;
      }
    } else {
      busy := 0;
    }
    var matched, marked, rows, cols, tracks, log, id := TrackBlobs(blobs, t.tracks, t.log, t.nextId, s);
    TrackedFrameKeepsMatched(t.tracks, blobs, t.log, t.nextId, s, matched, marked, rows, cols, tracks, log, id);
    var bg := t.background;
    if addFrame {
      bg := AddFrameToBackground(bg, frame, s.runningAverageSize);
    }
    t' := State(bg, tracks, log, busy, numBlobs, id);
  }

  /** `get_num_last_blobs`. */
  function LastBlobs(t: State): int {
    t.lastBlobs
  }

  /** `reset_background`: the next frames rebuild the background; tracking
      state is untouched. */
  function Reset(t: State): (r: State)
    ensures forall size :: size > 0 ==> !IsBackgroundFinished(r.background, size)
    ensures r.tracks == t.tracks && r.log == t.log && r.nextId == t.nextId
  {
    t.(background := ResetBackground(t.background))
  }
}
