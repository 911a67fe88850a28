/** New tracks as `add_remaining_blobs_to_tracked` writes them.

    The loop writes the first new track at index `num_updated_blobs`, the
    number of tracks matched this frame, and the following ones after it.
    Ageing keeps tracks in table order, so a track that was missed this frame
    but is still within its dead frames can sit below an updated one; the
    write at `num_updated_blobs` then lands on a live track. This module
    models the loop as written and exhibits such a table; `TrackTable`
    places new tracks in free slots instead.
 */
module PlacementAsWritten {
  import opened Config
  import opened Tables
  import opened Blobs
  import opened TrackedBlobs
  import opened TrackTable

  /** The blobs that still need a track, in table order. */
  function Unassigned(bs: seq<Blob>): (r: seq<Blob>)
    ensures |r| <= |bs|
  {
    if |bs| == 0 then []
    else if IsUnassignedActive(bs[|bs| - 1]) then Unassigned(bs[..|bs| - 1]) + [bs[|bs| - 1]]
    else Unassigned(bs[..|bs| - 1])
  }

  lemma {:induction false} UnassignedStep(bs: seq<Blob>, i: int)
    requires 0 <= i < |bs|
    ensures Unassigned(bs[..i + 1]) == Unassigned(bs[..i]) + (if IsUnassignedActive(bs[i]) then [bs[i]] else [])
  {
    assert bs[..i + 1][..i] == bs[..i];
  }

  /** `Unassigned` holds exactly the unassigned active blobs: as many as
      `get_num_unassigned_blobs` counts, and each one unassigned and active. */
  lemma {:induction false} UnassignedCount(bs: seq<Blob>)
    ensures |Unassigned(bs)| == CountIf(bs, IsUnassignedActive)
    ensures forall k :: 0 <= k < |Unassigned(bs)| ==> IsUnassignedActive(Unassigned(bs)[k])
  {
    if |bs| > 0 {
      UnassignedCount(bs[..|bs| - 1]);
    }
  }

  /** Once no unassigned active blob is left after `i`, the rest adds nothing. */
  lemma {:induction false} UnassignedRest(bs: seq<Blob>, i: int)
    requires 0 <= i <= |bs| && CountIf(bs[i..], IsUnassignedActive) == 0
    ensures Unassigned(bs[..i]) == Unassigned(bs)
    decreases |bs|
  {
    if i == |bs| {
      assert bs[..i] == bs;
    } else {
      NoneInInit(bs, i, IsUnassignedActive);
      UnassignedRest(bs[..|bs| - 1], i);
    }
  }

  /** The table after placing `news` from slot `u` on with ids counting up
      from `id0`: slot `u + j` holds the `j`-th new track, every other slot is
      untouched. */
  predicate PlacedAt(tracks: seq<TrackedBlob>, ts: seq<TrackedBlob>, u: int, news: seq<Blob>, id0: int)
    requires |ts| == |tracks| && 0 <= u && u + |news| <= |tracks|
  {
    && (forall j :: 0 <= j < |news| ==> ts[u + j] == SetTrackWithId(tracks[u + j], news[j], id0 + j))
    && (forall k :: 0 <= k < |tracks| && !(u <= k < u + |news|) ==> ts[k] == tracks[k])
  }

  /** Placing one more blob just after the ones already placed. */
  lemma {:induction false} PlacedAtStep(tracks: seq<TrackedBlob>, ts: seq<TrackedBlob>, u: int, news: seq<Blob>,
                                        id0: int, b: Blob)
    requires |ts| == |tracks| && 0 <= u && u + |news| < |tracks|
    requires PlacedAt(tracks, ts, u, news, id0)
    ensures var slot := u + |news|;
            PlacedAt(tracks, ts[slot := SetTrackWithId(ts[slot], b, id0 + |news|)], u, news + [b], id0)
  {
    var slot := u + |news|;
    var news' := news + [b];
    var ts' := ts[slot := SetTrackWithId(ts[slot], b, id0 + |news|)];
    assert ts[slot] == tracks[slot];
    forall j | 0 <= j < |news'| ensures ts'[u + j] == SetTrackWithId(tracks[u + j], news'[j], id0 + j) {
      if j < |news| {
        assert news'[j] == news[j];
      }
    }
  }

  /** The state of the as-written placement loop after visiting `i` blobs. */
  predicate Filling(tracks: seq<TrackedBlob>, blobs: seq<Blob>, ts: seq<TrackedBlob>, id: int, nextId: int,
                    slot: int, left: int, i: int)
    requires |tracks| == MAX_BLOBS && |blobs| == MAX_BLOBS && 0 <= i <= MAX_BLOBS
  {
    var news := Unassigned(blobs[..i]);
    var u := CountIf(tracks, IsUpdated);
    && |ts| == MAX_BLOBS
    && slot == u + |news| && id == nextId + |news|
    && left == CountIf(blobs[i..], IsUnassignedActive)
    && |news| + left == CountIf(blobs, IsUnassignedActive)
    && u + CountIf(blobs, IsUnassignedActive) <= MAX_BLOBS
    && PlacedAt(tracks, ts, u, news, nextId)
  }

  lemma {:induction false} FillStart(tracks: seq<TrackedBlob>, blobs: seq<Blob>, nextId: int)
    requires |tracks| == MAX_BLOBS && |blobs| == MAX_BLOBS
    requires CountIf(tracks, IsUpdated) + CountIf(blobs, IsUnassignedActive) <= MAX_BLOBS
    ensures Filling(tracks, blobs, tracks, nextId, nextId, CountIf(tracks, IsUpdated),
                    CountIf(blobs, IsUnassignedActive), 0)
  {
    assert blobs[..0] == [] && blobs[0..] == blobs;
  }

  /** Placing an unassigned active blob writes slot `num_updated_blobs`. */
  lemma {:induction false} FillStep(tracks: seq<TrackedBlob>, blobs: seq<Blob>, ts: seq<TrackedBlob>, id: int,
                                    nextId: int, slot: int, left: int, i: int)
    requires |tracks| == MAX_BLOBS && |blobs| == MAX_BLOBS && 0 <= i < MAX_BLOBS
    requires Filling(tracks, blobs, ts, id, nextId, slot, left, i)
    requires IsUnassignedActive(blobs[i])
    ensures 0 <= slot < MAX_BLOBS
    ensures Filling(tracks, blobs, ts[slot := SetTrackWithId(ts[slot], blobs[i], id)], id + 1, nextId,
                    slot + 1, left - 1, i + 1)
  {
    UnassignedStep(blobs, i);
    LeftStep(blobs, i);
    PlacedAtStep(tracks, ts, CountIf(tracks, IsUpdated), Unassigned(blobs[..i]), nextId, blobs[i]);
  }

  /** Skipping a blob that needs no track. */
  lemma {:induction false} SkipStep(tracks: seq<TrackedBlob>, blobs: seq<Blob>, ts: seq<TrackedBlob>, id: int,
                                    nextId: int, slot: int, left: int, i: int)
    requires |tracks| == MAX_BLOBS && |blobs| == MAX_BLOBS && 0 <= i < MAX_BLOBS
    requires Filling(tracks, blobs, ts, id, nextId, slot, left, i)
    requires !IsUnassignedActive(blobs[i])
    ensures Filling(tracks, blobs, ts, id, nextId, slot, left, i + 1)
  {
    UnassignedStep(blobs, i);
    LeftStep(blobs, i);
    assert Unassigned(blobs[..i + 1]) == Unassigned(blobs[..i]);
  }

  /** The loop stops when no unassigned blob is left or the table is visited. */
  lemma {:induction false} FillDone(tracks: seq<TrackedBlob>, blobs: seq<Blob>, ts: seq<TrackedBlob>, id: int,
                                    nextId: int, slot: int, left: int, i: int)
    requires |tracks| == MAX_BLOBS && |blobs| == MAX_BLOBS && 0 <= i <= MAX_BLOBS
    requires Filling(tracks, blobs, ts, id, nextId, slot, left, i)
    requires left == 0 || i == MAX_BLOBS
    ensures |ts| == MAX_BLOBS && id == nextId + |Unassigned(blobs)|
    ensures CountIf(tracks, IsUpdated) + |Unassigned(blobs)| <= MAX_BLOBS
    ensures PlacedAt(tracks, ts, CountIf(tracks, IsUpdated), Unassigned(blobs), nextId)
  {
    if i == MAX_BLOBS {
      assert blobs[i..] == [];
    }
    UnassignedRest(blobs, i);
  }

  /** One iteration of the as-written placement loop: a blob that is active
      and unassigned starts a track at slot `slot`, which then advances. */
  method FillSlot(tracks: seq<TrackedBlob>, blobs: seq<Blob>, ts: seq<TrackedBlob>, id: int, nextId: int,
                  slot: int, left: int, i: int)
    returns (ts': seq<TrackedBlob>, id': int, slot': int, left': int)
    requires |tracks| == MAX_BLOBS && |blobs| == MAX_BLOBS && 0 <= i < MAX_BLOBS
    requires Filling(tracks, blobs, ts, id, nextId, slot, left, i)
    ensures Filling(tracks, blobs, ts', id', nextId, slot', left', i + 1)
  {
    ts', id', slot', left' := ts, id, slot, left;
    if IsActive(blobs[i]) && !IsAssigned(blobs[i]) {
      FillStep(tracks, blobs, ts, id, nextId, slot, left, i);
      ts' := ts'[slot' := SetTrackWithId(ts'[slot'], blobs[i], id')];
      id' := id' + 1;
      left' := left' - 1;
      slot' := slot' + 1;
    } else {
      SkipStep(tracks, blobs, ts, id, nextId, slot, left, i);
    }
  }

  /** `add_remaining_blobs_to_tracked` as written: every active blob left
      unassigned by the matching starts a track, written at slot
      `num_updated_blobs` and on, with ids from the running counter. The
      write stays in the table only while the updated tracks and the
      unassigned blobs together fit in it. Returns the table and the next id. */
  method AddRemainingAsWritten(tracks: seq<TrackedBlob>, blobs: seq<Blob>, nextId: int)
    returns (ts: seq<TrackedBlob>, id: int)
    requires |tracks| == MAX_BLOBS && |blobs| == MAX_BLOBS
    requires CountIf(tracks, IsUpdated) + CountIf(blobs, IsUnassignedActive) <= MAX_BLOBS
    ensures |ts| == MAX_BLOBS && id == nextId + |Unassigned(blobs)|
    ensures CountIf(tracks, IsUpdated) + |Unassigned(blobs)| <= MAX_BLOBS
    ensures PlacedAt(tracks, ts, CountIf(tracks, IsUpdated), Unassigned(blobs), nextId)
  {
    var numUpdated := Count(tracks, IsUpdated);
    var left := Count(blobs, IsUnassignedActive);
    ts, id := tracks, nextId;
    FillStart(tracks, blobs, nextId);
    if left > 0 {
      var i := 0;
      while left > 0 && i < MAX_BLOBS
        invariant 0 <= i <= MAX_BLOBS
        invariant Filling(tracks, blobs, ts, id, nextId, numUpdated, left, i)
        decreases MAX_BLOBS - i
      {
        ts, id, numUpdated, left := FillSlot(tracks, blobs, ts, id, nextId, numUpdated, left, i);
        i := i + 1;
      }
      FillDone(tracks, blobs, ts, id, nextId, numUpdated, left, i);
    } else {
      FillDone(tracks, blobs, ts, id, nextId, numUpdated, left, 0);
    }
  }

  predicate IsAssignedActive(b: Blob) {
    IsActive(b) && IsAssigned(b)
  }

  /** The placement stays inside the table whenever there are no more updated
      tracks than assigned blobs, as after a matching. */
  lemma {:induction false} AsWrittenInBounds(tracks: seq<TrackedBlob>, blobs: seq<Blob>)
    requires |blobs| == MAX_BLOBS
    requires CountIf(tracks, IsUpdated) <= CountIf(blobs, IsAssignedActive)
    ensures CountIf(tracks, IsUpdated) + CountIf(blobs, IsUnassignedActive) <= MAX_BLOBS
  {
    CountIfDisjoint(blobs, IsAssignedActive, IsUnassignedActive);
  }

  // ---------------------------------------------------------------------------
  // A table where the as-written placement loses an updated track

  const OldShape: Shape := Shape(0, 0, 0, 0, Vec2(0.0, 0.0), 1.0, 30.0, 1, 1, 1)
  const MatchedShape: Shape := Shape(5, 0, 5, 0, Vec2(5.0, 0.0), 1.0, 30.0, 1, 1, 1)
  const NewShape: Shape := Shape(10, 0, 10, 0, Vec2(10.0, 0.0), 1.0, 30.0, 1, 1, 1)

  /** A track that found no blob this frame but is still within its dead frames. */
  const Missed: TrackedBlob := FreeSlot.(blob := OldShape, id := 1)
  /** A track matched this frame. */
  const Matched: TrackedBlob := FreeSlot.(blob := MatchedShape, id := 2, hasUpdated := true, timesUpdated := 1)
  /** A blob nobody matched. */
  const Newcomer: Blob := Blob(NewShape, 10.0, 0.0, false)

  function MissedFirst(): seq<TrackedBlob> {
    [Missed, Matched] + seq(6, _ => FreeSlot)
  }

  function OneNewcomer(): seq<Blob> {
    [Newcomer] + seq(7, _ => EmptyBlob)
  }

  /** With three dead frames allowed, ageing keeps the missed track in slot 0
      ahead of the matched track in slot 1, and one track is updated. */
  lemma {:induction false} MissedFirstSorted()
    ensures var sorted := Sorted(MissedFirst(), 3);
            && |sorted| == MAX_BLOBS
            && sorted[1] == Matched && sorted[0] == Aged(Missed)
            && (forall k :: 2 <= k < MAX_BLOBS ==> sorted[k] == Aged(FreeSlot))
            && CountIf(sorted, IsUpdated) == 1
  {
    var ts := MissedFirst();
    assert forall k :: 0 <= k < |ts| ==> Survives(ts[k], 3);
    KeptAll(ts, 3);
    var sorted := Sorted(ts, 3);
    assert sorted[..MAX_BLOBS] == sorted;
    SortedUpdated(ts, 3);
    CountIfAppend([Missed, Matched], seq(6, _ => FreeSlot), IsUpdated);
    CountIfExtremes(seq(6, _ => FreeSlot), IsUpdated);
    CountIfHead([Missed, Matched], IsUpdated);
    assert [Missed, Matched][1..] == [Matched];
    CountIfHead([Matched], IsUpdated);
  }

  /** The only blob left for a new track is the newcomer. */
  lemma {:induction false} OneNewcomerUnassigned()
    ensures Unassigned(OneNewcomer()) == [Newcomer]
  {
    var bs := OneNewcomer();
    assert bs[1..] == seq(7, _ => EmptyBlob);
    CountIfExtremes(bs[1..], IsUnassignedActive);
    UnassignedRest(bs, 1);
    assert bs[..0] == [];
    UnassignedStep(bs, 0);
  }

  /** The as-written placement on that table writes the new track over slot
      `num_updated_blobs` = 1, which holds the track matched this frame: that
      track is in the table after ageing and gone after placement. */
  method MatchedTrackOverwritten() returns (sorted: seq<TrackedBlob>, ts: seq<TrackedBlob>)
    ensures Matched in sorted && IsUpdated(Matched) && IsTracking(Matched)
    ensures Matched !in ts
  {
    MissedFirstSorted();
    OneNewcomerUnassigned();
    sorted := Sorted(MissedFirst(), 3);
    var id;
    ts, id := AddRemainingAsWritten(sorted, OneNewcomer(), 0);
    var news := Unassigned(OneNewcomer());
    assert PlacedAt(sorted, ts, 1, news, 0);
    assert ts[1 + 0] == SetTrackWithId(sorted[1 + 0], news[0], 0 + 0);
    assert ts[1].blob == NewShape;
    assert ts[0] == sorted[0];
    forall k | 0 <= k < MAX_BLOBS ensures ts[k] != Matched {
      if k >= 2 {
        assert ts[k] == sorted[k];
      }
    }
  }
}
