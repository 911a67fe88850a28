/** The track table between frames.

    After matching, `sort_tracked_blobs` ages every track that was not
    updated, clears the ones that have been dead for too long (classifying
    the active ones into the movement counters), and moves the kept ones
    down over the cleared slots. `add_remaining_blobs_to_tracked` then starts
    a track for every blob nobody matched. `track_blobs` strings the steps
    together.
 */
module TrackTable {
  import opened Config
  import opened Tables
  import opened Blobs
  import opened TrackedBlobs
  import opened Movements
  import opened Matching

  // ---------------------------------------------------------------------------
  // Ageing and compaction

  /** A slot after this frame's ageing: one more dead frame unless it was updated. */
  function Aged(t: TrackedBlob): (r: TrackedBlob)
    ensures r.hasUpdated == t.hasUpdated && r.blob == t.blob && r.travel == t.travel
    ensures r.id == t.id
  {
    if t.hasUpdated then t else t.(numDeadFrames := t.numDeadFrames + 1)
  }

  /** `sort_tracked_blobs` keeps a slot iff it was updated this frame or, once
      aged, has fewer dead frames than the maximum. */
  predicate Survives(t: TrackedBlob, maxDead: int) {
    t.hasUpdated || Aged(t).numDeadFrames < maxDead
  }

  /** A slot that is cleared while it still follows a blob: its movement is classified. */
  predicate Ends(t: TrackedBlob, maxDead: int) {
    !Survives(t, maxDead) && IsTracking(t)
  }

  function SurvivorTest(maxDead: int): TrackedBlob -> bool {
    t => Survives(t, maxDead)
  }

  function EndTest(maxDead: int): TrackedBlob -> bool {
    t => Ends(t, maxDead)
  }

  /** The aged survivors, in table order. */
  function Kept(ts: seq<TrackedBlob>, maxDead: int): (r: seq<TrackedBlob>)
    ensures |r| <= |ts|
  {
    if |ts| == 0 then []
    else
      var last := ts[|ts| - 1];
      if Survives(last, maxDead) then Kept(ts[..|ts| - 1], maxDead) + [Aged(last)]
      else Kept(ts[..|ts| - 1], maxDead)
  }

  /** The aged tracks that end, in table order. */
  function Ended(ts: seq<TrackedBlob>, maxDead: int): (r: seq<TrackedBlob>)
    ensures |r| <= |ts|
  {
    if |ts| == 0 then []
    else
      var last := ts[|ts| - 1];
      if Ends(last, maxDead) then Ended(ts[..|ts| - 1], maxDead) + [Aged(last)]
      else Ended(ts[..|ts| - 1], maxDead)
  }

  /** The slots `lo .. hi - 1` once cleared: what `clear` leaves of each aged track. */
  function Vacated(ts: seq<TrackedBlob>, lo: int, hi: int): (r: seq<TrackedBlob>)
    requires 0 <= lo <= hi <= |ts|
    ensures |r| == hi - lo
    ensures forall k :: 0 <= k < |r| ==> r[k] == ClearTrack(Aged(ts[lo + k]))
  {
    seq(hi - lo, k requires 0 <= k < hi - lo => ClearTrack(Aged(ts[lo + k])))
  }

  /** The table `sort_tracked_blobs` leaves: the kept tracks at the front, in
      their order, and cleared slots after them. */
  function Sorted(ts: seq<TrackedBlob>, maxDead: int): (r: seq<TrackedBlob>)
    ensures |r| == |ts|
    ensures r[..|Kept(ts, maxDead)|] == Kept(ts, maxDead)
    ensures forall k :: |Kept(ts, maxDead)| <= k < |r| ==> IsCleared(r[k]) && !IsTracking(r[k])
  {
    var kept := Kept(ts, maxDead);
    kept + Vacated(ts, |kept|, |ts|)
  }

  /** The slots `sort_tracked_blobs` keeps, in increasing order. */
  function SurvivorIndexes(ts: seq<TrackedBlob>, maxDead: int): (r: seq<int>)
    ensures |r| <= |ts|
  {
    if |ts| == 0 then []
    else SurvivorIndexes(ts[..|ts| - 1], maxDead) + (if Survives(ts[|ts| - 1], maxDead) then [|ts| - 1] else [])
  }

  /** The kept tracks are exactly the aged surviving slots, in slot order:
      the k-th kept track is the aged slot `SurvivorIndexes[k]`, those indexes
      increase, and every surviving slot is among them. */
  lemma {:induction false} KeptIsFilter(ts: seq<TrackedBlob>, maxDead: int)
    ensures var idx := SurvivorIndexes(ts, maxDead);
            var kept := Kept(ts, maxDead);
            && |idx| == |kept|
            && (forall k :: 0 <= k < |idx| ==>
                  0 <= idx[k] < |ts| && Survives(ts[idx[k]], maxDead) && kept[k] == Aged(ts[idx[k]]))
            && (forall a, b :: 0 <= a < b < |idx| ==> idx[a] < idx[b])
            && (forall j :: 0 <= j < |ts| && Survives(ts[j], maxDead) ==> j in idx)
  {
    if |ts| > 0 {
      var n := |ts| - 1;
      var init := ts[..n];
      KeptIsFilter(init, maxDead);
      var idx0 := SurvivorIndexes(init, maxDead);
      var kept0 := Kept(init, maxDead);
      var idx := SurvivorIndexes(ts, maxDead);
      var kept := Kept(ts, maxDead);
      forall k | 0 <= k < |idx|
        ensures 0 <= idx[k] < |ts| && Survives(ts[idx[k]], maxDead) && kept[k] == Aged(ts[idx[k]])
      {
        if k < |idx0| {
          assert idx[k] == idx0[k] && kept[k] == kept0[k];
          assert ts[idx[k]] == init[idx0[k]];
        }
      }
      forall a, b | 0 <= a < b < |idx| ensures idx[a] < idx[b] {
        if b < |idx0| {
          assert idx[a] == idx0[a] && idx[b] == idx0[b];
        } else {
          assert idx[a] == idx0[a];
        }
      }
      forall j | 0 <= j < |ts| && Survives(ts[j], maxDead) ensures j in idx {
        if j < n {
          assert init[j] == ts[j];
          assert j in idx0;
        }
      }
    }
  }

  /** Every kept track was updated this frame or is still within its dead frames. */
  lemma {:induction false} KeptNotOverdue(ts: seq<TrackedBlob>, maxDead: int)
    ensures forall k :: 0 <= k < |Kept(ts, maxDead)| ==>
              Kept(ts, maxDead)[k].hasUpdated || Kept(ts, maxDead)[k].numDeadFrames < maxDead
  {
    KeptIsFilter(ts, maxDead);
  }

  /** As many tracks are kept as slots survive, and as many end as slots end. */
  lemma {:induction false} SortCounts(ts: seq<TrackedBlob>, maxDead: int)
    ensures |Kept(ts, maxDead)| == CountIf(ts, SurvivorTest(maxDead))
    ensures |Ended(ts, maxDead)| == CountIf(ts, EndTest(maxDead))
  {
    if |ts| > 0 {
      SortCounts(ts[..|ts| - 1], maxDead);
    }
  }

  /** Ageing and compaction lose no updated track and invent none. */
  lemma {:induction false} KeptUpdated(ts: seq<TrackedBlob>, maxDead: int)
    ensures CountIf(Kept(ts, maxDead), IsUpdated) == CountIf(ts, IsUpdated)
  {
    if |ts| > 0 {
      var n := |ts| - 1;
      var init := ts[..n];
      KeptUpdated(init, maxDead);
      CountIfLast(ts, IsUpdated);
      if Survives(ts[n], maxDead) {
        CountIfSnoc(Kept(init, maxDead), Aged(ts[n]), IsUpdated);
      } else {
        assert Kept(ts, maxDead) == Kept(init, maxDead);
      }
    }
  }

  lemma {:induction false} SortedUpdated(ts: seq<TrackedBlob>, maxDead: int)
    ensures CountIf(Sorted(ts, maxDead), IsUpdated) == CountIf(ts, IsUpdated)
  {
    var kept := Kept(ts, maxDead);
    KeptUpdated(ts, maxDead);
    CountIfAppend(kept, Vacated(ts, |kept|, |ts|), IsUpdated);
    CountIfExtremes(Vacated(ts, |kept|, |ts|), IsUpdated);
  }

  /** Each track that ends while active is classified exactly once: the
      counters grow by between one and two per such track. */
  lemma {:induction false} SortClassifiesEach(ts: seq<TrackedBlob>, log: MovementLog, s: Settings)
    requires ValidLog(log)
    ensures var ended := CountIf(ts, EndTest(s.maxDeadFrames));
            var added := Sum(ProcessAll(log, Ended(ts, s.maxDeadFrames), s.minimumTravelThreshold).counts) - Sum(log.counts);
            ended <= added <= 2 * ended
  {
    SortCounts(ts, s.maxDeadFrames);
    ProcessAllCounts(log, Ended(ts, s.maxDeadFrames), s.minimumTravelThreshold);
  }

  lemma {:induction false} KeptStep(ts: seq<TrackedBlob>, i: int, maxDead: int)
    requires 0 <= i < |ts|
    ensures Kept(ts[..i + 1], maxDead)
            == Kept(ts[..i], maxDead) + (if Survives(ts[i], maxDead) then [Aged(ts[i])] else [])
    ensures Ended(ts[..i + 1], maxDead)
            == Ended(ts[..i], maxDead) + (if Ends(ts[i], maxDead) then [Aged(ts[i])] else [])
  {
    assert ts[..i + 1][..i] == ts[..i];
  }

  lemma {:induction false} ProcessAllStep(m: MovementLog, ended: seq<TrackedBlob>, t: TrackedBlob, threshold: real)
    requires ValidLog(m)
    ensures ProcessAll(m, ended + [t], threshold) == ProcessBlobMovements(ProcessAll(m, ended, threshold), t, threshold)
  {
    assert (ended + [t])[..|ended|] == ended;
  }

  /** The table of `sort_tracked_blobs` after visiting `i` slots: the kept
      tracks among them at the front, then their cleared slots, then the
      slots not yet visited. `free` is past the table until the first cleared
      slot, and from then on it is the slot just after the kept ones. */
  predicate Compacted(tracks: seq<TrackedBlob>, r: seq<TrackedBlob>, i: int, free: int, maxDead: int)
    requires 0 <= i <= |tracks|
  {
    var kept := Kept(tracks[..i], maxDead);
    && (free == MAX_BLOBS + 1 ==> |kept| == i)
    && (free != MAX_BLOBS + 1 ==> free == |kept| < i)
    && r == kept + Vacated(tracks, |kept|, i) + tracks[i..]
  }

  /** The counters after visiting `i` slots: every ended track so far classified. */
  predicate Classified(tracks: seq<TrackedBlob>, i: int, log0: MovementLog, log: MovementLog, s: Settings)
    requires 0 <= i <= |tracks| && ValidLog(log0)
  {
    log == ProcessAll(log0, Ended(tracks[..i], s.maxDeadFrames), s.minimumTravelThreshold)
  }

  lemma {:induction false} CompactedAt(tracks: seq<TrackedBlob>, r: seq<TrackedBlob>, i: int, free: int, maxDead: int)
    requires 0 <= i < |tracks|
    requires Compacted(tracks, r, i, free, maxDead)
    ensures |r| == |tracks| && r[i] == tracks[i]
  {
    var kept := Kept(tracks[..i], maxDead);
    assert r[i] == tracks[i..][0];
  }

  /** Visiting a slot that ends: classify it if it is active. */
  lemma {:induction false} ClassifyStep(tracks: seq<TrackedBlob>, i: int, log0: MovementLog, log: MovementLog, s: Settings)
    requires 0 <= i < |tracks| && ValidLog(log0)
    requires Classified(tracks, i, log0, log, s)
    ensures ValidLog(log)
    ensures var a := Aged(tracks[i]);
            var log' := if !Survives(tracks[i], s.maxDeadFrames) && IsTracking(a)
                        then ProcessBlobMovements(log, a, s.minimumTravelThreshold) else log;
            Classified(tracks, i + 1, log0, log', s)
  {
    KeptStep(tracks, i, s.maxDeadFrames);
    var ended := Ended(tracks[..i], s.maxDeadFrames);
    if Ends(tracks[i], s.maxDeadFrames) {
      ProcessAllStep(log0, ended, Aged(tracks[i]), s.minimumTravelThreshold);
    } else {
      assert Ended(tracks[..i + 1], s.maxDeadFrames) == ended + [] == ended;
    }
  }

  /** The three ways a visit reshapes the table "kept, cleared, unvisited",
      stated for any element type. */
  lemma {:induction false} ShapeStay<T>(kept: seq<T>, rest: seq<T>, a: T)
    requires |rest| > 0
    ensures (kept + [] + rest)[|kept| := a] == (kept + [a]) + [] + rest[1..]
  {
    assert (kept + [] + rest)[|kept| := a] == kept + [a] + rest[1..];
  }

  lemma {:induction false} ShapeMove<T>(kept: seq<T>, v: seq<T>, rest: seq<T>, a: T, c: T)
    requires |rest| > 0 && |v| > 0
    ensures (kept + v + rest)[|kept| + |v| := a][|kept| := a][|kept| + |v| := c]
            == (kept + [a]) + (v[1..] + [c]) + rest[1..]
  {
    var x := (kept + v + rest)[|kept| + |v| := a][|kept| := a][|kept| + |v| := c];
    var y := (kept + [a]) + (v[1..] + [c]) + rest[1..];
    assert |x| == |y|;
    forall k | 0 <= k < |x| ensures x[k] == y[k] {
      if k < |kept| {
      } else if k == |kept| {
      } else if k < |kept| + |v| {
        assert y[k] == v[1..][k - |kept| - 1];
      } else if k == |kept| + |v| {
      } else {
        assert y[k] == rest[1..][k - |kept| - |v| - 1];
      }
    }
  }

  lemma {:induction false} ShapeDie<T>(kept: seq<T>, v: seq<T>, rest: seq<T>, a: T, c: T)
    requires |rest| > 0
    ensures (kept + v + rest)[|kept| + |v| := a][|kept| + |v| := c] == kept + (v + [c]) + rest[1..]
  {
    var x := (kept + v + rest)[|kept| + |v| := a][|kept| + |v| := c];
    var y := kept + (v + [c]) + rest[1..];
    assert |x| == |y|;
    forall k | 0 <= k < |x| ensures x[k] == y[k] {
      if k < |kept| + |v| {
      } else if k == |kept| + |v| {
      } else {
        assert y[k] == rest[1..][k - |kept| - |v| - 1];
      }
    }
  }

  lemma {:induction false} VacatedGrow(ts: seq<TrackedBlob>, lo: int, hi: int)
    requires 0 <= lo <= hi < |ts|
    ensures Vacated(ts, lo, hi + 1) == Vacated(ts, lo, hi) + [ClearTrack(Aged(ts[hi]))]
  {
  }

  lemma {:induction false} VacatedShift(ts: seq<TrackedBlob>, lo: int, hi: int)
    requires 0 <= lo < hi < |ts|
    ensures Vacated(ts, lo + 1, hi + 1) == Vacated(ts, lo, hi)[1..] + [ClearTrack(Aged(ts[hi]))]
  {
  }

  /** The unvisited part of the table after `i` visits. */
  lemma {:induction false} RestStep(tracks: seq<TrackedBlob>, i: int)
    requires 0 <= i < |tracks|
    ensures |tracks[i..]| > 0 && tracks[i..][1..] == tracks[i + 1..] && tracks[i..][0] == tracks[i]
  {
  }

  /** A kept track with no cleared slot before it stays where it is. */
  lemma {:induction false} StayCase(tracks: seq<TrackedBlob>, r: seq<TrackedBlob>, i: int, free: int, maxDead: int)
    requires 0 <= i < |tracks| == MAX_BLOBS
    requires Compacted(tracks, r, i, free, maxDead)
    requires Survives(tracks[i], maxDead) && !(free < i)
    ensures Compacted(tracks, r[i := Aged(tracks[i])], i + 1, free, maxDead)
  {
    KeptStep(tracks, i, maxDead);
    var kept := Kept(tracks[..i], maxDead);
    RestStep(tracks, i);
    assert Vacated(tracks, |kept|, i) == [];
    assert Vacated(tracks, |kept| + 1, i + 1) == [];
    ShapeStay(kept, tracks[i..], Aged(tracks[i]));
  }

  /** A kept track after a cleared slot moves down into it, and its own slot is cleared. */
  lemma {:induction false} MoveCase(tracks: seq<TrackedBlob>, r: seq<TrackedBlob>, i: int, free: int, maxDead: int)
    requires 0 <= i < |tracks| == MAX_BLOBS
    requires Compacted(tracks, r, i, free, maxDead)
    requires Survives(tracks[i], maxDead) && free < i
    ensures 0 <= free
    ensures var a := Aged(tracks[i]);
            Compacted(tracks, r[i := a][free := a][i := ClearTrack(a)], i + 1, free + 1, maxDead)
  {
    KeptStep(tracks, i, maxDead);
    var kept := Kept(tracks[..i], maxDead);
    RestStep(tracks, i);
    VacatedShift(tracks, |kept|, i);
    ShapeMove(kept, Vacated(tracks, |kept|, i), tracks[i..], Aged(tracks[i]), ClearTrack(Aged(tracks[i])));
  }

  /** A track past its dead frames is cleared; the first such slot becomes the free one. */
  lemma {:induction false} DieCase(tracks: seq<TrackedBlob>, r: seq<TrackedBlob>, i: int, free: int, maxDead: int)
    requires 0 <= i < |tracks| == MAX_BLOBS
    requires Compacted(tracks, r, i, free, maxDead)
    requires !Survives(tracks[i], maxDead)
    ensures var a := Aged(tracks[i]);
            Compacted(tracks, r[i := a][i := ClearTrack(a)], i + 1, if free > i then i else free, maxDead)
  {
    KeptStep(tracks, i, maxDead);
    var kept := Kept(tracks[..i], maxDead);
    RestStep(tracks, i);
    VacatedGrow(tracks, |kept|, i);
    ShapeDie(kept, Vacated(tracks, |kept|, i), tracks[i..], Aged(tracks[i]), ClearTrack(Aged(tracks[i])));
  }

  /** One iteration of `sort_tracked_blobs`: age slot `i`, then keep it
      (moving it down if a slot before it was cleared) or classify and clear it. */
  method VisitSlot(tracks: seq<TrackedBlob>, r: seq<TrackedBlob>, i: int, free: int,
                   log0: MovementLog, log: MovementLog, s: Settings)
    returns (r': seq<TrackedBlob>, free': int, log': MovementLog)
    requires 0 <= i < |tracks| == MAX_BLOBS && ValidLog(log0)
    requires Compacted(tracks, r, i, free, s.maxDeadFrames)
    requires Classified(tracks, i, log0, log, s)
    ensures Compacted(tracks, r', i + 1, free', s.maxDeadFrames)
    ensures Classified(tracks, i + 1, log0, log', s)
  {
    CompactedAt(tracks, r, i, free, s.maxDeadFrames);
    ClassifyStep(tracks, i, log0, log, s);
    r', free', log' := r, free, log;
    var t := r[i];
    if !t.hasUpdated {
      t := t.(numDeadFrames := t.numDeadFrames + 1);
    }
    assert t == Aged(tracks[i]);
    if t.hasUpdated || t.numDeadFrames < s.maxDeadFrames {
      if free < i {
        MoveCase(tracks, r, i, free, s.maxDeadFrames);
        r' := r'[i := t];
        r' := r'[free' := t];
        free' := free' + 1;
        r' := r'[i := ClearTrack(t)];
      } else {
        StayCase(tracks, r, i, free, s.maxDeadFrames);
        r' := r'[i := t];
      }
    } else {
      DieCase(tracks, r, i, free, s.maxDeadFrames);
      r' := r'[i := t];
      if IsTracking(t) {
        log' := ProcessBlobMovements(log', t, s.minimumTravelThreshold);
      }
      r' := r'[i := ClearTrack(t)];
      if free' > i {
        free' := i;
      }
    }
  }

  /** `sort_tracked_blobs`: age, clear and classify, compact. Returns the new
      table and the movement counters after classifying the ended tracks. */
  method SortTrackedBlobs(tracks: seq<TrackedBlob>, log: MovementLog, s: Settings)
    returns (r: seq<TrackedBlob>, log': MovementLog)
    requires |tracks| == MAX_BLOBS && ValidLog(log)
    ensures r == Sorted(tracks, s.maxDeadFrames)
    ensures ValidLog(log') && log' == ProcessAll(log, Ended(tracks, s.maxDeadFrames), s.minimumTravelThreshold)
  {
    r, log' := tracks, log;
    var free := MAX_BLOBS + 1;
    var i := 0;
    CompactedStart(tracks, s.maxDeadFrames);
    while i < MAX_BLOBS
      invariant 0 <= i <= MAX_BLOBS
      invariant Compacted(tracks, r, i, free, s.maxDeadFrames)
      invariant Classified(tracks, i, log, log', s)
    {
      r, free, log' := VisitSlot(tracks, r, i, free, log, log', s);
      i := i + 1;
    }
    CompactedDone(tracks, r, free, s.maxDeadFrames);
    ClassifiedDone(tracks, log, log', s);
  }

  /** After visiting every slot every ended track is classified. */
  lemma {:induction false} ClassifiedDone(tracks: seq<TrackedBlob>, log0: MovementLog, log: MovementLog, s: Settings)
    requires |tracks| == MAX_BLOBS && ValidLog(log0)
    requires Classified(tracks, MAX_BLOBS, log0, log, s)
    ensures ValidLog(log) && log == ProcessAll(log0, Ended(tracks, s.maxDeadFrames), s.minimumTravelThreshold)
  {
    assert tracks[..MAX_BLOBS] == tracks;
  }

  /** Before any visit the table is its own unvisited rest. */
  lemma {:induction false} CompactedStart(tracks: seq<TrackedBlob>, maxDead: int)
    ensures Compacted(tracks, tracks, 0, MAX_BLOBS + 1, maxDead)
  {
    assert tracks == [] + Vacated(tracks, 0, 0) + tracks[0..];
  }

  /** After visiting every slot the table is the sorted table. */
  lemma {:induction false} CompactedDone(tracks: seq<TrackedBlob>, r: seq<TrackedBlob>, free: int, maxDead: int)
    requires |tracks| == MAX_BLOBS
    requires Compacted(tracks, r, MAX_BLOBS, free, maxDead)
    ensures r == Sorted(tracks, maxDead)
  {
    assert tracks[..MAX_BLOBS] == tracks;
    assert tracks[MAX_BLOBS..] == [];
  }

  /** When every slot survives, ageing keeps the table in place. */
  lemma {:induction false} KeptAll(ts: seq<TrackedBlob>, maxDead: int)
    requires forall k :: 0 <= k < |ts| ==> Survives(ts[k], maxDead)
    ensures |Kept(ts, maxDead)| == |ts|
    ensures forall k :: 0 <= k < |ts| ==> Kept(ts, maxDead)[k] == Aged(ts[k])
  {
    if |ts| > 0 {
      var init := ts[..|ts| - 1];
      assert forall k :: 0 <= k < |init| ==> init[k] == ts[k];
      KeptAll(init, maxDead);
    }
  }

  // ---------------------------------------------------------------------------
  // New tracks in free slots

  /** A slot that follows no blob and may take a new track. */
  predicate IsFree(t: TrackedBlob) {
    !IsTracking(t)
  }

  /** The index of the first free slot, or the table size when there is none. */
  function FirstFree(ts: seq<TrackedBlob>): (r: nat)
    ensures r <= |ts|
  {
    if |ts| == 0 then 0
    else if IsFree(ts[0]) then 0
    else 1 + FirstFree(ts[1..])
  }

  /** `FirstFree` finds a free slot with only tracking slots before it, and
      finds none exactly when every slot is tracking. */
  lemma {:induction false} FirstFreeIs(ts: seq<TrackedBlob>)
    ensures FirstFree(ts) < |ts| ==> IsFree(ts[FirstFree(ts)])
    ensures forall k :: 0 <= k < FirstFree(ts) ==> !IsFree(ts[k])
    ensures FirstFree(ts) < |ts| <==> CountIf(ts, IsFree) > 0
  {
    if |ts| > 0 {
      CountIfHead(ts, IsFree);
      if !IsFree(ts[0]) {
        FirstFreeIs(ts[1..]);
        forall k | 0 <= k < FirstFree(ts) ensures !IsFree(ts[k]) {
          if k > 0 {
            assert ts[k] == ts[1..][k - 1];
          }
        }
      }
    }
  }

  /** The slot table together with the id the next new track will take. */
  datatype Placement = Placement(tracks: seq<TrackedBlob>, nextId: int)

  /** One blob of the frame: when it is active and unassigned and a slot is
      free, it starts a track with the next id in the first free slot. */
  function Spawn(p: Placement, b: Blob): (r: Placement)
    ensures |r.tracks| == |p.tracks|
    ensures r.nextId == p.nextId + (if IsUnassignedActive(b) && CountIf(p.tracks, IsFree) > 0 then 1 else 0)
    ensures CountIf(r.tracks, IsFree) == CountIf(p.tracks, IsFree) - (r.nextId - p.nextId)
    ensures forall k :: 0 <= k < |p.tracks| && !IsFree(p.tracks[k]) ==> r.tracks[k] == p.tracks[k]
  {
    var f := FirstFree(p.tracks);
    FirstFreeIs(p.tracks);
    if IsUnassignedActive(b) && f < |p.tracks| then
      var t := SetTrackWithId(p.tracks[f], b, p.nextId);
      CountIfUpdate(p.tracks, f, t, IsFree);
      Placement(p.tracks[f := t], p.nextId + 1)
    else
      p
  }

  /** Every blob of the frame in table order, from id `id` on. */
  function Place(tracks: seq<TrackedBlob>, blobs: seq<Blob>, id: int): (r: Placement)
    ensures |r.tracks| == |tracks|
  {
    if |blobs| == 0 then Placement(tracks, id)
    else Spawn(Place(tracks, blobs[..|blobs| - 1], id), blobs[|blobs| - 1])
  }

  /** New tracks only go into free slots: every track that was live before
      placement is still in its slot afterwards. */
  lemma {:induction false} PlaceKeepsLive(tracks: seq<TrackedBlob>, blobs: seq<Blob>, id: int)
    ensures forall k :: 0 <= k < |tracks| && IsTracking(tracks[k]) ==> Place(tracks, blobs, id).tracks[k] == tracks[k]
  {
    if |blobs| > 0 {
      PlaceKeepsLive(tracks, blobs[..|blobs| - 1], id);
    }
  }

  /** As many tracks start as there are unassigned active blobs, unless the
      free slots run out first; each takes one free slot and one id. */
  lemma {:induction false} PlaceCount(tracks: seq<TrackedBlob>, blobs: seq<Blob>, id: int)
    ensures var r := Place(tracks, blobs, id);
            && r.nextId - id == Min(CountIf(blobs, IsUnassignedActive), CountIf(tracks, IsFree))
            && CountIf(r.tracks, IsFree) == CountIf(tracks, IsFree) - (r.nextId - id)
  {
    if |blobs| > 0 {
      var init := blobs[..|blobs| - 1];
      var b := blobs[|blobs| - 1];
      assert init + [b] == blobs;
      PlaceCount(tracks, init, id);
      CountIfAppend(init, [b], IsUnassignedActive);
      var p := Place(tracks, init, id);
      var placed := p.nextId - id;
      var free := CountIf(tracks, IsFree);
      var ua := CountIf(init, IsUnassignedActive);
      assert placed == Min(ua, free);
      assert CountIf(p.tracks, IsFree) == free - placed;
      assert CountIf(blobs, IsUnassignedActive) == ua + (if IsUnassignedActive(b) then 1 else 0) by {
        CountIfHead([b], IsUnassignedActive);
      }
    }
  }

  /** Each slot either keeps its track, or was free and now holds a new,
      updated, tracking track whose id lies in the range handed out. */
  lemma {:induction false} PlaceSlots(tracks: seq<TrackedBlob>, blobs: seq<Blob>, id: int)
    ensures var r := Place(tracks, blobs, id);
            && id <= r.nextId
            && forall k :: 0 <= k < |tracks| && r.tracks[k] != tracks[k] ==>
                 IsFree(tracks[k]) && IsTracking(r.tracks[k]) && IsUpdated(r.tracks[k])
                 && id <= r.tracks[k].id < r.nextId
  {
    if |blobs| > 0 {
      var init := blobs[..|blobs| - 1];
      PlaceSlots(tracks, init, id);
      FirstFreeIs(Place(tracks, init, id).tracks);
    }
  }

  /** No two new tracks share an id. */
  lemma {:induction false} PlaceIdsDistinct(tracks: seq<TrackedBlob>, blobs: seq<Blob>, id: int)
    ensures var r := Place(tracks, blobs, id);
            forall j, k :: 0 <= j < k < |tracks| && r.tracks[j] != tracks[j] && r.tracks[k] != tracks[k] ==>
              r.tracks[j].id != r.tracks[k].id
  {
    if |blobs| > 0 {
      var init := blobs[..|blobs| - 1];
      PlaceIdsDistinct(tracks, init, id);
      PlaceSlots(tracks, init, id);
      var p := Place(tracks, init, id);
      FirstFreeIs(p.tracks);
      var f := FirstFree(p.tracks);
      if f < |p.tracks| {
        assert p.tracks[f] == tracks[f];
      }
    }
  }

  /** Later blobs that are not unassigned and active start no track. */
  lemma {:induction false} PlaceRest(tracks: seq<TrackedBlob>, blobs: seq<Blob>, i: int, id: int)
    requires 0 <= i <= |blobs| && CountIf(blobs[i..], IsUnassignedActive) == 0
    ensures Place(tracks, blobs[..i], id) == Place(tracks, blobs, id)
    decreases |blobs|
  {
    if i == |blobs| {
      assert blobs[..i] == blobs;
    } else {
      var n := |blobs| - 1;
      NoneInInit(blobs, i, IsUnassignedActive);
      PlaceRest(tracks, blobs[..n], i, id);
      PlaceStep(tracks, blobs, n, id);
      assert blobs[..n + 1] == blobs;
    }
  }

  lemma {:induction false} PlaceStep(tracks: seq<TrackedBlob>, blobs: seq<Blob>, i: int, id: int)
    requires 0 <= i < |blobs|
    ensures Place(tracks, blobs[..i + 1], id) == Spawn(Place(tracks, blobs[..i], id), blobs[i])
  {
    assert blobs[..i + 1][..i] == blobs[..i];
  }

  /** Step of the loop's skip/advance bookkeeping shared by both branches. */
  lemma {:induction false} LeftStep(blobs: seq<Blob>, i: int)
    requires 0 <= i < |blobs|
    ensures CountIf(blobs[i..], IsUnassignedActive)
            == (if IsUnassignedActive(blobs[i]) then 1 else 0) + CountIf(blobs[i + 1..], IsUnassignedActive)
  {
    CountIfHead(blobs[i..], IsUnassignedActive);
    assert blobs[i..][1..] == blobs[i + 1..];
  }

  /** Scanning for the first slot that follows no blob. */
  method FindFree(ts: seq<TrackedBlob>) returns (f: int)
    ensures f == FirstFree(ts)
  {
    f := 0;
    while f < |ts| && !IsFree(ts[f])
      invariant 0 <= f <= |ts|
      invariant FirstFree(ts) == f + FirstFree(ts[f..])
      decreases |ts| - f
    {
      assert ts[f..][1..] == ts[f + 1..];
      f := f + 1;
    }
    if f == |ts| {
      assert ts[f..] == [];
    }
  }

  /** One iteration of the corrected placement loop: a blob that is active
      and unassigned starts a track in the first free slot, if there is one. */
  method SpawnSlot(tracks: seq<TrackedBlob>, blobs: seq<Blob>, ts: seq<TrackedBlob>, id: int, nextId: int,
                   left: int, i: int)
    returns (ts': seq<TrackedBlob>, id': int, left': int)
    requires 0 <= i < |blobs|
    requires Placement(ts, id) == Place(tracks, blobs[..i], nextId)
    requires left == CountIf(blobs[i..], IsUnassignedActive)
    ensures Placement(ts', id') == Place(tracks, blobs[..i + 1], nextId)
    ensures left' == CountIf(blobs[i + 1..], IsUnassignedActive)
  {
    LeftStep(blobs, i);
    PlaceStep(tracks, blobs, i, nextId);
    ts', id', left' := ts, id, left;
    if IsActive(blobs[i]) && !IsAssigned(blobs[i]) {
      var f := FindFree(ts');
      if f < |ts'| {
        ts' := ts'[f := SetTrackWithId(ts'[f], blobs[i], id')];
        id' := id' + 1;
      }
      left' := left' - 1;
    }
  }

  /** `add_remaining_blobs_to_tracked` with each new track written to the
      first free slot: every active blob left unassigned by the matching
      starts a track with the next id while a slot is free. Returns the
      table and the next id. */
  method AddRemainingBlobs(tracks: seq<TrackedBlob>, blobs: seq<Blob>, nextId: int)
    returns (ts: seq<TrackedBlob>, id: int)
    requires |tracks| == MAX_BLOBS && |blobs| == MAX_BLOBS
    ensures Placement(ts, id) == Place(tracks, blobs, nextId)
  {
    var left := Count(blobs, IsUnassignedActive);
    ts, id := tracks, nextId;
    assert blobs[..0] == [] && blobs[0..] == blobs;
    var i := 0;
    if left > 0 {
      while left > 0 && i < MAX_BLOBS
        invariant 0 <= i <= MAX_BLOBS
        invariant Placement(ts, id) == Place(tracks, blobs[..i], nextId)
        invariant left == CountIf(blobs[i..], IsUnassignedActive)
        decreases MAX_BLOBS - i
      {
        ts, id, left := SpawnSlot(tracks, blobs, ts, id, nextId, left, i);
        i := i + 1;
      }
      if i == MAX_BLOBS {
        assert blobs[i..] == [];
      }
    }
    PlaceRest(tracks, blobs, i, nextId);
  }

  // ---------------------------------------------------------------------------
  // One frame of tracking

  /** Every live track was updated this frame or is still within its dead frames. */
  predicate NoOverdue(ts: seq<TrackedBlob>, maxDead: int) {
    forall k :: 0 <= k < |ts| && IsTracking(ts[k]) ==> ts[k].hasUpdated || ts[k].numDeadFrames < maxDead
  }

  /** After ageing, no live track is overdue. */
  lemma {:induction false} SortedNoOverdue(ts: seq<TrackedBlob>, maxDead: int)
    ensures NoOverdue(Sorted(ts, maxDead), maxDead)
  {
    var r := Sorted(ts, maxDead);
    var kept := Kept(ts, maxDead);
    KeptNotOverdue(ts, maxDead);
    forall k | 0 <= k < |r| && IsTracking(r[k]) ensures r[k].hasUpdated || r[k].numDeadFrames < maxDead {
      assert k < |kept|;
      assert r[k] == r[..|kept|][k];
    }
  }

  /** Ageing keeps every track that was updated this frame. */
  lemma {:induction false} SortedKeepsUpdated(ts: seq<TrackedBlob>, maxDead: int)
    ensures forall k :: 0 <= k < |ts| && IsUpdated(ts[k]) ==> ts[k] in Sorted(ts, maxDead)
  {
    var r := Sorted(ts, maxDead);
    var kept := Kept(ts, maxDead);
    var idx := SurvivorIndexes(ts, maxDead);
    KeptIsFilter(ts, maxDead);
    forall k | 0 <= k < |ts| && IsUpdated(ts[k]) ensures ts[k] in r {
      assert Survives(ts[k], maxDead);
      var pos :| 0 <= pos < |idx| && idx[pos] == k;
      assert r[pos] == r[..|kept|][pos] == kept[pos];
    }
  }

  /** Placing new tracks makes no live track overdue. */
  lemma {:induction false} PlaceNoOverdue(tracks: seq<TrackedBlob>, blobs: seq<Blob>, id: int, maxDead: int)
    requires NoOverdue(tracks, maxDead)
    ensures NoOverdue(Place(tracks, blobs, id).tracks, maxDead)
  {
    PlaceSlots(tracks, blobs, id);
  }

  /** No track has a negative update count. */
  predicate Counted(ts: seq<TrackedBlob>) {
    forall k :: 0 <= k < |ts| ==> ts[k].timesUpdated >= 0
  }

  /** Matching only adds to update counts. */
  lemma {:induction false} MatchedCounted(ts: seq<TrackedBlob>, tracks: seq<TrackedBlob>, blobs: seq<Blob>,
                                          rows: seq<int>, cols: seq<int>, s: Settings)
    requires Inputs(tracks, blobs, s) && |ts| == MAX_BLOBS && Pairs(rows, cols)
    requires TracksAfter(ts, ResetAll(tracks), ClearAllAssigned(blobs), rows, cols, s.weights)
    ensures Counted(ts)
  {
    var ts0 := ResetAll(tracks);
    forall i | 0 <= i < MAX_BLOBS ensures ts[i].timesUpdated >= 0 {
      assert ts0[i].timesUpdated == tracks[i].timesUpdated;
      if i in rows {
        var k :| 0 <= k < |rows| && rows[k] == i;
        assert ts[rows[k]] == UpdateBlob(ts0[rows[k]], ClearAllAssigned(blobs)[cols[k]], s.weights);
      }
    }
  }

  /** Ageing and clearing keep update counts. */
  lemma {:induction false} SortedCounted(ts: seq<TrackedBlob>, maxDead: int)
    requires Counted(ts)
    ensures Counted(Sorted(ts, maxDead))
  {
    var r := Sorted(ts, maxDead);
    var kept := Kept(ts, maxDead);
    KeptIsFilter(ts, maxDead);
    forall k | 0 <= k < |r| ensures r[k].timesUpdated >= 0 {
      if k < |kept| {
        assert r[k] == r[..|kept|][k];
      } else {
        assert r[k] == Vacated(ts, |kept|, |ts|)[k - |kept|];
      }
    }
  }

  /** New tracks start with no updates. */
  lemma {:induction false} PlaceCounted(tracks: seq<TrackedBlob>, blobs: seq<Blob>, id: int)
    requires Counted(tracks)
    ensures Counted(Place(tracks, blobs, id).tracks)
  {
    if |blobs| > 0 {
      PlaceCounted(tracks, blobs[..|blobs| - 1], id);
    }
  }

  /** What `track_blobs` does with one frame's blob table. With no tracking
      slot the table is not matched or aged: the blobs are only placed. Otherwise
      `matched` and `marked` are the track and blob tables after matching, the
      matched table is aged and compacted while its ended tracks are classified,
      and the blobs left unassigned are placed in it. */
  ghost predicate TrackedFrame(tracks: seq<TrackedBlob>, blobs: seq<Blob>, log: MovementLog, nextId: int, s: Settings,
                               matched: seq<TrackedBlob>, marked: seq<Blob>, rows: seq<int>, cols: seq<int>,
                               ts: seq<TrackedBlob>, log': MovementLog, id: int)
    requires Inputs(tracks, blobs, s) && ValidLog(log)
  {
    if CountIf(tracks, IsTracking) == 0 then
      && matched == tracks && log' == log
      && Placement(ts, id) == Place(tracks, blobs, nextId)
    else
      && MatchedFrame(tracks, blobs, s, matched, marked, rows, cols)
      && log' == ProcessAll(log, Ended(matched, s.maxDeadFrames), s.minimumTravelThreshold)
      && Placement(ts, id) == Place(Sorted(matched, s.maxDeadFrames), marked, nextId)
  }

  /** Every track that was matched in the frame and is still tracking is in
      the final table: neither ageing nor placing new blobs drops it. */
  lemma {:induction false} TrackedFrameKeepsMatched(tracks: seq<TrackedBlob>, blobs: seq<Blob>, log: MovementLog,
                                                    nextId: int, s: Settings,
                                                    matched: seq<TrackedBlob>, marked: seq<Blob>, rows: seq<int>,
                                                    cols: seq<int>, ts: seq<TrackedBlob>, log': MovementLog, id: int)
    requires Inputs(tracks, blobs, s) && ValidLog(log)
    requires TrackedFrame(tracks, blobs, log, nextId, s, matched, marked, rows, cols, ts, log', id)
    ensures forall k :: 0 <= k < |matched| && IsUpdated(matched[k]) && IsTracking(matched[k]) ==> matched[k] in ts
  {
    CountIfExtremes(tracks, IsTracking);
    if CountIf(tracks, IsTracking) > 0 {
      var sorted := Sorted(matched, s.maxDeadFrames);
      SortedKeepsUpdated(matched, s.maxDeadFrames);
      PlaceKeepsTracked(sorted, marked, nextId, matched);
      assert ts == Place(sorted, marked, nextId).tracks;
    }
  }

  /** One frame's outcome is determined by its inputs: the final table, the
      movement log and the next id are the same however it is composed. */
  lemma {:induction false} TrackedFrameUnique(tracks: seq<TrackedBlob>, blobs: seq<Blob>, log: MovementLog,
                                              nextId: int, s: Settings,
                                              matched: seq<TrackedBlob>, marked: seq<Blob>, rows: seq<int>,
                                              cols: seq<int>, ts: seq<TrackedBlob>, log': MovementLog, id: int,
                                              matched2: seq<TrackedBlob>, marked2: seq<Blob>, rows2: seq<int>,
                                              cols2: seq<int>, ts2: seq<TrackedBlob>, log2: MovementLog, id2: int)
    requires Inputs(tracks, blobs, s) && ValidLog(log)
    requires TrackedFrame(tracks, blobs, log, nextId, s, matched, marked, rows, cols, ts, log', id)
    requires TrackedFrame(tracks, blobs, log, nextId, s, matched2, marked2, rows2, cols2, ts2, log2, id2)
    ensures matched == matched2 && ts == ts2 && log' == log2 && id == id2
  {
    if CountIf(tracks, IsTracking) > 0 {
      MatchedFrameUnique(tracks, blobs, s, matched, marked, rows, cols, matched2, marked2, rows2, cols2);
    }
  }

  /** `track_blobs`: when some slot is tracking, match the frame's blobs to
      the tracks and age the table; then start tracks for the blobs left
      over. Returns the track and blob tables after matching, the pairs
      matched, the final table, the movement log and the next id. */
  method TrackBlobs(blobs: seq<Blob>, tracks: seq<TrackedBlob>, log: MovementLog, nextId: int, s: Settings)
    returns (matched: seq<TrackedBlob>, marked: seq<Blob>, rows: seq<int>, cols: seq<int>,
             ts: seq<TrackedBlob>, log': MovementLog, id: int)
    requires Inputs(tracks, blobs, s) && ValidLog(log)
    ensures ValidLog(log') && |matched| == MAX_BLOBS && |ts| == MAX_BLOBS
    ensures TrackedFrame(tracks, blobs, log, nextId, s, matched, marked, rows, cols, ts, log', id)
    ensures nextId <= id
    ensures forall k :: 0 <= k < MAX_BLOBS && IsUpdated(matched[k]) && IsTracking(matched[k]) ==> matched[k] in ts
    ensures NoOverdue(ts, s.maxDeadFrames)
    ensures Counted(ts)
  {
    var numTracked := Count(tracks, IsTracking);
    matched, ts, log' := tracks, tracks, log;
    marked, rows, cols := blobs, [], [];
    if numTracked > 0 {
      matched, marked, rows, cols := UpdateTrackedBlobs(tracks, blobs, s);
      ts, log' := SortTrackedBlobs(matched, log, s);
      SortedNoOverdue(matched, s.maxDeadFrames);
      MatchedCounted(matched, tracks, blobs, rows, cols, s);
      SortedCounted(matched, s.maxDeadFrames);
    }
    CountIfExtremes(tracks, IsTracking);
    var sorted := ts;
    ts, id := AddRemainingBlobs(sorted, marked, nextId);
    PlaceNoOverdue(sorted, marked, nextId, s.maxDeadFrames);
    PlaceSlots(sorted, marked, nextId);
    PlaceCounted(sorted, marked, nextId);
    TrackedFrameKeepsMatched(tracks, blobs, log, nextId, s, matched, marked, rows, cols, ts, log', id);
  }

  /** Tracks found live before the new blobs are placed are still in the
      table afterwards. */
  lemma {:induction false} PlaceKeepsTracked(tracks: seq<TrackedBlob>, blobs: seq<Blob>, id: int, live: seq<TrackedBlob>)
    requires forall k :: 0 <= k < |live| && IsUpdated(live[k]) && IsTracking(live[k]) ==> live[k] in tracks
    ensures forall k :: 0 <= k < |live| && IsUpdated(live[k]) && IsTracking(live[k]) ==>
              live[k] in Place(tracks, blobs, id).tracks
  {
    var r := Place(tracks, blobs, id).tracks;
    PlaceKeepsLive(tracks, blobs, id);
    forall k | 0 <= k < |live| && IsUpdated(live[k]) && IsTracking(live[k]) ensures live[k] in r {
      var j :| 0 <= j < |tracks| && tracks[j] == live[k];
      assert r[j] == tracks[j];
    }
  }
}
