/** The movement counters: how many tracks ended moving left, right, up, down,
    or with no clear direction.

    A track that stops being followed is classified once from its net travel.
    The counters are cumulative; reading them lowers the "changed" flag and
    resetting them zeroes the counts without touching that flag.
 */
module Movements {
  import opened Config
  import opened Numerics
  import opened Blobs
  import opened TrackedBlobs

  /** The `directions` enumeration: the index of each counter. */
  const LEFT: int := 0
  const RIGHT: int := 1
  const UP: int := 2
  const DOWN: int := 3
  const NO_DIRECTION: int := 4

  /** The counters `movements[5]` and the flag `movement_changed_since_last_check`. */
  datatype MovementLog = MovementLog(counts: seq<int>, changed: bool)

  predicate ValidLog(m: MovementLog) {
    |m.counts| == NUM_DIRECTION_CATEGORIES
  }

  const EmptyLog: MovementLog := MovementLog([0, 0, 0, 0, 0], false)

  function Sum(s: seq<int>): int {
    if |s| == 0 then 0 else Sum(s[..|s| - 1]) + s[|s| - 1]
  }

  /** `constrain(direction, 0, 4)`. */
  function Constrain(x: int, lo: int, hi: int): (r: int)
    requires lo <= hi
    ensures lo <= r <= hi
    ensures lo <= x <= hi ==> r == x
    ensures x < lo ==> r == lo
    ensures x > hi ==> r == hi
  {
    if x < lo then lo else if x > hi then hi else x
  }

  /** `add_movement`: bump the counter of the (clamped) direction and raise the flag. */
  function AddMovement(m: MovementLog, direction: int): (r: MovementLog)
    requires ValidLog(m)
    ensures ValidLog(r) && r.changed
    ensures var d := Constrain(direction, 0, NUM_DIRECTION_CATEGORIES - 1);
            forall k :: 0 <= k < |r.counts| ==> r.counts[k] == m.counts[k] + (if k == d then 1 else 0)
  {
    var d := Constrain(direction, 0, NUM_DIRECTION_CATEGORIES - 1);
    MovementLog(m.counts[d := m.counts[d] + 1], true)
  }

  /** Bumping one counter adds exactly one to the sum of the counters. */
  lemma {:induction false} SumUpdate(s: seq<int>, i: int, v: int)
    requires 0 <= i < |s|
    ensures Sum(s[i := v]) == Sum(s) - s[i] + v
    decreases |s|
  {
    var t := s[i := v];
    if i < |s| - 1 {
      assert t[..|t| - 1] == s[..|s| - 1][i := v];
      SumUpdate(s[..|s| - 1], i, v);
    } else {
      assert t[..|t| - 1] == s[..|s| - 1];
    }
  }

  lemma {:induction false} AddMovementCountsOne(m: MovementLog, direction: int)
    requires ValidLog(m)
    ensures Sum(AddMovement(m, direction).counts) == Sum(m.counts) + 1
  {
    var d := Constrain(direction, 0, NUM_DIRECTION_CATEGORIES - 1);
    SumUpdate(m.counts, d, m.counts[d] + 1);
  }

  /** The directions `process_blob_movements` records for a track, in the order
      it records them: a horizontal verdict if the horizontal travel exceeds the
      threshold, then a vertical verdict likewise, and NO_DIRECTION if neither.
      The contract states the classification per counter. */
  function Directions(t: TrackedBlob, threshold: real): (r: seq<int>)
    ensures 1 <= |r| <= 2
    ensures forall k :: 0 <= k < |r| ==> 0 <= r[k] < NUM_DIRECTION_CATEGORIES
    ensures LEFT in r <==> Abs(t.travel.x) > threshold && t.travel.x < 0.0
    ensures RIGHT in r <==> Abs(t.travel.x) > threshold && t.travel.x >= 0.0
    ensures UP in r <==> Abs(t.travel.y) > threshold && t.travel.y > 0.0
    ensures DOWN in r <==> Abs(t.travel.y) > threshold && t.travel.y <= 0.0
    ensures NO_DIRECTION in r <==> Abs(t.travel.x) <= threshold && Abs(t.travel.y) <= threshold
    ensures |r| == 2 <==> Abs(t.travel.x) > threshold && Abs(t.travel.y) > threshold
  {
    var tx := GetTravel(t, AXIS_X);
    var ty := GetTravel(t, AXIS_Y);
    var horizontal := if Abs(tx) > threshold then [if tx < 0.0 then LEFT else RIGHT] else [];
    var vertical := if Abs(ty) > threshold then [if ty > 0.0 then UP else DOWN] else [];
    if |horizontal| + |vertical| == 0 then [NO_DIRECTION] else horizontal + vertical
  }

  /** Record a sequence of directions. */
  function AddAll(m: MovementLog, ds: seq<int>): (r: MovementLog)
    requires ValidLog(m)
    ensures ValidLog(r)
    ensures |ds| > 0 ==> r.changed
    ensures |ds| == 0 ==> r == m
  {
    if |ds| == 0 then m else AddMovement(AddAll(m, ds[..|ds| - 1]), ds[|ds| - 1])
  }

  /** Recording in-range directions bumps each counter once per occurrence of
      its index in the list. */
  lemma {:induction false} AddAllPerCounter(m: MovementLog, ds: seq<int>)
    requires ValidLog(m)
    requires forall i :: 0 <= i < |ds| ==> 0 <= ds[i] < NUM_DIRECTION_CATEGORIES
    ensures forall k :: 0 <= k < NUM_DIRECTION_CATEGORIES ==>
              AddAll(m, ds).counts[k] == m.counts[k] + multiset(ds)[k]
  {
    if |ds| > 0 {
      var init := ds[..|ds| - 1];
      var last := ds[|ds| - 1];
      AddAllPerCounter(m, init);
      assert ds == init + [last];
      assert multiset(ds) == multiset(init) + multiset{last};
      assert Constrain(last, 0, NUM_DIRECTION_CATEGORIES - 1) == last;
    }
  }

  lemma {:induction false} AddAllCounts(m: MovementLog, ds: seq<int>)
    requires ValidLog(m)
    ensures Sum(AddAll(m, ds).counts) == Sum(m.counts) + |ds|
  {
    if |ds| > 0 {
      AddAllCounts(m, ds[..|ds| - 1]);
      AddMovementCountsOne(AddAll(m, ds[..|ds| - 1]), ds[|ds| - 1]);
    }
  }

  /** Whether a track whose travel is `t.travel` ends heading in direction `d`:
      the classification `process_blob_movements` applies, stated directly. */
  predicate Heading(t: TrackedBlob, threshold: real, d: int) {
    if d == LEFT then Abs(t.travel.x) > threshold && t.travel.x < 0.0
    else if d == RIGHT then Abs(t.travel.x) > threshold && t.travel.x >= 0.0
    else if d == UP then Abs(t.travel.y) > threshold && t.travel.y > 0.0
    else if d == DOWN then Abs(t.travel.y) > threshold && t.travel.y <= 0.0
    else if d == NO_DIRECTION then Abs(t.travel.x) <= threshold && Abs(t.travel.y) <= threshold
    else false
  }

  /** Each direction occurs in the list at most once, exactly when the track
      heads that way. */
  lemma {:induction false} DirectionsOnce(t: TrackedBlob, threshold: real, d: int)
    requires 0 <= d < NUM_DIRECTION_CATEGORIES
    ensures multiset(Directions(t, threshold))[d] == if Heading(t, threshold, d) then 1 else 0
  {
    var r := Directions(t, threshold);
    if |r| == 2 {
      assert r == [r[0], r[1]];
      assert r[0] == LEFT || r[0] == RIGHT;
      assert r[1] == UP || r[1] == DOWN;
    } else {
      assert r == [r[0]];
    }
  }

  /** `process_blob_movements`: classify one dying track. The track is passed by
      value, so clearing its id there has no effect outside. Each counter goes
      up by one exactly when the track heads its way. */
  function ProcessBlobMovements(m: MovementLog, t: TrackedBlob, threshold: real): (r: MovementLog)
    requires ValidLog(m)
    ensures ValidLog(r) && r.changed
    ensures forall d :: 0 <= d < NUM_DIRECTION_CATEGORIES ==>
              r.counts[d] == m.counts[d] + (if Heading(t, threshold, d) then 1 else 0)
  {
    var ds := Directions(t, threshold);
    AddAllPerCounter(m, ds);
    forall d | 0 <= d < NUM_DIRECTION_CATEGORIES
      ensures multiset(ds)[d] == if Heading(t, threshold, d) then 1 else 0
    {
      DirectionsOnce(t, threshold, d);
    }
    AddAll(m, ds)
  }

  /** One death adds one or two to the counters in total. */
  lemma {:induction false} ProcessAddsOneOrTwo(m: MovementLog, t: TrackedBlob, threshold: real)
    requires ValidLog(m)
    ensures var added := Sum(ProcessBlobMovements(m, t, threshold).counts) - Sum(m.counts);
            1 <= added <= 2
  {
    AddAllCounts(m, Directions(t, threshold));
  }

  /** Classify every dying track, in order. */
  function ProcessAll(m: MovementLog, ended: seq<TrackedBlob>, threshold: real): (r: MovementLog)
    requires ValidLog(m)
    ensures ValidLog(r)
    ensures |ended| > 0 ==> r.changed
    ensures |ended| == 0 ==> r == m
  {
    if |ended| == 0 then m
    else ProcessBlobMovements(ProcessAll(m, ended[..|ended| - 1], threshold), ended[|ended| - 1], threshold)
  }

  /** `n` deaths add between `n` and `2n` to the counters. */
  lemma {:induction false} ProcessAllCounts(m: MovementLog, ended: seq<TrackedBlob>, threshold: real)
    requires ValidLog(m)
    ensures var added := Sum(ProcessAll(m, ended, threshold).counts) - Sum(m.counts);
            |ended| <= added <= 2 * |ended|
  {
    if |ended| > 0 {
      var before := ProcessAll(m, ended[..|ended| - 1], threshold);
      ProcessAllCounts(m, ended[..|ended| - 1], threshold);
      ProcessAddsOneOrTwo(before, ended[|ended| - 1], threshold);
    }
  }

  /** How many of the tracks head in direction `d`. */
  function Headed(ended: seq<TrackedBlob>, threshold: real, d: int): (r: nat)
    ensures r <= |ended|
  {
    if |ended| == 0 then 0
    else Headed(ended[..|ended| - 1], threshold, d) + (if Heading(ended[|ended| - 1], threshold, d) then 1 else 0)
  }

  /** Classifying a list of dying tracks adds to each counter the number of
      them that head its way. */
  lemma {:induction false} ProcessAllPerCounter(m: MovementLog, ended: seq<TrackedBlob>, threshold: real)
    requires ValidLog(m)
    ensures forall d :: 0 <= d < NUM_DIRECTION_CATEGORIES ==>
              ProcessAll(m, ended, threshold).counts[d] == m.counts[d] + Headed(ended, threshold, d)
  {
    if |ended| > 0 {
      ProcessAllPerCounter(m, ended[..|ended| - 1], threshold);
    }
  }

  /** `get_movements`: hand out the counters and lower the flag. */
  method GetMovements(m: MovementLog) returns (counts: seq<int>, r: MovementLog)
    requires ValidLog(m)
    ensures counts == m.counts && |counts| == NUM_DIRECTION_CATEGORIES
    ensures r.counts == m.counts && !r.changed
  {
    counts := [];
    var i := 0;
    while i < NUM_DIRECTION_CATEGORIES
      invariant 0 <= i <= NUM_DIRECTION_CATEGORIES
      invariant counts == m.counts[..i]
    {
      counts := counts + [m.counts[i]];
      i := i + 1;
    }
    r := m.(changed := false);
  }

  /** `has_new_movements`. */
  predicate HasNewMovements(m: MovementLog) {
    m.changed
  }

  /** `reset_movements`: zero the counters; the flag is left as it was. */
  function ResetMovements(m: MovementLog): (r: MovementLog)
    ensures ValidLog(r)
    ensures forall k :: 0 <= k < |r.counts| ==> r.counts[k] == 0
    ensures r.changed == m.changed
  {
    MovementLog([0, 0, 0, 0, 0], m.changed)
  }

  /** Reading the counters twice in a row: the second read returns the same
      counts and reports nothing new. */
  method ReadTwice(m: MovementLog) returns (first: seq<int>, second: seq<int>, r: MovementLog)
    requires ValidLog(m)
    ensures first == second == m.counts
    ensures !HasNewMovements(r) && r.counts == m.counts
  {
    var m1;
    first, m1 := GetMovements(m);
    second, r := GetMovements(m1);
  }
}
