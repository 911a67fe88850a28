/** Greedy matching of the tracks with the blobs of the new frame.

    Every (track, blob) pair gets a difference score; pairs where either side
    is empty get the threshold itself, which can never be matched. The
    matcher repeatedly takes the least entry below the threshold, updates
    that track with that blob, and retires the entry's row and column, until
    no entry below the threshold is left.
 */
module Matching {
  import opened Config
  import opened Tables
  import opened Blobs
  import opened TrackedBlobs

  /** The difference matrix: one row per track slot, one column per blob slot. */
  type Matrix = seq<seq<real>>

  predicate IsMatrix(m: Matrix) {
    |m| == MAX_BLOBS && forall i :: 0 <= i < MAX_BLOBS ==> |m[i]| == MAX_BLOBS
  }

  predicate InTable(i: int) {
    0 <= i < MAX_BLOBS
  }

  /** `generate_difference_matrix`: the score of every pair of an active track
      and an active blob, and the threshold for every other pair. */
  function DifferenceMatrix(tracks: seq<TrackedBlob>, blobs: seq<Blob>, s: Settings): (m: Matrix)
    requires |tracks| == MAX_BLOBS && |blobs| == MAX_BLOBS && s.weights.frameWidth >= 2
    ensures IsMatrix(m)
    ensures forall i, j :: InTable(i) && InTable(j) ==>
              m[i][j] == if IsActive(blobs[j]) && IsTracking(tracks[i])
                         then GetDifference(tracks[i], blobs[j].shape, s.weights)
                         else s.maxDifferenceThreshold
  {
    seq(MAX_BLOBS, i requires 0 <= i < MAX_BLOBS =>
      seq(MAX_BLOBS, j requires 0 <= j < MAX_BLOBS =>
        if IsActive(blobs[j]) && IsTracking(tracks[i])
        then GetDifference(tracks[i], blobs[j].shape, s.weights)
        else s.maxDifferenceThreshold))
  }

  /** Only a pair of an active track and an active blob can score below the threshold. */
  lemma {:induction false} OnlyActivePairsMatchable(tracks: seq<TrackedBlob>, blobs: seq<Blob>, s: Settings)
    requires |tracks| == MAX_BLOBS && |blobs| == MAX_BLOBS && s.weights.frameWidth >= 2
    ensures var m := DifferenceMatrix(tracks, blobs, s);
            forall i, j :: InTable(i) && InTable(j) && m[i][j] < s.maxDifferenceThreshold ==>
              IsTracking(tracks[i]) && IsActive(blobs[j])
  {
    var m := DifferenceMatrix(tracks, blobs, s);
    forall i, j | InTable(i) && InTable(j) && m[i][j] < s.maxDifferenceThreshold
      ensures IsTracking(tracks[i]) && IsActive(blobs[j])
    {
    }
  }

  /** The value and position `get_lowest_difference` reports. */
  datatype Pick = Pick(value: real, row: int, col: int)

  /** Cell (a, b) comes before cell (i, j) in row-major order. */
  predicate Before(a: int, b: int, i: int, j: int) {
    a < i || (a == i && b < j)
  }

  /** `p` is the least entry below the threshold, the first one in row-major
      order among equals; or, when there is none, the threshold at (-1, -1). */
  ghost predicate IsLowest(m: Matrix, thr: real, p: Pick)
    requires IsMatrix(m)
  {
    if p.row == -1 then
      && p == Pick(thr, -1, -1)
      && forall a, b :: InTable(a) && InTable(b) ==> m[a][b] >= thr
    else
      && InTable(p.row) && InTable(p.col)
      && p.value == m[p.row][p.col] < thr
      && (forall a, b :: InTable(a) && InTable(b) ==> m[a][b] >= p.value)
      && (forall a, b :: InTable(a) && InTable(b) && Before(a, b, p.row, p.col) ==> m[a][b] > p.value)
  }

  /** No cell before (i, j) is below `v`. */
  ghost predicate NoneBelow(m: Matrix, v: real, i: int, j: int)
    requires IsMatrix(m)
  {
    forall a, b :: InTable(a) && InTable(b) && Before(a, b, i, j) ==> m[a][b] >= v
  }

  /** Every cell before (i, j) is above `v`. */
  ghost predicate AllAbove(m: Matrix, v: real, i: int, j: int)
    requires IsMatrix(m)
  {
    forall a, b :: InTable(a) && InTable(b) && Before(a, b, i, j) ==> m[a][b] > v
  }

  /** The same statement restricted to the cells before (i, j): the state of
      the scan after visiting them. */
  ghost predicate LowestSoFar(m: Matrix, thr: real, p: Pick, i: int, j: int)
    requires IsMatrix(m)
  {
    if p.row == -1 then
      && p == Pick(thr, -1, -1)
      && NoneBelow(m, thr, i, j)
    else
      && InTable(p.row) && InTable(p.col) && Before(p.row, p.col, i, j)
      && p.value == m[p.row][p.col] < thr
      && NoneBelow(m, p.value, i, j)
      && AllAbove(m, p.value, p.row, p.col)
  }

  /** The scan moves past a cell that is lower than the pick and below the
      threshold: that cell becomes the pick. */
  lemma {:induction false} ScanTake(m: Matrix, thr: real, p: Pick, i: int, j: int)
    requires IsMatrix(m) && InTable(i) && InTable(j) && LowestSoFar(m, thr, p, i, j)
    requires m[i][j] < p.value && m[i][j] < thr
    ensures LowestSoFar(m, thr, Pick(m[i][j], i, j), i, j + 1)
  {
    var q := Pick(m[i][j], i, j);
    forall a, b | InTable(a) && InTable(b) && Before(a, b, i, j + 1)
      ensures m[a][b] >= q.value
    {
      if Before(a, b, i, j) {
        assert m[a][b] >= p.value;
      }
    }
    forall a, b | InTable(a) && InTable(b) && Before(a, b, i, j)
      ensures m[a][b] > q.value
    {
      assert m[a][b] >= p.value;
    }
  }

  /** The scan moves past any other cell: the pick stays. */
  lemma {:induction false} ScanSkip(m: Matrix, thr: real, p: Pick, i: int, j: int)
    requires IsMatrix(m) && InTable(i) && InTable(j) && LowestSoFar(m, thr, p, i, j)
    requires !(m[i][j] < p.value && m[i][j] < thr)
    ensures LowestSoFar(m, thr, p, i, j + 1)
  {
    assert p.value <= thr;
    forall a, b | InTable(a) && InTable(b) && Before(a, b, i, j + 1)
      ensures m[a][b] >= p.value
    {
      if Before(a, b, i, j) {
        assert m[a][b] >= p.value;
      }
    }
  }

  /** Moving to the next row. */
  lemma {:induction false} ScanRow(m: Matrix, thr: real, p: Pick, i: int)
    requires IsMatrix(m) && InTable(i) && LowestSoFar(m, thr, p, i, MAX_BLOBS)
    ensures LowestSoFar(m, thr, p, i + 1, 0)
  {
  }

  /** Past the last row the scan has seen every cell. */
  lemma {:induction false} ScanDone(m: Matrix, thr: real, p: Pick)
    requires IsMatrix(m) && LowestSoFar(m, thr, p, MAX_BLOBS, 0)
    ensures IsLowest(m, thr, p)
  {
    forall a, b | InTable(a) && InTable(b)
      ensures Before(a, b, MAX_BLOBS, 0)
    {
    }
  }

  /** `get_lowest_difference`: scan the matrix row by row, keeping the first
      strictly lower entry below the threshold. */
  method GetLowestDifference(m: Matrix, thr: real) returns (p: Pick)
    requires IsMatrix(m)
    ensures IsLowest(m, thr, p)
  {
    p := Pick(thr, -1, -1);
    var i := 0;
    while i < MAX_BLOBS
      invariant 0 <= i <= MAX_BLOBS
      invariant LowestSoFar(m, thr, p, i, 0)
    {
      p := ScanLine(m, thr, p, i);
      ScanRow(m, thr, p, i);
      i := i + 1;
    }
    ScanDone(m, thr, p);
  }

  /** The inner loop of `get_lowest_difference`: one row of the matrix. */
  method ScanLine(m: Matrix, thr: real, p0: Pick, i: int) returns (p: Pick)
    requires IsMatrix(m) && InTable(i) && LowestSoFar(m, thr, p0, i, 0)
    ensures LowestSoFar(m, thr, p, i, MAX_BLOBS)
  {
    p := p0;
    var j := 0;
    while j < MAX_BLOBS
      invariant 0 <= j <= MAX_BLOBS
      invariant LowestSoFar(m, thr, p, i, j)
    {
      p := ScanCell(m, thr, p, i, j);
      j := j + 1;
    }
  }

  /** The body of the inner loop: one cell of the matrix. */
  method ScanCell(m: Matrix, thr: real, p0: Pick, i: int, j: int) returns (p: Pick)
    requires IsMatrix(m) && InTable(i) && InTable(j) && LowestSoFar(m, thr, p0, i, j)
    ensures LowestSoFar(m, thr, p, i, j + 1)
  {
    p := p0;
    var difference := m[i][j];
    if difference < p.value && difference < thr {
      ScanTake(m, thr, p, i, j);
      p := Pick(difference, i, j);
    } else {
      ScanSkip(m, thr, p, i, j);
    }
  }

  /** The report of `get_lowest_difference` is determined by the matrix. */
  lemma {:induction false} LowestIsUnique(m: Matrix, thr: real, p: Pick, q: Pick)
    requires IsMatrix(m) && IsLowest(m, thr, p) && IsLowest(m, thr, q)
    ensures p == q
  {
    if p.row != -1 && q.row != -1 {
      assert m[q.row][q.col] >= p.value && m[p.row][p.col] >= q.value;
      if Before(p.row, p.col, q.row, q.col) {
        assert false;
      } else if Before(q.row, q.col, p.row, p.col) {
        assert false;
      }
    }
  }

  /** `remove_difference_row_col`: overwrite one row and one column with the
      threshold. */
  method RemoveDifferenceRowCol(m: Matrix, row: int, col: int, thr: real) returns (r: Matrix)
    requires IsMatrix(m) && InTable(row) && InTable(col)
    ensures IsMatrix(r)
    ensures forall a, b :: InTable(a) && InTable(b) ==>
              r[a][b] == if a == row || b == col then thr else m[a][b]
  {
    r := m;
    var i := 0;
    while i < MAX_BLOBS
      invariant 0 <= i <= MAX_BLOBS && IsMatrix(r)
      invariant forall a, b :: InTable(a) && InTable(b) ==>
                  r[a][b] == if (a == row && b < i) || (b == col && a < i) then thr else m[a][b]
    {
      r := r[row := r[row][i := thr]];
      r := r[i := r[i][col := thr]];
      i := i + 1;
    }
  }

  /** Matched track slots and blob slots, pairwise. */
  predicate Pairs(rows: seq<int>, cols: seq<int>) {
    && |rows| == |cols|
    && forall k :: 0 <= k < |rows| ==> 0 <= rows[k] < MAX_BLOBS && 0 <= cols[k] < MAX_BLOBS
  }

  /** The matrix with the matched rows and columns retired. */
  ghost predicate Retired(m: Matrix, m0: Matrix, rows: seq<int>, cols: seq<int>, thr: real)
    requires IsMatrix(m) && IsMatrix(m0)
  {
    forall a, b :: InTable(a) && InTable(b) ==>
      m[a][b] == if a in rows || b in cols then thr else m0[a][b]
  }

  /** The matrix `m0` once the matches `rows`/`cols` have been made. */
  function RetiredMatrix(m0: Matrix, rows: seq<int>, cols: seq<int>, thr: real): (m: Matrix)
    requires IsMatrix(m0)
    ensures IsMatrix(m) && Retired(m, m0, rows, cols, thr)
  {
    seq(MAX_BLOBS, a requires 0 <= a < MAX_BLOBS =>
      seq(MAX_BLOBS, b requires 0 <= b < MAX_BLOBS =>
        if a in rows || b in cols then thr else m0[a][b]))
  }

  /** The matches determine the retired matrix. */
  lemma {:induction false} RetiredIs(m: Matrix, m0: Matrix, rows: seq<int>, cols: seq<int>, thr: real)
    requires IsMatrix(m) && IsMatrix(m0) && Retired(m, m0, rows, cols, thr)
    ensures m == RetiredMatrix(m0, rows, cols, thr)
  {
    var r := RetiredMatrix(m0, rows, cols, thr);
    forall a | 0 <= a < MAX_BLOBS
      ensures m[a] == r[a]
    {
      assert forall b :: 0 <= b < MAX_BLOBS ==> m[a][b] == r[a][b];
    }
  }

  /** The matches made so far: distinct tracks, distinct blobs, each pair
      scoring below the threshold in the original matrix. */
  ghost predicate Matching(m0: Matrix, rows: seq<int>, cols: seq<int>, thr: real)
    requires IsMatrix(m0)
  {
    && Pairs(rows, cols)
    && AllDifferent(rows) && AllDifferent(cols)
    && (forall k :: 0 <= k < |rows| ==> m0[rows[k]][cols[k]] < thr)
  }

  /** Each track slot after the matching: updated with its blob if matched,
      otherwise only its updated flag lowered. */
  ghost predicate TracksAfter(ts: seq<TrackedBlob>, ts0: seq<TrackedBlob>, bs0: seq<Blob>,
                        rows: seq<int>, cols: seq<int>, w: Weights)
    requires |ts| == |ts0| == |bs0| == MAX_BLOBS && Pairs(rows, cols)
    requires w.frameWidth >= 2 && forall k :: 0 <= k < MAX_BLOBS ==> ts0[k].timesUpdated >= 0
  {
    && (forall k :: 0 <= k < |rows| ==> ts[rows[k]] == UpdateBlob(ts0[rows[k]], bs0[cols[k]], w))
    && (forall i :: InTable(i) && i !in rows ==> ts[i] == ts0[i])
  }

  /** Retiring the row and column of a new match. */
  lemma {:induction false} RetireStep(m: Matrix, m': Matrix, m0: Matrix, rows: seq<int>, cols: seq<int>,
                                      row: int, col: int, thr: real)
    requires IsMatrix(m) && IsMatrix(m') && IsMatrix(m0) && InTable(row) && InTable(col)
    requires Retired(m, m0, rows, cols, thr)
    requires forall a, b :: InTable(a) && InTable(b) ==>
               m'[a][b] == if a == row || b == col then thr else m[a][b]
    ensures Retired(m', m0, rows + [row], cols + [col], thr)
  {
    forall a, b | InTable(a) && InTable(b)
      ensures m'[a][b] == if a in rows + [row] || b in cols + [col] then thr else m0[a][b]
    {
      assert a in rows + [row] <==> a in rows || a == row;
      assert b in cols + [col] <==> b in cols || b == col;
    }
  }

  /** A pick below the threshold from the retired matrix extends the matching. */
  lemma {:induction false} MatchStep(m: Matrix, m0: Matrix, rows: seq<int>, cols: seq<int>, thr: real, p: Pick)
    requires IsMatrix(m) && IsMatrix(m0)
    requires Retired(m, m0, rows, cols, thr) && Matching(m0, rows, cols, thr)
    requires IsLowest(m, thr, p) && p.value < thr
    ensures InTable(p.row) && InTable(p.col) && p.row !in rows && p.col !in cols
    ensures m0[p.row][p.col] == p.value
    ensures Matching(m0, rows + [p.row], cols + [p.col], thr)
    ensures |rows| < MAX_BLOBS
  {
    var rows', cols' := rows + [p.row], cols + [p.col];
    forall k | 0 <= k < |rows'| ensures InTable(rows'[k]) && InTable(cols'[k]) && m0[rows'[k]][cols'[k]] < thr {
      if k < |rows| {
        assert rows'[k] == rows[k] && cols'[k] == cols[k];
      }
    }
    assert AllDifferent(rows') by {
      forall a, b | 0 <= a < b < |rows'| ensures rows'[a] != rows'[b] {
        if b == |rows| {
          assert rows'[a] == rows[a];
          assert rows[a] in rows;
        }
      }
    }
    assert AllDifferent(cols') by {
      forall a, b | 0 <= a < b < |cols'| ensures cols'[a] != cols'[b] {
        if b == |cols| {
          assert cols'[a] == cols[a];
          assert cols[a] in cols;
        }
      }
    }
    FewDifferentBelow(rows', MAX_BLOBS);
  }

  /** Updating the newly matched track. */
  lemma {:induction false} TracksStep(ts: seq<TrackedBlob>, ts0: seq<TrackedBlob>, bs0: seq<Blob>,
                                      rows: seq<int>, cols: seq<int>, w: Weights, row: int, col: int)
    requires |ts| == |ts0| == |bs0| == MAX_BLOBS && Pairs(rows, cols)
    requires w.frameWidth >= 2 && forall k :: 0 <= k < MAX_BLOBS ==> ts0[k].timesUpdated >= 0
    requires InTable(row) && InTable(col) && row !in rows
    requires TracksAfter(ts, ts0, bs0, rows, cols, w)
    ensures TracksAfter(ts[row := UpdateBlob(ts0[row], bs0[col], w)], ts0, bs0, rows + [row], cols + [col], w)
  {
    var ts' := ts[row := UpdateBlob(ts0[row], bs0[col], w)];
    var rows', cols' := rows + [row], cols + [col];
    forall k | 0 <= k < |rows'| ensures ts'[rows'[k]] == UpdateBlob(ts0[rows'[k]], bs0[cols'[k]], w) {
      if k < |rows| {
        assert rows'[k] == rows[k] && cols'[k] == cols[k];
        assert rows[k] in rows;
      }
    }
    forall i | InTable(i) && i !in rows' ensures ts'[i] == ts0[i] {
      assert i != row && i !in rows;
    }
  }

  /** What `update_tracked_blobs` needs of its inputs. */
  predicate Inputs(tracks: seq<TrackedBlob>, blobs: seq<Blob>, s: Settings) {
    && |tracks| == MAX_BLOBS && |blobs| == MAX_BLOBS && s.weights.frameWidth >= 2
    && forall k :: 0 <= k < MAX_BLOBS ==> tracks[k].timesUpdated >= 0
  }

  /** Every track with its updated flag lowered. */
  function ResetAll(tracks: seq<TrackedBlob>): (r: seq<TrackedBlob>)
    ensures |r| == |tracks|
    ensures forall k :: 0 <= k < |r| ==> !IsUpdated(r[k]) && r[k].(hasUpdated := tracks[k].hasUpdated) == tracks[k]
  {
    seq(|tracks|, k requires 0 <= k < |tracks| => ResetUpdated(tracks[k]))
  }

  /** Every blob with its assigned flag lowered. */
  function ClearAllAssigned(blobs: seq<Blob>): (r: seq<Blob>)
    ensures |r| == |blobs|
    ensures forall k :: 0 <= k < |r| ==> r[k] == blobs[k].(isAssigned := false)
  {
    seq(|blobs|, k requires 0 <= k < |blobs| => ClearAssigned(blobs[k]))
  }

  /** The matrix `update_tracked_blobs` starts from. */
  function InitialMatrix(tracks: seq<TrackedBlob>, blobs: seq<Blob>, s: Settings): (m: Matrix)
    requires Inputs(tracks, blobs, s)
    ensures IsMatrix(m)
  {
    DifferenceMatrix(ResetAll(tracks), ClearAllAssigned(blobs), s)
  }

  /** Marking blob `col` assigned extends the marking to `cols + [col]`. */
  lemma {:induction false} AssignStep(blobs: seq<Blob>, bs: seq<Blob>, cols: seq<int>, col: int)
    requires |blobs| == MAX_BLOBS && |bs| == MAX_BLOBS && InTable(col)
    requires forall j :: InTable(j) ==> bs[j] == blobs[j].(isAssigned := j in cols)
    ensures var bs' := bs[col := SetAssigned(bs[col])];
            forall j :: InTable(j) ==> bs'[j] == blobs[j].(isAssigned := j in cols + [col])
  {
    var bs' := bs[col := SetAssigned(bs[col])];
    forall j | InTable(j) ensures bs'[j] == blobs[j].(isAssigned := j in cols + [col]) {
      assert j in cols + [col] <==> j in cols || j == col;
    }
  }

  /** The matrix side of the matching loop's state after the matches
      `rows`/`cols`, starting from the matrix `m0`. */
  ghost predicate Picking(thr: real, m0: Matrix, m: Matrix, rows: seq<int>, cols: seq<int>, p: Pick) {
    && IsMatrix(m0) && IsMatrix(m)
    && Retired(m, m0, rows, cols, thr) && Matching(m0, rows, cols, thr)
    && |rows| <= MAX_BLOBS
    && IsLowest(m, thr, p)
  }

  /** The table side of the matching loop's state. */
  ghost predicate Updating(tracks: seq<TrackedBlob>, blobs: seq<Blob>, w: Weights,
                           rows: seq<int>, cols: seq<int>, ts: seq<TrackedBlob>, bs: seq<Blob>)
  {
    && |tracks| == MAX_BLOBS && |blobs| == MAX_BLOBS && w.frameWidth >= 2
    && (forall k :: 0 <= k < MAX_BLOBS ==> tracks[k].timesUpdated >= 0)
    && |ts| == MAX_BLOBS && |bs| == MAX_BLOBS && Pairs(rows, cols)
    && TracksAfter(ts, ResetAll(tracks), ClearAllAssigned(blobs), rows, cols, w)
    && (forall j :: InTable(j) ==> bs[j] == blobs[j].(isAssigned := j in cols))
  }

  /** A pick below the threshold names an unmatched track and an unmatched
      blob, and retiring its row and column keeps the matrix side. */
  lemma {:induction false} PickingStep(thr: real, m0: Matrix, m: Matrix, rows: seq<int>, cols: seq<int>, p: Pick,
                                       m': Matrix, p': Pick)
    requires Picking(thr, m0, m, rows, cols, p) && p.value < thr
    requires IsMatrix(m')
    requires forall a, b :: InTable(a) && InTable(b) ==>
               m'[a][b] == if a == p.row || b == p.col then thr else m[a][b]
    requires IsLowest(m', thr, p')
    ensures InTable(p.row) && InTable(p.col) && p.row !in rows && p.col !in cols
    ensures Picking(thr, m0, m', rows + [p.row], cols + [p.col], p')
  {
    MatchStep(m, m0, rows, cols, thr, p);
    RetireStep(m, m', m0, rows, cols, p.row, p.col, thr);
  }

  /** Updating the matched track and marking the matched blob keep the table side. */
  lemma {:induction false} UpdatingStep(tracks: seq<TrackedBlob>, blobs: seq<Blob>, w: Weights,
                                        rows: seq<int>, cols: seq<int>, ts: seq<TrackedBlob>, bs: seq<Blob>,
                                        row: int, col: int)
    requires Updating(tracks, blobs, w, rows, cols, ts, bs)
    requires InTable(row) && InTable(col) && row !in rows && col !in cols
    ensures ts[row] == ResetUpdated(tracks[row]) && bs[col] == ClearAssigned(blobs[col])
    ensures Updating(tracks, blobs, w, rows + [row], cols + [col],
                     ts[row := UpdateBlob(ts[row], bs[col], w)], bs[col := SetAssigned(bs[col])])
  {
    TracksStep(ts, ResetAll(tracks), ClearAllAssigned(blobs), rows, cols, w, row, col);
    AssignStep(blobs, bs, cols, col);
    PairsStep(rows, cols, row, col);
  }

  /** One more matched pair of table slots. */
  lemma {:induction false} PairsStep(rows: seq<int>, cols: seq<int>, row: int, col: int)
    requires Pairs(rows, cols) && InTable(row) && InTable(col)
    ensures Pairs(rows + [row], cols + [col])
  {
    var rows', cols' := rows + [row], cols + [col];
    forall k | 0 <= k < |rows'| ensures 0 <= rows'[k] < MAX_BLOBS && 0 <= cols'[k] < MAX_BLOBS {
      if k < |rows| {
        assert rows'[k] == rows[k] && cols'[k] == cols[k];
      }
    }
  }

  /** When no pick below the threshold is left, every pair of an unmatched
      track and an unmatched blob scores at least the threshold. */
  lemma {:induction false} PickingDone(thr: real, m0: Matrix, m: Matrix, rows: seq<int>, cols: seq<int>, p: Pick)
    requires Picking(thr, m0, m, rows, cols, p) && p.value >= thr
    ensures forall a, b :: InTable(a) && InTable(b) && a !in rows && b !in cols ==> m0[a][b] >= thr
  {
    forall a, b | InTable(a) && InTable(b) && a !in rows && b !in cols
      ensures m0[a][b] >= thr
    {
      assert m[a][b] == m0[a][b];
    }
  }

  /** Match `k` was the lowest pick of the matrix with the earlier matches
      retired. */
  ghost predicate PickedLowest(m0: Matrix, rows: seq<int>, cols: seq<int>, thr: real, k: int)
    requires IsMatrix(m0) && Pairs(rows, cols) && 0 <= k < |rows|
  {
    IsLowest(RetiredMatrix(m0, rows[..k], cols[..k], thr), thr, Pick(m0[rows[k]][cols[k]], rows[k], cols[k]))
  }

  /** Every match so far was the lowest pick when it was made. */
  ghost predicate GreedySoFar(m0: Matrix, rows: seq<int>, cols: seq<int>, thr: real)
    requires IsMatrix(m0)
  {
    && Pairs(rows, cols)
    && forall k :: 0 <= k < |rows| ==> PickedLowest(m0, rows, cols, thr, k)
  }

  /** The matches are the greedy ones: each was the lowest pick when it was
      made, and after the last one no entry below the threshold is left. */
  ghost predicate Greedy(m0: Matrix, rows: seq<int>, cols: seq<int>, thr: real)
    requires IsMatrix(m0)
  {
    && GreedySoFar(m0, rows, cols, thr)
    && IsLowest(RetiredMatrix(m0, rows, cols, thr), thr, Pick(thr, -1, -1))
  }

  /** Taking the lowest pick keeps the matching greedy. */
  lemma {:induction false} GreedyStep(thr: real, m0: Matrix, m: Matrix, rows: seq<int>, cols: seq<int>, p: Pick)
    requires Picking(thr, m0, m, rows, cols, p) && p.value < thr && GreedySoFar(m0, rows, cols, thr)
    ensures GreedySoFar(m0, rows + [p.row], cols + [p.col], thr)
  {
    MatchStep(m, m0, rows, cols, thr, p);
    RetiredIs(m, m0, rows, cols, thr);
    PairsStep(rows, cols, p.row, p.col);
    var rows', cols' := rows + [p.row], cols + [p.col];
    forall k | 0 <= k < |rows'|
      ensures PickedLowest(m0, rows', cols', thr, k)
    {
      if k < |rows| {
        assert rows'[..k] == rows[..k] && cols'[..k] == cols[..k];
        assert rows'[k] == rows[k] && cols'[k] == cols[k];
        assert PickedLowest(m0, rows, cols, thr, k);
      } else {
        assert rows'[..k] == rows && cols'[..k] == cols;
      }
    }
  }

  /** When no pick below the threshold is left, the matching is greedy. */
  lemma {:induction false} GreedyDone(thr: real, m0: Matrix, m: Matrix, rows: seq<int>, cols: seq<int>, p: Pick)
    requires Picking(thr, m0, m, rows, cols, p) && p.value >= thr && GreedySoFar(m0, rows, cols, thr)
    ensures Greedy(m0, rows, cols, thr)
  {
    RetiredIs(m, m0, rows, cols, thr);
  }

  /** Two greedy matchings agree on their first `k` matches. */
  lemma {:induction false} GreedyPrefix(m0: Matrix, thr: real, rows: seq<int>, cols: seq<int>,
                                        rows2: seq<int>, cols2: seq<int>, k: nat)
    requires IsMatrix(m0) && GreedySoFar(m0, rows, cols, thr) && GreedySoFar(m0, rows2, cols2, thr)
    requires k <= |rows| && k <= |rows2|
    ensures rows[..k] == rows2[..k] && cols[..k] == cols2[..k]
  {
    if k > 0 {
      GreedyPrefix(m0, thr, rows, cols, rows2, cols2, k - 1);
      assert PickedLowest(m0, rows, cols, thr, k - 1);
      assert PickedLowest(m0, rows2, cols2, thr, k - 1);
      var r := RetiredMatrix(m0, rows[..k - 1], cols[..k - 1], thr);
      LowestIsUnique(r, thr, Pick(m0[rows[k - 1]][cols[k - 1]], rows[k - 1], cols[k - 1]),
                     Pick(m0[rows2[k - 1]][cols2[k - 1]], rows2[k - 1], cols2[k - 1]));
      assert rows[..k] == rows[..k - 1] + [rows[k - 1]] && rows2[..k] == rows2[..k - 1] + [rows2[k - 1]];
      assert cols[..k] == cols[..k - 1] + [cols[k - 1]] && cols2[..k] == cols2[..k - 1] + [cols2[k - 1]];
    }
  }

  /** A greedy matching that goes on past `rows`/`cols` leaves an entry below
      the threshold once they are retired. */
  lemma {:induction false} ContinuedPickBelow(m0: Matrix, thr: real, rows: seq<int>, cols: seq<int>,
                                              rows2: seq<int>, cols2: seq<int>)
    requires IsMatrix(m0) && GreedySoFar(m0, rows2, cols2, thr) && |rows| < |rows2|
    requires |cols| == |rows| && rows2[..|rows|] == rows[..|rows|] && cols2[..|rows|] == cols[..|rows|]
    ensures exists a, b :: InTable(a) && InTable(b) && RetiredMatrix(m0, rows, cols, thr)[a][b] < thr
  {
    var k := |rows|;
    assert rows == rows[..k] && cols == cols[..k];
    assert PickedLowest(m0, rows2, cols2, thr, k);
    assert RetiredMatrix(m0, rows, cols, thr)[rows2[k]][cols2[k]] < thr;
  }

  /** A greedy matching that made its last match cannot be extended by
      another greedy matching. */
  lemma {:induction false} GreedyNoLonger(m0: Matrix, thr: real, rows: seq<int>, cols: seq<int>,
                                          rows2: seq<int>, cols2: seq<int>)
    requires IsMatrix(m0) && Greedy(m0, rows, cols, thr) && GreedySoFar(m0, rows2, cols2, thr)
    ensures |rows2| <= |rows|
  {
    if |rows| < |rows2| {
      GreedyPrefix(m0, thr, rows, cols, rows2, cols2, |rows|);
      ContinuedPickBelow(m0, thr, rows, cols, rows2, cols2);
      assert false;
    }
  }

  /** The greedy matching is unique: the matrix and the threshold decide
      which track takes which blob, and in which order. */
  lemma {:induction false} GreedyIsUnique(m0: Matrix, thr: real, rows: seq<int>, cols: seq<int>,
                                          rows2: seq<int>, cols2: seq<int>)
    requires IsMatrix(m0) && Greedy(m0, rows, cols, thr) && Greedy(m0, rows2, cols2, thr)
    ensures rows == rows2 && cols == cols2
  {
    GreedyNoLonger(m0, thr, rows, cols, rows2, cols2);
    GreedyNoLonger(m0, thr, rows2, cols2, rows, cols);
    GreedyPrefix(m0, thr, rows, cols, rows2, cols2, |rows|);
    assert rows == rows[..|rows|] && rows2 == rows2[..|rows2|];
    assert cols == cols[..|cols|] && cols2 == cols2[..|cols2|];
  }

  /** The outcome of `update_tracked_blobs`: `rows` and `cols` pair track
      slots with blob slots, each pair scoring below the threshold; every
      unpaired track and unpaired blob score at least the threshold against
      each other; the pairs were made greedily, lowest difference first; each paired track is updated with its blob and every other
      track only has its updated flag lowered; exactly the paired blobs are
      marked assigned. */
  ghost predicate MatchedFrame(tracks: seq<TrackedBlob>, blobs: seq<Blob>, s: Settings,
                               ts: seq<TrackedBlob>, bs: seq<Blob>, rows: seq<int>, cols: seq<int>)
    requires Inputs(tracks, blobs, s)
  {
    var m0 := InitialMatrix(tracks, blobs, s);
    var thr := s.maxDifferenceThreshold;
    && |ts| == MAX_BLOBS && |bs| == MAX_BLOBS
    && Matching(m0, rows, cols, thr)
    && |rows| <= MAX_BLOBS
    && (forall a, b :: InTable(a) && InTable(b) && a !in rows && b !in cols ==> m0[a][b] >= thr)
    && Greedy(m0, rows, cols, thr)
    && TracksAfter(ts, ResetAll(tracks), ClearAllAssigned(blobs), rows, cols, s.weights)
    && (forall j :: InTable(j) ==> bs[j] == blobs[j].(isAssigned := j in cols))
  }

  /** The outcome of `update_tracked_blobs` is determined by its inputs. */
  lemma {:induction false} MatchedFrameUnique(tracks: seq<TrackedBlob>, blobs: seq<Blob>, s: Settings,
                                              ts: seq<TrackedBlob>, bs: seq<Blob>, rows: seq<int>, cols: seq<int>,
                                              ts2: seq<TrackedBlob>, bs2: seq<Blob>, rows2: seq<int>, cols2: seq<int>)
    requires Inputs(tracks, blobs, s)
    requires MatchedFrame(tracks, blobs, s, ts, bs, rows, cols)
    requires MatchedFrame(tracks, blobs, s, ts2, bs2, rows2, cols2)
    ensures rows == rows2 && cols == cols2 && ts == ts2 && bs == bs2
  {
    GreedyIsUnique(InitialMatrix(tracks, blobs, s), s.maxDifferenceThreshold, rows, cols, rows2, cols2);
    forall i | 0 <= i < MAX_BLOBS
      ensures ts[i] == ts2[i]
    {
      if i in rows {
        var k :| 0 <= k < |rows| && rows[k] == i;
      }
    }
  }

  /** `update_tracked_blobs`: lower every track's updated flag and every blob's
      assigned flag, then match greedily by least difference. Returns the
      matched track slots and blob slots in the order they were matched. */
  method UpdateTrackedBlobs(tracks: seq<TrackedBlob>, blobs: seq<Blob>, s: Settings)
    returns (ts: seq<TrackedBlob>, bs: seq<Blob>, rows: seq<int>, cols: seq<int>)
    requires Inputs(tracks, blobs, s)
    ensures MatchedFrame(tracks, blobs, s, ts, bs, rows, cols)
  {
    var thr := s.maxDifferenceThreshold;
    ts := ResetAll(tracks);
    bs := ClearAllAssigned(blobs);
    var m := DifferenceMatrix(ts, bs, s);
    ghost var m0 := m;
    rows, cols := [], [];
    var p := GetLowestDifference(m, thr);
    while p.value < thr
      invariant Picking(thr, m0, m, rows, cols, p)
      invariant Updating(tracks, blobs, s.weights, rows, cols, ts, bs)
      invariant GreedySoFar(m0, rows, cols, thr)
      decreases MAX_BLOBS - |rows|
    {
      ts, bs, rows, cols, m, p := MatchLowest(tracks, blobs, s, m0, ts, bs, rows, cols, m, p);
    }
    PickingDone(thr, m0, m, rows, cols, p);
    GreedyDone(thr, m0, m, rows, cols, p);
  }

  /** The body of the matching loop: update the track and mark the blob of
      the lowest pick, retire their row and column, and pick again. */
  method MatchLowest(tracks: seq<TrackedBlob>, blobs: seq<Blob>, s: Settings, ghost m0: Matrix,
                     ts: seq<TrackedBlob>, bs: seq<Blob>, rows: seq<int>, cols: seq<int>, m: Matrix, p: Pick)
    returns (ts': seq<TrackedBlob>, bs': seq<Blob>, rows': seq<int>, cols': seq<int>, m': Matrix, p': Pick)
    requires Picking(s.maxDifferenceThreshold, m0, m, rows, cols, p) && p.value < s.maxDifferenceThreshold
    requires Updating(tracks, blobs, s.weights, rows, cols, ts, bs)
    requires GreedySoFar(m0, rows, cols, s.maxDifferenceThreshold)
    ensures rows' == rows + [p.row] && cols' == cols + [p.col]
    ensures m0[p.row][p.col] == p.value
    ensures m' == RetiredMatrix(m0, rows', cols', s.maxDifferenceThreshold)
    ensures IsLowest(m', s.maxDifferenceThreshold, p')
    ensures Picking(s.maxDifferenceThreshold, m0, m', rows', cols', p')
    ensures Updating(tracks, blobs, s.weights, rows', cols', ts', bs')
    ensures GreedySoFar(m0, rows', cols', s.maxDifferenceThreshold)
  {
    var thr := s.maxDifferenceThreshold;
    MatchStep(m, m0, rows, cols, thr, p);
    GreedyStep(thr, m0, m, rows, cols, p);
    m' := RemoveDifferenceRowCol(m, p.row, p.col, thr);
    p' := GetLowestDifference(m', thr);
    PickingStep(thr, m0, m, rows, cols, p, m', p');
    UpdatingStep(tracks, blobs, s.weights, rows, cols, ts, bs, p.row, p.col);
    ts' := ts[p.row := UpdateBlob(ts[p.row], bs[p.col], s.weights)];
    bs' := bs[p.col := SetAssigned(bs[p.col])];
    rows', cols' := rows + [p.row], cols + [p.col];
    RetiredIs(m', m0, rows', cols', thr);
  }
}
