/** Blob detection: from a frame and the background to a table of blobs.

    A cell is active when it stands out from the background by more than both
    its scaled spread and the minimum temperature differential. Active cells
    are listed in row-major order as pixels `(column, row)`. Blobs are grown
    from that list by repeated passes: each pass takes one queued pixel,
    moves the live pixels adjacent to it onto the queue and compacts the rest
    to the front of the list, keeping their order. At most MAX_BLOBS blobs
    are grown; blobs smaller than the minimum size are then dropped and the
    survivors closed up at the front of the table.

    `GetBlobs` is the extraction with the first-pass bound re-checked after
    the seed is skipped; the extraction as the original writes it, and what
    goes wrong with it, is in module BlobsAsWritten.
 */
module Detection {
  import opened Config
  import opened Numerics
  import opened Tables
  import opened Pixels
  import opened Blobs
  import opened Background

  // ---------------------------------------------------------------------------
  // Active pixels

  /** The threshold test of `get_active_pixels`, both comparisons strict. */
  predicate IsActiveCell(bg: Background, frame: Grid, s: Settings, i: int, j: int)
    requires ValidBackground(bg) && IsGrid(frame) && InGrid(i, j)
  {
    var difference := Abs(bg.averages[i][j] - frame[i][j]);
    difference > bg.variances[i][j] * s.activePixelVarianceScalar
    && difference > s.minimumTemperatureDifferential
  }

  /** The pixel made from cell `[i][j]`: column first, then row. */
  function CellPixel(frame: Grid, i: int, j: int): Pixel
    requires IsGrid(frame) && InGrid(i, j)
  {
    Pixel(j, i, frame[i][j])
  }

  /** Row-major position of a pixel. */
  function Index(p: Pixel): int {
    p.y * FRAME_WIDTH + p.x
  }

  /** The active pixels of row `i` among its first `j` columns, left to right. */
  function ActiveInRow(bg: Background, frame: Grid, s: Settings, i: int, j: int): (r: seq<Pixel>)
    requires ValidBackground(bg) && IsGrid(frame) && 0 <= i < FRAME_HEIGHT && 0 <= j <= FRAME_WIDTH
    ensures |r| <= j
  {
    if j == 0 then []
    else
      var before := ActiveInRow(bg, frame, s, i, j - 1);
      if IsActiveCell(bg, frame, s, i, j - 1) then before + [CellPixel(frame, i, j - 1)] else before
  }

  /** `r` holds exactly the active cells among the first `j` columns of row
      `i`, as pixels of that row, in increasing column order. */
  ghost predicate ListsRow(bg: Background, frame: Grid, s: Settings, i: int, j: int, r: seq<Pixel>)
    requires ValidBackground(bg) && IsGrid(frame) && 0 <= i < FRAME_HEIGHT && 0 <= j <= FRAME_WIDTH
  {
    && (forall k :: 0 <= k < |r| ==>
          && r[k].y == i && 0 <= r[k].x < j
          && IsActiveCell(bg, frame, s, i, r[k].x) && r[k] == CellPixel(frame, i, r[k].x))
    && (forall a, b :: 0 <= a < b < |r| ==> r[a].x < r[b].x)
    && (forall c :: 0 <= c < j && IsActiveCell(bg, frame, s, i, c) ==> CellPixel(frame, i, c) in r)
  }

  lemma {:induction false} ActiveInRowIs(bg: Background, frame: Grid, s: Settings, i: int, j: int)
    requires ValidBackground(bg) && IsGrid(frame) && 0 <= i < FRAME_HEIGHT && 0 <= j <= FRAME_WIDTH
    ensures ListsRow(bg, frame, s, i, j, ActiveInRow(bg, frame, s, i, j))
  {
    if j > 0 {
      ActiveInRowIs(bg, frame, s, i, j - 1);
    }
  }

  /** The active pixels of the first `i` rows, in row-major order. */
  function ActiveUpToRow(bg: Background, frame: Grid, s: Settings, i: int): (r: seq<Pixel>)
    requires ValidBackground(bg) && IsGrid(frame) && 0 <= i <= FRAME_HEIGHT
    ensures |r| <= i * FRAME_WIDTH
  {
    if i == 0 then []
    else ActiveUpToRow(bg, frame, s, i - 1) + ActiveInRow(bg, frame, s, i - 1, FRAME_WIDTH)
  }

  /** `r` holds exactly the active cells of the first `i` rows, in
      increasing row-major position. */
  ghost predicate ListsRows(bg: Background, frame: Grid, s: Settings, i: int, r: seq<Pixel>)
    requires ValidBackground(bg) && IsGrid(frame) && 0 <= i <= FRAME_HEIGHT
  {
    && (forall k :: 0 <= k < |r| ==>
          && InGrid(r[k].y, r[k].x) && r[k].y < i
          && IsActiveCell(bg, frame, s, r[k].y, r[k].x) && r[k] == CellPixel(frame, r[k].y, r[k].x))
    && RowMajor(r)
    && (forall row, c :: 0 <= row < i && 0 <= c < FRAME_WIDTH && IsActiveCell(bg, frame, s, row, c) ==>
          CellPixel(frame, row, c) in r)
  }

  lemma {:induction false} ActiveUpToRowIs(bg: Background, frame: Grid, s: Settings, i: int)
    requires ValidBackground(bg) && IsGrid(frame) && 0 <= i <= FRAME_HEIGHT
    ensures ListsRows(bg, frame, s, i, ActiveUpToRow(bg, frame, s, i))
  {
    if i > 0 {
      var before := ActiveUpToRow(bg, frame, s, i - 1);
      var row := ActiveInRow(bg, frame, s, i - 1, FRAME_WIDTH);
      ActiveUpToRowIs(bg, frame, s, i - 1);
      ActiveInRowIs(bg, frame, s, i - 1, FRAME_WIDTH);
      forall a, b | 0 <= a < |before| && 0 <= b < |row|
        ensures Index(before[a]) < Index(row[b])
      {
        assert before[a].y < i - 1 && 0 <= before[a].x < FRAME_WIDTH;
        assert row[b].y == i - 1 && 0 <= row[b].x;
      }
      assert before + row == ActiveUpToRow(bg, frame, s, i);
      RowMajorAppend(before, row);
    }
  }

  /** Pixels listed in strictly increasing row-major position. */
  predicate RowMajor(r: seq<Pixel>) {
    forall a, b :: 0 <= a < b < |r| ==> Index(r[a]) < Index(r[b])
  }

  /** Two row-major lists, the first wholly before the second, append to one. */
  lemma RowMajorAppend(before: seq<Pixel>, after: seq<Pixel>)
    requires RowMajor(before) && RowMajor(after)
    requires forall a, b :: 0 <= a < |before| && 0 <= b < |after| ==> Index(before[a]) < Index(after[b])
    ensures RowMajor(before + after)
  {
    var r := before + after;
    forall a, b | 0 <= a < b < |r|
      ensures Index(r[a]) < Index(r[b])
    {
      if b < |before| {
        assert r[a] == before[a] && r[b] == before[b];
      } else if a < |before| {
        assert r[a] == before[a] && r[b] == after[b - |before|];
      } else {
        assert r[a] == after[a - |before|] && r[b] == after[b - |before|];
      }
    }
  }

  /** `get_active_pixels`: scan the grid row by row, column by column. */
  method GetActivePixels(bg: Background, frame: Grid, s: Settings) returns (pixels: seq<Pixel>)
    requires ValidBackground(bg) && IsGrid(frame)
    ensures pixels == ActiveUpToRow(bg, frame, s, FRAME_HEIGHT)
    ensures |pixels| <= FRAME_SIZE
    ensures forall k :: 0 <= k < |pixels| ==>
              InGrid(pixels[k].y, pixels[k].x) && IsActiveCell(bg, frame, s, pixels[k].y, pixels[k].x)
              && pixels[k].temperature == frame[pixels[k].y][pixels[k].x]
    ensures forall i, j :: InGrid(i, j) && IsActiveCell(bg, frame, s, i, j) ==> Pixel(j, i, frame[i][j]) in pixels
    ensures forall a, b :: 0 <= a < b < |pixels| ==> Index(pixels[a]) < Index(pixels[b])
  {
    pixels := [];
    var i := 0;
    while i < FRAME_HEIGHT
      invariant 0 <= i <= FRAME_HEIGHT
      invariant pixels == ActiveUpToRow(bg, frame, s, i)
    {
      var j := 0;
      while j < FRAME_WIDTH
        invariant 0 <= j <= FRAME_WIDTH
        invariant pixels == ActiveUpToRow(bg, frame, s, i) + ActiveInRow(bg, frame, s, i, j)
      {
        if IsActiveCell(bg, frame, s, i, j) {
          pixels := pixels + [CellPixel(frame, i, j)];
        }
        j := j + 1;
      }
      i := i + 1;
    }
    ActiveUpToRowIs(bg, frame, s, FRAME_HEIGHT);
  }

  // ---------------------------------------------------------------------------
  // One pass over the live pixels

  /** The live pixels a pass leaves in the list: those not adjacent to the
      centre, in their original order. */
  function Keep(s: seq<Pixel>, center: Pixel, adj: Adjacency): (r: seq<Pixel>)
    ensures |r| + |Found(s, center, adj)| == |s|
  {
    if |s| == 0 then []
    else if adj(center, s[|s| - 1]) then Keep(s[..|s| - 1], center, adj)
    else Keep(s[..|s| - 1], center, adj) + [s[|s| - 1]]
  }

  /** The live pixels a pass moves onto the queue: those adjacent to the
      centre, in their original order. */
  function Found(s: seq<Pixel>, center: Pixel, adj: Adjacency): (r: seq<Pixel>)
    ensures |r| <= |s|
  {
    if |s| == 0 then []
    else if adj(center, s[|s| - 1]) then Found(s[..|s| - 1], center, adj) + [s[|s| - 1]]
    else Found(s[..|s| - 1], center, adj)
  }

  /** What a pass keeps was live and is not adjacent to the centre; what it
      finds was live and is adjacent to the centre. */
  lemma {:induction false} KeepFoundMembers(s: seq<Pixel>, center: Pixel, adj: Adjacency)
    ensures forall x :: x in Keep(s, center, adj) ==> x in s && !adj(center, x)
    ensures forall x :: x in Found(s, center, adj) ==> x in s && adj(center, x)
  {
    if |s| > 0 {
      KeepFoundMembers(s[..|s| - 1], center, adj);
      assert s == s[..|s| - 1] + [s[|s| - 1]];
    }
  }

  /** A pass splits the live pixels, losing and duplicating none. */
  lemma {:induction false} KeepFoundSplit(s: seq<Pixel>, center: Pixel, adj: Adjacency)
    ensures multiset(Keep(s, center, adj)) + multiset(Found(s, center, adj)) == multiset(s)
  {
    if |s| > 0 {
      KeepFoundSplit(s[..|s| - 1], center, adj);
      assert s == s[..|s| - 1] + [s[|s| - 1]];
    }
  }

  /** Extending the scanned range by one pixel extends exactly one of the two
      lists by that pixel. */
  lemma {:induction false} PassStep(buf: seq<Pixel>, start: int, i: int, center: Pixel, adj: Adjacency)
    requires 0 <= start <= i < |buf|
    ensures adj(center, buf[i]) ==>
              && Keep(buf[start..i + 1], center, adj) == Keep(buf[start..i], center, adj)
              && Found(buf[start..i + 1], center, adj) == Found(buf[start..i], center, adj) + [buf[i]]
    ensures !adj(center, buf[i]) ==>
              && Keep(buf[start..i + 1], center, adj) == Keep(buf[start..i], center, adj) + [buf[i]]
              && Found(buf[start..i + 1], center, adj) == Found(buf[start..i], center, adj)
  {
    var t := buf[start..i + 1];
    assert t[..|t| - 1] == buf[start..i];
    assert t[|t| - 1] == buf[i];
  }

  /** Copy the pixel at `i` down to the vacant index `v` (a no-op when they
      coincide): the prefix grows by that pixel and the unscanned part stays. */
  function CopyDown(r: seq<Pixel>, v: int, i: int): (r': seq<Pixel>)
    requires 0 <= v <= i < |r|
    ensures |r'| == |r|
    ensures r'[..v + 1] == r[..v] + [r[i]]
    ensures r'[i + 1..] == r[i + 1..]
  {
    if v < i then r[v := r[i]] else r
  }

  /** The compaction loop of one pass of `get_blobs`: scan the live prefix
      `buf[..n]` from `start`, hand adjacent pixels to the queue and copy the
      others down to the next vacant index. Cells from `n` on are untouched. */
  method CompactPass(buf: seq<Pixel>, n: int, start: int, center: Pixel, adj: Adjacency)
    returns (r: seq<Pixel>, vacant: int, found: seq<Pixel>)
    requires 0 <= start <= n <= |buf|
    ensures |r| == |buf| && 0 <= vacant <= n - start
    ensures r[..vacant] == Keep(buf[start..n], center, adj)
    ensures found == Found(buf[start..n], center, adj)
    ensures r[n..] == buf[n..]
  {
    r := buf;
    vacant := 0;
    found := [];
    var i := start;
    while i < n
      invariant start <= i <= n
      invariant 0 <= vacant <= i - start
      invariant |r| == |buf| && r[i..] == buf[i..]
      invariant r[..vacant] == Keep(buf[start..i], center, adj)
      invariant found == Found(buf[start..i], center, adj)
    {
      assert r[i] == buf[i] by {
        assert r[i..][0] == buf[i..][0];
      }
      PassStep(buf, start, i, center, adj);
      if adj(center, r[i]) {
        found := found + [r[i]];
        assert found == Found(buf[start..i + 1], center, adj);
        assert r[..vacant] == Keep(buf[start..i + 1], center, adj);
        assert r[i + 1..] == buf[i + 1..] by {
          assert r[i + 1..] == r[i..][1..];
        }
      } else {
        ghost var kept := r[..vacant];
        assert r[i + 1..] == buf[i + 1..] by {
          assert r[i + 1..] == r[i..][1..];
        }
        r := CopyDown(r, vacant, i);
        vacant := vacant + 1;
        assert r[..vacant] == kept + [buf[i]];
        assert r[..vacant] == Keep(buf[start..i + 1], center, adj);
      }
      i := i + 1;
    }
  }

  // ---------------------------------------------------------------------------
  // Growing one blob, and extracting all of them

  /** A finished blob's pixels, in queue order, and the live pixels left. */
  datatype Growth = Growth(group: seq<Pixel>, rest: seq<Pixel>)

  /** Run passes with queue entries `qi`, `qi + 1`, ... as centres until the
      queue is exhausted. */
  function Grow(live: seq<Pixel>, queue: seq<Pixel>, qi: nat, adj: Adjacency): (r: Growth)
    requires qi <= |queue|
    ensures |queue| <= |r.group|
    ensures |r.group| + |r.rest| == |queue| + |live|
    decreases |live| + |queue| - qi
  {
    if qi == |queue| then Growth(queue, live)
    else
      var center := queue[qi];
      Grow(Keep(live, center, adj), queue + Found(live, center, adj), qi + 1, adj)
  }

  /** The groups found and the live pixels left when the table filled up. */
  datatype Extraction = Extraction(groups: seq<seq<Pixel>>, leftover: seq<Pixel>)

  /** Seed a blob with the first live pixel, grow it, and repeat while live
      pixels remain and fewer than MAX_BLOBS blobs exist (`count` so far). */
  function Extract(live: seq<Pixel>, count: nat, adj: Adjacency): (r: Extraction)
    requires count <= MAX_BLOBS
    ensures |r.groups| <= MAX_BLOBS - count
    ensures forall k :: 0 <= k < |r.groups| ==> |r.groups[k]| >= 1
    ensures r.leftover == [] || count + |r.groups| == MAX_BLOBS
    decreases |live|
  {
    if |live| == 0 || count == MAX_BLOBS then Extraction([], live)
    else
      var g := Grow(live[1..], [live[0]], 0, adj);
      var e := Extract(g.rest, count + 1, adj);
      Extraction([g.group] + e.groups, e.leftover)
  }

  function Flatten(gs: seq<seq<Pixel>>): seq<Pixel> {
    if |gs| == 0 then [] else Flatten(gs[..|gs| - 1]) + gs[|gs| - 1]
  }

  lemma {:induction false} FlattenCons(g: seq<Pixel>, gs: seq<seq<Pixel>>)
    ensures Flatten([g] + gs) == g + Flatten(gs)
    decreases |gs|
  {
    if |gs| == 0 {
      assert [g] + gs == [g];
      assert [g][..0] == [];
    } else {
      var gs' := gs[..|gs| - 1];
      assert ([g] + gs)[..|gs|] == [g] + gs';
      FlattenCons(g, gs');
    }
  }

  /** Growing moves pixels from the live list to the queue, losing and
      duplicating none. */
  lemma {:induction false} GrowConserves(live: seq<Pixel>, queue: seq<Pixel>, qi: nat, adj: Adjacency)
    requires qi <= |queue|
    ensures var r := Grow(live, queue, qi, adj);
            multiset(r.group) + multiset(r.rest) == multiset(queue) + multiset(live)
    decreases |live| + |queue| - qi
  {
    if qi < |queue| {
      var center := queue[qi];
      KeepFoundSplit(live, center, adj);
      GrowConserves(Keep(live, center, adj), queue + Found(live, center, adj), qi + 1, adj);
    }
  }

  /** The pixel at queue position `k` is adjacent to an earlier one. */
  predicate Linked(q: seq<Pixel>, k: int, adj: Adjacency)
    requires 0 <= k < |q|
  {
    exists j :: 0 <= j < k && adj(q[j], q[k])
  }

  /** Every queued pixel after the seed is adjacent to an earlier one. */
  predicate Chained(q: seq<Pixel>, adj: Adjacency) {
    forall k :: 0 < k < |q| ==> Linked(q, k, adj)
  }

  lemma {:induction false} GrowChained(live: seq<Pixel>, queue: seq<Pixel>, qi: nat, adj: Adjacency)
    requires qi <= |queue| && Chained(queue, adj)
    ensures Chained(Grow(live, queue, qi, adj).group, adj)
    decreases |live| + |queue| - qi
  {
    if qi < |queue| {
      var center := queue[qi];
      var found := Found(live, center, adj);
      var queue' := queue + found;
      KeepFoundMembers(live, center, adj);
      forall k | 0 < k < |queue'|
        ensures Linked(queue', k, adj)
      {
        if k >= |queue| {
          assert queue'[k] == found[k - |queue|] && found[k - |queue|] in found;
          assert queue'[qi] == center;
          assert 0 <= qi < k && adj(queue'[qi], queue'[k]);
        } else {
          assert Linked(queue, k, adj);
          var j :| 0 <= j < k && adj(queue[j], queue[k]);
          assert queue'[j] == queue[j] && queue'[k] == queue[k];
        }
      }
      assert Grow(live, queue, qi, adj) == Grow(Keep(live, center, adj), queue', qi + 1, adj);
      GrowChained(Keep(live, center, adj), queue', qi + 1, adj);
    }
  }

  /** `p` is adjacent to no pixel of `s`. */
  predicate Avoids(p: Pixel, s: seq<Pixel>, adj: Adjacency) {
    forall x :: x in s ==> !adj(p, x)
  }

  /** Every pixel of the group avoids every pixel of the rest. */
  predicate Separated(g: Growth, adj: Adjacency) {
    forall j :: 0 <= j < |g.group| ==> Avoids(g.group[j], g.rest, adj)
  }

  /** No pixel left live is adjacent to any pixel of the finished blob: every
      centre was tested against every pixel still live at its pass. */
  lemma {:induction false} GrowSeparated(live: seq<Pixel>, queue: seq<Pixel>, qi: nat, adj: Adjacency)
    requires qi <= |queue|
    requires forall j :: 0 <= j < qi ==> Avoids(queue[j], live, adj)
    ensures Separated(Grow(live, queue, qi, adj), adj)
    decreases |live| + |queue| - qi
  {
    if qi < |queue| {
      var center := queue[qi];
      var live' := Keep(live, center, adj);
      var queue' := queue + Found(live, center, adj);
      KeepFoundMembers(live, center, adj);
      forall j | 0 <= j < qi + 1
        ensures Avoids(queue'[j], live', adj)
      {
        assert queue'[j] == queue[j];
        if j < qi {
          assert Avoids(queue[j], live, adj);
        }
      }
      assert Grow(live, queue, qi, adj) == Grow(live', queue', qi + 1, adj);
      GrowSeparated(live', queue', qi + 1, adj);
    }
  }

  /** The first step of `Extract`, named. */
  lemma {:induction false} ExtractUnfold(live: seq<Pixel>, count: nat, adj: Adjacency)
    requires count < MAX_BLOBS && |live| > 0
    ensures var g := Grow(live[1..], [live[0]], 0, adj);
            var e := Extract(g.rest, count + 1, adj);
            Extract(live, count, adj) == Extraction([g.group] + e.groups, e.leftover)
  {
  }

  /** Every live pixel is placed in a group or left over, exactly once. */
  predicate Conserved(e: Extraction, live: seq<Pixel>) {
    multiset(Flatten(e.groups)) + multiset(e.leftover) == multiset(live)
  }

  /** The multiset bookkeeping of one extraction step. */
  lemma {:induction false} ConserveStep(live: seq<Pixel>, group: seq<Pixel>, rest: seq<Pixel>, e: Extraction)
    requires |live| > 0
    requires multiset(group) + multiset(rest) == multiset([live[0]]) + multiset(live[1..])
    requires Conserved(e, rest)
    ensures Conserved(Extraction([group] + e.groups, e.leftover), live)
  {
    FlattenCons(group, e.groups);
    assert live == [live[0]] + live[1..];
  }

  /** Extraction places every live pixel in exactly one blob or leaves it
      over: nothing is lost and nothing is counted twice. */
  lemma {:induction false} ExtractConserves(live: seq<Pixel>, count: nat, adj: Adjacency)
    requires count <= MAX_BLOBS
    ensures Conserved(Extract(live, count, adj), live)
    decreases |live|
  {
    if |live| > 0 && count < MAX_BLOBS {
      var g := Grow(live[1..], [live[0]], 0, adj);
      var e := Extract(g.rest, count + 1, adj);
      ExtractUnfold(live, count, adj);
      GrowConserves(live[1..], [live[0]], 0, adj);
      ExtractConserves(g.rest, count + 1, adj);
      ConserveStep(live, g.group, g.rest, e);
    } else {
      assert Extract(live, count, adj) == Extraction([], live);
      assert Flatten([]) == [];
    }
  }

  /** Every blob's pixels are connected through the adjacency test. */
  lemma {:induction false} ExtractConnected(live: seq<Pixel>, count: nat, adj: Adjacency)
    requires count <= MAX_BLOBS
    ensures var e := Extract(live, count, adj);
            forall k :: 0 <= k < |e.groups| ==> Chained(e.groups[k], adj)
    decreases |live|
  {
    if |live| > 0 && count < MAX_BLOBS {
      var g := Grow(live[1..], [live[0]], 0, adj);
      var e := Extract(g.rest, count + 1, adj);
      ExtractUnfold(live, count, adj);
      GrowChained(live[1..], [live[0]], 0, adj);
      ExtractConnected(g.rest, count + 1, adj);
      var r := [g.group] + e.groups;
      forall k | 0 <= k < |r|
        ensures Chained(r[k], adj)
      {
        if k > 0 {
          assert r[k] == e.groups[k - 1];
        }
      }
    }
  }

  /** No pixel of `a` is adjacent to a pixel of `b`. */
  predicate Apart(a: seq<Pixel>, b: seq<Pixel>, adj: Adjacency) {
    forall p, q :: p in a && q in b ==> !adj(p, q)
  }

  lemma {:induction false} ApartSubset(a: seq<Pixel>, b: seq<Pixel>, c: seq<Pixel>, adj: Adjacency)
    requires Apart(a, b, adj) && forall q :: q in c ==> q in b
    ensures Apart(a, c, adj)
  {
  }

  lemma {:induction false} GrowApart(live: seq<Pixel>, adj: Adjacency)
    requires |live| > 0
    ensures var g := Grow(live[1..], [live[0]], 0, adj);
            Apart(g.group, g.rest, adj)
  {
    var g := Grow(live[1..], [live[0]], 0, adj);
    GrowSeparated(live[1..], [live[0]], 0, adj);
    forall p, q | p in g.group && q in g.rest
      ensures !adj(p, q)
    {
      var j :| 0 <= j < |g.group| && g.group[j] == p;
      assert Avoids(g.group[j], g.rest, adj);
    }
  }

  /** Everything an extraction places or leaves over is drawn from `live`. */
  predicate DrawnFrom(e: Extraction, live: seq<Pixel>) {
    && (forall l :: 0 <= l < |e.groups| ==> forall q :: q in e.groups[l] ==> q in live)
    && (forall q :: q in e.leftover ==> q in live)
  }

  lemma {:induction false} ConservedDrawnFrom(e: Extraction, live: seq<Pixel>)
    requires Conserved(e, live)
    ensures DrawnFrom(e, live)
  {
    forall l, q | 0 <= l < |e.groups| && q in e.groups[l]
      ensures q in live
    {
      FlattenMember(e.groups, l, q);
      assert multiset(live)[q] == multiset(Flatten(e.groups))[q] + multiset(e.leftover)[q];
    }
    forall q | q in e.leftover
      ensures q in live
    {
      assert multiset(live)[q] == multiset(Flatten(e.groups))[q] + multiset(e.leftover)[q];
    }
  }

  /** No group is adjacent to a later group or to the leftover pixels. */
  predicate AllApart(e: Extraction, adj: Adjacency) {
    && (forall k, l :: 0 <= k < l < |e.groups| ==> Apart(e.groups[k], e.groups[l], adj))
    && (forall k :: 0 <= k < |e.groups| ==> Apart(e.groups[k], e.leftover, adj))
  }

  /** Putting a group in front keeps the groups apart when it avoids its rest
      and the later extraction draws from that rest. */
  lemma {:induction false} ApartStep(g: Growth, e: Extraction, adj: Adjacency)
    requires Apart(g.group, g.rest, adj) && AllApart(e, adj) && DrawnFrom(e, g.rest)
    ensures AllApart(Extraction([g.group] + e.groups, e.leftover), adj)
  {
    var r := [g.group] + e.groups;
    forall k, l | 0 <= k < l < |r|
      ensures Apart(r[k], r[l], adj)
    {
      assert r[l] == e.groups[l - 1];
      if k > 0 {
        assert r[k] == e.groups[k - 1];
      } else {
        ApartSubset(g.group, g.rest, e.groups[l - 1], adj);
      }
    }
    forall k | 0 <= k < |r|
      ensures Apart(r[k], e.leftover, adj)
    {
      if k > 0 {
        assert r[k] == e.groups[k - 1];
      } else {
        ApartSubset(g.group, g.rest, e.leftover, adj);
      }
    }
  }

  /** A blob is maximal: none of its pixels is adjacent to a pixel of a later
      blob or to a pixel left over. */
  lemma {:induction false} ExtractSeparated(live: seq<Pixel>, count: nat, adj: Adjacency)
    requires count <= MAX_BLOBS
    ensures AllApart(Extract(live, count, adj), adj)
    decreases |live|
  {
    if |live| > 0 && count < MAX_BLOBS {
      var g := Grow(live[1..], [live[0]], 0, adj);
      ExtractSeparated(g.rest, count + 1, adj);
      SeparatedStep(live, count, adj);
    } else {
      assert Extract(live, count, adj) == Extraction([], live);
    }
  }

  /** One step of `ExtractSeparated`: the first group grown avoids what is
      left, and the later extraction only draws from that. */
  lemma {:induction false} SeparatedStep(live: seq<Pixel>, count: nat, adj: Adjacency)
    requires count < MAX_BLOBS && |live| > 0
    requires AllApart(Extract(Grow(live[1..], [live[0]], 0, adj).rest, count + 1, adj), adj)
    ensures AllApart(Extract(live, count, adj), adj)
  {
    var g := Grow(live[1..], [live[0]], 0, adj);
    var e := Extract(g.rest, count + 1, adj);
    ExtractUnfold(live, count, adj);
    GrowApart(live, adj);
    ExtractDrawnFrom(g.rest, count + 1, adj);
    ApartStep(g, e, adj);
  }

  /** Every pixel an extraction places or leaves over comes from its input. */
  lemma {:induction false} ExtractDrawnFrom(live: seq<Pixel>, count: nat, adj: Adjacency)
    requires count <= MAX_BLOBS
    ensures DrawnFrom(Extract(live, count, adj), live)
  {
    ExtractConserves(live, count, adj);
    ConservedDrawnFrom(Extract(live, count, adj), live);
  }

  lemma {:induction false} FlattenMember(gs: seq<seq<Pixel>>, l: int, q: Pixel)
    requires 0 <= l < |gs| && q in gs[l]
    ensures q in Flatten(gs)
  {
    if l < |gs| - 1 {
      FlattenMember(gs[..|gs| - 1], l, q);
    }
  }

  /** No pixel occurs twice. */
  predicate Distinct(s: seq<Pixel>) {
    forall a, b :: 0 <= a < b < |s| ==> s[a] != s[b]
  }

  lemma {:induction false} DistinctCount(s: seq<Pixel>, p: Pixel)
    requires Distinct(s)
    ensures multiset(s)[p] <= 1
  {
    if |s| > 0 {
      var s' := s[..|s| - 1];
      DistinctCount(s', p);
      assert s == s' + [s[|s| - 1]];
      if p == s[|s| - 1] {
        assert p !in s';
      }
    }
  }

  lemma {:induction false} FlattenTwice(gs: seq<seq<Pixel>>, k: int, l: int, p: Pixel)
    requires 0 <= k < l < |gs| && p in gs[k] && p in gs[l]
    ensures multiset(Flatten(gs))[p] >= 2
  {
    var gs' := gs[..|gs| - 1];
    assert Flatten(gs) == Flatten(gs') + gs[|gs| - 1];
    if l < |gs| - 1 {
      FlattenTwice(gs', k, l, p);
    } else {
      FlattenMember(gs', k, p);
    }
  }

  /** Distinct active pixels land in at most one blob each. */
  lemma {:induction false} NoPixelInTwoBlobs(active: seq<Pixel>, adj: Adjacency)
    requires Distinct(active)
    ensures var e := Extract(active, 0, adj);
            forall k, l, p :: 0 <= k < l < |e.groups| && p in e.groups[k] ==> p !in e.groups[l]
  {
    var e := Extract(active, 0, adj);
    ExtractConserves(active, 0, adj);
    forall k, l, p | 0 <= k < l < |e.groups| && p in e.groups[k]
      ensures p !in e.groups[l]
    {
      if p in e.groups[l] {
        FlattenTwice(e.groups, k, l, p);
        DistinctCount(active, p);
      }
    }
  }

  /** A row-major list repeats no pixel: positions strictly increase. */
  lemma {:induction false} RowMajorDistinct(r: seq<Pixel>)
    requires RowMajor(r)
    ensures Distinct(r)
  {
    forall a, b | 0 <= a < b < |r|
      ensures r[a] != r[b]
    {
      assert Index(r[a]) < Index(r[b]);
    }
  }

  /** The blobs a frame's active pixels group into share no pixel. */
  lemma {:induction false} FrameBlobsDisjoint(bg: Background, frame: Grid, s: Settings, adj: Adjacency)
    requires ValidBackground(bg) && IsGrid(frame)
    ensures var e := Extract(ActiveUpToRow(bg, frame, s, FRAME_HEIGHT), 0, adj);
            forall k, l, p :: 0 <= k < l < |e.groups| && p in e.groups[k] ==> p !in e.groups[l]
  {
    var active := ActiveUpToRow(bg, frame, s, FRAME_HEIGHT);
    ActiveUpToRowIs(bg, frame, s, FRAME_HEIGHT);
    RowMajorDistinct(active);
    NoPixelInTwoBlobs(active, adj);
  }

  // ---------------------------------------------------------------------------
  // The blob table

  /** Filling the next slot of the table with the next group's blob. */
  lemma {:induction false} BlobTableStep(groups: seq<seq<Pixel>>, count: int)
    requires 0 <= count < |groups| && count < MAX_BLOBS
    ensures BlobTable(groups[..count + 1]) == BlobTable(groups[..count])[count := BlobOf(groups[count])]
  {
    var a := BlobTable(groups[..count + 1]);
    var b := BlobTable(groups[..count])[count := BlobOf(groups[count])];
    forall k | 0 <= k < MAX_BLOBS
      ensures a[k] == b[k]
    {
      if k < count {
        assert groups[..count + 1][k] == groups[..count][k];
      }
    }
  }

  /** When `get_blobs` stops, because no live pixel is left or the table is
      full, every group of the extraction has been placed. */
  lemma {:induction false} ExtractFinished(live: seq<Pixel>, count: nat, all: Extraction, adj: Adjacency)
    requires count <= MAX_BLOBS && count <= |all.groups|
    requires Extract(live, count, adj) == Extraction(all.groups[count..], all.leftover)
    requires |live| == 0 || count == MAX_BLOBS
    ensures count == |all.groups|
  {
    if |live| == 0 {
      assert Extract(live, count, adj).groups == [];
    }
  }

  /** One blob of `get_blobs`: seed it with the first live pixel, whose pass
      scans the live list from index 1, then grow it to completion. */
  method NextBlob(buf: seq<Pixel>, n: int, adj: Adjacency)
    returns (buf': seq<Pixel>, n': int, group: seq<Pixel>, blob: Blob)
    requires 0 < n <= |buf|
    ensures 0 <= n' <= |buf'|
    ensures Grow(buf[..n][1..], [buf[0]], 0, adj) == Growth(group, buf'[..n'])
    ensures blob == BlobOf(group)
  {
    var seed := buf[0];
    assert buf[1..n] == buf[..n][1..];
    var vacant, found;
    buf', vacant, found := CompactPass(buf, n, 1, seed, adj);
    var queue := [seed] + found;
    assert Grow(buf'[..vacant], queue, 1, adj) == Grow(buf[..n][1..], [seed], 0, adj);
    buf', n', group, blob := GrowBlob(buf', vacant, queue, adj);
  }

  /** The table `get_blobs` fills: one blob per group, then cleared slots. */
  function BlobTable(groups: seq<seq<Pixel>>): (r: seq<Blob>)
    requires |groups| <= MAX_BLOBS
    ensures |r| == MAX_BLOBS
    ensures forall k :: 0 <= k < |groups| ==> r[k] == BlobOf(groups[k])
    ensures forall k :: |groups| <= k < MAX_BLOBS ==> r[k] == EmptyBlob
  {
    seq(MAX_BLOBS, k requires 0 <= k < MAX_BLOBS => if k < |groups| then BlobOf(groups[k]) else EmptyBlob)
  }

  /** One round of `get_blobs` in terms of the whole extraction: the next group
      is the one grown from the first live pixel, and the rest of the
      extraction continues from what that growth leaves live. */
  lemma {:induction false} ExtractAdvance(live: seq<Pixel>, count: nat, all: Extraction, adj: Adjacency)
    requires count < MAX_BLOBS && |live| > 0 && count <= |all.groups|
    requires Extract(live, count, adj) == Extraction(all.groups[count..], all.leftover)
    ensures var g := Grow(live[1..], [live[0]], 0, adj);
            && count < |all.groups| && all.groups[count] == g.group
            && Extract(g.rest, count + 1, adj) == Extraction(all.groups[count + 1..], all.leftover)
  {
    ExtractUnfold(live, count, adj);
    assert all.groups[count + 1..] == all.groups[count..][1..];
  }

  /** The three whole-frame properties of an extraction started from scratch. */
  lemma {:induction false} ExtractFacts(active: seq<Pixel>, adj: Adjacency)
    ensures var e := Extract(active, 0, adj);
            && Conserved(e, active)
            && (forall k :: 0 <= k < |e.groups| ==> Chained(e.groups[k], adj))
            && AllApart(e, adj)
  {
    ExtractConserves(active, 0, adj);
    ExtractConnected(active, 0, adj);
    ExtractSeparated(active, 0, adj);
  }

  /** The later passes of `get_blobs` for one blob: take the next queued pixel
      as the centre, move its neighbours from the live list to the queue, and
      add the centre to the blob, until the queue is used up. The queue's
      first pixel is already the seed whose pass is done. */
  method GrowBlob(buf: seq<Pixel>, n: int, queue0: seq<Pixel>, adj: Adjacency)
    returns (buf': seq<Pixel>, n': int, group: seq<Pixel>, blob: Blob)
    requires 0 <= n <= |buf| && |queue0| >= 1
    ensures 0 <= n' <= |buf'|
    ensures Grow(buf[..n], queue0, 1, adj) == Growth(group, buf'[..n'])
    ensures blob == BlobOf(group)
  {
    buf', n' := buf, n;
    var queue := queue0;
    blob := AddPixel(EmptyBlob, queue[0]);
    var qi := 1;
    assert queue[..qi] == [queue[0]];
    assert BlobOf([queue[0]]) == AddPixel(BlobOf([]), queue[0]) by {
      assert [queue[0]][..0] == [];
    }
    while qi < |queue|
      invariant 1 <= qi <= |queue| && 0 <= n' <= |buf'|
      invariant Grow(buf'[..n'], queue, qi, adj) == Grow(buf[..n], queue0, 1, adj)
      invariant blob == BlobOf(queue[..qi])
      decreases n' + |queue| - qi
    {
      buf', n', queue, blob := GrowPass(buf', n', queue, qi, blob, adj);
      qi := qi + 1;
    }
    assert queue[..qi] == queue;
    group := queue;
  }

  /** One turn of the growing loop: a pass around the next queued pixel,
      whose neighbours join the queue, and the pixel joins the blob. */
  method GrowPass(buf: seq<Pixel>, n: int, queue: seq<Pixel>, qi: int, blob: Blob, adj: Adjacency)
    returns (buf': seq<Pixel>, n': int, queue': seq<Pixel>, blob': Blob)
    requires 1 <= qi < |queue| && 0 <= n <= |buf| && blob == BlobOf(queue[..qi])
    ensures 0 <= n' <= |buf'| && |queue| <= |queue'| && n' + |queue'| <= n + |queue|
    ensures Grow(buf'[..n'], queue', qi + 1, adj) == Grow(buf[..n], queue, qi, adj)
    ensures blob' == BlobOf(queue'[..qi + 1])
  {
    var center := queue[qi];
    assert buf[0..n] == buf[..n];
    var vacant, found;
    buf', vacant, found := CompactPass(buf, n, 0, center, adj);
    queue' := queue + found;
    assert queue'[..qi] == queue[..qi];
    BlobOfPrefix(queue', qi);
    n' := vacant;
    blob' := AddPixel(blob, center);
  }

  /** `get_blobs`, with the first pass of each blob scanning the live list
      from index 1 only while index 1 is live. The first pass leaves the
      seed out and compacts the rest; later passes scan the whole live list. */
  method GetBlobs(active: seq<Pixel>, adj: Adjacency) returns (blobs: seq<Blob>, numBlobs: int)
    ensures var e := Extract(active, 0, adj);
            && numBlobs == |e.groups| && blobs == BlobTable(e.groups)
            && Conserved(e, active)
            && (e.leftover == [] || numBlobs == MAX_BLOBS)
            && (forall k :: 0 <= k < numBlobs ==> Chained(e.groups[k], adj))
            && AllApart(e, adj)
    ensures 0 <= numBlobs <= MAX_BLOBS && |blobs| == MAX_BLOBS
    ensures forall k :: 0 <= k < numBlobs ==> IsActive(blobs[k]) && !IsAssigned(blobs[k])
    ensures forall k :: numBlobs <= k < MAX_BLOBS ==> blobs[k] == EmptyBlob
  {
    blobs := seq(MAX_BLOBS, _ => EmptyBlob);
    numBlobs := 0;
    var buf := active;
    var n := |active|;
    ghost var all := Extract(active, 0, adj);
    assert buf[..n] == active;
    assert all.groups[..0] == [];
    while n > 0 && numBlobs < MAX_BLOBS
      invariant 0 <= numBlobs <= MAX_BLOBS && 0 <= n <= |buf|
      invariant numBlobs <= |all.groups|
      invariant Extract(buf[..n], numBlobs, adj) == Extraction(all.groups[numBlobs..], all.leftover)
      invariant blobs == BlobTable(all.groups[..numBlobs])
      decreases MAX_BLOBS - numBlobs
    {
      ExtractAdvance(buf[..n], numBlobs, all, adj);
      var group, blob;
      buf, n, group, blob := NextBlob(buf, n, adj);
      BlobTableStep(all.groups, numBlobs);
      blobs := blobs[numBlobs := blob];
      numBlobs := numBlobs + 1;
    }
    ExtractFinished(buf[..n], numBlobs, all, adj);
    assert all.groups[..numBlobs] == all.groups;
    ExtractFacts(active, adj);
  }

  // ---------------------------------------------------------------------------
  // Small-blob removal

  /** The blobs `remove_small_blobs` keeps, in their original order. */
  function Survivors(bs: seq<Blob>, minSize: int): (r: seq<Blob>)
    ensures |r| <= |bs|
  {
    if |bs| == 0 then []
    else
      var last := bs[|bs| - 1];
      Survivors(bs[..|bs| - 1], minSize) + (if Size(last) >= minSize then [last] else [])
  }

  /** A table holding `bs` at the front and cleared slots after. */
  function Padded(bs: seq<Blob>): (r: seq<Blob>)
    requires |bs| <= MAX_BLOBS
    ensures |r| == MAX_BLOBS && r[..|bs|] == bs
    ensures forall k :: |bs| <= k < MAX_BLOBS ==> r[k] == EmptyBlob
  {
    bs + seq(MAX_BLOBS - |bs|, _ => EmptyBlob)
  }

  /** Every survivor has at least the minimum size. */
  lemma {:induction false} SurvivorsLarge(bs: seq<Blob>, minSize: int)
    ensures forall k :: 0 <= k < |Survivors(bs, minSize)| ==> Size(Survivors(bs, minSize)[k]) >= minSize
  {
    if |bs| > 0 {
      SurvivorsLarge(bs[..|bs| - 1], minSize);
    }
  }

  /** After small-blob removal no active blob is below the minimum size. */
  lemma {:induction false} NoSmallBlobLeft(blobs: seq<Blob>, minSize: int)
    requires |blobs| == MAX_BLOBS
    ensures var r := Padded(Survivors(blobs, minSize));
            forall k :: 0 <= k < MAX_BLOBS && IsActive(r[k]) ==> Size(r[k]) >= minSize
  {
    SurvivorsLarge(blobs, minSize);
  }

  /** Every blob of at least the minimum size survives. */
  lemma {:induction false} SurvivorsComplete(bs: seq<Blob>, minSize: int)
    ensures forall b :: b in bs && Size(b) >= minSize ==> b in Survivors(bs, minSize)
  {
    if |bs| > 0 {
      SurvivorsComplete(bs[..|bs| - 1], minSize);
      assert bs == bs[..|bs| - 1] + [bs[|bs| - 1]];
    }
  }

  lemma {:induction false} SurvivorsStep(bs: seq<Blob>, i: int, minSize: int)
    requires 0 <= i < |bs|
    ensures Survivors(bs[..i + 1], minSize)
            == Survivors(bs[..i], minSize) + (if Size(bs[i]) >= minSize then [bs[i]] else [])
  {
    assert bs[..i + 1][..i] == bs[..i];
  }

  /** `m` cleared slots. */
  function Empties(m: nat): (r: seq<Blob>)
    ensures |r| == m && forall k :: 0 <= k < m ==> r[k] == EmptyBlob
  {
    seq(m, _ => EmptyBlob)
  }

  /** Clearing a small blob at the head of the unvisited part adds one more
      cleared slot. */
  lemma {:induction false} ClearStep(kept: seq<Blob>, m: nat, rest: seq<Blob>)
    requires |rest| > 0
    ensures (kept + Empties(m) + rest)[|kept| + m := EmptyBlob] == kept + Empties(m + 1) + rest[1..]
  {
    var a := (kept + Empties(m) + rest)[|kept| + m := EmptyBlob];
    var b := kept + Empties(m + 1) + rest[1..];
    assert |a| == |b|;
    forall k | 0 <= k < |a|
      ensures a[k] == b[k]
    {
    }
  }

  /** Moving a survivor down into the first cleared slot and clearing its old
      slot keeps the cleared run just after the survivors. */
  lemma {:induction false} MoveStep(kept: seq<Blob>, m: nat, rest: seq<Blob>)
    requires |rest| > 0 && m > 0
    ensures (kept + Empties(m) + rest)[|kept| := rest[0]][|kept| + m := EmptyBlob]
            == (kept + [rest[0]]) + Empties(m) + rest[1..]
  {
    var a := (kept + Empties(m) + rest)[|kept| := rest[0]][|kept| + m := EmptyBlob];
    var b := (kept + [rest[0]]) + Empties(m) + rest[1..];
    assert |a| == |b|;
    forall k | 0 <= k < |a|
      ensures a[k] == b[k]
    {
    }
  }

  /** A survivor with no cleared slot before it stays where it is. */
  lemma {:induction false} StayStep(kept: seq<Blob>, rest: seq<Blob>)
    requires |rest| > 0
    ensures kept + Empties(0) + rest == (kept + [rest[0]]) + Empties(0) + rest[1..]
  {
    assert rest == [rest[0]] + rest[1..];
  }

  /** The state of `remove_small_blobs` after visiting `i` slots: the table
      holds the survivors among them, then cleared slots, then the slots not
      yet visited. `vacant` is past the table until the first small blob, and
      from then on it is the slot just after the survivors. */
  predicate Swept(blobs: seq<Blob>, r: seq<Blob>, i: int, vacant: int, minSize: int)
    requires |blobs| == MAX_BLOBS && 0 <= i <= MAX_BLOBS
  {
    VacantAt(blobs, i, vacant, minSize) && r == SweptTable(blobs, i, minSize)
  }

  /** The vacant index after visiting `i` slots. */
  predicate VacantAt(blobs: seq<Blob>, i: int, vacant: int, minSize: int)
    requires |blobs| == MAX_BLOBS && 0 <= i <= MAX_BLOBS
  {
    var kept := Survivors(blobs[..i], minSize);
    && (vacant == MAX_BLOBS + 1 ==> |kept| == i)
    && (vacant != MAX_BLOBS + 1 ==> vacant == |kept| < i)
  }

  /** The table after visiting `i` slots. */
  function SweptTable(blobs: seq<Blob>, i: int, minSize: int): seq<Blob>
    requires |blobs| == MAX_BLOBS && 0 <= i <= MAX_BLOBS
  {
    var kept := Survivors(blobs[..i], minSize);
    kept + Empties(i - |kept|) + blobs[i..]
  }

  /** Visiting a blob below the minimum size: clear it, and make it the vacant
      slot unless an earlier slot already is. */
  lemma {:induction false} ClearCase(blobs: seq<Blob>, r: seq<Blob>, i: int, vacant: int, minSize: int)
    requires |blobs| == MAX_BLOBS && 0 <= i < MAX_BLOBS
    requires Swept(blobs, r, i, vacant, minSize) && Size(r[i]) < minSize
    ensures Swept(blobs, r[i := EmptyBlob], i + 1, if i < vacant then i else vacant, minSize)
  {
    SurvivorsStep(blobs, i, minSize);
    var kept := Survivors(blobs[..i], minSize);
    var rest := blobs[i..];
    assert r[i] == rest[0] == blobs[i];
    assert rest[1..] == blobs[i + 1..];
    ClearStep(kept, i - |kept|, rest);
  }

  /** Visiting a large blob after the vacant slot: move it down, clear its old
      slot, and advance the vacant slot. */
  lemma {:induction false} MoveCase(blobs: seq<Blob>, r: seq<Blob>, i: int, vacant: int, minSize: int)
    requires |blobs| == MAX_BLOBS && 0 <= i < MAX_BLOBS
    requires Swept(blobs, r, i, vacant, minSize) && Size(r[i]) >= minSize && i > vacant
    ensures 0 <= vacant < i
    ensures Swept(blobs, r[vacant := r[i]][i := EmptyBlob], i + 1, vacant + 1, minSize)
  {
    SurvivorsStep(blobs, i, minSize);
    var kept := Survivors(blobs[..i], minSize);
    var rest := blobs[i..];
    assert r[i] == rest[0] == blobs[i];
    assert rest[1..] == blobs[i + 1..];
    MoveStep(kept, i - |kept|, rest);
  }

  /** Visiting a large blob with no vacant slot before it: leave it. */
  lemma {:induction false} StayCase(blobs: seq<Blob>, r: seq<Blob>, i: int, vacant: int, minSize: int)
    requires |blobs| == MAX_BLOBS && 0 <= i < MAX_BLOBS
    requires Swept(blobs, r, i, vacant, minSize) && Size(r[i]) >= minSize && i <= vacant
    ensures Swept(blobs, r, i + 1, vacant, minSize)
  {
    SurvivorsStep(blobs, i, minSize);
    var kept := Survivors(blobs[..i], minSize);
    var rest := blobs[i..];
    assert r[i] == rest[0] == blobs[i];
    assert rest[1..] == blobs[i + 1..];
    StayStep(kept, rest);
  }

  /** `remove_small_blobs`: clear every blob below the minimum size and move
      each later survivor down to the first vacant slot. The vacant index
      starts past the table, so survivors before the first small blob stay. */
  method RemoveSmallBlobs(blobs: seq<Blob>, minSize: int) returns (r: seq<Blob>)
    requires |blobs| == MAX_BLOBS
    ensures r == Padded(Survivors(blobs, minSize))
  {
    r := blobs;
    var vacant := MAX_BLOBS + 1;
    var i := 0;
    SweepStarts(blobs, minSize);
    while i < MAX_BLOBS
      invariant 0 <= i <= MAX_BLOBS && |r| == MAX_BLOBS
      invariant Swept(blobs, r, i, vacant, minSize)
    {
      r, vacant := SweepSlot(blobs, r, i, vacant, minSize);
      i := i + 1;
    }
    SweepEnds(blobs, r, vacant, minSize);
  }

  /** Before the sweep nothing is visited and the vacant slot is past the table. */
  lemma {:induction false} SweepStarts(blobs: seq<Blob>, minSize: int)
    requires |blobs| == MAX_BLOBS
    ensures Swept(blobs, blobs, 0, MAX_BLOBS + 1, minSize)
  {
    assert blobs == [] + Empties(0) + blobs[0..];
  }

  /** After the sweep the survivors are closed up at the front. */
  lemma {:induction false} SweepEnds(blobs: seq<Blob>, r: seq<Blob>, vacant: int, minSize: int)
    requires |blobs| == MAX_BLOBS && Swept(blobs, r, MAX_BLOBS, vacant, minSize)
    ensures r == Padded(Survivors(blobs, minSize))
  {
    assert blobs[..MAX_BLOBS] == blobs;
  }

  /** The body of the loop of `remove_small_blobs`: one slot of the table. */
  method SweepSlot(blobs: seq<Blob>, r0: seq<Blob>, i: int, vacant0: int, minSize: int)
    returns (r: seq<Blob>, vacant: int)
    requires |blobs| == MAX_BLOBS && |r0| == MAX_BLOBS && 0 <= i < MAX_BLOBS
    requires Swept(blobs, r0, i, vacant0, minSize)
    ensures |r| == MAX_BLOBS && Swept(blobs, r, i + 1, vacant, minSize)
  {
    r, vacant := r0, vacant0;
    if Size(r[i]) < minSize {
      ClearCase(blobs, r, i, vacant, minSize);
      r := r[i := Clear(r[i])];
      if i < vacant {
        vacant := i;
      }
    } else if i > vacant {
      MoveCase(blobs, r, i, vacant, minSize);
      r := r[vacant := r[i]];
      vacant := vacant + 1;
      r := r[i := Clear(r[i])];
    } else {
      StayCase(blobs, r, i, vacant, minSize);
    }
  }

  /** `get_num_blobs` on the blob table: the number of active slots. */
  function NumBlobs(bs: seq<Blob>): nat {
    CountIf(bs, IsActive)
  }
}
