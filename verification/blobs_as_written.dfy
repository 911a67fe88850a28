/** `get_blobs` exactly as written, on the full active-pixel buffer.

    The buffer holds FRAME_SIZE slots, of which the first `n` are live. The
    first pass of every blob skips the seed by bumping the loop index from 0
    to 1 inside the loop body, so it examines slot 1 even when only the seed
    is live. That slot then holds a stale copy of a pixel that was already
    handled: either the pixel just placed in the previous blob, or one that
    an earlier compaction moved down. A stale copy adjacent to the seed is
    queued again; one that is not is moved into slot 0 and becomes the next
    seed. Either way a pixel ends up counted twice.

    `Detection.Extract` is the intended behaviour, where the first pass scans
    slot 1 only while it is live; the lemmas below show that the two agree
    on every pass that stays inside the live list, and give an input on which
    they differ.
 */
module BlobsAsWritten {
  import opened Config
  import opened Pixels
  import opened Blobs
  import opened Detection

  /** The buffer after a pass, the number of pixels that stay live (the final
      vacant index), and the pixels queued by the pass in order. */
  datatype Scan = Scan(buf: seq<Pixel>, vacant: int, found: seq<Pixel>)

  /** The `for` loop of one pass from index `i` up to `hi`, with `vacant` and
      the pixels queued so far. A pixel adjacent to the centre is queued; any
      other is copied down to the vacant slot if that lies before it, and the
      vacant slot advances. */
  function ScanAsWritten(buf: seq<Pixel>, i: int, hi: int, vacant: int, center: Pixel,
                         found: seq<Pixel>, adj: Adjacency): (r: Scan)
    requires 0 <= vacant <= i <= hi <= |buf|
    ensures |r.buf| == |buf| && vacant <= r.vacant <= hi
    ensures r.vacant - vacant + |r.found| - |found| == hi - i
    ensures r.buf[hi..] == buf[hi..]
    decreases hi - i
  {
    if i == hi then Scan(buf, vacant, found)
    else if adj(center, buf[i]) then
      ScanAsWritten(buf, i + 1, hi, vacant, center, found + [buf[i]], adj)
    else
      var moved := if vacant < i then buf[vacant := buf[i]] else buf;
      ScanAsWritten(moved, i + 1, hi, vacant + 1, center, found, adj)
  }

  /** One pass of the inner loop. The first pass of a blob starts at index 1
      and always examines that slot, so its upper end is at least 2. */
  function PassAsWritten(buf: seq<Pixel>, n: int, first: bool, center: Pixel, adj: Adjacency): (r: Scan)
    requires 0 <= n <= |buf| && FRAME_SIZE <= |buf|
    requires first ==> n >= 1
    ensures |r.buf| == |buf| && 0 <= r.vacant <= |buf|
    ensures !first ==> r.vacant + |r.found| == n
    ensures first && n >= 2 ==> r.vacant + |r.found| == n - 1
    ensures first && n == 1 ==> r.vacant + |r.found| == 1
  {
    if first then ScanAsWritten(buf, 1, if n < 2 then 2 else n, 0, center, [], adj)
    else ScanAsWritten(buf, 0, n, 0, center, [], adj)
  }

  /** The buffer, the live count and the queue when a blob is finished. */
  datatype GrowthAsWritten = GrowthAsWritten(group: seq<Pixel>, buf: seq<Pixel>, n: int)

  /** The inner `while` loop: one pass per queued pixel, the first with the
      index bump. The blob receives exactly the queued pixels. */
  function GrowAsWritten(buf: seq<Pixel>, n: int, queue: seq<Pixel>, qi: nat, adj: Adjacency): (r: GrowthAsWritten)
    requires 0 <= n <= |buf| && FRAME_SIZE <= |buf| && qi <= |queue|
    requires qi == 0 ==> n >= 1 && |queue| >= 1
    ensures |r.buf| == |buf| && 0 <= r.n <= |r.buf|
    ensures |queue| <= |r.group| && r.group[..|queue|] == queue
    decreases n + |queue| - qi
  {
    if qi == |queue| then GrowthAsWritten(queue, buf, n)
    else
      var s := PassAsWritten(buf, n, qi == 0, queue[qi], adj);
      var r := GrowAsWritten(s.buf, s.vacant, queue + s.found, qi + 1, adj);
      assert (queue + s.found)[..|queue|] == queue;
      assert r.group[..|queue|] == r.group[..|queue + s.found|][..|queue|];
      r
  }

  /** The outer `while` loop: seed a blob with slot 0 while pixels are live and
      the table has room. */
  function ExtractAsWritten(buf: seq<Pixel>, n: int, count: nat, adj: Adjacency): (r: seq<seq<Pixel>>)
    requires 0 <= n <= |buf| && FRAME_SIZE <= |buf| && count <= MAX_BLOBS
    ensures |r| <= MAX_BLOBS - count
    ensures forall k :: 0 <= k < |r| ==> |r[k]| >= 1
    decreases MAX_BLOBS - count
  {
    if n == 0 || count == MAX_BLOBS then []
    else
      var g := GrowAsWritten(buf, n, [buf[0]], 0, adj);
      [g.group] + ExtractAsWritten(g.buf, g.n, count + 1, adj)
  }

  /** Extending a slice by one pixel extends either what is kept or what is
      found by that pixel. */
  lemma {:induction false} KeepFoundSnoc(s: seq<Pixel>, lo: int, i: int, center: Pixel, adj: Adjacency)
    requires 0 <= lo <= i < |s|
    ensures Keep(s[lo..i + 1], center, adj)
            == Keep(s[lo..i], center, adj) + (if adj(center, s[i]) then [] else [s[i]])
    ensures Found(s[lo..i + 1], center, adj)
            == Found(s[lo..i], center, adj) + (if adj(center, s[i]) then [s[i]] else [])
  {
    assert s[lo..i + 1][..i - lo] == s[lo..i];
  }

  /** The state of a pass that has examined `buf0[lo..i]` agrees with the
      corrected pass on that slice: the kept pixels are compacted to the
      front, the queued ones are the found ones, and the unexamined slots are
      untouched. */
  predicate Agrees(buf0: seq<Pixel>, lo: int, buf: seq<Pixel>, i: int, vacant: int,
                   center: Pixel, found: seq<Pixel>, adj: Adjacency)
  {
    && 0 <= lo <= i <= |buf| == |buf0| && 0 <= vacant <= i
    && buf[..vacant] == Keep(buf0[lo..i], center, adj)
    && found == Found(buf0[lo..i], center, adj)
    && buf[i..] == buf0[i..]
  }

  /** The next pixel, queued or kept, keeps the agreement. */
  lemma {:induction false} AgreesStep(buf0: seq<Pixel>, lo: int, buf: seq<Pixel>, i: int, vacant: int,
                                      center: Pixel, found: seq<Pixel>, adj: Adjacency)
    requires Agrees(buf0, lo, buf, i, vacant, center, found, adj) && i < |buf|
    ensures adj(center, buf[i]) ==>
              Agrees(buf0, lo, buf, i + 1, vacant, center, found + [buf[i]], adj)
    ensures !adj(center, buf[i]) ==>
              Agrees(buf0, lo, if vacant < i then buf[vacant := buf[i]] else buf,
                     i + 1, vacant + 1, center, found, adj)
  {
    var p := buf[i];
    assert p == buf[i..][0] == buf0[i];
    KeepFoundSnoc(buf0, lo, i, center, adj);
    if adj(center, p) {
      assert buf[i + 1..] == buf[i..][1..];
    } else {
      var moved := if vacant < i then buf[vacant := p] else buf;
      assert moved[..vacant + 1] == buf[..vacant] + [p] by {
        if vacant == i {
          assert buf[vacant] == buf[i..][0];
        }
      }
      assert moved[i + 1..] == buf[i..][1..];
    }
  }

  /** A pass that stays inside the live list agrees with the corrected one:
      the pixels left live are the kept ones, compacted to the front, and the
      queued ones are the found ones, both in order. */
  lemma {:induction false} ScanAgrees(buf0: seq<Pixel>, lo: int, buf: seq<Pixel>, i: int, hi: int,
                                      vacant: int, center: Pixel, found: seq<Pixel>, adj: Adjacency)
    requires Agrees(buf0, lo, buf, i, vacant, center, found, adj) && i <= hi <= |buf|
    ensures var r := ScanAsWritten(buf, i, hi, vacant, center, found, adj);
            r.buf[..r.vacant] == Keep(buf0[lo..hi], center, adj)
            && r.found == Found(buf0[lo..hi], center, adj)
    decreases hi - i
  {
    if i < hi {
      AgreesStep(buf0, lo, buf, i, vacant, center, found, adj);
      if adj(center, buf[i]) {
        ScanAgrees(buf0, lo, buf, i + 1, hi, vacant, center, found + [buf[i]], adj);
      } else {
        var moved := if vacant < i then buf[vacant := buf[i]] else buf;
        ScanAgrees(buf0, lo, moved, i + 1, hi, vacant + 1, center, found, adj);
      }
    }
  }

  /** Whenever the seed is not the only live pixel, the first pass as written
      is the corrected first pass on the live list without the seed. */
  lemma {:induction false} FirstPassAgrees(buf: seq<Pixel>, n: int, adj: Adjacency)
    requires 2 <= n <= |buf| && FRAME_SIZE <= |buf|
    ensures var r := PassAsWritten(buf, n, true, buf[0], adj);
            r.buf[..r.vacant] == Keep(buf[..n][1..], buf[0], adj)
            && r.found == Found(buf[..n][1..], buf[0], adj)
  {
    assert buf[1..1] == [];
    assert buf[..0] == [];
    assert buf[..n][1..] == buf[1..n];
    ScanAgrees(buf, 1, buf, 1, n, 0, buf[0], [], adj);
  }

  /** Later passes as written are the corrected passes on the live list. */
  lemma {:induction false} LaterPassAgrees(buf: seq<Pixel>, n: int, center: Pixel, adj: Adjacency)
    requires 0 <= n <= |buf| && FRAME_SIZE <= |buf|
    ensures var r := PassAsWritten(buf, n, false, center, adj);
            r.buf[..r.vacant] == Keep(buf[..n], center, adj)
            && r.found == Found(buf[..n], center, adj)
  {
    assert buf[0..0] == [];
    assert buf[..0] == [];
    assert buf[0..n] == buf[..n];
    ScanAgrees(buf, 0, buf, 0, n, 0, center, [], adj);
  }

  /** With a lone seed, the first pass as written examines slot 1, which is
      not live: the pixel there is queued or kept although it was never part
      of the live list. */
  lemma {:induction false} LoneSeedReadsStaleSlot(buf: seq<Pixel>, adj: Adjacency)
    requires FRAME_SIZE <= |buf|
    ensures var r := PassAsWritten(buf, 1, true, buf[0], adj);
            && (adj(buf[0], buf[1]) ==> r.found == [buf[1]] && r.vacant == 0)
            && (!adj(buf[0], buf[1]) ==> r.found == [] && r.vacant == 1 && r.buf[0] == buf[1])
  {
  }

  const A: Pixel := Pixel(0, 0, 30.0)
  const C: Pixel := Pixel(5, 0, 30.0)

  /** The adjacency test with a slack of one cell. */
  function Near(p: Pixel, q: Pixel): bool {
    WithinFuzz(1, p, q)
  }

  /** Two active pixels far apart, A in slot 0 and C in slot 1. */
  function TwoApart(): (r: seq<Pixel>)
    ensures |r| == FRAME_SIZE && r[0] == A && r[1] == C
  {
    [A, C] + seq(FRAME_SIZE - 2, _ => A)
  }

  /** As written, the two far-apart pixels give the blobs [A] and [C, C]: the
      first blob moves C down to slot 0 and leaves its stale copy in slot 1,
      and the second blob's first pass queues that copy next to C itself. The
      second blob has two pixels although only one active pixel is in it, and
      the blobs hold three pixels although two were active. */
  lemma {:induction false} TwoApartAsWritten()
    ensures ExtractAsWritten(TwoApart(), 2, 0, Near) == [[A], [C, C]]
    ensures Size(BlobOf([C, C])) == 2
    ensures multiset(Flatten([[A], [C, C]])) != multiset([A, C])
  {
    var buf := TwoApart();
    FirstBlobAsWritten();
    SecondBlobAsWritten();
    assert ExtractAsWritten(buf, 2, 0, Near) == [[A]] + ExtractAsWritten(buf[0 := C], 1, 1, Near);
    assert Flatten([[A], [C, C]]) == [A, C, C] by {
      FlattenCons([C, C], []);
      FlattenCons([A], [[C, C]]);
      assert Flatten([]) == [];
    }
    assert multiset([A, C, C])[C] == 2;
  }

  /** The first blob as written: `A` alone, with `C` moved down to slot 0 and
      one pixel left live. */
  lemma {:induction false} FirstBlobAsWritten()
    ensures GrowAsWritten(TwoApart(), 2, [A], 0, Near) == GrowthAsWritten([A], TwoApart()[0 := C], 1)
  {
    var buf := TwoApart();
    var s1 := PassAsWritten(buf, 2, true, A, Near);
    assert s1 == Scan(buf[0 := C], 1, []);
    assert GrowAsWritten(buf[0 := C], 1, [A], 1, Near) == GrowthAsWritten([A], buf[0 := C], 1);
  }

  /** The second blob as written: its first pass reads the stale copy of `C`
      in slot 1 and queues it next to `C` itself. */
  lemma {:induction false} SecondBlobAsWritten()
    ensures ExtractAsWritten(TwoApart()[0 := C], 1, 1, Near) == [[C, C]]
  {
    var buf2 := TwoApart()[0 := C];
    var s2 := PassAsWritten(buf2, 1, true, C, Near);
    assert s2 == Scan(buf2, 0, [C]);
    var s3 := PassAsWritten(buf2, 0, false, C, Near);
    assert s3 == Scan(buf2, 0, []);
    assert GrowAsWritten(buf2, 0, [C, C], 2, Near) == GrowthAsWritten([C, C], buf2, 0);
    assert GrowAsWritten(buf2, 0, [C, C], 1, Near) == GrowthAsWritten([C, C], buf2, 0);
    assert [C] + s2.found == [C, C];
    assert GrowAsWritten(buf2, 1, [C], 0, Near) == GrowthAsWritten([C, C], buf2, 0);
    assert ExtractAsWritten(buf2, 0, 2, Near) == [];
  }

  /** Growing from `A` finds nothing adjacent: `C` stays live. */
  lemma {:induction false} GrowFromA()
    ensures Grow([C], [A], 0, Near) == Growth([A], [C])
  {
    assert Keep([C], A, Near) == [C] by { assert [C][..0] == []; }
    assert Found([C], A, Near) == [] by { assert [C][..0] == []; }
  }

  /** With only `C` live, the extraction makes it a blob of its own. */
  lemma {:induction false} ExtractLastC()
    ensures Extract([C], 1, Near) == Extraction([[C]], [])
  {
    assert [C][1..] == [];
    assert Grow([], [C], 0, Near) == Growth([C], []);
    assert Extract([], 2, Near) == Extraction([], []);
  }

  /** The corrected extraction places the same two pixels in two blobs of one
      pixel each, and loses or repeats no pixel. */
  lemma {:induction false} TwoApartCorrected()
    ensures Extract([A, C], 0, Near).groups == [[A], [C]]
    ensures Conserved(Extract([A, C], 0, Near), [A, C])
  {
    GrowFromA();
    ExtractLastC();
    assert [A, C][1..] == [C];
    ExtractConserves([A, C], 0, Near);
  }
}
