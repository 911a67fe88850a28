/** The Blob aggregate: a clump of adjacent active pixels reduced to a few
    characteristics.

    A blob never stores its pixels. It absorbs them one at a time and keeps
    integer bounds, a pixel count, running coordinate totals from which the
    centroid is recomputed, width, height and aspect ratio, the mean
    temperature, and an `assigned` flag used during matching.

    The implementation file of Blob is not part of this model; the behaviour
    below follows the header's field list and documentation. The first pixel
    fixes the bounds, later pixels widen them.
 */
module Blobs {
  import opened Pixels

  datatype Vec2 = Vec2(x: real, y: real)

  /** The geometric and thermal summary of a blob. This is the part that a
      tracked blob copies out of a blob. */
  datatype Shape = Shape(
    minX: int, minY: int,
    maxX: int, maxY: int,
    centroid: Vec2,
    aspectRatio: real,
    averageTemperature: real,
    width: int,
    height: int,
    numPixels: int)

  datatype Blob = Blob(shape: Shape, totalX: real, totalY: real, isAssigned: bool)

  const EmptyShape: Shape := Shape(0, 0, 0, 0, Vec2(0.0, 0.0), 0.0, 0.0, 0, 0, 0)

  /** What a new blob and a cleared blob hold. */
  const EmptyBlob: Blob := Blob(EmptyShape, 0.0, 0.0, false)

  /** `is_active`: a blob is in use iff it holds at least one pixel. */
  predicate IsActive(b: Blob) {
    b.shape.numPixels > 0
  }

  /** `get_size`. */
  function Size(b: Blob): int {
    b.shape.numPixels
  }

  predicate IsAssigned(b: Blob) {
    b.isAssigned
  }

  /** `is_active` and `!is_assigned`: the blobs that still need a track. */
  predicate IsUnassignedActive(b: Blob) {
    IsActive(b) && !IsAssigned(b)
  }

  function Min(a: int, b: int): int { if a <= b then a else b }
  function Max(a: int, b: int): int { if a <= b then b else a }

  /** `clear`: back to the blank, inactive blob. */
  function Clear(b: Blob): (r: Blob)
    ensures !IsActive(r) && Size(r) == 0 && !IsAssigned(r)
    ensures r.totalX == 0.0 && r.totalY == 0.0
  {
    EmptyBlob
  }

  /** `set_assigned`: raises the flag, leaves every absorbed quantity alone. */
  function SetAssigned(b: Blob): (r: Blob)
    ensures IsAssigned(r)
    ensures r.shape == b.shape && r.totalX == b.totalX && r.totalY == b.totalY
  {
    b.(isAssigned := true)
  }

  /** `clear_assigned`: lowers the flag, leaves every absorbed quantity alone. */
  function ClearAssigned(b: Blob): (r: Blob)
    ensures !IsAssigned(r)
    ensures r.shape == b.shape && r.totalX == b.totalX && r.totalY == b.totalY
  {
    b.(isAssigned := false)
  }

  /** `add_pixel`: absorb one pixel. Duplicates are not rejected. */
  function AddPixel(b: Blob, p: Pixel): (r: Blob)
    requires Size(b) >= 0
    ensures Size(r) == Size(b) + 1 && IsActive(r)
    ensures r.shape.minX <= p.x <= r.shape.maxX && r.shape.minY <= p.y <= r.shape.maxY
    ensures IsActive(b) ==>
              && r.shape.minX == Min(b.shape.minX, p.x) && r.shape.maxX == Max(b.shape.maxX, p.x)
              && r.shape.minY == Min(b.shape.minY, p.y) && r.shape.maxY == Max(b.shape.maxY, p.y)
    ensures !IsActive(b) ==>
              r.shape.minX == p.x == r.shape.maxX && r.shape.minY == p.y == r.shape.maxY
    ensures r.shape.width == r.shape.maxX - r.shape.minX + 1 >= 1
    ensures r.shape.height == r.shape.maxY - r.shape.minY + 1 >= 1
    ensures r.totalX == b.totalX + p.x as real && r.totalY == b.totalY + p.y as real
    ensures r.isAssigned == b.isAssigned
  {
    var n := b.shape.numPixels + 1;
    var first := b.shape.numPixels == 0;
    var minX := if first then p.x else Min(b.shape.minX, p.x);
    var maxX := if first then p.x else Max(b.shape.maxX, p.x);
    var minY := if first then p.y else Min(b.shape.minY, p.y);
    var maxY := if first then p.y else Max(b.shape.maxY, p.y);
    var width := maxX - minX + 1;
    var height := maxY - minY + 1;
    var totalX := b.totalX + p.x as real;
    var totalY := b.totalY + p.y as real;
    var temperature := (b.shape.averageTemperature * (n - 1) as real + p.temperature) / n as real;
    Blob(
      Shape(minX, minY, maxX, maxY,
            Vec2(totalX / n as real, totalY / n as real),
            width as real / height as real,
            temperature, width, height, n),
      totalX, totalY, b.isAssigned)
  }

  /** The blob obtained by absorbing the pixels of `s` in order into a cleared blob. */
  function BlobOf(s: seq<Pixel>): (r: Blob)
    ensures Size(r) == |s|
    ensures !r.isAssigned
  {
    if |s| == 0 then EmptyBlob else AddPixel(BlobOf(s[..|s| - 1]), s[|s| - 1])
  }

  /** Absorbing one more pixel of a list extends the blob of the shorter prefix. */
  lemma {:induction false} BlobOfPrefix(s: seq<Pixel>, i: int)
    requires 0 <= i < |s|
    ensures BlobOf(s[..i + 1]) == AddPixel(BlobOf(s[..i]), s[i])
  {
    assert s[..i + 1][..i] == s[..i];
  }

  function XOf(p: Pixel): real { p.x as real }
  function YOf(p: Pixel): real { p.y as real }
  function TemperatureOf(p: Pixel): real { p.temperature }

  /** Sum of `f` over a list of pixels. */
  function SumOf(s: seq<Pixel>, f: Pixel -> real): real {
    if |s| == 0 then 0.0 else SumOf(s[..|s| - 1], f) + f(s[|s| - 1])
  }

  /** The bounds of a blob contain every absorbed pixel and are attained by some of them. */
  lemma {:induction false} BlobOfBounds(s: seq<Pixel>)
    ensures var r := BlobOf(s).shape;
            && (forall k :: 0 <= k < |s| ==> r.minX <= s[k].x <= r.maxX && r.minY <= s[k].y <= r.maxY)
            && (|s| > 0 ==>
                  && (exists k :: 0 <= k < |s| && s[k].x == r.minX)
                  && (exists k :: 0 <= k < |s| && s[k].x == r.maxX)
                  && (exists k :: 0 <= k < |s| && s[k].y == r.minY)
                  && (exists k :: 0 <= k < |s| && s[k].y == r.maxY)
                  && r.width == r.maxX - r.minX + 1
                  && r.height == r.maxY - r.minY + 1)
  {
    if |s| > 0 {
      var s' := s[..|s| - 1];
      var p := s[|s| - 1];
      BlobOfBounds(s');
      var b := BlobOf(s');
      var r := BlobOf(s).shape;
      assert r == AddPixel(b, p).shape;
      forall k | 0 <= k < |s|
        ensures r.minX <= s[k].x <= r.maxX && r.minY <= s[k].y <= r.maxY
      {
        if k < |s| - 1 {
          assert s[k] == s'[k];
        }
      }
      if |s'| == 0 {
        assert s[0] == p;
      } else {
        var k1 :| 0 <= k1 < |s'| && s'[k1].x == b.shape.minX;
        var k2 :| 0 <= k2 < |s'| && s'[k2].x == b.shape.maxX;
        var k3 :| 0 <= k3 < |s'| && s'[k3].y == b.shape.minY;
        var k4 :| 0 <= k4 < |s'| && s'[k4].y == b.shape.maxY;
        assert s[k1] == s'[k1] && s[k2] == s'[k2] && s[k3] == s'[k3] && s[k4] == s'[k4];
        assert s[|s| - 1] == p;
      }
    }
  }

  /** `c * n == total` with `n > 0` determines `c` as the mean `total / n`. */
  lemma {:induction false} MeanFromTotal(c: real, n: real, total: real)
    requires n > 0.0 && c * n == total
    ensures c == total / n
  {
  }

  /** The running totals are the coordinate sums. */
  lemma {:induction false} BlobOfTotals(s: seq<Pixel>)
    ensures BlobOf(s).totalX == SumOf(s, XOf)
    ensures BlobOf(s).totalY == SumOf(s, YOf)
  {
    if |s| > 0 {
      BlobOfTotals(s[..|s| - 1]);
    }
  }

  /** The running temperature times the pixel count is the temperature sum. */
  lemma {:induction false} BlobOfTemperatureSum(s: seq<Pixel>)
    ensures MeanTimesCountIs(BlobOf(s).shape.averageTemperature, |s|, SumOf(s, TemperatureOf))
  {
    if |s| == 0 {
      assert BlobOf(s) == EmptyBlob;
    } else {
      var s' := s[..|s| - 1];
      var p := s[|s| - 1];
      BlobOfTemperatureSum(s');
      var b := BlobOf(s');
      assert BlobOf(s) == AddPixel(b, p);
      TemperatureStep(b, p, |s'|, SumOf(s', TemperatureOf));
    }
  }

  /** One absorbed pixel keeps "mean temperature times count equals sum". */
  lemma {:induction false} TemperatureStep(b: Blob, p: Pixel, n: nat, sum: real)
    requires Size(b) == n
    requires MeanTimesCountIs(b.shape.averageTemperature, n, sum)
    ensures MeanTimesCountIs(AddPixel(b, p).shape.averageTemperature, n + 1, sum + p.temperature)
  {
    assert AddPixel(b, p).shape.averageTemperature
           == (b.shape.averageTemperature * n as real + p.temperature) / (n + 1) as real;
    MeanTimesCount(b.shape.averageTemperature, n, sum, p.temperature);
  }

  /** The centroid and the aspect ratio are derived from the totals and the bounds. */
  lemma {:induction false} BlobOfDerived(s: seq<Pixel>)
    requires |s| > 0
    ensures var r := BlobOf(s);
            && r.shape.centroid == Vec2(r.totalX / |s| as real, r.totalY / |s| as real)
            && r.shape.aspectRatio == r.shape.width as real / r.shape.height as real
  {
    assert BlobOf(s) == AddPixel(BlobOf(s[..|s| - 1]), s[|s| - 1]);
  }

  /** `average` is the mean of `n` samples summing to `sum`. */
  predicate MeanTimesCountIs(average: real, n: nat, sum: real) {
    average * n as real == sum
  }

  /** A running mean times its count stays the sum of the samples. */
  lemma {:induction false} MeanTimesCount(average: real, n: nat, sum: real, sample: real)
    requires average * n as real == sum
    ensures (average * n as real + sample) / (n + 1) as real * (n + 1) as real == sum + sample
  {
  }

  /** So the centroid is the mean of the absorbed coordinates and the
      temperature is the mean absorbed temperature. */
  lemma {:induction false} BlobOfMeans(s: seq<Pixel>)
    requires |s| > 0
    ensures BlobOf(s).shape.centroid == Vec2(SumOf(s, XOf) / |s| as real, SumOf(s, YOf) / |s| as real)
    ensures BlobOf(s).shape.averageTemperature == SumOf(s, TemperatureOf) / |s| as real
  {
    BlobOfTotals(s);
    BlobOfTemperatureSum(s);
    BlobOfDerived(s);
    var r := BlobOf(s);
    var n := |s| as real;
    MeanFromTotal(r.shape.averageTemperature, n, SumOf(s, TemperatureOf));
  }

  lemma {:induction false} SumOfAppend(a: seq<Pixel>, b: seq<Pixel>, f: Pixel -> real)
    ensures SumOf(a + b, f) == SumOf(a, f) + SumOf(b, f)
    decreases |b|
  {
    if |b| == 0 {
      assert a + b == a;
    } else {
      assert (a + b)[..|a + b| - 1] == a + b[..|b| - 1];
      SumOfAppend(a, b[..|b| - 1], f);
    }
  }

  /** Reordering the pixels does not change a sum over them. */
  lemma {:induction false} SumOfPermutation(s: seq<Pixel>, t: seq<Pixel>, f: Pixel -> real)
    requires multiset(s) == multiset(t)
    ensures SumOf(s, f) == SumOf(t, f)
    decreases |s|
  {
    if |s| == 0 {
      assert |t| == |multiset(t)| == 0;
    } else {
      var s' := s[..|s| - 1];
      var x := s[|s| - 1];
      assert s == s' + [x];
      assert x in multiset(t);
      var k :| 0 <= k < |t| && t[k] == x;
      var t' := t[..k] + t[k + 1..];
      assert t == t[..k] + [x] + t[k + 1..];
      assert multiset(t) == multiset(t[..k]) + multiset([x]) + multiset(t[k + 1..]);
      assert multiset(t') == multiset(t[..k]) + multiset(t[k + 1..]);
      assert multiset(s) == multiset(s') + multiset([x]);
      assert multiset(s') == multiset(s) - multiset([x]);
      assert multiset(t') == multiset(t) - multiset([x]);
      assert multiset(s') == multiset(t');
      SumOfPermutation(s', t', f);
      SumOfAppend(s', [x], f);
      SumOfAppend(t[..k] + [x], t[k + 1..], f);
      SumOfAppend(t[..k], [x], f);
      SumOfAppend(t[..k], t[k + 1..], f);
      assert SumOf([x], f) == f(x) by {
        assert [x][..0] == [];
      }
    }
  }

  /** Two pixel lists with the same elements give the same bounding box. */
  lemma {:induction false} SameBounds(s: seq<Pixel>, t: seq<Pixel>)
    requires |s| > 0 && |t| > 0
    requires forall p :: p in s <==> p in t
    ensures var a := BlobOf(s).shape;
            var b := BlobOf(t).shape;
            a.minX == b.minX && a.maxX == b.maxX && a.minY == b.minY && a.maxY == b.maxY
  {
    BlobOfBounds(s);
    BlobOfBounds(t);
    var a := BlobOf(s).shape;
    var b := BlobOf(t).shape;
    var i1 :| 0 <= i1 < |s| && s[i1].x == a.minX;
    var j1 :| 0 <= j1 < |t| && t[j1].x == b.minX;
    assert t[j1] in s && s[i1] in t;
    var i2 :| 0 <= i2 < |s| && s[i2].x == a.maxX;
    var j2 :| 0 <= j2 < |t| && t[j2].x == b.maxX;
    assert t[j2] in s && s[i2] in t;
    var i3 :| 0 <= i3 < |s| && s[i3].y == a.minY;
    var j3 :| 0 <= j3 < |t| && t[j3].y == b.minY;
    assert t[j3] in s && s[i3] in t;
    var i4 :| 0 <= i4 < |s| && s[i4].y == a.maxY;
    var j4 :| 0 <= j4 < |t| && t[j4].y == b.maxY;
    assert t[j4] in s && s[i4] in t;
  }

  /** The shape of a blob does not depend on the order in which its pixels were absorbed. */
  lemma {:induction false} BlobOfOrderIndependent(s: seq<Pixel>, t: seq<Pixel>)
    requires multiset(s) == multiset(t)
    ensures BlobOf(s).shape == BlobOf(t).shape
  {
    assert |s| == |multiset(s)| == |multiset(t)| == |t|;
    if |s| > 0 {
      forall p ensures p in s <==> p in t {
        assert p in s <==> p in multiset(s);
        assert p in t <==> p in multiset(t);
      }
      SameBounds(s, t);
      BlobOfBounds(s);
      BlobOfBounds(t);
      BlobOfMeans(s);
      BlobOfMeans(t);
      SumOfPermutation(s, t, XOf);
      SumOfPermutation(s, t, YOf);
      SumOfPermutation(s, t, TemperatureOf);
      var a := BlobOf(s).shape;
      var b := BlobOf(t).shape;
      BlobOfDerived(s);
      BlobOfDerived(t);
      assert a.width == b.width && a.height == b.height;
    }
  }
}
