/** The difference masker of montage.py with the blur taken as sigma = 0
    (scipy's gaussian_filter then copies its input): the per-pixel sum of
    absolute channel differences, two clamps in the manner of
    scipy.stats.threshold, and the cast to uint8. */
module Masking {
  import opened Images

  /** The sum over the three channels of the absolute difference of two
      pixels, computed on unbounded integers (the images are widened to
      integers before the subtraction, so it does not wrap). */
  function PixelDiff(p: seq<Byte>, q: seq<Byte>): (s: int)
    requires |p| == Channels && |q| == Channels
    ensures 0 <= s <= 3 * 255
    ensures s == 0 <==> p == q
  {
    var s := Abs(p[0] as int - q[0]) + Abs(p[1] as int - q[1]) + Abs(p[2] as int - q[2]);
    assert s == 0 ==> p == q by {
      if s == 0 {
        assert forall c :: 0 <= c < Channels ==> p[c] == q[c];
      }
    }
    s
  }

  lemma PixelDiffSymmetric(p: seq<Byte>, q: seq<Byte>)
    requires |p| == Channels && |q| == Channels
    ensures PixelDiff(p, q) == PixelDiff(q, p)
  {
  }

  /** The difference step of mask: one difference sum per pixel. */
  function DifferenceSum(fg: Image, bg: Image): (m: seq<seq<int>>)
    requires SameShape(fg, bg)
    ensures |m| == |fg| && forall i :: 0 <= i < |m| ==> |m[i]| == Width(fg)
    ensures forall i, j :: 0 <= i < |fg| && 0 <= j < Width(fg) ==>
      m[i][j] == PixelDiff(fg[i][j], bg[i][j])
  {
    seq(|fg|, i requires 0 <= i < |fg| =>
      seq(Width(fg), j requires 0 <= j < Width(fg) => PixelDiff(fg[i][j], bg[i][j])))
  }

  /** scipy.stats.threshold on one value: a value below `threshmin` or above
      `threshmax` (each bound optional) is replaced by `newval`; any other
      value is kept. */
  function ThresholdValue(a: int, threshmin: Option<int>, threshmax: Option<int>, newval: int): (r: int)
    ensures r == newval || r == a
    ensures r == newval <== (threshmin.Some? && a < threshmin.value) || (threshmax.Some? && a > threshmax.value)
    ensures r == a <== (threshmin.None? || a >= threshmin.value) && (threshmax.None? || a <= threshmax.value)
  {
    if (threshmin.Some? && a < threshmin.value) || (threshmax.Some? && a > threshmax.value) then newval else a
  }

  /** scipy.stats.threshold over an array. */
  function Threshold(m: seq<seq<int>>, threshmin: Option<int>, threshmax: Option<int>, newval: int): (r: seq<seq<int>>)
    ensures |r| == |m| && forall i :: 0 <= i < |m| ==> |r[i]| == |m[i]|
    ensures forall i, j :: 0 <= i < |m| && 0 <= j < |m[i]| ==>
      r[i][j] == ThresholdValue(m[i][j], threshmin, threshmax, newval)
  {
    seq(|m|, i requires 0 <= i < |m| =>
      seq(|m[i]|, j requires 0 <= j < |m[i]| => ThresholdValue(m[i][j], threshmin, threshmax, newval)))
  }

  /** The cast of an integer to an 8-bit unsigned value: the value modulo 256. */
  function ToUint8(x: int): (b: Byte)
    ensures (x - b) % 256 == 0
    ensures 0 <= x < 256 ==> b == x
  {
    x % 256
  }

  /** The cast to 8-bit unsigned values over an array. */
  function ToUint8Plane(m: seq<seq<int>>): (p: Plane)
    ensures |p| == |m| && forall i :: 0 <= i < |m| ==> |p[i]| == |m[i]|
    ensures forall i, j :: 0 <= i < |m| && 0 <= j < |m[i]| ==> p[i][j] == ToUint8(m[i][j])
  {
    seq(|m|, i requires 0 <= i < |m| =>
      seq(|m[i]|, j requires 0 <= j < |m[i]| => ToUint8(m[i][j])))
  }

  /** The mask value of one pixel whose difference sum is `s`. A sum below
      `thresh` gives 0, a sum above `thresh + 1` gives the opacity, and a sum
      of exactly `thresh` or `thresh + 1` passes both clamps and is kept;
      the result is then reduced modulo 256. */
  function MaskValue(s: int, thresh: int, opacity: int): (v: Byte)
    requires s >= 0
    ensures s < thresh ==> v == 0
    ensures s > thresh + 1 ==> v == ToUint8(opacity)
    ensures thresh <= s <= thresh + 1 ==> v == ToUint8(s)
  {
    ToUint8(ThresholdValue(ThresholdValue(s, Some(thresh), None, 0), None, Some(thresh + 1), opacity))
  }

  /** mask with blur_sigma = 0: the plane of mask values of the pixelwise
      difference sums of `fg` and `bg`. */
  function Mask(fg: Image, bg: Image, thresh: int, opacity: int): (m: Plane)
    requires SameShape(fg, bg)
    ensures IsPlane(m, |fg|, Width(fg))
    ensures forall i, j :: 0 <= i < |fg| && 0 <= j < Width(fg) ==>
      m[i][j] == MaskValue(PixelDiff(fg[i][j], bg[i][j]), thresh, opacity)
  {
    var diff := DifferenceSum(fg, bg);
    var low := Threshold(diff, Some(thresh), None, 0);
    var high := Threshold(low, None, Some(thresh + 1), opacity);
    ToUint8Plane(high)
  }

  /** An image masked against itself gives an all-zero mask for every
      threshold of at least -1; below that, every pixel is set to the
      opacity. */
  lemma SelfMask(img: Image, thresh: int, opacity: int)
    requires WellFormed(img)
    ensures SameShape(img, img)
    ensures thresh >= -1 ==> forall i, j :: 0 <= i < |img| && 0 <= j < Width(img) ==> Mask(img, img, thresh, opacity)[i][j] == 0
    ensures thresh < -1 ==> forall i, j :: 0 <= i < |img| && 0 <= j < Width(img) ==> Mask(img, img, thresh, opacity)[i][j] == ToUint8(opacity)
  {
    forall i, j | 0 <= i < |img| && 0 <= j < Width(img)
      ensures PixelDiff(img[i][j], img[i][j]) == 0
    {
    }
  }

  /** Every value of a mask is 0, the opacity, or one of the two boundary
      sums `thresh` and `thresh + 1`, each reduced modulo 256. */
  lemma MaskValues(fg: Image, bg: Image, thresh: int, opacity: int)
    requires SameShape(fg, bg)
    ensures forall i, j :: 0 <= i < |fg| && 0 <= j < Width(fg) ==>
      Mask(fg, bg, thresh, opacity)[i][j] in {0, ToUint8(opacity), ToUint8(thresh), ToUint8(thresh + 1)}
  {
    var m := Mask(fg, bg, thresh, opacity);
    forall i, j | 0 <= i < |fg| && 0 <= j < Width(fg)
      ensures m[i][j] in {0, ToUint8(opacity), ToUint8(thresh), ToUint8(thresh + 1)}
    {
      var s := PixelDiff(fg[i][j], bg[i][j]);
      if thresh <= s <= thresh + 1 {
        assert s == thresh || s == thresh + 1;
      }
    }
  }

  /** The mask does not depend on which of the two images is the
      foreground. */
  lemma MaskSymmetric(fg: Image, bg: Image, thresh: int, opacity: int)
    requires SameShape(fg, bg)
    ensures SameShape(bg, fg)
    ensures Mask(fg, bg, thresh, opacity) == Mask(bg, fg, thresh, opacity)
  {
    SameShapeSymmetric(fg, bg);
    var h, w := |fg|, Width(fg);
    assert Width(bg) == w by {
      if h > 0 { assert |bg[0]| == w; }
    }
    forall i, j | 0 <= i < h && 0 <= j < w
      ensures Mask(fg, bg, thresh, opacity)[i][j] == Mask(bg, fg, thresh, opacity)[i][j]
    {
      PixelDiffSymmetric(fg[i][j], bg[i][j]);
    }
    PlaneExtensionality(Mask(fg, bg, thresh, opacity), Mask(bg, fg, thresh, opacity), h, w);
  }
}
