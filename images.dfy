/** Shared data model: 8-bit samples, single-channel planes and RGB images,
    the shape predicates every stage relies on, and a small Result type for
    the failures the script raises. */
module Images {

  /** One 8-bit unsigned sample (numpy uint8). */
  type Byte = x: int | 0 <= x < 256

  /** A single-channel array of shape [height, width]. */
  type Plane = seq<seq<Byte>>

  /** An RGB image of shape [height, width, 3]. */
  type Image = seq<seq<seq<Byte>>>

  /** The number of colour channels of every image. */
  const Channels: nat := 3

  datatype Option<T> = None | Some(value: T)

  datatype Error = EmptyStack | ShapeMismatch

  datatype Result<T> = Ok(value: T) | Err(error: Error)

  /** The width of an image; an image with no rows has width 0. */
  function Width(img: Image): nat
  {
    if |img| == 0 then 0 else |img[0]|
  }

  /** The width of a plane; a plane with no rows has width 0. */
  function PlaneWidth(p: Plane): nat
  {
    if |p| == 0 then 0 else |p[0]|
  }

  /** `p` has shape [h, w]. */
  predicate IsPlane(p: Plane, h: nat, w: nat)
  {
    |p| == h && forall i :: 0 <= i < h ==> |p[i]| == w
  }

  /** `img` has shape [h, w, 3]. */
  predicate IsImage(img: Image, h: nat, w: nat)
  {
    && |img| == h
    && (forall i :: 0 <= i < h ==> |img[i]| == w)
    && (forall i, j :: 0 <= i < h && 0 <= j < w ==> |img[i][j]| == Channels)
  }

  /** `img` is a rectangular three-channel array. */
  predicate WellFormed(img: Image)
  {
    IsImage(img, |img|, Width(img))
  }

  /** `a` and `b` are rectangular three-channel arrays of one shape. */
  predicate SameShape(a: Image, b: Image)
  {
    WellFormed(a) && IsImage(b, |a|, Width(a))
  }

  /** Every plane of the stack has shape [h, w]. */
  predicate PlanesConform(planes: seq<Plane>, h: nat, w: nat)
  {
    forall k :: 0 <= k < |planes| ==> IsPlane(planes[k], h, w)
  }

  /** Position (i, j) is present in every plane of the stack. */
  predicate ColumnDefined(planes: seq<Plane>, i: nat, j: nat)
  {
    forall k :: 0 <= k < |planes| ==> i < |planes[k]| && j < |planes[k][i]|
  }

  /** The samples at position (i, j) across a stack of planes. */
  function Column(planes: seq<Plane>, i: nat, j: nat): (col: seq<Byte>)
    requires ColumnDefined(planes, i, j)
    ensures |col| == |planes|
    ensures forall k :: 0 <= k < |planes| ==> col[k] == planes[k][i][j]
  {
    seq(|planes|, k requires 0 <= k < |planes| => planes[k][i][j])
  }

  /** Sample (i, j, c) is present in every image of the stack. */
  predicate HasSample(images: seq<Image>, i: nat, j: nat, c: nat)
  {
    forall k :: 0 <= k < |images| ==> i < |images[k]| && j < |images[k][i]| && c < |images[k][i][j]|
  }

  /** The samples of channel c at position (i, j) across a stack of images. */
  function Samples(images: seq<Image>, i: nat, j: nat, c: nat): (xs: seq<Byte>)
    requires HasSample(images, i, j, c)
    ensures |xs| == |images|
    ensures forall k :: 0 <= k < |images| ==> xs[k] == images[k][i][j][c]
  {
    seq(|images|, k requires 0 <= k < |images| => images[k][i][j][c])
  }

  /** Dropping the first `a` images drops the first `a` samples. */
  lemma SamplesDrop(images: seq<Image>, i: nat, j: nat, c: nat, a: nat)
    requires HasSample(images, i, j, c) && a <= |images|
    ensures HasSample(images[a..], i, j, c)
    ensures Samples(images, i, j, c)[a..] == Samples(images[a..], i, j, c)
  {
    assert forall k :: 0 <= k < |images| - a ==> images[a..][k] == images[a + k];
  }

  /** Dropping the first `a` planes drops the first `a` samples. */
  lemma ColumnDrop(planes: seq<Plane>, i: nat, j: nat, a: nat)
    requires ColumnDefined(planes, i, j) && a <= |planes|
    ensures ColumnDefined(planes[a..], i, j)
    ensures Column(planes, i, j)[a..] == Column(planes[a..], i, j)
  {
    assert forall k :: 0 <= k < |planes| - a ==> planes[a..][k] == planes[a + k];
  }

  /** Two images of one shape that agree on every sample are equal. */
  lemma ImageExtensionality(a: Image, b: Image, h: nat, w: nat)
    requires IsImage(a, h, w) && IsImage(b, h, w)
    requires forall i, j, c :: 0 <= i < h && 0 <= j < w && 0 <= c < Channels ==> a[i][j][c] == b[i][j][c]
    ensures a == b
  {
    forall i | 0 <= i < h
      ensures a[i] == b[i]
    {
      forall j | 0 <= j < w
        ensures a[i][j] == b[i][j]
      {
      }
    }
  }

  /** Two planes of one shape that agree on every sample are equal. */
  lemma PlaneExtensionality(a: Plane, b: Plane, h: nat, w: nat)
    requires IsPlane(a, h, w) && IsPlane(b, h, w)
    requires forall i, j :: 0 <= i < h && 0 <= j < w ==> a[i][j] == b[i][j]
    ensures a == b
  {
    forall i | 0 <= i < h
      ensures a[i] == b[i]
    {
    }
  }

  lemma SameShapeSymmetric(a: Image, b: Image)
    requires SameShape(a, b)
    ensures SameShape(b, a)
  {
    if |a| > 0 {
      assert |b[0]| == Width(a);
    }
  }

  lemma SameShapeTransitive(a: Image, b: Image, c: Image)
    requires SameShape(a, b) && SameShape(b, c)
    ensures SameShape(a, c)
  {
    if |a| > 0 {
      assert Width(b) == Width(a);
    }
  }

  function Abs(x: int): (r: nat)
    ensures r == x || r == -x
  {
    if x < 0 then -x else x
  }

  function Min(a: int, b: int): (r: int)
    ensures r <= a && r <= b && (r == a || r == b)
  {
    if a <= b then a else b
  }

  function Max(a: int, b: int): (r: int)
    ensures r >= a && r >= b && (r == a || r == b)
  {
    if a <= b then b else a
  }
}
