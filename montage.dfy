/** The pipeline that montage.py's entry point runs on the decoded images:
    the median background of all the images, one mask per image against
    that background, and every image composited onto the background through
    its own mask, in input order. */
module Montage {
  import opened Images
  import opened Statistics
  import opened Background
  import opened Masking
  import opened Compositing

  /** A background that create_background accepted has the shape of every
      image of the stack. */
  lemma BackgroundShape(images: seq<Image>)
    requires |images| > 0 && ShapesAgree(images)
    ensures SameShape(images[0], CreateBackground(images).value)
    ensures forall k :: 0 <= k < |images| ==> SameShape(images[k], CreateBackground(images).value)
  {
    var bg := CreateBackground(images).value;
    var h, w := |images[0]|, Width(images[0]);
    forall k | 0 <= k < |images|
      ensures SameShape(images[k], bg)
    {
      assert SameShape(images[0], images[k]);
      assert Width(images[k]) == w by {
        if h > 0 { assert |images[k][0]| == w; }
      }
    }
  }

  /** The masks the entry point builds with make_mask: the mask of every
      image against the background. */
  function Masks(images: seq<Image>, bg: Image, thresh: int, opacity: int): (ms: seq<Plane>)
    requires WellFormed(bg)
    requires forall k :: 0 <= k < |images| ==> SameShape(images[k], bg)
    ensures |ms| == |images|
    ensures Conforms(images, ms, |bg|, Width(bg))
    ensures forall k, i, j :: 0 <= k < |images| && 0 <= i < |bg| && 0 <= j < Width(bg) ==>
      ms[k][i][j] == MaskValue(PixelDiff(images[k][i][j], bg[i][j]), thresh, opacity)
  {
    var ms := seq(|images|, k requires 0 <= k < |images| => Mask(images[k], bg, thresh, opacity));
    forall k | 0 <= k < |images|
      ensures IsImage(images[k], |bg|, Width(bg)) && IsPlane(ms[k], |bg|, Width(bg))
    {
      SameShapeSymmetric(images[k], bg);
      assert Width(images[k]) == Width(bg) by {
        if |bg| > 0 { assert |images[k][0]| == Width(bg); }
      }
    }
    ms
  }

  /** The montage of a stack of images: fails as create_background does,
      and otherwise has the shape of the images. */
  function MakeMontage(images: seq<Image>, thresh: int, opacity: int, blend: Blend): (r: Result<Image>)
    requires IsBlend(blend)
    ensures r == Err(EmptyStack) <==> |images| == 0
    ensures r == Err(ShapeMismatch) <==> |images| > 0 && !ShapesAgree(images)
    ensures r.Ok? ==> |images| > 0 && SameShape(images[0], r.value)
  {
    match CreateBackground(images)
    case Err(e) => Err(e)
    case Ok(bg) =>
      BackgroundShape(images);
      var masks := Masks(images, bg, thresh, opacity);
      var composite := Merge(bg, images, masks, blend);
      SameShapeTransitive(images[0], bg, composite);
      Ok(composite)
  }

  /** Unfolds MakeMontage for the lemmas below: an accepted montage is the
      fold of the masked images onto the background. */
  lemma MontageMerges(images: seq<Image>, thresh: int, opacity: int, blend: Blend)
    requires IsBlend(blend)
    requires |images| > 0 && ShapesAgree(images)
    ensures |images| > 0 && forall k :: 0 <= k < |images| ==> SameShape(images[k], CreateBackground(images).value)
    ensures MakeMontage(images, thresh, opacity, blend) ==
      var bg := CreateBackground(images).value;
      Ok(Merge(bg, images, Masks(images, bg, thresh, opacity), blend))
  {
    BackgroundShape(images);
  }

  /** The montage of a stack of copies of one image is that image, for
      every threshold of at least -1: each mask is the image masked against
      itself. */
  lemma MontageIdenticalImages(images: seq<Image>, img: Image, thresh: int, opacity: int, blend: Blend)
    requires IsBlend(blend)
    requires |images| > 0 && WellFormed(img)
    requires forall k :: 0 <= k < |images| ==> images[k] == img
    requires thresh >= -1
    ensures MakeMontage(images, thresh, opacity, blend) == Ok(img)
  {
    BackgroundIdenticalImages(images, img);
    MontageMerges(images, thresh, opacity, blend);
    var masks := Masks(images, img, thresh, opacity);
    SelfMask(img, thresh, opacity);
    MergeAllZeroMasks(img, images, masks, blend);
  }

  /** The montage never leaves the range of the samples it was made from:
      bounds holding of every image's sample at (i, j, c) hold of the
      montage's. */
  lemma MontageBounds(images: seq<Image>, thresh: int, opacity: int, blend: Blend, i: nat, j: nat, c: nat, lo: int, hi: int)
    requires IsBlend(blend)
    requires |images| > 0 && ShapesAgree(images)
    requires i < |images[0]| && j < Width(images[0]) && c < Channels
    requires forall k :: 0 <= k < |images| ==> i < |images[k]| && j < |images[k][i]| && c < |images[k][i][j]|
    requires forall k :: 0 <= k < |images| ==> lo <= images[k][i][j][c] <= hi
    ensures lo <= MakeMontage(images, thresh, opacity, blend).value[i][j][c] <= hi
  {
    var bg := CreateBackground(images).value;
    MontageMerges(images, thresh, opacity, blend);
    BackgroundBounds(images, i, j, c, lo, hi);
    var masks := Masks(images, bg, thresh, opacity);
    MergeBounds(bg, images, masks, blend, i, j, c, lo, hi);
  }

  /** A pixel at which every image stays within the threshold of the
      background (a difference sum below `thresh`) shows the background. */
  lemma MontageStaticPixel(images: seq<Image>, thresh: int, opacity: int, blend: Blend, i: nat, j: nat)
    requires IsBlend(blend)
    requires |images| > 0 && ShapesAgree(images)
    requires i < |images[0]| && j < Width(images[0])
    requires forall k :: 0 <= k < |images| ==>
      PixelDiff(images[k][i][j], CreateBackground(images).value[i][j]) < thresh
    ensures MakeMontage(images, thresh, opacity, blend).value[i][j] == CreateBackground(images).value[i][j]
  {
    var bg := CreateBackground(images).value;
    MontageMerges(images, thresh, opacity, blend);
    var masks := Masks(images, bg, thresh, opacity);
    forall l | 0 <= l < |images|
      ensures masks[l][i][j] == 0
    {
      assert masks[l][i][j] == MaskValue(PixelDiff(images[l][i][j], bg[i][j]), thresh, opacity);
    }
    MergeZeroAt(bg, images, masks, blend, i, j);
  }

  /** With an opacity of 255, a pixel at which image k differs from the
      background by more than `thresh + 1`, while every later image stays
      within the threshold there, shows image k. */
  lemma MontageLastChangeShows(images: seq<Image>, thresh: int, opacity: int, blend: Blend, i: nat, j: nat, k: nat)
    requires IsBlend(blend) && ToUint8(opacity) == 255
    requires |images| > 0 && ShapesAgree(images)
    requires i < |images[0]| && j < Width(images[0]) && k < |images|
    requires PixelDiff(images[k][i][j], CreateBackground(images).value[i][j]) > thresh + 1
    requires forall l :: k < l < |images| ==> PixelDiff(images[l][i][j], CreateBackground(images).value[i][j]) < thresh
    ensures MakeMontage(images, thresh, opacity, blend).value[i][j] == images[k][i][j]
  {
    var bg := CreateBackground(images).value;
    MontageMerges(images, thresh, opacity, blend);
    var masks := Masks(images, bg, thresh, opacity);
    MergeLastOpaque(bg, images, masks, blend, i, j, k);
  }

  /** Two frames of a still scene and a third in which an object has moved
      in: with an opacity of 255 the median keeps the scene as background,
      and every pixel of the montage shows the third frame wherever the
      object differs from the scene by more than `thresh + 1`. */
  lemma MontageObjectInLastFrame(scene: Image, last: Image, thresh: int, opacity: int, blend: Blend, i: nat, j: nat)
    requires IsBlend(blend) && ToUint8(opacity) == 255 && thresh >= -1
    requires SameShape(scene, last)
    requires i < |scene| && j < Width(scene)
    requires last[i][j] == scene[i][j] || PixelDiff(last[i][j], scene[i][j]) > thresh + 1
    ensures MakeMontage([scene, scene, last], thresh, opacity, blend).Ok?
    ensures MakeMontage([scene, scene, last], thresh, opacity, blend).value[i][j] == last[i][j]
  {
    var images := [scene, scene, last];
    SceneBackground(scene, last, i, j);
    MontageMerges(images, thresh, opacity, blend);
    var bg := CreateBackground(images).value;
    SceneMasks(scene, last, bg, thresh, opacity, i, j);
    ThirdLayerShows(bg, images, Masks(images, bg, thresh, opacity), blend, i, j);
  }

  /** Against a background that matches the scene at (i, j), the masks of
      the two scene frames are 0 there, and the mask of the third frame is
      0 where it matches the scene and 255 where it differs by more than
      `thresh + 1`. */
  lemma SceneMasks(scene: Image, last: Image, bg: Image, thresh: int, opacity: int, i: nat, j: nat)
    requires ToUint8(opacity) == 255 && thresh >= -1
    requires WellFormed(bg) && SameShape(scene, bg) && SameShape(last, bg)
    requires i < |bg| && j < Width(bg) && bg[i][j] == scene[i][j]
    requires last[i][j] == scene[i][j] || PixelDiff(last[i][j], scene[i][j]) > thresh + 1
    ensures var masks := Masks([scene, scene, last], bg, thresh, opacity);
      && masks[0][i][j] == 0 && masks[1][i][j] == 0
      && (masks[2][i][j] == 255 || (masks[2][i][j] == 0 && last[i][j] == bg[i][j]))
  {
    var images := [scene, scene, last];
    var masks := Masks(images, bg, thresh, opacity);
    assert masks[0][i][j] == MaskValue(PixelDiff(images[0][i][j], bg[i][j]), thresh, opacity);
    assert masks[1][i][j] == MaskValue(PixelDiff(images[1][i][j], bg[i][j]), thresh, opacity);
    assert masks[2][i][j] == MaskValue(PixelDiff(images[2][i][j], bg[i][j]), thresh, opacity);
  }

  /** Of three layers whose first two masks are 0 at (i, j), the third shows
      there if its mask is 255, or if its mask is 0 and it matches the
      canvas. */
  lemma ThirdLayerShows(canvas: Image, fgs: seq<Image>, masks: seq<Plane>, blend: Blend, i: nat, j: nat)
    requires WellFormed(canvas) && Conforms(fgs, masks, |canvas|, Width(canvas))
    requires IsBlend(blend)
    requires i < |canvas| && j < Width(canvas)
    requires |fgs| == 3 && |masks| == 3
    requires masks[0][i][j] == 0 && masks[1][i][j] == 0
    requires masks[2][i][j] == 255 || (masks[2][i][j] == 0 && fgs[2][i][j] == canvas[i][j])
    ensures Merge(canvas, fgs, masks, blend)[i][j] == fgs[2][i][j]
  {
    if masks[2][i][j] == 255 {
      MergeLastOpaque(canvas, fgs, masks, blend, i, j, 2);
    } else {
      forall l | 0 <= l < |fgs| && l < |masks|
        ensures masks[l][i][j] == 0
      {
        assert l == 0 || l == 1 || l == 2;
      }
      MergeZeroAt(canvas, fgs, masks, blend, i, j);
    }
  }

  /** The background of two copies of a scene and one other frame is the
      scene at every pixel. */
  lemma SceneBackground(scene: Image, last: Image, i: nat, j: nat)
    requires SameShape(scene, last)
    requires i < |scene| && j < Width(scene)
    ensures CreateBackground([scene, scene, last]).Ok?
    ensures CreateBackground([scene, scene, last]).value[i][j] == scene[i][j]
  {
    var images := [scene, scene, last];
    SameShapeSymmetric(scene, last);
    assert ShapesAgree(images);
    var bg := CreateBackground(images).value;
    BackgroundShape(images);
    forall c | 0 <= c < Channels
      ensures bg[i][j][c] == scene[i][j][c]
    {
      SceneMajority(scene, last, i, j, c);
      BackgroundMajority(images, i, j, c, scene[i][j][c]);
    }
  }

  lemma SceneMajority(scene: Image, last: Image, i: nat, j: nat, c: nat)
    requires SameShape(scene, last)
    requires i < |scene| && j < Width(scene) && c < Channels
    ensures HasSample([scene, scene, last], i, j, c)
    ensures 2 * CountIn(Samples([scene, scene, last], i, j, c), scene[i][j][c], scene[i][j][c]) > 3
  {
    var xs := Samples([scene, scene, last], i, j, c);
    assert xs == [scene[i][j][c], scene[i][j][c], last[i][j][c]];
    assert xs[1..][1..] == [last[i][j][c]];
  }
}
