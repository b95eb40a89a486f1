/** The background estimator of montage.py: split every image into its
    channels, take the per-position median of each channel across the
    stack, and stack the three median planes back into one image. */
module Background {
  import opened Images
  import opened Statistics

  /** Channel `c` of an image as a plane. */
  function Channel(img: Image, c: nat): (p: Plane)
    requires WellFormed(img) && c < Channels
    ensures IsPlane(p, |img|, Width(img))
    ensures forall i, j :: 0 <= i < |img| && 0 <= j < Width(img) ==> p[i][j] == img[i][j][c]
  {
    seq(|img|, i requires 0 <= i < |img| =>
      seq(Width(img), j requires 0 <= j < Width(img) => img[i][j][c]))
  }

  /** split_channels: the three monochrome planes of an image. */
  function SplitChannels(img: Image): (planes: seq<Plane>)
    requires WellFormed(img)
    ensures |planes| == Channels
    ensures PlanesConform(planes, |img|, Width(img))
    ensures forall c, i, j :: 0 <= c < Channels && 0 <= i < |img| && 0 <= j < Width(img) ==>
      planes[c][i][j] == img[i][j][c]
  {
    seq(Channels, c requires 0 <= c < Channels => Channel(img, c))
  }

  /** Depth-wise stacking of 2-D planes of one shape: sample k of pixel (i, j) is
      plane k at (i, j). */
  function DStack(planes: seq<Plane>): (img: seq<seq<seq<Byte>>>)
    requires |planes| > 0
    requires PlanesConform(planes, |planes[0]|, PlaneWidth(planes[0]))
    ensures |img| == |planes[0]|
    ensures forall i :: 0 <= i < |img| ==> |img[i]| == PlaneWidth(planes[0])
    ensures forall i, j :: 0 <= i < |img| && 0 <= j < PlaneWidth(planes[0]) ==> |img[i][j]| == |planes|
    ensures forall i, j, k :: 0 <= i < |img| && 0 <= j < PlaneWidth(planes[0]) && 0 <= k < |planes| ==>
      img[i][j][k] == planes[k][i][j]
  {
    var h, w := |planes[0]|, PlaneWidth(planes[0]);
    seq(h, i requires 0 <= i < h =>
      seq(w, j requires 0 <= j < w =>
        seq(|planes|, k requires 0 <= k < |planes| => planes[k][i][j])))
  }

  /** Stacking the split channels gives back the image. */
  lemma DStackSplitChannels(img: Image)
    requires WellFormed(img)
    ensures |SplitChannels(img)[0]| == |img| && PlaneWidth(SplitChannels(img)[0]) == Width(img)
    ensures DStack(SplitChannels(img)) == img
  {
    var planes := SplitChannels(img);
    var r := DStack(planes);
    assert |planes[0]| == |img|;
    assert PlaneWidth(planes[0]) == Width(img) by {
      if |img| > 0 { assert |planes[0][0]| == Width(img); }
    }
    ImageExtensionality(r, img, |img|, Width(img));
  }

  /** Splitting three stacked planes gives back the planes. */
  lemma SplitChannelsDStack(planes: seq<Plane>)
    requires |planes| == Channels
    requires PlanesConform(planes, |planes[0]|, PlaneWidth(planes[0]))
    ensures WellFormed(DStack(planes))
    ensures SplitChannels(DStack(planes)) == planes
  {
    var h, w := |planes[0]|, PlaneWidth(planes[0]);
    var img := DStack(planes);
    assert Width(img) == w by {
      if h > 0 { assert |img[0]| == w; }
    }
    var r := SplitChannels(img);
    forall c | 0 <= c < Channels
      ensures r[c] == planes[c]
    {
      PlaneExtensionality(r[c], planes[c], h, w);
    }
  }

  /** median: stacks the planes and takes the median along the stack axis,
      truncated to uint8. */
  function Median(planes: seq<Plane>): (m: Plane)
    requires |planes| > 0
    requires PlanesConform(planes, |planes[0]|, PlaneWidth(planes[0]))
    ensures IsPlane(m, |planes[0]|, PlaneWidth(planes[0]))
    ensures forall i, j :: 0 <= i < |planes[0]| && 0 <= j < PlaneWidth(planes[0]) ==>
      m[i][j] == MedianOf(Column(planes, i, j))
  {
    var h, w := |planes[0]|, PlaneWidth(planes[0]);
    var stacked := DStack(planes);
    assert forall i, j :: 0 <= i < h && 0 <= j < w ==> stacked[i][j] == Column(planes, i, j);
    seq(h, i requires 0 <= i < h =>
      seq(w, j requires 0 <= j < w => MedianOf(stacked[i][j])))
  }

  /** Every image of the stack has the shape of the first. */
  predicate ShapesAgree(images: seq<Image>)
    requires |images| > 0
  {
    forall k :: 0 <= k < |images| ==> SameShape(images[0], images[k])
  }

  /** The split channels of every image regrouped by channel: for each
      channel, the stack of that channel's planes across the images. */
  function ChannelStacks(images: seq<Image>): (stacks: seq<seq<Plane>>)
    requires |images| > 0 && ShapesAgree(images)
    ensures |stacks| == Channels
    ensures forall c :: 0 <= c < Channels ==>
      |stacks[c]| == |images| && PlanesConform(stacks[c], |images[0]|, Width(images[0]))
    ensures forall c, i, j :: 0 <= c < Channels && 0 <= i < |images[0]| && 0 <= j < Width(images[0]) ==>
      HasSample(images, i, j, c) && ColumnDefined(stacks[c], i, j) &&
      Column(stacks[c], i, j) == Samples(images, i, j, c)
  {
    var h, w := |images[0]|, Width(images[0]);
    var split := seq(|images|, k requires 0 <= k < |images| => SplitChannels(images[k]));
    assert forall k :: 0 <= k < |images| ==> |images[k]| == h && Width(images[k]) == w by {
      forall k | 0 <= k < |images|
        ensures |images[k]| == h && Width(images[k]) == w
      {
        if h > 0 { assert |images[k][0]| == w; }
      }
    }
    seq(Channels, c requires 0 <= c < Channels =>
      seq(|images|, k requires 0 <= k < |images| => split[k][c]))
  }

  /** create_background: fails on an empty stack and on images of unequal
      shape; otherwise channel c of the background at (i, j) is the median
      of the channel-c samples at (i, j) across the stack. */
  function CreateBackground(images: seq<Image>): (r: Result<Image>)
    ensures r == Err(EmptyStack) <==> |images| == 0
    ensures r == Err(ShapeMismatch) <==> |images| > 0 && !ShapesAgree(images)
    ensures r.Ok? ==> IsImage(r.value, |images[0]|, Width(images[0]))
    ensures r.Ok? ==> forall i, j, c :: 0 <= i < |images[0]| && 0 <= j < Width(images[0]) && 0 <= c < Channels ==>
      HasSample(images, i, j, c) &&
      r.value[i][j][c] == MedianOf(Samples(images, i, j, c))
  {
    if |images| == 0 then Err(EmptyStack)
    else if !ShapesAgree(images) then Err(ShapeMismatch)
    else
      var h, w := |images[0]|, Width(images[0]);
      var stacks := ChannelStacks(images);
      // the median of each channel's stack
      var medians := seq(Channels, c requires 0 <= c < Channels => Median(stacks[c]));
      assert PlanesConform(medians, h, w);
      var bg := DStack(medians);
      assert Width(bg) == w by {
        if h > 0 { assert |bg[0]| == w; }
      }
      Ok(bg)
  }

  /** Removing the element at index k removes one occurrence of it. */
  lemma MultisetRemove<T>(s: seq<T>, k: nat)
    requires k < |s|
    ensures multiset(s) == multiset(s[..k] + s[k + 1..]) + multiset{s[k]}
  {
    assert s == s[..k] + [s[k]] + s[k + 1..];
  }

  /** Two sequences whose first and k-th elements match hold the same
      elements exactly when they do once those are removed. */
  lemma RemoveMatching<T>(s: seq<T>, t: seq<T>, k: nat)
    requires s != [] && k < |t| && t[k] == s[0]
    ensures multiset(s[1..]) == multiset(t[..k] + t[k + 1..]) <==> multiset(s) == multiset(t)
  {
    var a, b := multiset(s[1..]), multiset(t[..k] + t[k + 1..]);
    MultisetRemove(t, k);
    MultisetRemove(s, 0);
    assert s[..0] + s[1..] == s[1..];
    assert multiset(s) == a + multiset{s[0]};
    assert multiset(t) == b + multiset{s[0]};
    if multiset(s) == multiset(t) {
      MultisetCancel(a, b, s[0]);
    }
  }

  lemma MultisetCancel<T>(a: multiset<T>, b: multiset<T>, x: T)
    requires a + multiset{x} == b + multiset{x}
    ensures a == b
  {
    assert a == (a + multiset{x}) - multiset{x};
    assert b == (b + multiset{x}) - multiset{x};
  }

  /** Removing index k from both sides keeps an elementwise relation. */
  lemma RemoveKeepsMap<A, B>(t: seq<A>, ts: seq<B>, f: A -> B, k: nat, t': seq<A>, ts': seq<B>)
    requires k < |t| && |ts| == |t| && forall m :: 0 <= m < |t| ==> ts[m] == f(t[m])
    requires t' == t[..k] + t[k + 1..] && ts' == ts[..k] + ts[k + 1..]
    ensures |ts'| == |t'| && forall m :: 0 <= m < |t'| ==> ts'[m] == f(t'[m])
  {
    forall m | 0 <= m < |t'|
      ensures ts'[m] == f(t'[m])
    {
      if m < k {
        assert ts'[m] == ts[m] && t'[m] == t[m];
      } else {
        assert ts'[m] == ts[m + 1] && t'[m] == t[m + 1];
      }
    }
  }

  /** Applying one function to the elements of two permutations of each
      other gives two permutations of each other. */
  lemma {:induction false} MapPermutation<A, B>(s: seq<A>, t: seq<A>, xs: seq<B>, ts: seq<B>, f: A -> B)
    requires multiset(s) == multiset(t)
    requires |xs| == |s| && forall k :: 0 <= k < |s| ==> xs[k] == f(s[k])
    requires |ts| == |t| && forall k :: 0 <= k < |t| ==> ts[k] == f(t[k])
    ensures multiset(xs) == multiset(ts)
  {
    if s == [] {
      assert |t| == |multiset(t)| == 0;
    } else {
      assert s[0] in multiset(t);
      var k :| 0 <= k < |t| && t[k] == s[0];
      RemoveMatching(s, t, k);
      RemoveKeepsMap(t, ts, f, k, t[..k] + t[k + 1..], ts[..k] + ts[k + 1..]);
      MapPermutation(s[1..], t[..k] + t[k + 1..], xs[1..], ts[..k] + ts[k + 1..], f);
      RemoveMatching(xs, ts, k);
    }
  }

  /** The samples of a permuted stack are a permutation of its samples. */
  lemma SamplesPermutation(s: seq<Image>, t: seq<Image>, i: nat, j: nat, c: nat)
    requires multiset(s) == multiset(t)
    requires HasSample(s, i, j, c)
    ensures HasSample(t, i, j, c)
    ensures multiset(Samples(s, i, j, c)) == multiset(Samples(t, i, j, c))
  {
    forall k | 0 <= k < |t|
      ensures i < |t[k]| && j < |t[k][i]| && c < |t[k][i][j]|
    {
      assert t[k] in multiset(s);
    }
    var sample := (img: Image) => if i < |img| && j < |img[i]| && c < |img[i][j]| then img[i][j][c] else 0;
    MapPermutation(s, t, Samples(s, i, j, c), Samples(t, i, j, c), sample);
  }

  /** Whether the shapes of a stack agree does not depend on its order. */
  lemma ShapesAgreePermutation(s: seq<Image>, t: seq<Image>)
    requires |s| > 0 && multiset(s) == multiset(t)
    ensures |t| > 0 && (ShapesAgree(s) ==> ShapesAgree(t))
  {
    assert |t| == |multiset(t)| == |multiset(s)| == |s|;
    if ShapesAgree(s) {
      assert t[0] in multiset(s);
      var a :| 0 <= a < |s| && s[a] == t[0];
      SameShapeSymmetric(s[0], t[0]);
      forall k | 0 <= k < |t|
        ensures SameShape(t[0], t[k])
      {
        assert t[k] in multiset(s);
        var l :| 0 <= l < |s| && s[l] == t[k];
        SameShapeTransitive(t[0], s[0], t[k]);
      }
    }
  }

  /** The background does not depend on the order of the images. */
  lemma BackgroundPermutationInvariant(images: seq<Image>, permuted: seq<Image>)
    requires multiset(images) == multiset(permuted)
    ensures CreateBackground(images) == CreateBackground(permuted)
  {
    assert |images| == |multiset(images)| == |multiset(permuted)| == |permuted|;
    if |images| > 0 {
      // the first image of either stack occurs in the other
      assert permuted[0] in multiset(images);
      var a :| 0 <= a < |images| && images[a] == permuted[0];
      assert images[0] in multiset(permuted);
      var b :| 0 <= b < |permuted| && permuted[b] == images[0];
      ShapesAgreePermutation(images, permuted);
      ShapesAgreePermutation(permuted, images);
      if ShapesAgree(images) {
        var h, w := |images[0]|, Width(images[0]);
        assert |permuted[0]| == h && Width(permuted[0]) == w by {
          if h > 0 { assert |permuted[0][0]| == w; }
        }
        var r, r' := CreateBackground(images).value, CreateBackground(permuted).value;
        forall i, j, c | 0 <= i < h && 0 <= j < w && 0 <= c < Channels
          ensures r[i][j][c] == r'[i][j][c]
        {
          SamplesPermutation(images, permuted, i, j, c);
          MedianPermutationInvariant(Samples(images, i, j, c), Samples(permuted, i, j, c));
        }
        ImageExtensionality(r, r', h, w);
      }
    }
  }

  /** Where every image holds the same value, the background holds it. */
  lemma BackgroundConstantStack(images: seq<Image>, i: nat, j: nat, c: nat, v: Byte)
    requires |images| > 0 && ShapesAgree(images)
    requires i < |images[0]| && j < Width(images[0]) && c < Channels
    requires HasSample(images, i, j, c)
    requires forall k :: 0 <= k < |images| ==> images[k][i][j][c] == v
    ensures CreateBackground(images).value[i][j][c] == v
  {
    MedianConstant(Samples(images, i, j, c), v);
  }

  /** Bounds holding of every image's sample at (i, j, c) hold of the
      background's: it lies between the smallest and the largest sample. */
  lemma BackgroundBounds(images: seq<Image>, i: nat, j: nat, c: nat, lo: int, hi: int)
    requires |images| > 0 && ShapesAgree(images)
    requires i < |images[0]| && j < Width(images[0]) && c < Channels
    requires HasSample(images, i, j, c)
    requires forall k :: 0 <= k < |images| ==> lo <= images[k][i][j][c] <= hi
    ensures lo <= CreateBackground(images).value[i][j][c] <= hi
  {
    MedianBounds(Samples(images, i, j, c), lo, hi);
  }

  /** Where a strict majority of the images hold the same value, the
      background holds it, whatever the remaining images show there. */
  lemma BackgroundMajority(images: seq<Image>, i: nat, j: nat, c: nat, v: Byte)
    requires |images| > 0 && ShapesAgree(images)
    requires i < |images[0]| && j < Width(images[0]) && c < Channels
    requires HasSample(images, i, j, c)
    requires 2 * CountIn(Samples(images, i, j, c), v, v) > |images|
    ensures CreateBackground(images).value[i][j][c] == v
  {
    MedianMajority(Samples(images, i, j, c), v);
  }

  /** The background of a single image is that image. */
  lemma BackgroundSingleImage(img: Image)
    requires WellFormed(img)
    ensures CreateBackground([img]) == Ok(img)
  {
    var r := CreateBackground([img]).value;
    forall i, j, c | 0 <= i < |img| && 0 <= j < Width(img) && 0 <= c < Channels
      ensures r[i][j][c] == img[i][j][c]
    {
      MedianConstant(Samples([img], i, j, c), img[i][j][c]);
    }
    ImageExtensionality(r, img, |img|, Width(img));
  }

  /** A stack of copies of one image has that image as its background. */
  lemma BackgroundIdenticalImages(images: seq<Image>, img: Image)
    requires |images| > 0 && WellFormed(img)
    requires forall k :: 0 <= k < |images| ==> images[k] == img
    ensures CreateBackground(images) == Ok(img)
  {
    var r := CreateBackground(images).value;
    forall i, j, c | 0 <= i < |img| && 0 <= j < Width(img) && 0 <= c < Channels
      ensures r[i][j][c] == img[i][j][c]
    {
      MedianConstant(Samples(images, i, j, c), img[i][j][c]);
    }
    ImageExtensionality(r, img, |img|, Width(img));
  }

  /** Channels do not mix: channel c of the background depends only on
      channel c of the images. */
  lemma BackgroundChannelsIndependent(images: seq<Image>, others: seq<Image>, c: nat)
    requires |images| > 0 && ShapesAgree(images) && |others| > 0 && ShapesAgree(others)
    requires |images| == |others| && c < Channels
    requires |images[0]| == |others[0]| && Width(images[0]) == Width(others[0])
    requires forall i, j :: 0 <= i < |images[0]| && 0 <= j < Width(images[0]) ==>
      HasSample(images, i, j, c) && HasSample(others, i, j, c) && Samples(images, i, j, c) == Samples(others, i, j, c)
    ensures forall i, j :: 0 <= i < |images[0]| && 0 <= j < Width(images[0]) ==>
      CreateBackground(images).value[i][j][c] == CreateBackground(others).value[i][j][c]
  {
    forall i, j | 0 <= i < |images[0]| && 0 <= j < Width(images[0])
      ensures CreateBackground(images).value[i][j][c] == CreateBackground(others).value[i][j][c]
    {
    }
  }
}
