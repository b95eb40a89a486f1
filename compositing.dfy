/** The compositor of montage.py: starting from the background, each
    (foreground, mask) pair in turn is alpha-blended onto the running canvas
    with Image.composite. The blend of one sample is a parameter: the model
    fixes only what every alpha blend does at mask 0 and mask 255 and that
    its result lies between the two samples it blends. */
module Compositing {
  import opened Images

  /** The blend of one sample: (mask value, foreground sample, canvas sample). */
  type Blend = (Byte, Byte, Byte) -> Byte

  /** A mask value of 0 keeps the canvas, 255 takes the foreground, and any
      result lies between the foreground and the canvas sample. */
  predicate IsBlend(blend: Blend)
  {
    && (forall f: Byte, b: Byte :: blend(0, f, b) == b)
    && (forall f: Byte, b: Byte :: blend(255, f, b) == f)
    && (forall m: Byte, f: Byte, b: Byte :: Min(f, b) <= blend(m, f, b) <= Max(f, b))
  }

  /** A reference alpha blend, (m * f + (255 - m) * b) / 255 rounded to the
      nearest integer. */
  function LinearBlend(m: Byte, f: Byte, b: Byte): (r: Byte)
    ensures Min(f, b) <= r <= Max(f, b)
  {
    var lo, hi := Min(f, b), Max(f, b);
    var x := f * m + b * (255 - m);
    assert 255 * lo <= x <= 255 * hi by {
      MulNonNegative(hi - lo, m);
      MulNonNegative(hi - lo, 255 - m);
      assert x == 255 * b + (f - b) * m;
      assert x == 255 * f + (b - f) * (255 - m);
    }
    (x + 127) / 255
  }

  lemma MulNonNegative(a: int, b: int)
    requires a >= 0 && b >= 0
    ensures a * b >= 0
  {
  }

  /** The reference blend is an alpha blend, so IsBlend can be met. */
  lemma LinearBlendIsBlend()
    ensures IsBlend(LinearBlend)
  {
  }

  /** Image.composite(fg, canvas, m): every channel of every pixel blended
      with that pixel's mask value. */
  function Composite(fg: Image, canvas: Image, m: Plane, blend: Blend): (r: Image)
    requires SameShape(canvas, fg) && IsPlane(m, |canvas|, Width(canvas))
    requires IsBlend(blend)
    ensures SameShape(canvas, r) && Width(r) == Width(canvas)
    ensures forall i, j, c :: 0 <= i < |canvas| && 0 <= j < Width(canvas) && 0 <= c < Channels ==>
      r[i][j][c] == blend(m[i][j], fg[i][j][c], canvas[i][j][c])
    ensures forall i, j :: 0 <= i < |canvas| && 0 <= j < Width(canvas) && m[i][j] == 0 ==>
      r[i][j] == canvas[i][j]
    ensures forall i, j :: 0 <= i < |canvas| && 0 <= j < Width(canvas) && m[i][j] == 255 ==>
      r[i][j] == fg[i][j]
    ensures forall i, j, c :: 0 <= i < |canvas| && 0 <= j < Width(canvas) && 0 <= c < Channels ==>
      Min(fg[i][j][c], canvas[i][j][c]) <= r[i][j][c] <= Max(fg[i][j][c], canvas[i][j][c])
  {
    var h, w := |canvas|, Width(canvas);
    var r := seq(h, i requires 0 <= i < h =>
      seq(w, j requires 0 <= j < w =>
        seq(Channels, c requires 0 <= c < Channels => blend(m[i][j], fg[i][j][c], canvas[i][j][c]))));
    assert Width(r) == w by {
      if h > 0 { assert |r[0]| == w; }
    }
    r
  }

  /** The (foreground, mask) pairs that merge_images visits all have shape [h, w]. */
  predicate Conforms(fgs: seq<Image>, masks: seq<Plane>, h: nat, w: nat)
  {
    forall k :: 0 <= k < |fgs| && k < |masks| ==> IsImage(fgs[k], h, w) && IsPlane(masks[k], h, w)
  }

  lemma ConformsSuffix(fgs: seq<Image>, masks: seq<Plane>, h: nat, w: nat, k: nat)
    requires Conforms(fgs, masks, h, w) && k <= |fgs| && k <= |masks|
    ensures Conforms(fgs[k..], masks[k..], h, w)
  {
    forall l | 0 <= l < |fgs| - k && l < |masks| - k
      ensures IsImage(fgs[k..][l], h, w) && IsPlane(masks[k..][l], h, w)
    {
      assert fgs[k..][l] == fgs[k + l] && masks[k..][l] == masks[k + l];
    }
  }

  /** The montage as a left fold: composite the pairs in input order onto
      the canvas, stopping at the end of the shorter list. */
  function Merge(canvas: Image, fgs: seq<Image>, masks: seq<Plane>, blend: Blend): (r: Image)
    requires WellFormed(canvas) && Conforms(fgs, masks, |canvas|, Width(canvas))
    requires IsBlend(blend)
    ensures SameShape(canvas, r) && Width(r) == Width(canvas)
    decreases |fgs|
  {
    if fgs == [] || masks == [] then canvas
    else
      var next := Composite(fgs[0], canvas, masks[0], blend);
      ConformsSuffix(fgs, masks, |canvas|, Width(canvas), 1);
      var r := Merge(next, fgs[1..], masks[1..], blend);
      SameShapeTransitive(canvas, next, r);
      r
  }

  /** merge_images: the running canvas starts as the background and is
      replaced by the composite of each pair in turn. */
  method MergeImages(background: Image, foregrounds: seq<Image>, masks: seq<Plane>, blend: Blend)
    returns (montage: Image)
    requires WellFormed(background) && Conforms(foregrounds, masks, |background|, Width(background))
    requires IsBlend(blend)
    ensures montage == Merge(background, foregrounds, masks, blend)
    ensures SameShape(background, montage)
  {
    var canvas := background;
    var n := Min(|foregrounds|, |masks|);
    for k := 0 to n
      invariant SameShape(background, canvas) && Width(canvas) == Width(background)
      invariant Conforms(foregrounds[k..], masks[k..], |canvas|, Width(canvas))
      invariant Merge(canvas, foregrounds[k..], masks[k..], blend) == Merge(background, foregrounds, masks, blend)
    {
      var next := Composite(foregrounds[k], canvas, masks[k], blend);
      assert foregrounds[k..][1..] == foregrounds[k + 1..] && masks[k..][1..] == masks[k + 1..];
      SameShapeTransitive(background, canvas, next);
      ConformsSuffix(foregrounds, masks, |canvas|, Width(canvas), k + 1);
      canvas := next;
    }
    assert foregrounds[n..] == [] || masks[n..] == [];
    montage := canvas;
  }

  /** One sample of the montage: the fold of the blend over that sample's
      foreground values and mask values, starting from the canvas sample. */
  function FoldAt(v: Byte, fs: seq<Byte>, ms: seq<Byte>, blend: Blend): Byte
    decreases |fs|
  {
    if fs == [] || ms == [] then v else FoldAt(blend(ms[0], fs[0], v), fs[1..], ms[1..], blend)
  }

  /** Compositing works pixel by pixel and channel by channel: each sample
      of the montage is the fold of the blend over the samples at that
      position alone. */
  lemma {:induction false} MergeAt(canvas: Image, fgs: seq<Image>, masks: seq<Plane>, blend: Blend, i: nat, j: nat, c: nat)
    requires WellFormed(canvas) && Conforms(fgs, masks, |canvas|, Width(canvas))
    requires IsBlend(blend)
    requires i < |canvas| && j < Width(canvas) && c < Channels
    ensures HasSample(fgs[..Min(|fgs|, |masks|)], i, j, c)
    ensures ColumnDefined(masks[..Min(|fgs|, |masks|)], i, j)
    ensures Merge(canvas, fgs, masks, blend)[i][j][c] ==
      FoldAt(canvas[i][j][c], Samples(fgs[..Min(|fgs|, |masks|)], i, j, c), Column(masks[..Min(|fgs|, |masks|)], i, j), blend)
    decreases |fgs|
  {
    var n := Min(|fgs|, |masks|);
    if n > 0 {
      var next := Composite(fgs[0], canvas, masks[0], blend);
      ConformsSuffix(fgs, masks, |canvas|, Width(canvas), 1);
      MergeAt(next, fgs[1..], masks[1..], blend, i, j, c);
      assert Min(|fgs[1..]|, |masks[1..]|) == n - 1;
      var front, fronts := fgs[..n], masks[..n];
      TakeDrop(fgs, n, 1);
      TakeDrop(masks, n, 1);
      SamplesDrop(front, i, j, c, 1);
      ColumnDrop(fronts, i, j, 1);
    }
  }

  /** With every mask value 0 the fold returns the canvas sample. */
  lemma {:induction false} FoldAllZero(v: Byte, fs: seq<Byte>, ms: seq<Byte>, blend: Blend)
    requires IsBlend(blend)
    requires forall k :: 0 <= k < |fs| && k < |ms| ==> ms[k] == 0
    ensures FoldAt(v, fs, ms, blend) == v
    decreases |fs|
  {
    if fs != [] && ms != [] {
      FoldAllZero(v, fs[1..], ms[1..], blend);
    }
  }

  /** A mask value of 255 at step k discards everything composited before
      it: the fold continues from that step's foreground sample. */
  lemma {:induction false} FoldOpaqueResets(v: Byte, fs: seq<Byte>, ms: seq<Byte>, blend: Blend, k: nat)
    requires IsBlend(blend)
    requires k < |fs| && k < |ms| && ms[k] == 255
    ensures FoldAt(v, fs, ms, blend) == FoldAt(fs[k], fs[k + 1..], ms[k + 1..], blend)
    decreases k
  {
    if k > 0 {
      FoldOpaqueResets(blend(ms[0], fs[0], v), fs[1..], ms[1..], blend, k - 1);
      assert fs[1..][k..] == fs[k + 1..] && ms[1..][k..] == ms[k + 1..];
    }
  }

  /** The last step with mask value 255, when every later mask value is 0,
      decides the sample. */
  lemma FoldLastOpaque(v: Byte, fs: seq<Byte>, ms: seq<Byte>, blend: Blend, k: nat)
    requires IsBlend(blend)
    requires k < |fs| && k < |ms| && ms[k] == 255
    requires forall l :: k < l < |fs| && l < |ms| ==> ms[l] == 0
    ensures FoldAt(v, fs, ms, blend) == fs[k]
  {
    FoldOpaqueResets(v, fs, ms, blend, k);
    FoldAllZero(fs[k], fs[k + 1..], ms[k + 1..], blend);
  }

  /** Bounds that hold of the canvas sample and of every foreground sample
      hold of the fold. */
  lemma {:induction false} FoldBounds(v: Byte, fs: seq<Byte>, ms: seq<Byte>, blend: Blend, lo: int, hi: int)
    requires IsBlend(blend)
    requires lo <= v <= hi
    requires forall k :: 0 <= k < |fs| && k < |ms| ==> lo <= fs[k] <= hi
    ensures lo <= FoldAt(v, fs, ms, blend) <= hi
    decreases |fs|
  {
    if fs != [] && ms != [] {
      FoldBounds(blend(ms[0], fs[0], v), fs[1..], ms[1..], blend, lo, hi);
    }
  }

  /** With every mask all zero the montage is the background. */
  lemma {:induction false} MergeAllZeroMasks(canvas: Image, fgs: seq<Image>, masks: seq<Plane>, blend: Blend)
    requires WellFormed(canvas) && Conforms(fgs, masks, |canvas|, Width(canvas))
    requires IsBlend(blend)
    requires forall k, i, j :: 0 <= k < |fgs| && k < |masks| && 0 <= i < |canvas| && 0 <= j < Width(canvas) ==>
      masks[k][i][j] == 0
    ensures Merge(canvas, fgs, masks, blend) == canvas
    decreases |fgs|
  {
    if fgs != [] && masks != [] {
      var next := Composite(fgs[0], canvas, masks[0], blend);
      ImageExtensionality(next, canvas, |canvas|, Width(canvas));
      ConformsSuffix(fgs, masks, |canvas|, Width(canvas), 1);
      forall k, i, j | 0 <= k < |fgs| - 1 && k < |masks| - 1 && 0 <= i < |canvas| && 0 <= j < Width(canvas)
        ensures masks[1..][k][i][j] == 0
      {
        assert masks[1..][k] == masks[k + 1];
      }
      MergeAllZeroMasks(canvas, fgs[1..], masks[1..], blend);
    }
  }

  /** At a pixel where every mask is 0 the montage shows the background. */
  lemma MergeZeroAt(canvas: Image, fgs: seq<Image>, masks: seq<Plane>, blend: Blend, i: nat, j: nat)
    requires WellFormed(canvas) && Conforms(fgs, masks, |canvas|, Width(canvas))
    requires IsBlend(blend)
    requires i < |canvas| && j < Width(canvas)
    requires forall l :: 0 <= l < |fgs| && l < |masks| ==> masks[l][i][j] == 0
    ensures Merge(canvas, fgs, masks, blend)[i][j] == canvas[i][j]
  {
    var r := Merge(canvas, fgs, masks, blend);
    var n := Min(|fgs|, |masks|);
    forall c | 0 <= c < Channels
      ensures r[i][j][c] == canvas[i][j][c]
    {
      MergeAt(canvas, fgs, masks, blend, i, j, c);
      FoldAllZero(canvas[i][j][c], Samples(fgs[..n], i, j, c), Column(masks[..n], i, j), blend);
    }
  }

  /** At a pixel whose mask is 255 in pair k and 0 in every later pair, the
      montage shows foreground k: later layers overwrite earlier ones. */
  lemma MergeLastOpaque(canvas: Image, fgs: seq<Image>, masks: seq<Plane>, blend: Blend, i: nat, j: nat, k: nat)
    requires WellFormed(canvas) && Conforms(fgs, masks, |canvas|, Width(canvas))
    requires IsBlend(blend)
    requires i < |canvas| && j < Width(canvas)
    requires k < |fgs| && k < |masks| && masks[k][i][j] == 255
    requires forall l :: k < l < |fgs| && l < |masks| ==> masks[l][i][j] == 0
    ensures Merge(canvas, fgs, masks, blend)[i][j] == fgs[k][i][j]
  {
    var r := Merge(canvas, fgs, masks, blend);
    var n := Min(|fgs|, |masks|);
    forall c | 0 <= c < Channels
      ensures r[i][j][c] == fgs[k][i][j][c]
    {
      MergeAt(canvas, fgs, masks, blend, i, j, c);
      FoldLastOpaque(canvas[i][j][c], Samples(fgs[..n], i, j, c), Column(masks[..n], i, j), blend, k);
    }
  }

  /** Nothing under a pixel whose mask is 255 in pair k shows through: the
      montage there is what compositing the later pairs onto foreground k
      gives, whatever the background and the earlier pairs hold. */
  lemma MergeOpaqueHidesBelow(canvas: Image, fgs: seq<Image>, masks: seq<Plane>, blend: Blend, i: nat, j: nat, k: nat)
    requires WellFormed(canvas) && Conforms(fgs, masks, |canvas|, Width(canvas))
    requires IsBlend(blend)
    requires i < |canvas| && j < Width(canvas)
    requires k < |fgs| && k < |masks| && masks[k][i][j] == 255
    ensures SameShape(canvas, fgs[k]) && Conforms(fgs[k + 1..], masks[k + 1..], |fgs[k]|, Width(fgs[k]))
    ensures Merge(canvas, fgs, masks, blend)[i][j] == Merge(fgs[k], fgs[k + 1..], masks[k + 1..], blend)[i][j]
  {
    var h, w := |canvas|, Width(canvas);
    assert Width(fgs[k]) == w by {
      if h > 0 { assert |fgs[k][0]| == w; }
    }
    ConformsSuffix(fgs, masks, h, w, k + 1);
    var r := Merge(canvas, fgs, masks, blend);
    var top := Merge(fgs[k], fgs[k + 1..], masks[k + 1..], blend);
    forall c | 0 <= c < Channels
      ensures r[i][j][c] == top[i][j][c]
    {
      OpaqueHidesBelowAt(canvas, fgs, masks, blend, i, j, c, k);
    }
  }

  /** One channel of MergeOpaqueHidesBelow. */
  lemma OpaqueHidesBelowAt(canvas: Image, fgs: seq<Image>, masks: seq<Plane>, blend: Blend, i: nat, j: nat, c: nat, k: nat)
    requires WellFormed(canvas) && Conforms(fgs, masks, |canvas|, Width(canvas))
    requires IsBlend(blend)
    requires i < |canvas| && j < Width(canvas) && c < Channels
    requires k < |fgs| && k < |masks| && masks[k][i][j] == 255
    requires Width(fgs[k]) == Width(canvas) && Conforms(fgs[k + 1..], masks[k + 1..], |canvas|, Width(canvas))
    ensures SameShape(canvas, fgs[k])
    ensures Merge(canvas, fgs, masks, blend)[i][j][c] == Merge(fgs[k], fgs[k + 1..], masks[k + 1..], blend)[i][j][c]
  {
    var n := Min(|fgs|, |masks|);
    MergeAt(canvas, fgs, masks, blend, i, j, c);
    MergeAt(fgs[k], fgs[k + 1..], masks[k + 1..], blend, i, j, c);
    var front, fronts := fgs[..n], masks[..n];
    var fs, ms := Samples(front, i, j, c), Column(fronts, i, j);
    FoldOpaqueResets(canvas[i][j][c], fs, ms, blend, k);
    assert Min(|fgs[k + 1..]|, |masks[k + 1..]|) == n - k - 1;
    TakeDrop(fgs, n, k + 1);
    TakeDrop(masks, n, k + 1);
    SamplesDrop(front, i, j, c, k + 1);
    ColumnDrop(fronts, i, j, k + 1);
  }

  lemma TakeDrop<T>(s: seq<T>, n: nat, a: nat)
    requires a <= n <= |s|
    ensures s[..n][a..] == s[a..][..n - a]
  {
  }

  /** Every sample of the montage lies within any bounds that hold of the
      background sample and of the foreground samples at that position. */
  lemma MergeBounds(canvas: Image, fgs: seq<Image>, masks: seq<Plane>, blend: Blend, i: nat, j: nat, c: nat, lo: int, hi: int)
    requires WellFormed(canvas) && Conforms(fgs, masks, |canvas|, Width(canvas))
    requires IsBlend(blend)
    requires i < |canvas| && j < Width(canvas) && c < Channels
    requires lo <= canvas[i][j][c] <= hi
    requires forall k :: 0 <= k < |fgs| && k < |masks| ==> lo <= fgs[k][i][j][c] <= hi
    ensures lo <= Merge(canvas, fgs, masks, blend)[i][j][c] <= hi
  {
    var n := Min(|fgs|, |masks|);
    MergeAt(canvas, fgs, masks, blend, i, j, c);
    FoldBounds(canvas[i][j][c], Samples(fgs[..n], i, j, c), Column(masks[..n], i, j), blend, lo, hi);
  }
}
