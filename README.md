# montage.py in Dafny

montage.py builds a photo montage from a sequence of pictures of one scene taken from
a fixed viewpoint. The pipeline has three stages:

1. It estimates the static background as the per-pixel, per-channel median of all the images.
2. It computes for each image a mask of the pixels where that image differs from the background.
3. It pastes every image, through its own mask, onto the background in input order. Moving
   objects from every frame therefore end up in a single picture.

This project models that pipeline on integers. Every operation has a contract, and lemmas
prove the properties the pipeline relies on.

- `images.dfy` (module `Images`) defines the data:
  - samples are 0..255 integers (`Byte`);
  - an image is an H×W×3 sequence (`Image`);
  - a mask or a single channel is an H×W sequence (`Plane`);
  - shape predicates and the stack accessors `Samples` (channel c at (i, j) of every image) and
    `Column` (position (i, j) of every plane);
  - a `Result` type for the two ways `create_background` fails.
- `statistics.dfy` (module `Statistics`) defines `MedianOf`, the median of a stack of samples
  truncated to uint8:
  - it is built on a reference insertion sort;
  - for an even count it is the floor of the mean of the two middle samples;
  - it comes with its order statistics: permutation invariance, bounds, the half/half split
    of the stack, and majority.
- `background.dfy` (module `Background`) holds `split_channels` (`SplitChannels`), `median`
  (`Median`, together with `DStack` for `np.dstack`) and `create_background`
  (`CreateBackground`).
- `masking.dfy` (module `Masking`) holds `mask` with blur sigma 0:
  - the per-pixel difference sum;
  - the two calls to `scipy.stats.threshold` exactly as they are written;
  - the uint8 cast, which wraps modulo 256.
- `compositing.dfy` (module `Compositing`) holds `merge_images`:
  - `Image.composite` becomes `Composite`, over a blend function given as a parameter. It is
    constrained by `IsBlend`: mask 0 keeps the canvas, mask 255 takes the foreground, and every
    result lies between the two samples.
  - The loop is the method `MergeImages`, proved equal to the left fold `Merge`.
  - The fold's properties are proved sample by sample through `MergeAt`.
- `montage.dfy` (module `Montage`) is the pipeline that the entry point runs on the decoded
  images (`MakeMontage`), with end-to-end lemmas.

Where the docstring and the code of `mask` disagree, the model follows the code:
- The docstring says the mask selects pixels that differ "by more than thresh". The code
  clamps twice, at `thresh` and at `thresh + 1`. A difference sum of exactly `thresh` or
  `thresh + 1` therefore passes both clamps unchanged.
- The cast to uint8 then reduces that sum modulo 256. `MaskValue` and `MaskValues` state this.
- In the same way, the opacity is reduced modulo 256.

## Model

| member | source | states |
|---|---|---|
| Statistics.Sort | montage.py:39 | the reference ordering used by the median is sorted and a permutation of the samples |
| Statistics.SortPermutationInvariant | montage.py:39 | two stacks holding the same samples in any order sort to the same sequence |
| Statistics.MedianOf | montage.py:39 | the truncated median of a non-empty stack lies between the two middle samples of its sorted order (the middle sample itself for an odd count) |
| Statistics.MedianPermutationInvariant | montage.py:35-39 | the median depends only on the multiset of samples |
| Statistics.MedianBounds | montage.py:39 | any bounds on all samples bound the median; for an odd count the median is one of the samples |
| Statistics.MedianConstant | montage.py:39 | a stack whose samples are all v has median v |
| Statistics.MedianSplitsStack | montage.py:39 | at least half of the samples are at most the median and at least half are at least it; for an even count the median lies between the two middle sorted samples and equals the floor of their mean |
| Statistics.MedianMajority | montage.py:39 | a value held by a strict majority of the stack is the median |
| Background.Channel | montage.py:32 | a plane of the image's height and width holding channel c of every pixel |
| Background.SplitChannels | montage.py:27-32 | three planes of the image's height and width, plane c holding channel c of every pixel |
| Background.DStackSplitChannels | montage.py:27-32 | stacking the split channels gives back the image |
| Background.SplitChannelsDStack | montage.py:27-32 | splitting three stacked planes gives back the planes |
| Background.DStack | montage.py:39 | np.dstack of planes of one shape: an H×W×N array whose sample k at (i, j) is plane k at (i, j) |
| Background.ChannelStacks | montage.py:66 | for each channel, the stack of that channel's planes across the images, whose samples at (i, j) are the images' channel samples there |
| Background.Median | montage.py:35-39 | a plane of the input shape whose value at (i, j) is the median of the stack's samples at (i, j) |
| Background.CreateBackground | montage.py:61-66 | fails exactly on an empty stack or on images of unequal shapes; otherwise an image of the input shape whose channel c at (i, j) is the median of the channel-c samples at (i, j) |
| Background.BackgroundPermutationInvariant | montage.py:61-66 | reordering the images does not change the result, error or background |
| Background.BackgroundConstantStack | montage.py:61-66 | where every image holds v, the background holds v |
| Background.BackgroundBounds | montage.py:61-66 | each background sample lies within any bounds on the images' samples there |
| Background.BackgroundMajority | montage.py:61-66 | where a strict majority of the images hold v, the background holds v |
| Background.BackgroundSingleImage | montage.py:61-66 | the background of one image is that image |
| Background.BackgroundIdenticalImages | montage.py:61-66 | the background of copies of one image is that image |
| Background.BackgroundChannelsIndependent | montage.py:61-66 | channel c of the background depends only on channel c of the images |
| Masking.PixelDiff | montage.py:53-54 | the difference sum of two pixels is between 0 and 765, and is 0 exactly when the pixels are equal |
| Masking.PixelDiffSymmetric | montage.py:53-54 | the difference sum does not depend on the order of the two pixels |
| Masking.DifferenceSum | montage.py:53-54 | a plane of the image's shape holding each pixel's difference sum |
| Masking.ThresholdValue | montage.py:55-56 | scipy.stats.threshold on one value: the replacement below the lower or above the upper bound, the value itself within both |
| Masking.Threshold | montage.py:55-56 | scipy.stats.threshold applied to every value of an array, keeping its shape |
| Masking.ToUint8 | montage.py:57 | the uint8 cast is congruent to its input modulo 256 and the identity on 0..255 |
| Masking.ToUint8Plane | montage.py:57 | the uint8 cast applied to every value of an array, keeping its shape |
| Masking.MaskValue | montage.py:55-57 | a sum below thresh gives 0, a sum above thresh + 1 gives the opacity modulo 256, and a sum of thresh or thresh + 1 is kept modulo 256 |
| Masking.Mask | montage.py:42-58 | a single-channel plane of the image's height and width whose value at each pixel is the mask value of that pixel's difference sum |
| Masking.SelfMask | montage.py:51-58 | an image masked against itself gives an all-zero mask for every thresh of at least -1 and the opacity modulo 256 everywhere below that |
| Masking.MaskValues | montage.py:55-57 | every mask value is 0, the opacity, thresh or thresh + 1, each modulo 256 |
| Masking.MaskSymmetric | montage.py:51-58 | swapping foreground and background does not change the mask |
| Compositing.LinearBlend | montage.py:74 | a rounded linear alpha blend whose result lies between its two samples |
| Compositing.Composite | montage.py:74 | Image.composite: an image of the canvas shape, blended per sample by the mask; mask 0 keeps the canvas pixel, mask 255 takes the foreground pixel, and every sample lies between the two it blends |
| Compositing.Merge | montage.py:69-75 | the left fold over the zipped pairs keeps the background's shape |
| Compositing.MergeImages | montage.py:69-75 | the loop returns the left fold of the pairs, in input order and up to the shorter list, onto the background |
| Compositing.MergeAt | montage.py:71-74 | each sample of the montage is the fold of the blend over the mask and foreground samples at that position alone |
| Compositing.FoldAllZero | montage.py:71-74 | a fold whose mask values are all 0 returns the starting sample |
| Compositing.FoldOpaqueResets | montage.py:71-74 | a mask value of 255 discards everything folded before it |
| Compositing.FoldLastOpaque | montage.py:71-74 | the last step with mask value 255, followed only by steps with mask value 0, decides the fold |
| Compositing.FoldBounds | montage.py:71-74 | bounds holding of the start and of every foreground sample hold of the fold |
| Compositing.MergeAllZeroMasks | montage.py:69-75 | with every mask all zero the montage is the background |
| Compositing.MergeZeroAt | montage.py:69-75 | a pixel where every mask is 0 shows the background |
| Compositing.MergeLastOpaque | montage.py:69-75 | a pixel where pair k's mask is 255 and every later mask is 0 shows foreground k |
| Compositing.MergeOpaqueHidesBelow | montage.py:69-75 | at a pixel where pair k's mask is 255, the montage is what compositing the later pairs onto foreground k gives, whatever lies below |
| Compositing.MergeBounds | montage.py:69-75 | every montage sample lies within any bounds on the background's and the foregrounds' samples there |
| Montage.Masks | montage.py:86-87 | one mask per image, each of the background's shape, holding the mask value of each pixel's difference from the background |
| Montage.MakeMontage | montage.py:82-88 | the pipeline fails exactly when create_background does, and otherwise yields an image of the inputs' shape |
| Montage.MontageIdenticalImages | montage.py:82-88 | the montage of copies of one image is that image, for every thresh of at least -1 |
| Montage.MontageBounds | montage.py:82-88 | every montage sample lies within any bounds on the input samples there |
| Montage.MontageStaticPixel | montage.py:82-88 | a pixel where every image's difference sum from the background is below thresh shows the background |
| Montage.MontageLastChangeShows | montage.py:82-88 | with opacity 255, a pixel where image k differs from the background by more than thresh + 1, and every later image by less than thresh, shows image k |
| Montage.SceneBackground | montage.py:61-66 | the background of two copies of a scene and one other frame is the scene |
| Montage.MontageObjectInLastFrame | montage.py:82-88 | with opacity 255 and for every thresh of at least -1, two frames of a scene and a third frame show the third frame at every pixel where it equals the scene or differs from it by more than thresh + 1 |

## Left out

- Command line and files (montage.py:78-81, 89): the argument parsing, the decoding of the input images and the saving of the result are I/O. The model starts from decoded images and ends with the composite image.
- Opacity derivation (montage.py:85): `int(255 * alpha)` is floating-point arithmetic. The opacity is an integer parameter, reduced modulo 256 where the uint8 cast reduces it.
- Gaussian blur (montage.py:51-52, 57): only blur sigma 0 is modelled. At sigma 0 scipy's filter copies its input, so `Mask` has no sigma parameter. For any other sigma the float convolution, which also blurs across the channel axis, is not modelled.
- Compositing.Composite: the rounding formula of PIL's composite is not modelled. The blend is a parameter whose only stated properties are the endpoints (mask 0 and mask 255) and betweenness. `LinearBlend` shows that these properties can be met; it is not PIL's formula.
- Compositing.MergeImages: it requires every pair to have the background's shape. For pairs of other sizes PIL raises an error, which the model does not carry. The pipeline only passes images of the background's shape.
- Channel counts: every image has exactly three channels. Greyscale and RGBA inputs, which numpy broadcasting would handle or reject differently, are not modelled.
- An image with no rows carries no width in this representation, so shapes [0, w, 3] for different w are not told apart.
- Type plumbing: `Image.fromarray` and the list that `map` produces for `np.dstack` carry no logic and are not modelled. The model follows the Python 2 reading, in which `map` returns a list.
