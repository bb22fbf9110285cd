# Weighted moving variance background subtractor, modelled in Dafny

This project models the weighted moving variance background subtractor of
the embedded background-subtraction library. Each call of `process` gives
the object one frame. The object cuts the frame into horizontal bands, or
takes it whole when there is only one band. Every band keeps a two-slot
history of earlier frames:

- the first frame a band sees fills slot 0;
- the second moves slot 0 into slot 1 and fills slot 0;
- from the third frame on, the band writes its rows of the foreground mask
  from a weighted variance of the current frame and the two remembered
  ones, and then shifts the history the same way.

What is modelled:

- the frame-history state machine;
- the band offsets of `processParallel`;
- the dispatch between the banded and the whole-image path;
- the constructor's band table;
- the weight selection;
- the one-output-per-element traversal of `computeWeightedVarianceCombined`.

The per-element float formula and the OpenCV operations (`convertTo`,
`cvtColor`, `threshold`) are per-element function values of a `Kernels`
record. They are left uninterpreted.

Modules:

- `Wrappers`: the optional value used for a history slot.
- `Images`: the image record (`Mat`), with rows, columns, channels and a
  row-major element sequence. `cv::Mat::empty()` is `Empty()`. Float
  elements are kept as their IEEE-754 bit patterns (`bv32`).
- `WmvParams`: the immutable parameter record from the header. Its three
  `const` fields become the fields of a datatype, so the record cannot
  change after it is built, and building it stores the three values exactly
  as given.
- `Bands`: the index arithmetic of `processParallel`. Band `np` has
  `h = H / n` rows, its mask bytes start at `np*W*h`, and its input elements
  start at `np*W*h*channels`.
- `History`: the two-slot state machine as functions, and lemmas about
  runs of frames.
- `Wmv`: the class `WeightedMovingVariance` and its methods. It also holds
  the specification functions of the mask a call writes.

A history slot is `Option<Frame>`. `None` stands for an empty `cv::Mat`.
The source's only test for a free slot is `empty()`. So a slot that was
given an image without pixels again reads as free (`History.Held`). This
matters for small images: with `H < n` every band has zero rows, so no band
ever leaves its warm-up. It also means that "slot 1 full implies slot 0
full" holds only while the frames are non-empty.

The band count is `const` in the class and the parameter record is a
`const` field, so neither can change after construction. Each band's history
type `History.Slots` is a sequence of exactly two slots, like the source's
`std::array<..., 2>`. The source's constructor always asks for 12 bands,
which makes the whole-image path of `process` unreachable there. The model
adds a second constructor, `Configured`, which takes the band count and the
parameters, so that the whole-image path can be reached as well.

Two consequences of the band arithmetic and of the absence of checks:

- The rows `n*h .. H-1` left over by `h = H / n` are never processed, so
  their mask bytes keep their old values. `Bands.RemainderRowsUntouched`
  and `Wmv.RemainderRowsKept` state this.
- The code does not check the frame dimensions against the remembered
  frames. The model states what a call needs as preconditions of `Process`.

Two things in the source look inconsistent, and the model keeps to the code:

- The header declares `weightedVarianceMono` and `weightedVarianceColor`,
  which have no definitions.
- The header does not declare `computeWeightedVarianceCombined`, which is
  defined and used.

## Model

| member | source | states |
|---|---|---|
| `Wmv.WeightedMovingVariance.constructor` | api/src/WeightedMovingVariance.cpp:10-21 | 12 bands; `m_processSeq` is exactly `[0, 1, ..., 11]`; every band's two slots are empty; parameters are `(true, true, 15)` |
| `Wmv.WeightedMovingVariance.Configured` | api/src/WeightedMovingVariance.cpp:10-21 | the same set-up for a chosen band count `n >= 1` and parameter record |
| `Wmv.WeightedMovingVariance.NewBandState` | api/src/WeightedMovingVariance.cpp:14-20 | the push-back loop yields band numbers `0 .. n-1` in order and `n` histories of two empty slots |
| `Wmv.WeightedMovingVariance.Process` | api/src/WeightedMovingVariance.cpp:27-33 | with more than one band: every band's history advances on its own slice, and the mask is the banded write; with one band: only band 0's history advances, on the whole image, and the mask gets that call's output at byte 0 |
| `Wmv.WeightedMovingVariance.ProcessParallel` | api/src/WeightedMovingVariance.cpp:35-48 | after the loop over `m_processSeq`, band `np`'s history is its old history stepped with its own slice; the mask is every band's output written at its own offset |
| `Wmv.WeightedMovingVariance.ProcessBand` | api/src/WeightedMovingVariance.cpp:40-47 | band `np` reads and updates only `imgInputPrevParallel[np]`, all other histories are unchanged; it writes only its own mask range from `np*W*h` |
| `Wmv.WeightedMovingVariance.ProcessFrame` | api/src/WeightedMovingVariance.cpp:50-99 | the new history is `Step` of the old one; in the two warm-up branches the output buffer is unchanged; with both slots full the first `W*H` processed bytes are copied to the output, then the history shifts |
| `Wmv.WeightedMovingVariance.ComputeWeightedVarianceCombined` | api/src/WeightedMovingVariance.cpp:101-128 | the output has the input's shape and exactly `area*channels` elements; element `i` is the per-element variance of element `i` of the three frames |
| `Wmv.WeightedMovingVariance.Memcpy` | api/src/WeightedMovingVariance.cpp:95 | exactly `len` bytes from `off` on are replaced by the source bytes; everything else is kept |
| `Wmv.SelectWeights` | api/src/WeightedMovingVariance.cpp:79-87 | `(0.5, 0.3, 0.2)` when `enableWeight` is set, three times `1/3` otherwise; the weights are all equal exactly when weighting is off |
| `Wmv.ConvertTo` | api/src/WeightedMovingVariance.cpp:57-58 | the converted frame keeps the shape and element count, and is empty exactly when the input is |
| `Wmv.BgrToGray` | api/src/WeightedMovingVariance.cpp:89-90 | the gray image keeps rows and columns and has one channel |
| `Wmv.Threshold` | api/src/WeightedMovingVariance.cpp:92-93 | binarising keeps the image's shape |
| `Wmv.Processed` | api/src/WeightedMovingVariance.cpp:76-93 | the processed image has the frame's rows and columns; it has one channel when the frame has three, else the frame's channels; it holds at least one byte per pixel, so the copy of `W*H` bytes stays in bounds |
| `Wmv.FrameOutput` | api/src/WeightedMovingVariance.cpp:60-95 | a call writes output exactly when both slots are full, and then exactly `W*H` bytes |
| `Wmv.MaskOffset` | api/src/WeightedMovingVariance.cpp:42-45 | band `np`'s mask view starts at `np*W*h` and ends within the mask |
| `Wmv.BandInput` | api/src/WeightedMovingVariance.cpp:42-44 | `imgSplit` has `H/n` rows, the input's width and channels, and is the input's elements from `np*W*h*channels` on, within bounds |
| `Wmv.WriteBandsAt` | api/src/WeightedMovingVariance.cpp:36-47 | after bands `0..i-1`, each byte of band `np < i` is what band `np` alone left there, whatever the other bands did; bytes from band `i` on are untouched |
| `Wmv.AdvanceBandsAt` | api/src/WeightedMovingVariance.cpp:36-47 | after bands `0..i-1`, each of them holds its old history stepped with its own slice, and every later band still holds its old history |
| `Wmv.WriteBandsCover` | api/src/WeightedMovingVariance.cpp:42-46 | every mask byte below `n*W*h` lies in band `idx / (W*h)` and holds that band's output, or its old value during warm-up |
| `Wmv.RemainderRowsKept` | api/src/WeightedMovingVariance.cpp:42-45 | the banded write stays within the mask and leaves every pixel of rows `n*h .. H-1` as it was |
| `Wmv.SingleBandIsWholeImage` | api/src/WeightedMovingVariance.cpp:29-32 | with one band, band 0 is the whole image and the banded write equals the direct call's write at offset 0, so both branches of the dispatch agree |
| `Bands.BandInBounds` | api/src/WeightedMovingVariance.cpp:42-45 | band `np < n` covers mask bytes `[np*W*h, (np+1)*W*h)` and input elements scaled by `channels`; both lie within the image |
| `Bands.BandsDisjoint` | api/src/WeightedMovingVariance.cpp:42-45 | two different bands share no mask byte and no input element |
| `Bands.RemainderRowsUntouched` | api/src/WeightedMovingVariance.cpp:42-45 | `H % n` rows are left over, all of them when `H < n`; no band touches any of their pixels |
| `Bands.BandOfIndex` | api/src/WeightedMovingVariance.cpp:42-43 | every byte below the end of the last band lies in band `k / (W*h)` |
| `Bands.StartIsPixelPos` | api/src/WeightedMovingVariance.cpp:43 | laying bands out one after the other gives the source's offset `np * W * h` |
| `History.StepKeepsOrdered` | api/src/WeightedMovingVariance.cpp:60-98 | with a non-empty frame every call stores that frame in slot 0 and keeps "slot 1 full implies slot 0 full" |
| `History.EmptyFrameBreaksOrdered` | api/src/WeightedMovingVariance.cpp:60-71 | a frame without pixels after the first frame empties slot 0 and leaves slot 1 full, so the invariant needs non-empty frames |
| `History.ReplayRemembersLastTwo` | api/src/WeightedMovingVariance.cpp:60-98 | after the non-empty frames `fs`, a fresh band holds the last frame in slot 0 and the one before it in slot 1; it is ready to compute exactly when it has seen at least two frames |
| `History.OutputFromThirdFrame` | api/src/WeightedMovingVariance.cpp:60-98 | with non-empty frames, call `k` (from 0) writes the mask exactly when `k >= 2` |
| `History.EmptyFramesNeverCompute` | api/src/WeightedMovingVariance.cpp:57-64 | a band that is given only empty images keeps both slots empty and never writes |

## Left out

- The float arithmetic of each element is the uninterpreted `Kernels.variance`. This covers the weighted mean, `std::abs`, `std::sqrt` and the `(uchar)(result * 255)` cast. The elements themselves are kept as bit patterns.
- `convertTo`, `cv::cvtColor` and `cv::threshold` are OpenCV calls whose bodies are not shown. They are per-element or per-pixel uninterpreted functions: `toFloat`, `bgrToGray` and `binarize`.
- `Wmv.ConvertTo`: an empty frame keeps its channel count in the model. OpenCV's `convertTo` instead gives a 0×0 one-channel matrix for an empty source. An empty frame that reaches the compute branch therefore goes through `Wmv.BgrToGray` in the model when it has 3 channels, where the source skips `cv::cvtColor`. No later step can observe the difference. In both, the call copies zero bytes, so the mask is unchanged, and the history shifts to an empty slot 0 and the old slot 0.
- `std::execution::par`: the bands run as a sequential loop over `m_processSeq`. Concurrency is replaced by the disjointness and independence lemmas.
- `unique_ptr` ownership moves: a slot is `Option<Frame>`. The null pointers between `resize` and the constructor loop are never observable, so they are not modelled.
- `Wmv.WeightedMovingVariance.Process`: the input is modelled as 8-bit (`CV_8UC(c)` for any `c >= 1`) only. The band view starts at `data + pixelPos * channels`, which is a byte offset. It is therefore right only for one-byte elements. With a 16-bit or float input, band `np`'s view would start at a fraction `1/elemSize1` of its intended element offset, so the bands would overlap and the lower rows would never be read. `convertTo` itself accepts any depth.
- `cv::Mat` views over raw pointers and `memcpy` byte handling: only offsets, lengths and element sequences are modelled.
- `Wmv.WeightedMovingVariance.Process`: the model requires a mask of exactly one byte per frame pixel. The source handles other mask sizes without complaint, because each copy's length comes from the output view and not the input:
  - on the whole-image path, a smaller mask gets `W_out * H_out` bytes, and an empty mask gets nothing;
  - on the banded path, any mask at least `n * W * h` bytes long is written in bounds, a longer multi-channel one included.
  Two cases go out of bounds:
  - on the banded path, a mask shorter than the end of the banded write;
  - on the whole-image path, a mask with more pixels than the processed image has bytes, where the copy reads past the end of that image.
- `Wmv.WeightedMovingVariance.Process`: the model requires remembered frames at least as long as the current band. With a shorter remembered frame the source's element loop reads past its end, which the model cannot express.
- `Wmv.WeightedMovingVariance.Process`: every image is modelled as continuous. The band views are built from `data + pixelPos * channels` and `data + pixelPos` with the default row step. For a non-continuous input, such as an ROI whose step exceeds `cols * channels`, the banded path therefore reads the wrong bytes, while `convertTo` on the whole-image path honours the step. The final copy likewise ignores a non-continuous mask's step.
- `Wmv.WeightedMovingVariance.Process`: the input and the mask are modelled as distinct buffers. The source allows `process(img, img)`. With 3 channels, band `np`'s mask bytes `[np*W*h, (np+1)*W*h)` then overlap the input bytes of band `np / 3`, and under `std::execution::par` those bands write and read them at the same time.
- Integer width: `pixelPos` and `pixelPos * channels` are 32-bit `int` in the source. They would overflow for images beyond 2^31 elements. The model computes offsets as unbounded integers.
- The destructor is empty, and the unused static `ONE_THIRD` has the same value as the local `oneThird`.
- `api/include/VibeBGS.hpp` holds only declarations and default constants, with no bodies for `initialize`, `apply` or `applyParallel*`. The ViBe classifier, updater and initialiser are not part of this model.
- `weightedVarianceMono` and `weightedVarianceColor` are declared but not defined, so they are not part of this model.
