/**
  The weighted moving variance background subtractor.  Each call of
  `Process` hands one frame to the object; the image is cut into horizontal
  bands (or taken whole when there is only one band), and every band runs a
  two-slot frame history: the first two frames only fill the history, and
  from the third frame on the band writes its part of the foreground mask
  from the weighted variance of the current and the two remembered frames.

  The float arithmetic and the OpenCV image operations are not modelled:
  they are the per-element functions of a `Kernels` value, which every
  operation that needs them receives as a parameter.
*/
module Wmv {
  import opened Wrappers
  import opened Images
  import opened WmvParams
  import opened Bands
  import opened History

  /** The weights of the current, the previous and the second-previous frame. */
  datatype Weights = Weights(w1: float32, w2: float32, w3: float32)

  const Half: float32 := 0x3F00_0000        // 0.5f
  const PointThree: float32 := 0x3E99_999A  // 0.3f
  const PointTwo: float32 := 0x3E4C_CCCD    // 0.2f
  const OneThird: float32 := 0x3EAA_AAAB    // 1.0f / 3.0f

  /** The number of bands the default constructor sets up. */
  const DefaultNumProcesses: int := 12

  /**
    The operations the model leaves uninterpreted, one element or pixel at
    a time: `toFloat` is `convertTo(CV_32F, 1/255)`; `variance` is the
    weighted mean, the absolute deviations, the square root and the
    `(uchar)(result * 255)` cast of one element of
    `computeWeightedVarianceCombined`; `bgrToGray` is `cv::cvtColor` with
    `CV_BGR2GRAY`; `binarize` is `cv::threshold` with `THRESH_BINARY` and
    maximum 255.
  */
  datatype Kernels = Kernels(
    toFloat: byte -> float32,
    variance: (float32, float32, float32, Weights) -> byte,
    bgrToGray: (byte, byte, byte) -> byte,
    binarize: (byte, int32) -> byte)

  /** The weight set `process` passes to the variance: emphasis on the current frame, or equal thirds. */
  function SelectWeights(p: WeightedMovingVarianceParams): (w: Weights)
    ensures p.enableWeight ==> w == Weights(Half, PointThree, PointTwo)
    ensures !p.enableWeight ==> w == Weights(OneThird, OneThird, OneThird)
    ensures p.enableWeight <==> !(w.w1 == w.w2 == w.w3)
  {
    if p.enableWeight then Weights(Half, PointThree, PointTwo) else Weights(OneThird, OneThird, OneThird)
  }

  /** `img_input.convertTo(*img_input_f, CV_32F, 1. / 255.)`. */
  function ConvertTo(m: Mat<byte>, k: Kernels): (r: Frame)
    requires m.Valid()
    ensures r.Valid() && r.rows == m.rows && r.cols == m.cols && r.channels == m.channels
    ensures |r.data| == |m.data| && (r.Empty() <==> m.Empty())
  {
    Mat(m.rows, m.cols, m.channels, seq(|m.data|, i requires 0 <= i < |m.data| => k.toFloat(m.data[i])))
  }

  /** The image `computeWeightedVarianceCombined` builds: one variance byte per input element. */
  function VarianceImage(f: Frame, prev1: Frame, prev2: Frame, w: Weights, k: Kernels): Mat<byte>
    requires |prev1.data| >= |f.data| && |prev2.data| >= |f.data|
  {
    var data := seq<byte>(|f.data|, i requires 0 <= i < |f.data| => k.variance(f.data[i], prev1.data[i], prev2.data[i], w));
    Mat(f.rows, f.cols, f.channels, data)
  }

  /** `cv::cvtColor(imgProcess, imgProcess, CV_BGR2GRAY)`: one byte per pixel. */
  function BgrToGray(m: Mat<byte>, k: Kernels): (r: Mat<byte>)
    requires m.Valid() && m.channels == 3
    ensures r.Valid() && r.rows == m.rows && r.cols == m.cols && r.channels == 1
  {
    var area := m.Area();
    assert |m.data| == 3 * area;
    var data := seq<byte>(area, i requires 0 <= i < area => k.bgrToGray(m.data[3 * i], m.data[3 * i + 1], m.data[3 * i + 2]));
    Mat(m.rows, m.cols, 1, data)
  }

  /** `cv::threshold(imgProcess, imgProcess, threshold, 255, cv::THRESH_BINARY)`. */
  function Threshold(m: Mat<byte>, threshold: int32, k: Kernels): (r: Mat<byte>)
    requires m.Valid()
    ensures r.Valid() && r.rows == m.rows && r.cols == m.cols && r.channels == m.channels
  {
    var data := seq<byte>(|m.data|, i requires 0 <= i < |m.data| => k.binarize(m.data[i], threshold));
    Mat(m.rows, m.cols, m.channels, data)
  }

  /**
    The image `process` computes once both slots are full: the variance of
    the current frame and the two remembered ones, reduced to gray when it
    has three channels, and binarised when thresholding is enabled.
  */
  function Processed(f: Frame, prev1: Frame, prev2: Frame, p: WeightedMovingVarianceParams, k: Kernels): (r: Mat<byte>)
    requires f.Valid() && |prev1.data| >= |f.data| && |prev2.data| >= |f.data|
    ensures r.Valid() && r.rows == f.rows && r.cols == f.cols
    ensures r.channels == if f.channels == 3 then 1 else f.channels
    ensures |r.data| >= f.Area()
  {
    var v := VarianceImage(f, prev1, prev2, SelectWeights(p), k);
    var g := if v.channels == 3 then BgrToGray(v, k) else v;
    var r := if p.enableThreshold then Threshold(g, p.threshold, k) else g;
    ScaleLe(1, r.channels, r.rows * r.cols);
    r
  }

  /**
    Whether a history can be combined with a frame of `count` elements: the
    element loop reads the remembered frames at the current frame's indices.
  */
  predicate Fits(s: Slots, count: int)
  {
    PhaseOf(s) == Compute ==> |s[0].value.data| >= count && |s[1].value.data| >= count
  }

  /**
    The mask bytes one call of the per-band `process` writes: nothing in the
    two warm-up branches, and once both slots are full the first
    `width * height` bytes of the processed image (the `memcpy`).
  */
  function FrameOutput(prev: Slots, input: Mat<byte>, p: WeightedMovingVarianceParams, k: Kernels): (r: Option<seq<byte>>)
    requires input.Valid() && Fits(prev, |input.data|)
    ensures r.Some? <==> PhaseOf(prev) == Compute
    ensures r.Some? ==> |r.value| == input.Area()
  {
    if PhaseOf(prev) == Compute then
      Some(Processed(ConvertTo(input, k), prev[0].value, prev[1].value, p, k).data[..input.Area()])
    else
      None
  }

  /** The mask `m` after `out`, if any, is copied over it from byte `off` on. */
  function WriteOutput(m: seq<byte>, off: int, out: Option<seq<byte>>): seq<byte>
    requires out.Some? ==> 0 <= off && off + |out.value| <= |m|
  {
    if out.None? then m else m[..off] + out.value + m[off + |out.value|..]
  }

  /** The number of input elements in each band of `input` cut into `n` bands. */
  function BandElements(input: Mat<byte>, n: int): int
    requires input.Valid() && n >= 1
  {
    BandPixels(input.cols, BandHeight(input.rows, n)) * input.channels
  }

  /** The first mask byte of band `np`, which lies within the mask together with the whole band. */
  function MaskOffset(input: Mat<byte>, n: int, np: int): (off: nat)
    requires input.Valid() && 0 <= np < n
    ensures off == PixelPos(np, input.cols, BandHeight(input.rows, n))
    ensures off + BandPixels(input.cols, BandHeight(input.rows, n)) <= input.Area()
  {
    BandWithinMask(np, n, input.cols, input.rows);
    PixelPos(np, input.cols, BandHeight(input.rows, n))
  }

  /**
    `imgSplit`: the rows of band `np` as an image of its own, taken from the
    input at the band's pixel offset times the channel count.
  */
  function BandInput(input: Mat<byte>, n: int, np: int): (r: Mat<byte>)
    requires input.Valid() && 0 <= np < n
    ensures r.Valid() && r.rows == BandHeight(input.rows, n) && r.cols == input.cols && r.channels == input.channels
    ensures r.Area() == BandPixels(input.cols, BandHeight(input.rows, n)) && |r.data| == BandElements(input, n)
    ensures var start := MaskOffset(input, n, np) * input.channels;
      start + |r.data| <= |input.data| && r.data == input.data[start..start + |r.data|]
  {
    BandSliceInImage(np, n, input.cols, input.rows, input.channels);
    var start := MaskOffset(input, n, np) * input.channels;
    var count := BandElements(input, n);
    Mat(BandHeight(input.rows, n), input.cols, input.channels, input.data[start..start + count])
  }

  /** What every band of `input` cut into `n` bands writes, given its history in `hist`. */
  ghost function BandOutputs(hist: seq<Slots>, input: Mat<byte>, n: int,
                             p: WeightedMovingVarianceParams, k: Kernels): (outs: seq<Option<seq<byte>>>)
    requires input.Valid() && n >= 1 && |hist| == n
    requires forall np :: 0 <= np < n ==> Fits(hist[np], BandElements(input, n))
    ensures |outs| == n
    ensures forall np :: 0 <= np < n ==> outs[np] == FrameOutput(hist[np], BandInput(input, n, np), p, k)
    ensures BandSized(outs, BandPixels(input.cols, BandHeight(input.rows, n)))
    ensures Start(n, BandPixels(input.cols, BandHeight(input.rows, n))) <= input.Area()
  {
    RemainderAfterLastBand(n, input.cols, input.rows);
    seq(n, np requires 0 <= np < n => FrameOutput(hist[np], BandInput(input, n, np), p, k))
  }

  /** Every band's output is exactly one band, `len` bytes, long. */
  ghost predicate BandSized(outs: seq<Option<seq<byte>>>, len: nat)
  {
    forall np :: 0 <= np < |outs| && outs[np].Some? ==> |outs[np].value| == len
  }

  /**
    The mask after bands `0 .. i - 1` have copied their outputs `outs`,
    in that order, each at its own offset, bands being `len` bytes long.
  */
  ghost function WriteBands(m0: seq<byte>, len: nat, outs: seq<Option<seq<byte>>>, i: nat): (m: seq<byte>)
    requires i <= |outs| && Start(|outs|, len) <= |m0| && BandSized(outs, len)
    ensures |m| == |m0|
  {
    if i == 0 then m0
    else
      assert i - 1 < |outs|;
      assert Start(i - 1, len) + len <= Start(|outs|, len) by {
        if i < |outs| { StartOrdered(i - 1, |outs|, len); }
      }
      WriteOutput(WriteBands(m0, len, outs, i - 1), Start(i - 1, len), outs[i - 1])
  }

  /**
    The band histories after bands `0 .. i - 1` have each stepped their
    history with their own slice of `input`, in that order.
  */
  ghost function AdvanceBands(hist0: seq<Slots>, input: Mat<byte>, n: int, k: Kernels, i: nat): (hist: seq<Slots>)
    requires input.Valid() && n >= 1 && |hist0| == n && i <= n
    ensures |hist| == n
  {
    if i == 0 then hist0
    else AdvanceBands(hist0, input, n, k, i - 1)[i - 1 := Step(hist0[i - 1], ConvertTo(BandInput(input, n, i - 1), k))]
  }

  /** A band from `i` on still holds its old history after bands `0 .. i - 1`. */
  lemma {:induction false} AdvanceBandsLater(hist0: seq<Slots>, input: Mat<byte>, n: int, k: Kernels, i: nat, np: int)
    requires input.Valid() && n >= 1 && |hist0| == n && i <= np < n
    ensures AdvanceBands(hist0, input, n, k, i)[np] == hist0[np]
  {
    if i > 0 {
      AdvanceBandsLater(hist0, input, n, k, i - 1, np);
    }
  }

  /** After bands `0 .. i - 1`, each of them holds its own stepped history and the others their old one. */
  lemma {:induction false} AdvanceBandsAt(hist0: seq<Slots>, input: Mat<byte>, n: int, k: Kernels, i: nat)
    requires input.Valid() && n >= 1 && |hist0| == n && i <= n
    ensures forall np :: 0 <= np < i ==>
      AdvanceBands(hist0, input, n, k, i)[np] == Step(hist0[np], ConvertTo(BandInput(input, n, np), k))
    ensures forall np :: i <= np < n ==> AdvanceBands(hist0, input, n, k, i)[np] == hist0[np]
  {
    if i > 0 {
      AdvanceBandsAt(hist0, input, n, k, i - 1);
    }
  }

  /** One more band: band `i` copies its output at its own offset. */
  lemma WriteBandsNext(m0: seq<byte>, len: nat, outs: seq<Option<seq<byte>>>, i: nat, before: seq<byte>, off: nat)
    requires i < |outs| && Start(|outs|, len) <= |m0| && BandSized(outs, len)
    requires before == WriteBands(m0, len, outs, i) && off == Start(i, len) && off + len <= |m0|
    ensures |before| == |m0| && WriteOutput(before, off, outs[i]) == WriteBands(m0, len, outs, i + 1)
  {
  }

  /** Byte `idx` of a mask into which `out`, if any, was copied from byte `off` on. */
  lemma WriteOutputAt(m: seq<byte>, off: int, out: Option<seq<byte>>, idx: int)
    requires out.Some? ==> 0 <= off && off + |out.value| <= |m|
    requires 0 <= idx < |m|
    ensures |WriteOutput(m, off, out)| == |m|
    ensures out.Some? && off <= idx < off + |out.value| ==> WriteOutput(m, off, out)[idx] == out.value[idx - off]
    ensures out.None? || idx < off || off + |out.value| <= idx ==> WriteOutput(m, off, out)[idx] == m[idx]
  {
  }

  /**
    What band `np` leaves in byte `idx` of its range: its own output once it
    has warmed up, else the byte the mask held before.
  */
  ghost function BandByte(m0: seq<byte>, len: nat, outs: seq<Option<seq<byte>>>, np: nat, idx: int): byte
    requires np < |outs| && BandSized(outs, len) && 0 <= idx < |m0| && InBand(idx, np, len)
  {
    match outs[np]
    case Some(out) => out[idx - Start(np, len)]
    case None => m0[idx]
  }

  /**
    The bands are independent: after bands `0 .. i - 1`, every byte of band
    `np < i` is what band `np` alone left there, whatever the others did,
    and every byte from band `i` on is untouched.
  */
  lemma {:induction false} WriteBandsAt(m0: seq<byte>, len: nat, outs: seq<Option<seq<byte>>>, i: nat)
    requires i <= |outs| && Start(|outs|, len) <= |m0| && BandSized(outs, len)
    ensures forall np: nat, idx :: np < i && 0 <= idx < |m0| && InBand(idx, np, len) ==>
      WriteBands(m0, len, outs, i)[idx] == BandByte(m0, len, outs, np, idx)
    ensures forall idx :: Start(i, len) <= idx < |m0| ==> WriteBands(m0, len, outs, i)[idx] == m0[idx]
  {
    if i > 0 {
      WriteBandsAt(m0, len, outs, i - 1);
      var before := WriteBands(m0, len, outs, i - 1);
      var off := Start(i - 1, len);
      var after := WriteBands(m0, len, outs, i);
      assert off + len <= Start(|outs|, len) by {
        if i < |outs| { StartOrdered(i - 1, |outs|, len); }
      }
      assert after == WriteOutput(before, off, outs[i - 1]);
      forall np: nat, idx | np < i && 0 <= idx < |m0| && InBand(idx, np, len)
        ensures after[idx] == BandByte(m0, len, outs, np, idx)
      {
        WriteOutputAt(before, off, outs[i - 1], idx);
        if np < i - 1 {
          StartOrdered(np, i - 1, len);
        }
      }
      forall idx | Start(i, len) <= idx < |m0|
        ensures after[idx] == m0[idx]
      {
        WriteOutputAt(before, off, outs[i - 1], idx);
      }
    }
  }

  /**
    Every byte below the end of the last band lies in band `idx / len` and
    holds what that band left there.
  */
  lemma WriteBandsCover(m0: seq<byte>, len: nat, outs: seq<Option<seq<byte>>>)
    requires Start(|outs|, len) <= |m0| && BandSized(outs, len)
    ensures forall idx :: 0 <= idx < Start(|outs|, len) ==>
      len > 0 && 0 <= idx / len < |outs| && InBand(idx, idx / len, len)
      && WriteBands(m0, len, outs, |outs|)[idx] == BandByte(m0, len, outs, idx / len, idx)
  {
    forall idx | 0 <= idx < Start(|outs|, len)
      ensures len > 0 && 0 <= idx / len < |outs| && InBand(idx, idx / len, len)
        && WriteBands(m0, len, outs, |outs|)[idx] == BandByte(m0, len, outs, idx / len, idx)
    {
      CoverOne(m0, len, outs, idx);
    }
  }

  /** `WriteBandsCover` for a single byte. */
  lemma CoverOne(m0: seq<byte>, len: nat, outs: seq<Option<seq<byte>>>, idx: int)
    requires Start(|outs|, len) <= |m0| && BandSized(outs, len) && 0 <= idx < Start(|outs|, len)
    ensures len > 0 && 0 <= idx / len < |outs| && InBand(idx, idx / len, len)
    ensures WriteBands(m0, len, outs, |outs|)[idx] == BandByte(m0, len, outs, idx / len, idx)
  {
    BandOfIndex(idx, |outs|, len);
    WriteBandsAt(m0, len, outs, |outs|);
    var np: nat := idx / len;
    assert np < |outs| && 0 <= idx < |m0| && InBand(idx, np, len);
  }

  /** No byte after the last band is ever written. */
  lemma WriteBandsTail(m0: seq<byte>, len: nat, outs: seq<Option<seq<byte>>>)
    requires Start(|outs|, len) <= |m0| && BandSized(outs, len)
    ensures forall idx :: Start(|outs|, len) <= idx < |m0| ==> WriteBands(m0, len, outs, |outs|)[idx] == m0[idx]
  {
    WriteBandsAt(m0, len, outs, |outs|);
  }

  /**
    The `n` bands of an image `height` rows high fit in its mask, and the
    bytes of the rows the division leaves over are never written.
  */
  lemma RemainderRowsKept(m0: seq<byte>, width: nat, height: nat, outs: seq<Option<seq<byte>>>)
    requires |outs| >= 1 && |m0| == height * width
    requires BandSized(outs, BandPixels(width, BandHeight(height, |outs|)))
    ensures Start(|outs|, BandPixels(width, BandHeight(height, |outs|))) <= |m0|
    ensures forall row, col :: |outs| * BandHeight(height, |outs|) <= row < height && 0 <= col < width ==>
      Start(|outs|, BandPixels(width, BandHeight(height, |outs|))) <= PixelIndex(row, col, width) < |m0|
      && WriteBands(m0, BandPixels(width, BandHeight(height, |outs|)), outs, |outs|)[PixelIndex(row, col, width)]
         == m0[PixelIndex(row, col, width)]
  {
    var n, h := |outs|, BandHeight(height, |outs|);
    var len := BandPixels(width, h);
    RemainderAfterLastBand(n, width, height);
    WriteBandsTail(m0, len, outs);
  }

  /**
    With a single band the banded path would do exactly what the direct
    path does: band 0 is the whole image and its output lands at byte 0.
  */
  lemma SingleBandIsWholeImage(m0: seq<byte>, hist: seq<Slots>, input: Mat<byte>,
                               p: WeightedMovingVarianceParams, k: Kernels)
    requires input.Valid() && |hist| == 1 && |m0| == input.Area()
    requires Fits(hist[0], |input.data|)
    ensures BandInput(input, 1, 0) == input
    ensures WriteBands(m0, input.Area(), BandOutputs(hist, input, 1, p, k), 1)
            == WriteOutput(m0, 0, FrameOutput(hist[0], input, p, k))
  {
    var b := BandInput(input, 1, 0);
    assert BandHeight(input.rows, 1) == input.rows;
    assert MaskOffset(input, 1, 0) == 0;
    assert b.data == input.data[0..|input.data|];
    assert b == input;
    var outs := BandOutputs(hist, input, 1, p, k);
    assert outs[0] == FrameOutput(hist[0], input, p, k);
    assert Start(1, input.Area()) == input.Area();
    assert BandPixels(input.cols, input.rows) == input.Area();
  }

  class WeightedMovingVariance {
    /** `m_params`: fixed for the object's lifetime. */
    const params: WeightedMovingVarianceParams
    /** `m_numProcessesParallel`: the band count, fixed for the object's lifetime. */
    const numProcessesParallel: int
    /** `m_processSeq`: the band numbers, in order. */
    var processSeq: seq<int>
    /** `imgInputPrevParallel`: the two-slot history of every band. */
    var imgInputPrevParallel: seq<Slots>

    ghost predicate Valid()
      reads this
    {
      numProcessesParallel >= 1
      && |processSeq| == numProcessesParallel
      && (forall i :: 0 <= i < |processSeq| ==> processSeq[i] == i)
      && |imgInputPrevParallel| == numProcessesParallel
    }

    /** Every band's history can be combined with its part of `input`. */
    ghost predicate Accepts(input: Mat<byte>)
      reads this
      requires Valid() && input.Valid()
    {
      if numProcessesParallel > 1 then
        forall np :: 0 <= np < numProcessesParallel ==> Fits(imgInputPrevParallel[np], BandElements(input, numProcessesParallel))
      else
        Fits(imgInputPrevParallel[0], |input.data|)
    }

    /**
      The band table the constructor builds: band numbers `0 .. n - 1` in
      `m_processSeq`, and a history of two empty slots per band (the
      `resize` and the two `make_unique<cv::Mat>()` of each band).
    */
    static method NewBandState(n: nat) returns (order: seq<int>, history: seq<Slots>)
      ensures |order| == n && forall i :: 0 <= i < n ==> order[i] == i
      ensures |history| == n && forall i :: 0 <= i < n ==> history[i] == EmptySlots
    {
      order, history := [], [];
      for i := 0 to n
        invariant |order| == i && forall j :: 0 <= j < i ==> order[j] == j
        invariant |history| == i && forall j :: 0 <= j < i ==> history[j] == EmptySlots
      {
        order := order + [i];
        history := history + [EmptySlots];
      }
    }

    /** The source's constructor: twelve bands, `m_params(true, true, 15)`, every slot empty. */
    constructor ()
      ensures Valid()
      ensures params == DefaultParams && params.threshold == 15
      ensures numProcessesParallel == DefaultNumProcesses
      ensures processSeq == [0, 1, 2, 3, 4, 5, 6, 7, 8, 9, 10, 11]
      ensures forall np :: 0 <= np < |imgInputPrevParallel| ==> imgInputPrevParallel[np] == EmptySlots
    {
      params := DefaultParams;
      numProcessesParallel := DefaultNumProcesses;
      var order, history := NewBandState(DefaultNumProcesses);
      processSeq, imgInputPrevParallel := order, history;
    }

    /** The same set-up with a chosen band count and parameter record. */
    constructor Configured(n: int, p: WeightedMovingVarianceParams)
      requires n >= 1
      ensures Valid()
      ensures params == p && numProcessesParallel == n
      ensures forall np :: 0 <= np < |imgInputPrevParallel| ==> imgInputPrevParallel[np] == EmptySlots
    {
      params := p;
      numProcessesParallel := n;
      var order, history := NewBandState(n);
      processSeq, imgInputPrevParallel := order, history;
    }

    /**
      `process(img_input, img_output)`: the banded path exactly when there
      is more than one band, otherwise one call over the whole image with
      band 0's history.
    */
    method Process(input: Mat<byte>, mask: array<byte>, k: Kernels)
      requires Valid() && input.Valid() && mask.Length == input.Area()
      requires Accepts(input)
      modifies this`imgInputPrevParallel, mask
      ensures Valid()
      ensures numProcessesParallel > 1 ==>
        (forall np :: 0 <= np < numProcessesParallel ==>
          imgInputPrevParallel[np] ==
            Step(old(imgInputPrevParallel[np]), ConvertTo(BandInput(input, numProcessesParallel, np), k)))
        && mask[..] == WriteBands(old(mask[..]), BandPixels(input.cols, BandHeight(input.rows, numProcessesParallel)),
                                  BandOutputs(old(imgInputPrevParallel), input, numProcessesParallel, params, k),
                                  numProcessesParallel)
      ensures numProcessesParallel <= 1 ==>
        imgInputPrevParallel == old(imgInputPrevParallel)[0 := Step(old(imgInputPrevParallel[0]), ConvertTo(input, k))]
        && mask[..] == WriteOutput(old(mask[..]), 0, FrameOutput(old(imgInputPrevParallel[0]), input, params, k))
    {
      if numProcessesParallel > 1 {
        ProcessParallel(input, mask, k);
      } else {
        var next := ProcessFrame(input, mask, 0, imgInputPrevParallel[0], params, k);
        imgInputPrevParallel := imgInputPrevParallel[0 := next];
      }
    }

    /**
      `processParallel`: the bands of `m_processSeq`, one after the other
      (the source runs them concurrently; their disjointness makes the
      order irrelevant, see `WriteBandsAt`).
    */
    method ProcessParallel(input: Mat<byte>, mask: array<byte>, k: Kernels)
      requires Valid() && input.Valid() && mask.Length == input.Area()
      requires forall np :: 0 <= np < numProcessesParallel ==>
        Fits(imgInputPrevParallel[np], BandElements(input, numProcessesParallel))
      modifies this`imgInputPrevParallel, mask
      ensures Valid()
      ensures forall np :: 0 <= np < numProcessesParallel ==>
        imgInputPrevParallel[np] ==
          Step(old(imgInputPrevParallel[np]), ConvertTo(BandInput(input, numProcessesParallel, np), k))
      ensures mask[..] == WriteBands(old(mask[..]), BandPixels(input.cols, BandHeight(input.rows, numProcessesParallel)),
                                     BandOutputs(old(imgInputPrevParallel), input, numProcessesParallel, params, k),
                                     numProcessesParallel)
    {
      ghost var hist0, mask0 := imgInputPrevParallel, mask[..];
      var n := numProcessesParallel;
      ghost var h := BandHeight(input.rows, n);
      ghost var len := BandPixels(input.cols, h);
      ghost var outs := BandOutputs(hist0, input, n, params, k);
      for i := 0 to |processSeq|
        invariant Valid()
        invariant imgInputPrevParallel == AdvanceBands(hist0, input, n, k, i)
        invariant mask[..] == WriteBands(mask0, len, outs, i)
      {
        AdvanceBandsLater(hist0, input, n, k, i, i);
        ghost var before := mask[..];
        ProcessBand(processSeq[i], input, mask, k);
        assert mask[..] == WriteBands(mask0, len, outs, i + 1) by {
          StartIsPixelPos(i, input.cols, h);
          WriteBandsNext(mask0, len, outs, i, before, Start(i, len));
        }
      }
      AdvanceBandsAt(hist0, input, n, k, n);
    }

    /**
      The work of one band (the lambda of `processParallel`): it cuts out
      its rows of the input and of the mask and reads and updates
      `imgInputPrevParallel[np]` and no other band's history.
    */
    method ProcessBand(np: int, input: Mat<byte>, mask: array<byte>, k: Kernels)
      requires Valid() && 0 <= np < numProcessesParallel && input.Valid() && mask.Length == input.Area()
      requires Fits(imgInputPrevParallel[np], BandElements(input, numProcessesParallel))
      modifies this`imgInputPrevParallel, mask
      ensures Valid()
      ensures imgInputPrevParallel == old(imgInputPrevParallel)[np :=
        Step(old(imgInputPrevParallel[np]), ConvertTo(BandInput(input, numProcessesParallel, np), k))]
      ensures mask[..] == WriteOutput(old(mask[..]), MaskOffset(input, numProcessesParallel, np),
        FrameOutput(old(imgInputPrevParallel[np]), BandInput(input, numProcessesParallel, np), params, k))
    {
      var pixelPos := MaskOffset(input, numProcessesParallel, np);
      var imgSplit := BandInput(input, numProcessesParallel, np);
      var next := ProcessFrame(imgSplit, mask, pixelPos, imgInputPrevParallel[np], params, k);
      imgInputPrevParallel := imgInputPrevParallel[np := next];
    }

    /**
      The per-band `process`: the frame is converted, then it fills slot 0
      if that is empty, or shifts into the history if slot 1 is empty, and
      otherwise the processed image is copied to the mask from byte
      `maskOff` on before the history shifts.  The output view has the
      frame's own size.
    */
    static method ProcessFrame(input: Mat<byte>, mask: array<byte>, maskOff: nat, imgInputPrev: Slots,
                               p: WeightedMovingVarianceParams, k: Kernels) returns (next: Slots)
      requires input.Valid() && maskOff + input.Area() <= mask.Length
      requires Fits(imgInputPrev, |input.data|)
      modifies mask
      ensures next == Step(imgInputPrev, ConvertTo(input, k))
      ensures PhaseOf(imgInputPrev) != Compute ==> mask[..] == old(mask[..])
      ensures mask[..] == WriteOutput(old(mask[..]), maskOff, FrameOutput(imgInputPrev, input, p, k))
    {
      var imgInputF := ConvertTo(input, k);
      if imgInputPrev[0].None? {
        next := [Held(imgInputF), imgInputPrev[1]];
        return;
      }
      if imgInputPrev[1].None? {
        next := [Held(imgInputF), imgInputPrev[0]];
        return;
      }
      var prev1, prev2 := imgInputPrev[0].value, imgInputPrev[1].value;
      var imgProcess: Mat<byte>;
      if p.enableWeight {
        imgProcess := ComputeWeightedVarianceCombined(imgInputF, prev1, prev2, Weights(Half, PointThree, PointTwo), k);
      } else {
        imgProcess := ComputeWeightedVarianceCombined(imgInputF, prev1, prev2, Weights(OneThird, OneThird, OneThird), k);
      }
      assert imgProcess == VarianceImage(imgInputF, prev1, prev2, SelectWeights(p), k) by {
        assert |imgProcess.data| == |imgInputF.data|;
      }
      if imgProcess.channels == 3 {
        imgProcess := BgrToGray(imgProcess, k);
      }
      if p.enableThreshold {
        imgProcess := Threshold(imgProcess, p.threshold, k);
      }
      assert imgProcess == Processed(imgInputF, prev1, prev2, p, k);
      assert FrameOutput(imgInputPrev, input, p, k) == Some(imgProcess.data[..input.Area()]);
      Memcpy(mask, maskOff, imgProcess.data, input.Area());
      next := [Held(imgInputF), imgInputPrev[0]];
    }

    /**
      `computeWeightedVarianceCombined`: one pass over all `area * channels`
      elements, writing output element `i` from element `i` of the three
      frames.
    */
    static method ComputeWeightedVarianceCombined(img1F: Frame, img2F: Frame, img3F: Frame, w: Weights, k: Kernels)
      returns (imgF: Mat<byte>)
      requires img1F.Valid() && |img2F.data| >= |img1F.data| && |img3F.data| >= |img1F.data|
      ensures imgF.Valid() && imgF.rows == img1F.rows && imgF.cols == img1F.cols && imgF.channels == img1F.channels
      ensures |imgF.data| == img1F.Area() * img1F.channels
      ensures forall i :: 0 <= i < |imgF.data| ==>
        imgF.data[i] == k.variance(img1F.data[i], img2F.data[i], img3F.data[i], w)
    {
      var totalDataSize := img1F.rows * img1F.cols * img1F.channels;
      var dataOut := new byte[totalDataSize];
      for i := 0 to totalDataSize
        invariant forall j :: 0 <= j < i ==> dataOut[j] == k.variance(img1F.data[j], img2F.data[j], img3F.data[j], w)
      {
        dataOut[i] := k.variance(img1F.data[i], img2F.data[i], img3F.data[i], w);
      }
      imgF := Mat(img1F.rows, img1F.cols, img1F.channels, dataOut[..]);
    }

    /** `memcpy(dst + off, src, len)`. */
    static method Memcpy(dst: array<byte>, off: nat, src: seq<byte>, len: nat)
      requires off + len <= dst.Length && len <= |src|
      modifies dst
      ensures dst[..] == old(dst[..off]) + src[..len] + old(dst[off + len..])
    {
      forall i | off <= i < off + len {
        dst[i] := src[i - off];
      }
      assert dst[..] == old(dst[..off]) + src[..len] + old(dst[off + len..]);
    }
  }
}
