/**
  The part of OpenCV's matrix type that the weighted moving variance relies on:
  a dense, continuous, row-major image whose pixels hold `channels`
  interleaved elements.  Only shapes, offsets and element sequences are
  modelled; the element arithmetic is not.
*/
module Images {
  /** An 8-bit unsigned element (`uchar`, `CV_8U`). */
  type byte = x: int | 0 <= x < 256

  /** A 32-bit float element (`CV_32F`), kept as its IEEE-754 bit pattern; no float arithmetic is modelled. */
  type float32 = bv32

  /** `rows` x `cols` pixels of `channels` elements each, stored row after row in `data`. */
  datatype Mat<E> = Mat(rows: int, cols: int, channels: int, data: seq<E>)
  {
    /** The shape agrees with the number of stored elements. */
    predicate Valid()
    {
      rows >= 0 && cols >= 0 && channels >= 1 && |data| == rows * cols * channels
    }

    /** `size().area()`: the number of pixels. */
    function Area(): int
    {
      rows * cols
    }

    /** `cv::Mat::empty()`: an image without pixels. */
    predicate Empty()
    {
      rows * cols == 0
    }
  }
}
