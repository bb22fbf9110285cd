/**
  The index arithmetic of `processParallel`.  The rows of an image are split
  into `n` horizontal bands of `height / n` rows each (integer division).
  Band `np` starts at pixel `np * width * bandHeight`; its input elements
  start at that pixel offset times the channel count, and its mask bytes at
  the pixel offset itself, the mask having one byte per pixel.  The rows
  left over by the division belong to no band.
*/
module Bands {
  /** `_imgInput.size().height / m_numProcessesParallel`: the rows of every band. */
  function BandHeight(height: nat, n: int): nat
    requires n >= 1
  {
    height / n
  }

  /** `np * _imgInput.size().width * height`: the first pixel of band `np`. */
  function PixelPos(np: int, width: nat, bandHeight: nat): int
  {
    np * width * bandHeight
  }

  /** The number of pixels, and so of mask bytes, in one band. */
  function BandPixels(width: nat, bandHeight: nat): nat
  {
    width * bandHeight
  }

  /** The position of pixel (`row`, `col`) in a row-major image `width` pixels wide. */
  function PixelIndex(row: int, col: int, width: nat): int
  {
    row * width + col
  }

  /** Mask byte `k` is written by band `np`. */
  predicate InMaskBand(k: int, np: int, width: nat, bandHeight: nat)
  {
    PixelPos(np, width, bandHeight) <= k < PixelPos(np, width, bandHeight) + BandPixels(width, bandHeight)
  }

  /** Input element `e` is read by band `np` of an image with `channels` elements per pixel. */
  predicate InInputBand(e: int, np: int, width: nat, bandHeight: nat, channels: nat)
  {
    PixelPos(np, width, bandHeight) * channels <= e
    < PixelPos(np, width, bandHeight) * channels + BandPixels(width, bandHeight) * channels
  }

  /**
    The offset of band `np` when every band is `len` bytes long, counted
    band by band; it agrees with `PixelPos` (see `StartIsPixelPos`).
    The banded write is stated with this form rather than with `PixelPos`
    because each step adds one band length, so the induction over bands
    needs only linear arithmetic; the product `np * width * h` is used where
    the offset is computed, and the two meet in `StartIsPixelPos`.
  */
  function Start(np: nat, len: nat): nat
  {
    if np == 0 then 0 else Start(np - 1, len) + len
  }

  /** Byte `k` falls in band `np` of bands `len` bytes long. */
  predicate InBand(k: int, np: nat, len: nat)
  {
    Start(np, len) <= k < Start(np, len) + len
  }

  /** Bands laid out one after the other do not overlap and stay below the end of the last one. */
  lemma {:induction false} StartOrdered(a: nat, b: nat, len: nat)
    requires a < b
    ensures Start(a, len) + len <= Start(b, len)
    decreases b - a
  {
    if a + 1 < b {
      StartOrdered(a + 1, b, len);
    }
  }

  /** Counting band by band gives the source's `np * width * height`. */
  lemma {:induction false} StartIsPixelPos(np: nat, width: nat, bandHeight: nat)
    ensures Start(np, BandPixels(width, bandHeight)) == PixelPos(np, width, bandHeight)
  {
    if np > 0 {
      StartIsPixelPos(np - 1, width, bandHeight);
      PixelPosNext(np - 1, width, bandHeight);
    }
  }

  /** Band offsets grow by one band's pixels from one band to the next. */
  lemma PixelPosNext(np: int, width: nat, bandHeight: nat)
    ensures PixelPos(np + 1, width, bandHeight) == PixelPos(np, width, bandHeight) + BandPixels(width, bandHeight)
  {
    calc {
      PixelPos(np + 1, width, bandHeight);
      (np + 1) * width * bandHeight;
      { assert (np + 1) * width == np * width + width; }
      (np * width + width) * bandHeight;
      np * width * bandHeight + width * bandHeight;
    }
  }

  /** A later band never starts before an earlier one ends. */
  lemma {:induction false} PixelPosOrdered(a: int, b: int, width: nat, bandHeight: nat)
    requires a < b
    ensures PixelPos(a, width, bandHeight) + BandPixels(width, bandHeight) <= PixelPos(b, width, bandHeight)
    decreases b - a
  {
    PixelPosNext(a, width, bandHeight);
    if a + 1 < b {
      PixelPosOrdered(a + 1, b, width, bandHeight);
    }
  }

  /** Band `np` of `n` ends no later than the last band does. */
  lemma BandBeforeEnd(np: int, n: int, width: nat, bandHeight: nat)
    requires 0 <= np < n
    ensures 0 <= PixelPos(np, width, bandHeight)
    ensures PixelPos(np, width, bandHeight) + BandPixels(width, bandHeight) <= PixelPos(n, width, bandHeight)
  {
    assert 0 <= np * width;
    PixelPosOrdered(np, n, width, bandHeight);
  }

  /** Multiplying both sides of `a <= b` by a natural number keeps the order. */
  lemma ScaleLe(a: int, b: int, c: nat)
    requires a <= b
    ensures a * c <= b * c
  {
    var d := b - a;
    assert b * c == a * c + d * c;
  }

  /** The first `n * bandHeight` rows, the only ones any band touches, lie within the image. */
  lemma CoveredWithinImage(n: int, width: nat, height: nat)
    requires n >= 1
    ensures n * BandHeight(height, n) <= height
    ensures 0 <= PixelPos(n, width, BandHeight(height, n)) == PixelIndex(n * BandHeight(height, n), 0, width) <= width * height
  {
    var h := BandHeight(height, n);
    assert n * h <= height;
    assert n * width * h == (n * h) * width;
    ScaleLe(n * h, height, width);
  }

  /**
    Band `np` writes mask bytes `[np*W*h, (np+1)*W*h)` and reads input
    elements `[np*W*h*c, (np+1)*W*h*c)`; both ranges lie within the image.
  */
  lemma BandInBounds(np: int, n: int, width: nat, height: nat, channels: nat)
    requires 0 <= np < n
    ensures var h := BandHeight(height, n);
      0 <= PixelPos(np, width, h)
      && PixelPos(np, width, h) + BandPixels(width, h) == PixelPos(np + 1, width, h)
      && PixelPos(np + 1, width, h) <= PixelPos(n, width, h) <= width * height
    ensures var h := BandHeight(height, n);
      0 <= PixelPos(np, width, h) * channels
      && PixelPos(np, width, h) * channels + BandPixels(width, h) * channels <= width * height * channels
  {
    var h := BandHeight(height, n);
    var start := PixelPos(np, width, h);
    BandBeforeEnd(np, n, width, h);
    PixelPosNext(np, width, h);
    CoveredWithinImage(n, width, height);
    var endPix := start + BandPixels(width, h);
    ScaleLe(endPix, width * height, channels);
    ScaleLe(0, start, channels);
    assert endPix * channels == start * channels + BandPixels(width, h) * channels;
  }

  /** The mask bytes of band `np` lie within a mask of `height * width` bytes. */
  lemma BandWithinMask(np: int, n: int, width: nat, height: nat)
    requires 0 <= np < n
    ensures var h := BandHeight(height, n);
      0 <= PixelPos(np, width, h) && PixelPos(np, width, h) + BandPixels(width, h) <= height * width
  {
    BandInBounds(np, n, width, height, 1);
    assert width * height == height * width;
  }

  /**
    The slice of band `np`: `h` rows of `width` pixels of `channels`
    elements, starting at `PixelPos * channels`, lies within an image of
    `height * width * channels` elements.
  */
  lemma BandSliceInImage(np: int, n: int, width: nat, height: nat, channels: nat)
    requires 0 <= np < n
    ensures var h := BandHeight(height, n);
      BandPixels(width, h) == h * width
      && BandPixels(width, h) * channels == h * width * channels
      && 0 <= PixelPos(np, width, h) * channels
      && PixelPos(np, width, h) * channels + BandPixels(width, h) * channels <= height * width * channels
  {
    var h := BandHeight(height, n);
    BandInBounds(np, n, width, height, channels);
    assert width * height * channels == height * width * channels;
    assert (width * h) * channels == h * width * channels;
  }

  /** Two different bands share no mask byte and no input element. */
  lemma BandsDisjoint(np1: int, np2: int, width: nat, bandHeight: nat, channels: nat)
    requires np1 != np2
    ensures forall k :: !(InMaskBand(k, np1, width, bandHeight) && InMaskBand(k, np2, width, bandHeight))
    ensures forall e :: !(InInputBand(e, np1, width, bandHeight, channels) && InInputBand(e, np2, width, bandHeight, channels))
  {
    var lo, hi := if np1 < np2 then np1 else np2, if np1 < np2 then np2 else np1;
    PixelPosOrdered(lo, hi, width, bandHeight);
    var endLo := PixelPos(lo, width, bandHeight) + BandPixels(width, bandHeight);
    ScaleLe(endLo, PixelPos(hi, width, bandHeight), channels);
    assert endLo * channels == PixelPos(lo, width, bandHeight) * channels + BandPixels(width, bandHeight) * channels;
  }

  /** Counting band by band is multiplying. */
  lemma {:induction false} StartIsProduct(np: nat, len: nat)
    ensures Start(np, len) == np * len
  {
    if np > 0 {
      StartIsProduct(np - 1, len);
    }
  }

  /** Integer division locates `k` among `n` consecutive blocks of `len`. */
  lemma DivBlock(k: int, n: nat, len: nat)
    requires 0 <= k < n * len
    ensures len > 0 && 0 <= k / len < n && (k / len) * len <= k < (k / len) * len + len
  {
    assert len > 0;
    var q := k / len;
    assert k == q * len + k % len;
    assert (n - q) * len > 0 by {
      assert (n - q) * len == n * len - q * len;
    }
  }

  /** Every byte below the end of the last band belongs to a band: the one numbered `k / len`. */
  lemma BandOfIndex(k: int, n: nat, len: nat)
    requires 0 <= k < Start(n, len)
    ensures len > 0 && 0 <= k / len < n && InBand(k, k / len, len)
  {
    StartIsProduct(n, len);
    DivBlock(k, n, len);
    StartIsProduct(k / len, len);
  }

  /**
    The rows left over by the division, `n * h .. height - 1`, number
    `height % n` (fewer than `n`; all of them when `height < n`), and no
    band touches any of their pixels.
  */
  lemma RemainderRowsUntouched(n: int, width: nat, height: nat)
    requires n >= 1
    ensures height - n * BandHeight(height, n) == height % n < n
    ensures height < n ==> BandHeight(height, n) == 0
    ensures forall row, col ::
      (n * BandHeight(height, n) <= row < height && 0 <= col < width)
      ==> PixelPos(n, width, BandHeight(height, n)) <= PixelIndex(row, col, width) < height * width
    ensures forall row, col, np ::
      (n * BandHeight(height, n) <= row < height && 0 <= col < width && 0 <= np < n)
      ==> !InMaskBand(PixelIndex(row, col, width), np, width, BandHeight(height, n))
  {
    var h := BandHeight(height, n);
    CoveredWithinImage(n, width, height);
    forall row, col | n * h <= row < height && 0 <= col < width
      ensures PixelPos(n, width, h) <= PixelIndex(row, col, width) < height * width
    {
      ScaleLe(n * h, row, width);
      ScaleLe(row + 1, height, width);
    }
    forall row, col, np | n * h <= row < height && 0 <= col < width && 0 <= np < n
      ensures !InMaskBand(PixelIndex(row, col, width), np, width, h)
    {
      BandInBounds(np, n, width, height, 1);
    }
  }

  /**
    The same in terms of band-by-band offsets: the bands end within the
    image and every pixel of a left-over row lies after the last band.
  */
  lemma RemainderAfterLastBand(n: int, width: nat, height: nat)
    requires n >= 1
    ensures Start(n, BandPixels(width, BandHeight(height, n))) <= height * width
    ensures forall row, col ::
      (n * BandHeight(height, n) <= row < height && 0 <= col < width)
      ==> Start(n, BandPixels(width, BandHeight(height, n))) <= PixelIndex(row, col, width) < height * width
  {
    CoveredWithinImage(n, width, height);
    StartIsPixelPos(n, width, BandHeight(height, n));
    RemainderRowsUntouched(n, width, height);
  }
}
