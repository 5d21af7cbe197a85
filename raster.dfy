/** A page rendered to a pixel buffer, as the PDF library hands it over
    (`get_pixmap(alpha=False)`): row-major, channels interleaved. */
module Raster {

  newtype Byte = x: int | 0 <= x < 256

  datatype Pixmap = Pixmap(width: nat, height: nat, channels: nat, samples: seq<Byte>)
  {
    /** What the library guarantees of every pixmap it renders: the buffer holds
        `width * height` pixels of `channels` bytes each. Zero channels would make
        the sampling stride zero, on which the scan cannot proceed. */
    predicate Valid()
    {
      channels >= 1 && |samples| == width * height * channels
    }

    function PixelCount(): nat
    {
      width * height
    }

    /** Pixel `p` has three colour components and they are not all equal. */
    predicate PixelIsColor(p: nat)
      requires Valid()
    {
      channels >= 3 && p < PixelCount() &&
      (PixelInBounds(p, PixelCount(), channels);
       var i := p * channels;
       samples[i] != samples[i + 1] || samples[i + 1] != samples[i + 2])
    }

    /** Some pixel of the page is not grey. */
    ghost predicate HasColorPixel()
      requires Valid()
    {
      exists p: nat :: PixelIsColor(p)
    }
  }

  /** The bytes of pixel `m` of a buffer of `count` pixels of `n` bytes lie inside it. */
  lemma PixelInBounds(m: nat, count: nat, n: nat)
    requires m < count
    ensures m * n + n <= count * n
  {
    assert (count - (m + 1)) * n >= 0;
    assert (count - (m + 1)) * n == count * n - (m * n + n);
  }
}
