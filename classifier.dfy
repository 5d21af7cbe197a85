/** Colour classification of rendered pages by strided sampling
    (`detect_color_pages` in split_pdf_by_color.py). */
module Classifier {
  import opened Indices
  import opened Raster

  /** The number of pixels the classifier aims to inspect per page. */
  const DefaultSampleCount: nat := 1000

  /** Pixel stride: `max(1, (w * h) // sampleCount)`, about `sampleCount` samples per page. */
  function StepPixels(pix: Pixmap, sampleCount: nat): (step: nat)
    requires sampleCount >= 1
    ensures step >= 1
    ensures step == 1 ==> pix.PixelCount() < 2 * sampleCount
    ensures step > 1 ==> step * sampleCount <= pix.PixelCount() < (step + 1) * sampleCount
  {
    var q := pix.PixelCount() / sampleCount;
    if q < 1 then 1 else q
  }

  /** Byte stride between two sampled pixels. */
  function StepBytes(pix: Pixmap, sampleCount: nat): (step: nat)
    requires sampleCount >= 1
    ensures pix.channels >= 1 ==> step >= pix.channels
  {
    StepPixels(pix, sampleCount) * pix.channels
  }

  /** The `k`-th sampled offset, `k * stepBytes`, lies inside the buffer. */
  predicate Sampled(pix: Pixmap, sampleCount: nat, k: nat)
    requires sampleCount >= 1
  {
    k * StepBytes(pix, sampleCount) < |pix.samples|
  }

  /** Buffer-index safety: every sampled offset starts a whole pixel, so the reads at
      `idx`, `idx + 1` and `idx + 2` stay inside a buffer of three or more channels. */
  lemma SampleInBounds(pix: Pixmap, sampleCount: nat, k: nat)
    requires pix.Valid() && sampleCount >= 1 && Sampled(pix, sampleCount, k)
    ensures k * StepPixels(pix, sampleCount) < pix.PixelCount()
    ensures k * StepBytes(pix, sampleCount) == (k * StepPixels(pix, sampleCount)) * pix.channels
    ensures pix.channels >= 3 ==> k * StepBytes(pix, sampleCount) + 2 < |pix.samples|
  {
    var n := pix.channels;
    var m := k * StepPixels(pix, sampleCount);
    assert k * StepBytes(pix, sampleCount) == m * n;
    PixelInBounds(m, pix.PixelCount(), n);
  }

  /** The `k`-th sample exists and is not grey. */
  predicate ColorSampleAt(pix: Pixmap, sampleCount: nat, k: nat)
    requires pix.Valid() && sampleCount >= 1
  {
    pix.channels >= 3 && Sampled(pix, sampleCount, k) &&
    (SampleInBounds(pix, sampleCount, k);
     var i := k * StepBytes(pix, sampleCount);
     pix.samples[i] != pix.samples[i + 1] || pix.samples[i + 1] != pix.samples[i + 2])
  }

  /** The classification: some sampled pixel has `r != g` or `g != b`. */
  ghost predicate IsColor(pix: Pixmap, sampleCount: nat)
    requires pix.Valid() && sampleCount >= 1
  {
    exists k: nat :: ColorSampleAt(pix, sampleCount, k)
  }

  /** Sampled offsets strictly grow with their number. */
  lemma OffsetMonotone(k: nat, j: nat, step: nat)
    requires k < j && step >= 1
    ensures k * step < j * step
  {
    assert j * step - k * step == (j - k) * step;
  }

  /** The colour test of one page: walk the offsets `0, stepBytes, 2 * stepBytes, ...`
      and stop at the first sampled pixel whose components differ. */
  method DetectPageColor(pix: Pixmap, sampleCount: nat) returns (isColor: bool)
    requires pix.Valid() && sampleCount >= 1
    ensures isColor <==> IsColor(pix, sampleCount)
    ensures pix.channels < 3 ==> !isColor
    ensures |pix.samples| == 0 ==> !isColor
  {
    var n := pix.channels;
    var data := pix.samples;
    var stepBytes := StepPixels(pix, sampleCount) * n;
    isColor := false;
    var idx := 0;
    ghost var k: nat := 0;
    while idx < |data|
      invariant idx == k * stepBytes
      invariant forall j: nat :: j < k ==> !ColorSampleAt(pix, sampleCount, j)
      decreases |data| - idx
    {
      if n >= 3 {
        SampleInBounds(pix, sampleCount, k);
        var r, g, b := data[idx], data[idx + 1], data[idx + 2];
        if r != g || g != b {
          assert ColorSampleAt(pix, sampleCount, k);
          isColor := true;
          break;
        }
      }
      assert !ColorSampleAt(pix, sampleCount, k);
      idx := idx + stepBytes;
      k := k + 1;
    }
    if !isColor {
      forall j: nat | ColorSampleAt(pix, sampleCount, j) ensures false {
        if j > k {
          OffsetMonotone(k, j, stepBytes);
        }
      }
    }
  }

  /** The classifier never reports colour on a page with no colour pixel. */
  lemma ColorImpliesColorPixel(pix: Pixmap, sampleCount: nat)
    requires pix.Valid() && sampleCount >= 1
    ensures IsColor(pix, sampleCount) ==> pix.HasColorPixel()
  {
    if IsColor(pix, sampleCount) {
      var k: nat :| ColorSampleAt(pix, sampleCount, k);
      SampleInBounds(pix, sampleCount, k);
      assert pix.PixelIsColor(k * StepPixels(pix, sampleCount));
    }
  }

  /** The first pixel is always sampled: a colour first pixel makes the page colour. */
  lemma FirstPixelDecides(pix: Pixmap, sampleCount: nat)
    requires pix.Valid() && sampleCount >= 1
    requires pix.PixelIsColor(0)
    ensures IsColor(pix, sampleCount)
  {
    assert ColorSampleAt(pix, sampleCount, 0);
  }

  /** A page of fewer than `2 * sampleCount` pixels is scanned pixel by pixel, so
      there the classification is exact. */
  lemma SmallPageScannedFully(pix: Pixmap, sampleCount: nat)
    requires pix.Valid() && sampleCount >= 1
    requires pix.PixelCount() < 2 * sampleCount
    ensures IsColor(pix, sampleCount) <==> pix.HasColorPixel()
  {
    ColorImpliesColorPixel(pix, sampleCount);
    if pix.HasColorPixel() {
      var p: nat :| pix.PixelIsColor(p);
      var n := pix.channels;
      var step := StepPixels(pix, sampleCount);
      if step > 1 {
        OffsetMonotone(2, step, sampleCount);
      }
      assert step == 1;
      assert StepBytes(pix, sampleCount) == n;
      PixelInBounds(p, pix.PixelCount(), n);
      assert p * StepBytes(pix, sampleCount) == p * n;
      assert p * n < |pix.samples|;
      assert Sampled(pix, sampleCount, p);
      assert ColorSampleAt(pix, sampleCount, p);
    }
  }

  /** `detect_color_pages`: the indices `i` in `[start, |pages|)` whose page is colour,
      in ascending order. */
  method DetectColorPages(pages: seq<Pixmap>, start: nat, sampleCount: nat) returns (colorPages: seq<int>)
    requires forall i :: start <= i < |pages| ==> pages[i].Valid()
    requires sampleCount >= 1
    ensures StrictlyIncreasing(colorPages)
    ensures forall j :: 0 <= j < |colorPages| ==> start <= colorPages[j] < |pages|
    ensures forall i :: i in colorPages <==> start <= i < |pages| && IsColor(pages[i], sampleCount)
  {
    colorPages := [];
    var i := start;
    while i < |pages|
      invariant start <= i
      invariant StrictlyIncreasing(colorPages)
      invariant forall j :: 0 <= j < |colorPages| ==> start <= colorPages[j] < i && colorPages[j] < |pages|
      invariant forall x :: x in colorPages <==> start <= x < i && x < |pages| && IsColor(pages[x], sampleCount)
    {
      var isColor := DetectPageColor(pages[i], sampleCount);
      if isColor {
        colorPages := colorPages + [i];
      }
      i := i + 1;
    }
  }
}
