/** `split_pdf_by_color` without the PDF library: the document is the sequence of its
    rendered pages, and each output document is the list of page indices copied into it. */
module Splitter {
  import opened Indices
  import opened Raster
  import opened Classifier
  import opened Partners
  import opened Partitioner

  /** Page `i` goes to the colour output: it is a body page and it, or the other side
      of its sheet when that is a body page too, is classified colour. */
  ghost predicate PrintsInColor(pages: seq<Pixmap>, n: nat, i: int)
    requires forall j :: n <= j < |pages| ==> pages[j].Valid()
  {
    n <= i < |pages| &&
    (IsColor(pages[i], DefaultSampleCount) ||
     (n <= Partner(i, n) < |pages| && IsColor(pages[Partner(i, n)], DefaultSampleCount)))
  }

  /** The whole split: cover pages, colour detection on the body with the default
      sample count, partner expansion, and the colour/BW partition of the body. */
  method SplitByColor(pages: seq<Pixmap>, n: nat)
    returns (cover: seq<int>, color: seq<int>, bw: seq<int>)
    requires forall j :: n <= j < |pages| ==> pages[j].Valid()
    ensures cover == Range(0, Min(n, |pages|))
    ensures StrictlyIncreasing(color) && StrictlyIncreasing(bw)
    ensures forall i :: i in color <==> PrintsInColor(pages, n, i)
    ensures forall i :: i in bw <==> n <= i < |pages| && !PrintsInColor(pages, n, i)
    ensures |cover| + |color| + |bw| == |pages|
  {
    var total := |pages|;
    var colorList := DetectColorPages(pages, n, DefaultSampleCount);
    var colorSet := ExtendWithPartners(colorList, n, total);
    cover, color, bw := Partition(total, n, colorSet);
    PartitionIsExact(total, n, colorSet);
    forall i | n <= i < total
      ensures i in colorSet <==> PrintsInColor(pages, n, i)
    {
      ExtendedMembership(colorList, n, total, i);
    }
  }

  /** Both sides of a sheet inside the body go to the same output. */
  lemma SheetPrintedWhole(pages: seq<Pixmap>, n: nat, i: int)
    requires forall j :: n <= j < |pages| ==> pages[j].Valid()
    requires n <= i < |pages| && n <= Partner(i, n) < |pages|
    ensures PrintsInColor(pages, n, i) <==> PrintsInColor(pages, n, Partner(i, n))
  {
    PartnerInvolutive(i, n);
  }

  /** A document without a single colour pixel sends its whole body to the BW output. */
  lemma GreyDocumentAllBlackAndWhite(pages: seq<Pixmap>, n: nat, i: int)
    requires forall j :: n <= j < |pages| ==> pages[j].Valid() && !pages[j].HasColorPixel()
    ensures !PrintsInColor(pages, n, i)
  {
    if n <= i < |pages| {
      ColorImpliesColorPixel(pages[i], DefaultSampleCount);
      if n <= Partner(i, n) < |pages| {
        ColorImpliesColorPixel(pages[Partner(i, n)], DefaultSampleCount);
      }
    }
  }
}
