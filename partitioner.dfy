/** Bucketing of page indices into the three output documents (the cover loop and
    the final loop of `split_pdf_by_color`); each output is the list of source page
    indices it receives, in insertion order. */
module Partitioner {
  import opened Indices

  /** The in-order sub-sequence of `s` whose membership in `colorSet` equals `wanted`. */
  function Filter(s: seq<int>, colorSet: set<int>, wanted: bool): (r: seq<int>)
    ensures |r| <= |s|
    ensures forall j :: 0 <= j < |r| ==> (r[j] in colorSet) == wanted
  {
    if s == [] then []
    else
      var init, last := s[..|s| - 1], s[|s| - 1];
      Filter(init, colorSet, wanted) + (if (last in colorSet) == wanted then [last] else [])
  }

  /** The filter keeps exactly the elements of `s` on the wanted side of `colorSet`, and
      keeps a strictly increasing sequence strictly increasing. */
  lemma {:induction false} FilterKeepsOrder(s: seq<int>, colorSet: set<int>, wanted: bool)
    ensures forall x :: x in Filter(s, colorSet, wanted) <==> x in s && (x in colorSet) == wanted
    ensures StrictlyIncreasing(s) ==> StrictlyIncreasing(Filter(s, colorSet, wanted))
  {
    if s != [] {
      var init, last := s[..|s| - 1], s[|s| - 1];
      FilterKeepsOrder(init, colorSet, wanted);
      assert s == init + [last];
      assert forall x :: x in s <==> x in init || x == last;
    }
  }

  /** Filtering one more element appends it or nothing. */
  lemma FilterSnoc(s: seq<int>, x: int, colorSet: set<int>, wanted: bool)
    ensures Filter(s + [x], colorSet, wanted) ==
            Filter(s, colorSet, wanted) + (if (x in colorSet) == wanted then [x] else [])
  {
    assert (s + [x])[..|s|] == s;
  }

  /** Every element of `s` goes to exactly one of the two filters. */
  lemma {:induction false} FilterSplitsLength(s: seq<int>, colorSet: set<int>)
    ensures |Filter(s, colorSet, true)| + |Filter(s, colorSet, false)| == |s|
  {
    if s != [] {
      FilterSplitsLength(s[..|s| - 1], colorSet);
    }
  }

  /** The body range `[n, total)` grows by one index at a time. */
  lemma RangeSnoc(lo: int, hi: int)
    requires lo <= hi
    ensures Range(lo, hi + 1) == Range(lo, hi) + [hi]
  {
  }

  /** The cover loop and the colour/BW loop: page `i` of `[0, min(n, total))` goes to
      `cover`; page `i` of `[n, total)` goes to `color` when it is in `colorSet` and to
      `bw` otherwise, in page order. */
  method Partition(total: nat, n: nat, colorSet: set<int>) returns (cover: seq<int>, color: seq<int>, bw: seq<int>)
    ensures cover == Range(0, Min(n, total))
    ensures color == Filter(Range(n, total), colorSet, true)
    ensures bw == Filter(Range(n, total), colorSet, false)
  {
    cover := [];
    var i := 0;
    while i < Min(n, total)
      invariant 0 <= i <= Min(n, total)
      invariant cover == Range(0, i)
    {
      RangeSnoc(0, i);
      cover := cover + [i];
      i := i + 1;
    }
    color, bw := [], [];
    i := n;
    ghost var body: seq<int> := [];
    while i < total
      invariant n <= i <= total || total <= n == i
      invariant body == Range(n, i)
      invariant color == Filter(body, colorSet, true)
      invariant bw == Filter(body, colorSet, false)
    {
      RangeSnoc(n, i);
      FilterSnoc(body, i, colorSet, true);
      FilterSnoc(body, i, colorSet, false);
      body := body + [i];
      if i in colorSet {
        color := color + [i];
      } else {
        bw := bw + [i];
      }
      i := i + 1;
    }
  }

  /** The three outputs partition `[0, total)`: each is strictly increasing, the cover is
      the prefix `[0, min(n, total))`, the colour output holds exactly the body pages in
      `colorSet`, the BW output exactly the others, and together they hold `total` pages. */
  lemma PartitionIsExact(total: nat, n: nat, colorSet: set<int>)
    ensures var cover, color, bw := Range(0, Min(n, total)),
                                    Filter(Range(n, total), colorSet, true),
                                    Filter(Range(n, total), colorSet, false);
            StrictlyIncreasing(cover) && StrictlyIncreasing(color) && StrictlyIncreasing(bw) &&
            (forall x :: x in cover <==> 0 <= x < Min(n, total)) &&
            (forall x :: x in color <==> n <= x < total && x in colorSet) &&
            (forall x :: x in bw <==> n <= x < total && x !in colorSet) &&
            |cover| + |color| + |bw| == total
  {
    RangeMembership(0, Min(n, total));
    RangeMembership(n, total);
    FilterKeepsOrder(Range(n, total), colorSet, true);
    FilterKeepsOrder(Range(n, total), colorSet, false);
    FilterSplitsLength(Range(n, total), colorSet);
  }

  /** Every page index of the document lands in exactly one output. */
  lemma EachPageOnce(total: nat, n: nat, colorSet: set<int>, x: int)
    requires 0 <= x < total
    ensures var cover, color, bw := Range(0, Min(n, total)),
                                    Filter(Range(n, total), colorSet, true),
                                    Filter(Range(n, total), colorSet, false);
            (if x in cover then 1 else 0) + (if x in color then 1 else 0) + (if x in bw then 1 else 0) == 1
  {
    PartitionIsExact(total, n, colorSet);
  }

  /** The worked example: 20 pages, 5 cover pages, extended colour set {5, 6, 7, 8, 11, 12}. */
  lemma PartitionExample()
    ensures Range(0, Min(5, 20)) == [0, 1, 2, 3, 4]
    ensures Filter(Range(5, 20), {5, 6, 7, 8, 11, 12}, true) == [5, 6, 7, 8, 11, 12]
    ensures Filter(Range(5, 20), {5, 6, 7, 8, 11, 12}, false) == [9, 10, 13, 14, 15, 16, 17, 18, 19]
  {
    assert Range(0, 5) == [0, 1, 2, 3, 4];
    ExampleColorSide();
    ExampleBlackAndWhiteSide();
  }

  lemma ExampleColorSide()
    ensures Filter(Range(5, 20), {5, 6, 7, 8, 11, 12}, true) == [5, 6, 7, 8, 11, 12]
  {
    ExampleSide(true, [5, 6, 7, 8, 11, 12]);
  }

  lemma ExampleBlackAndWhiteSide()
    ensures Filter(Range(5, 20), {5, 6, 7, 8, 11, 12}, false) == [9, 10, 13, 14, 15, 16, 17, 18, 19]
  {
    ExampleSide(false, [9, 10, 13, 14, 15, 16, 17, 18, 19]);
  }

  /** One output of the worked example, from its membership and its order alone. */
  lemma ExampleSide(wanted: bool, expected: seq<int>)
    requires forall i :: 0 < i < |expected| ==> expected[i - 1] < expected[i]
    requires forall x :: x in expected <==> 5 <= x < 20 && (x in {5, 6, 7, 8, 11, 12}) == wanted
    ensures Filter(Range(5, 20), {5, 6, 7, 8, 11, 12}, wanted) == expected
  {
    RangeMembership(5, 20);
    StepwiseIncreasing(expected);
    FilterKeepsOrder(Range(5, 20), {5, 6, 7, 8, 11, 12}, wanted);
    IncreasingUnique(Filter(Range(5, 20), {5, 6, 7, 8, 11, 12}, wanted), expected);
  }
}
