/** Duplex partner pages: pages from the cover count `n` on are printed two to a
    sheet, `(n, n+1), (n+2, n+3), ...`; a sheet with one colour side is printed in
    colour as a whole (split_pdf_by_color.py, the loop after `color_set = set(color_list)`). */
module Partners {

  /** The sheet, counted from the first body page, that page `p` is printed on. */
  function Sheet(p: int, n: int): int
  {
    (p - n) / 2
  }

  /** The other side of `p`'s sheet: `p + 1` at an even offset from `n`, `p - 1` at an
      odd one. Dafny's `%` agrees with Python's for the divisor 2 on every integer. */
  function Partner(p: int, n: int): (q: int)
    ensures q != p && Sheet(q, n) == Sheet(p, n)
  {
    if (p - n) % 2 == 0 then p + 1 else p - 1
  }

  /** The partner is the one page other than `p` on `p`'s sheet. */
  lemma PartnerIsSheetMate(p: int, q: int, n: int)
    ensures Partner(p, n) == q <==> q != p && Sheet(q, n) == Sheet(p, n)
  {
    if q != p && Sheet(q, n) == Sheet(p, n) {
      var s := Sheet(p, n);
      assert n + 2 * s <= p <= n + 2 * s + 1;
      assert n + 2 * s <= q <= n + 2 * s + 1;
    }
  }

  /** The pairing is an involution. */
  lemma PartnerInvolutive(p: int, n: int)
    ensures Partner(Partner(p, n), n) == p
  {
    PartnerIsSheetMate(Partner(p, n), p, n);
  }

  /** The partners that fall in the body range `[n, total)`. */
  function PartnersInRange(colorList: seq<int>, n: int, total: int): (s: set<int>)
    ensures forall q :: q in s ==> n <= q < total
  {
    set p | p in colorList && n <= Partner(p, n) < total :: Partner(p, n)
  }

  /** Adding one colour page adds at most its own partner. */
  lemma PartnersInRangeSnoc(colorList: seq<int>, p: int, n: int, total: int)
    ensures PartnersInRange(colorList + [p], n, total) ==
            PartnersInRange(colorList, n, total) + (if n <= Partner(p, n) < total then {Partner(p, n)} else {})
  {
    var l := colorList + [p];
    forall q | q in PartnersInRange(l, n, total)
      ensures q in PartnersInRange(colorList, n, total) || q == Partner(p, n)
    {
      var r :| r in l && n <= Partner(r, n) < total && Partner(r, n) == q;
      if r != p {
        assert r in colorList;
      }
    }
    forall r | r in colorList && n <= Partner(r, n) < total
      ensures Partner(r, n) in PartnersInRange(l, n, total)
    {
      assert r in l;
    }
    if n <= Partner(p, n) < total {
      assert p in l;
    }
  }

  /** The extended colour set: the colour pages and their in-range partners. */
  function Extended(colorList: seq<int>, n: int, total: int): (s: set<int>)
    ensures forall p :: p in colorList ==> p in s
  {
    (set p | p in colorList) + PartnersInRange(colorList, n, total)
  }

  /** `color_set` after the partner loop: start from the colour pages, then add the
      partner of each of them when it lies in `[n, total)`. */
  method ExtendWithPartners(colorList: seq<int>, n: int, total: int) returns (colorSet: set<int>)
    ensures colorSet == Extended(colorList, n, total)
    ensures forall p :: p in colorList ==> p in colorSet
    ensures forall q :: q in colorSet && q !in colorList ==> n <= q < total
  {
    colorSet := set p | p in colorList;
    for i := 0 to |colorList|
      invariant colorSet == (set p | p in colorList) + PartnersInRange(colorList[..i], n, total)
    {
      var p := colorList[i];
      var partner := Partner(p, n);
      if n <= partner < total {
        colorSet := colorSet + {partner};
      }
      assert colorList[..i + 1] == colorList[..i] + [p];
      PartnersInRangeSnoc(colorList[..i], p, n, total);
    }
    assert colorList[..|colorList|] == colorList;
  }

  /** Membership in the extended set without the existential: a page is in it iff it
      is a colour page, or it is a body page whose partner is a colour page. */
  lemma ExtendedMembership(colorList: seq<int>, n: int, total: int, q: int)
    ensures q in Extended(colorList, n, total) <==>
            q in colorList || (n <= q < total && Partner(q, n) in colorList)
  {
    PartnerInvolutive(q, n);
    if q in PartnersInRange(colorList, n, total) {
      var p :| p in colorList && n <= Partner(p, n) < total && Partner(p, n) == q;
      PartnerInvolutive(p, n);
    }
    if n <= q < total && Partner(q, n) in colorList {
      assert q in PartnersInRange(colorList, n, total);
    }
  }

  /** When the colour pages are body pages, the extended set stays inside the body
      and never splits a sheet whose two sides are both body pages. */
  lemma SheetsStayTogether(colorList: seq<int>, n: int, total: int)
    requires forall p :: p in colorList ==> n <= p < total
    ensures forall q :: q in Extended(colorList, n, total) ==> n <= q < total
    ensures forall q :: q in Extended(colorList, n, total) && n <= Partner(q, n) < total ==>
                        Partner(q, n) in Extended(colorList, n, total)
  {
    forall q | q in Extended(colorList, n, total) && n <= Partner(q, n) < total
      ensures Partner(q, n) in Extended(colorList, n, total)
    {
      ExtendedMembership(colorList, n, total, q);
      ExtendedMembership(colorList, n, total, Partner(q, n));
      PartnerInvolutive(q, n);
    }
  }

  /** The worked example: body from page 5 of 20, colour pages 5, 7 and 12. */
  lemma ExtendedExample()
    ensures Extended([5, 7, 12], 5, 20) == {5, 6, 7, 8, 11, 12}
  {
    var e := Extended([5, 7, 12], 5, 20);
    assert Partner(5, 5) == 6 && Partner(7, 5) == 8 && Partner(12, 5) == 11;
    forall q ensures q in e <==> q in {5, 6, 7, 8, 11, 12} {
      ExtendedMembership([5, 7, 12], 5, 20, q);
    }
  }

  /** The pairing rule at the edges: the first body page pairs with the next one, both
      admitted by the range test when the body has two pages or more, and the last page
      of a document whose body has odd length has no partner in range. */
  lemma PartnerAtEdges(n: int, total: int)
    ensures Partner(n, n) == n + 1 && Partner(n + 1, n) == n
    ensures total >= n + 2 ==> n <= Partner(n, n) < total && n <= Partner(n + 1, n) < total
    ensures total > n && (total - n) % 2 == 1 ==> Partner(total - 1, n) == total
  {
  }
}
