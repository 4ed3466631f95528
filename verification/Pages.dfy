/** Rounding to pages and to other alignments. */
module Pages {

  /** a with what is above the last multiple of p taken off. */
  function Down(a: nat, p: nat): nat
    requires p > 0
  {
    if a < p then 0 else p + Down(a - p, p)
  }

  /** The next multiple of p, a itself if it is one. */
  function Up(a: nat, p: nat): nat
    requires p > 0
  {
    Down(a + p - 1, p)
  }

  predicate Aligned(a: nat, p: nat)
    requires p > 0
  {
    Down(a, p) == a
  }

  lemma {:induction false} DownBounds(a: nat, p: nat)
    requires p > 0
    ensures Down(a, p) <= a < Down(a, p) + p && Aligned(Down(a, p), p)
  {
    if a >= p {
      DownBounds(a - p, p);
    }
  }

  lemma {:induction false} DownMonotone(a: nat, b: nat, p: nat)
    requires p > 0 && a <= b
    ensures Down(a, p) <= Down(b, p)
  {
    if b >= p {
      if a >= p {
        DownMonotone(a - p, b - p, p);
      }
    }
  }

  /** Whole pages pass through. */
  lemma {:induction false} DownShift(m: nat, a: nat, p: nat)
    requires p > 0 && Aligned(m, p)
    ensures Down(m + a, p) == m + Down(a, p)
  {
    if m > 0 {
      DownBounds(m, p);
      DownShift(m - p, a, p);
    }
  }

  lemma SumRounds(t: nat, m: nat, a: nat, p: nat)
    requires p > 0 && Aligned(m, p) && t == m + a
    ensures Down(t, p) == m + Down(a, p)
    ensures Up(t, p) == m + Up(a, p)
  {
    DownShift(m, a, p);
    DownShift(m, a + p - 1, p);
  }

  lemma AlignedSum(a: nat, b: nat, p: nat)
    requires p > 0 && Aligned(a, p)
    ensures Aligned(a + b, p) <==> Aligned(b, p)
  {
    DownShift(a, b, p);
  }

  lemma AlignedDifference(a: nat, b: nat, p: nat)
    requires p > 0 && a <= b && Aligned(a, p) && Aligned(b, p)
    ensures Aligned(b - a, p)
  {
    AlignedSum(a, b - a, p);
  }

  /** A multiple at or below a is at or below Down(a). */
  lemma DownGreatest(x: nat, a: nat, p: nat)
    requires p > 0 && Aligned(x, p) && x <= a
    ensures x <= Down(a, p)
  {
    DownMonotone(x, a, p);
  }

  lemma UpBounds(a: nat, p: nat)
    requires p > 0
    ensures a <= Up(a, p) < a + p && Aligned(Up(a, p), p)
  {
    DownBounds(a + p - 1, p);
  }

  /** A multiple at or above a is at or above Up(a). */
  lemma UpLeast(x: nat, a: nat, p: nat)
    requires p > 0 && Aligned(x, p) && a <= x
    ensures Up(a, p) <= x
  {
    DownMonotone(a + p - 1, x + (p - 1), p);
    DownShift(x, p - 1, p);
  }

  lemma UpAligned(a: nat, p: nat)
    requires p > 0 && Aligned(a, p)
    ensures Up(a, p) == a
  {
    UpLeast(a, a, p);
    UpBounds(a, p);
  }

  lemma UpMonotone(a: nat, b: nat, p: nat)
    requires p > 0 && a <= b
    ensures Up(a, p) <= Up(b, p)
  {
    DownMonotone(a + p - 1, b + p - 1, p);
  }

  lemma UpShift(m: nat, a: nat, p: nat)
    requires p > 0 && Aligned(m, p)
    ensures Up(m + a, p) == m + Up(a, p)
  {
    DownShift(m, a + p - 1, p);
  }

  /** A multiple of a multiple of the page. */
  lemma {:induction false} PagesOf(a: nat, align: nat, page: nat)
    requires align >= page > 0 && Aligned(a, align) && Aligned(align, page)
    ensures Aligned(a, page)
  {
    if a >= align {
      PagesOf(a - align, align, page);
      AlignedSum(align, a - align, page);
    }
  }

  lemma NextPage(a: nat, b: nat, page: nat)
    requires page > 0 && Aligned(a, page) && Aligned(b, page) && a < b
    ensures a + page <= b
  {
    AlignedDifference(a, b, page);
  }

  /** Rounding is what masking with a power of two does: it takes the remainder off. */
  lemma {:induction false} DownIsRemainder(a: nat, p: nat)
    requires p > 0
    ensures Down(a, p) == a - a % p
  {
    if a >= p {
      DownIsRemainder(a - p, p);
      OneMore(a - p, p);
    } else {
      Quotient(a, p, 0, a);
    }
  }

  lemma OneMore(a: nat, p: nat)
    requires p > 0
    ensures (a + p) % p == a % p
  {
    Quotient(a + p, p, a / p + 1, a % p);
  }

  lemma Quotient(a: nat, p: nat, q: int, r: nat)
    requires p > 0 && r < p && a == q * p + r
    ensures a / p == q && a % p == r
  {
    var t := a / p;
    SmallGap(t, q, p, r, a % p);
  }

  lemma SmallGap(t: int, q: int, p: nat, r: nat, s: nat)
    requires r < p && s < p && q * p + r == t * p + s
    ensures t == q
  {
    var gap := t - q;
    assert gap * p == r - s;
    Bigger(gap, p);
  }

  lemma Bigger(gap: int, p: nat)
    ensures gap > 0 ==> gap * p >= p
    ensures gap < 0 ==> gap * p + p <= 0
  {
  }
}
