/** Program headers of a 64-bit ELF file, and the address range its loadable segments span. */
module ProgramHeaders {
  import opened Powers
  import opened Words
  import opened Pages

  datatype Kind = Load | GnuRelro | Other

  datatype Phdr = Phdr(
    kind: Kind, readable: bool, writable: bool, executable: bool,
    offset: u64, vaddr: u64, filesz: u64, memsz: u64, align: u64)

  const LIMIT: nat := 0x1_0000_0000_0000_0000

  /** PAGE_END, and align_up, on an address. */
  function End64(a: u64, page: nat): u64
    requires 0 < page <= LIMIT
  {
    Start64(Add64(a, page - 1), page)
  }

  function Start64(a: u64, page: nat): u64
    requires page > 0
  {
    DownBounds(a, page);
    Down(a, page)
  }

  function Least(table: seq<Phdr>): u64 {
    if table == [] then LIMIT - 1
    else
      var low, p := Least(table[..|table| - 1]), table[|table| - 1];
      if p.kind == Load && p.vaddr < low then p.vaddr else low
  }

  function Greatest(table: seq<Phdr>): u64 {
    if table == [] then 0
    else
      var high, p := Greatest(table[..|table| - 1]), table[|table| - 1];
      if p.kind == Load && Add64(p.vaddr, p.memsz) > high then Add64(p.vaddr, p.memsz) else high
  }

  predicate AnyLoad(table: seq<Phdr>) {
    exists i :: 0 <= i < |table| && table[i].kind == Load
  }

  function MinVaddr(table: seq<Phdr>, page: nat): u64
    requires page > 0
  {
    if AnyLoad(table) then Start64(Least(table), page) else 0
  }

  function MaxVaddr(table: seq<Phdr>, page: nat): u64
    requires 0 < page <= LIMIT
  {
    End64(Greatest(table), page)
  }

  /** The bytes to reserve; in compatibility mode a page more, to move the segments in. */
  function LoadSize(table: seq<Phdr>, page: nat, compat: bool): nat
    requires 0 < page <= LIMIT
  {
    Sub64(MaxVaddr(table, page), MinVaddr(table, page)) + if compat then page else 0
  }

  /** The size of the range from the page of the lowest segment to the last page of the highest. */
  method GetLoadSize(table: seq<Phdr>, page: nat) returns (size: u64, minVaddr: u64, maxVaddr: u64)
    requires 0 < page <= LIMIT
    ensures minVaddr == MinVaddr(table, page) && maxVaddr == MaxVaddr(table, page)
    ensures size == Sub64(maxVaddr, minVaddr)
  {
    minVaddr, maxVaddr := LIMIT - 1, 0;
    var found := false;
    for i := 0 to |table|
      invariant minVaddr == Least(table[..i]) && maxVaddr == Greatest(table[..i])
      invariant found <==> exists k :: 0 <= k < i && table[k].kind == Load
    {
      var p := table[i];
      assert table[..i + 1][..i] == table[..i];
      if p.kind != Load {
        continue;
      }
      found := true;
      if p.vaddr < minVaddr {
        minVaddr := p.vaddr;
      }
      if Add64(p.vaddr, p.memsz) > maxVaddr {
        maxVaddr := Add64(p.vaddr, p.memsz);
      }
    }
    assert table[..|table|] == table;
    if !found {
      minVaddr := 0;
      DownBounds(0, page);
    }
    minVaddr, maxVaddr := Start64(minVaddr, page), End64(maxVaddr, page);
    size := Sub64(maxVaddr, minVaddr);
  }

  /** No end of a loadable segment is past the address space. */
  ghost predicate NoWrap(table: seq<Phdr>, page: nat) {
    forall i :: 0 <= i < |table| && table[i].kind == Load ==> table[i].vaddr + table[i].memsz + page <= LIMIT
  }

  /** Loadable segments ascend, each on pages of its own. */
  ghost predicate Ascending(table: seq<Phdr>, page: nat)
    requires page > 0
  {
    forall i, j :: 0 <= i < j < |table| && table[i].kind == Load && table[j].kind == Load ==>
      Up(table[i].vaddr + table[i].memsz, page) <= Down(table[j].vaddr, page)
  }

  lemma {:induction false} LeastCovers(table: seq<Phdr>, i: nat)
    requires i < |table| && table[i].kind == Load
    ensures Least(table) <= table[i].vaddr
  {
    if i < |table| - 1 {
      LeastCovers(table[..|table| - 1], i);
    }
  }

  lemma {:induction false} GreatestCovers(table: seq<Phdr>, page: nat, i: nat)
    requires page > 0 && NoWrap(table, page) && i < |table| && table[i].kind == Load
    ensures table[i].vaddr + table[i].memsz <= Greatest(table)
  {
    if i < |table| - 1 {
      GreatestCovers(table[..|table| - 1], page, i);
    }
  }

  lemma {:induction false} GreatestFits(table: seq<Phdr>, page: nat)
    requires page > 0 && NoWrap(table, page)
    ensures Greatest(table) > 0 ==> Greatest(table) + page <= LIMIT
  {
    if table != [] {
      GreatestFits(table[..|table| - 1], page);
    }
  }

  lemma NoWrapEnd(a: u64, page: nat)
    requires page > 0 && a + page <= LIMIT
    ensures End64(a, page) == Up(a, page)
  {
  }

  /** Every loadable segment, in whole pages, lies between the two. */
  lemma Spans(table: seq<Phdr>, page: nat, i: nat)
    requires 0 < page <= LIMIT && NoWrap(table, page) && i < |table| && table[i].kind == Load
    ensures MinVaddr(table, page) <= Down(table[i].vaddr, page)
    ensures Up(table[i].vaddr + table[i].memsz, page) <= MaxVaddr(table, page)
    ensures Aligned(MinVaddr(table, page), page) && Aligned(MaxVaddr(table, page), page)
    ensures MinVaddr(table, page) <= MaxVaddr(table, page)
  {
    LeastCovers(table, i);
    GreatestCovers(table, page, i);
    GreatestFits(table, page);
    NoWrapEnd(Greatest(table), page);
    DownMonotone(Least(table), table[i].vaddr, page);
    UpMonotone(table[i].vaddr + table[i].memsz, Greatest(table), page);
    DownBounds(Least(table), page);
    DownBounds(table[i].vaddr, page);
    UpBounds(table[i].vaddr + table[i].memsz, page);
    UpBounds(Greatest(table), page);
  }

  predicate IsPowerOfTwo(a: nat) {
    a == 1 || (a > 0 && a % 2 == 0 && IsPowerOfTwo(a / 2))
  }

  /** Two to some power. */
  ghost predicate PowerOfTwo(a: nat) {
    exists k: nat :: a == Power2(k)
  }

  /** That is what halving finds out. */
  lemma {:induction false} PowersExactly(a: nat)
    ensures IsPowerOfTwo(a) <==> PowerOfTwo(a)
  {
    if PowerOfTwo(a) {
      var k: nat :| a == Power2(k);
      Halve(a, k);
    }
    if IsPowerOfTwo(a) {
      if a == 1 {
        assert a == Power2(0);
      } else {
        PowersExactly(a / 2);
        var k: nat :| a / 2 == Power2(k);
        assert a == Power2(k + 1);
      }
    }
  }

  lemma {:induction false} PowerDivides(a: nat, b: nat)
    requires IsPowerOfTwo(a) && IsPowerOfTwo(b) && a <= b
    ensures Aligned(b, a)
  {
    if a == 1 {
      AlignedOne(b);
    } else if b > 1 {
      PowerDivides(a / 2, b / 2);
      AlignedDouble(b / 2, a / 2);
    }
  }

  lemma {:induction false} AlignedOne(b: nat)
    ensures Aligned(b, 1)
  {
    if b > 0 {
      AlignedOne(b - 1);
    }
  }

  lemma {:induction false} AlignedDouble(b: nat, a: nat)
    requires a > 0
    ensures Down(2 * b, 2 * a) == 2 * Down(b, a)
  {
    if b >= a {
      AlignedDouble(b - a, a);
    }
  }

  /** The alignment of a loadable segment counts if it is a power of two, or zero. */
  predicate Counts(p: Phdr) {
    p.kind == Load && (p.align == 0 || IsPowerOfTwo(p.align))
  }

  /** The greatest alignment that counts, the page at least. */
  method GetMaximumAlignment(table: seq<Phdr>, page: nat) returns (max: nat)
    ensures max >= page
    ensures forall i :: 0 <= i < |table| && table[i].kind == Load && PowerOfTwo(table[i].align) ==>
              table[i].align <= max
    ensures max == page || exists i :: 0 <= i < |table| && table[i].kind == Load
                                       && PowerOfTwo(table[i].align) && table[i].align == max
  {
    forall i | 0 <= i < |table|
      ensures IsPowerOfTwo(table[i].align) <==> PowerOfTwo(table[i].align)
    {
      PowersExactly(table[i].align);
    }
    max := page;
    for i := 0 to |table|
      invariant max >= page && forall k :: 0 <= k < i && Counts(table[k]) ==> table[k].align <= max
      invariant max == page || exists k :: 0 <= k < i && Counts(table[k]) && table[k].align == max
    {
      if Counts(table[i]) && table[i].align > max {
        max := table[i].align;
      }
    }
  }

  /** The least alignment above one that counts, the page at most. */
  method GetMinimumAlignment(table: seq<Phdr>, page: nat) returns (min: nat)
    ensures min == LeastAlignment(table, page) <= page
    ensures forall i | 0 <= i < |table| && table[i].kind == Load && PowerOfTwo(table[i].align) && table[i].align > 1 ::
              min <= table[i].align
    ensures min == page || exists i :: 0 <= i < |table| && table[i].kind == Load
                                       && PowerOfTwo(table[i].align) && 1 < table[i].align == min
  {
    forall i | 0 <= i < |table|
      ensures IsPowerOfTwo(table[i].align) <==> PowerOfTwo(table[i].align)
    {
      PowersExactly(table[i].align);
    }
    min := page;
    for i := 0 to |table|
      invariant min == LeastAlignment(table[..i], page) <= page
      invariant forall k :: 0 <= k < i && Counts(table[k]) && table[k].align > 1 ==> min <= table[k].align
      invariant min == page || exists k :: 0 <= k < i && Counts(table[k]) && 1 < table[k].align == min
    {
      assert table[..i + 1][..i] == table[..i];
      if Counts(table[i]) && table[i].align > 1 && table[i].align < min {
        min := table[i].align;
      }
    }
    assert table[..|table|] == table;
  }

  function LeastAlignment(table: seq<Phdr>, page: nat): nat {
    if table == [] then page
    else
      var low, p := LeastAlignment(table[..|table| - 1], page), table[|table| - 1];
      if Counts(p) && p.align > 1 && p.align < low then p.align else low
  }

  lemma {:induction false} LeastAlignmentIs(table: seq<Phdr>, page: nat)
    ensures LeastAlignment(table, page) >= page <==>
              forall i :: 0 <= i < |table| && Counts(table[i]) && table[i].align > 1 ==> table[i].align >= page
    ensures LeastAlignment(table, page) <= page
  {
    if table != [] {
      LeastAlignmentIs(table[..|table| - 1], page);
      assert forall i :: 0 <= i < |table| - 1 ==> table[i] == table[..|table| - 1][i];
    }
  }

  /** A loadable segment asks for alignment to less than a page, and to more than a byte. */
  ghost predicate AsksForLess(table: seq<Phdr>, page: nat) {
    exists i :: 0 <= i < |table| && table[i].kind == Load && PowerOfTwo(table[i].align) && 1 < table[i].align < page
  }

  lemma LessExactly(table: seq<Phdr>, page: nat)
    ensures LeastAlignment(table, page) < page <==> AsksForLess(table, page)
  {
    LeastAlignmentIs(table, page);
    forall i | 0 <= i < |table|
      ensures IsPowerOfTwo(table[i].align) <==> PowerOfTwo(table[i].align)
    {
      PowersExactly(table[i].align);
    }
  }

  /** The range reaches no further than segments do: its ends are the pages where one starts and one ends. */
  lemma RangeIsTight(table: seq<Phdr>, page: nat)
    requires 0 < page <= LIMIT && NoWrap(table, page)
    ensures (exists i :: 0 <= i < |table| && table[i].kind == Load) ==>
              && (exists i :: 0 <= i < |table| && table[i].kind == Load
                    && MinVaddr(table, page) == Down(table[i].vaddr, page))
              && exists i :: 0 <= i < |table| && table[i].kind == Load
                   && MaxVaddr(table, page) == Up(table[i].vaddr + table[i].memsz, page)
    ensures (forall i :: 0 <= i < |table| ==> table[i].kind != Load) ==>
              MinVaddr(table, page) == 0 && MaxVaddr(table, page) == 0
    ensures LoadSize(table, page, false) == MaxVaddr(table, page) - MinVaddr(table, page)
    ensures LoadSize(table, page, true) == MaxVaddr(table, page) - MinVaddr(table, page) + page
  {
    if exists i :: 0 <= i < |table| && table[i].kind == Load {
      var low := LeastReached(table);
      var high := GreatestReached(table, page);
      NoWrapEnd(table[high].vaddr + table[high].memsz, page);
      Spans(table, page, low);
    } else {
      NothingToLoad(table);
      NoWrapEnd(0, page);
      UpLeast(0, 0, page);
    }
  }

  lemma {:induction false} LeastReached(table: seq<Phdr>) returns (i: nat)
    requires exists k :: 0 <= k < |table| && table[k].kind == Load
    ensures i < |table| && table[i].kind == Load && Least(table) == table[i].vaddr
  {
    var n := |table| - 1;
    if exists k :: 0 <= k < n && table[..n][k].kind == Load {
      i := LeastReached(table[..n]);
      if table[n].kind == Load && table[n].vaddr < Least(table[..n]) {
        i := n;
      }
    } else {
      NothingToLoad(table[..n]);
      assert forall k :: 0 <= k < n ==> table[k] == table[..n][k];
      i := n;
    }
  }

  lemma {:induction false} GreatestReached(table: seq<Phdr>, page: nat) returns (i: nat)
    requires exists k :: 0 <= k < |table| && table[k].kind == Load
    requires page > 0 && NoWrap(table, page)
    ensures i < |table| && table[i].kind == Load && Greatest(table) == table[i].vaddr + table[i].memsz
  {
    var n := |table| - 1;
    assert forall k :: 0 <= k < n ==> table[k] == table[..n][k];
    if exists k :: 0 <= k < n && table[..n][k].kind == Load {
      i := GreatestReached(table[..n], page);
      if table[n].kind == Load && Add64(table[n].vaddr, table[n].memsz) > Greatest(table[..n]) {
        i := n;
      }
    } else {
      NothingToLoad(table[..n]);
      i := n;
    }
  }

  lemma {:induction false} NothingToLoad(table: seq<Phdr>)
    requires forall k :: 0 <= k < |table| ==> table[k].kind != Load
    ensures Least(table) == LIMIT - 1 && Greatest(table) == 0
  {
    if table != [] {
      NothingToLoad(table[..|table| - 1]);
    }
  }

  lemma {:induction false} Halve(a: nat, k: nat)
    requires a == Power2(k)
    ensures IsPowerOfTwo(a) && a > 0
  {
    if k > 0 {
      Halve(a / 2, k - 1);
    }
  }

  lemma LimitIsPower()
    ensures IsPowerOfTwo(LIMIT)
  {
    assert Power2(8) == 256;
    Power2Add(8, 8);
    Power2Add(16, 16);
    Power2Add(32, 32);
    Halve(LIMIT, 64);
  }

  lemma LimitAligned(page: nat)
    requires IsPowerOfTwo(page) && page <= LIMIT
    ensures Aligned(LIMIT, page)
  {
    LimitIsPower();
    PowerDivides(page, LIMIT);
  }

  lemma DifferenceAligned(a: u64, b: u64, page: nat)
    requires IsPowerOfTwo(page) && page <= LIMIT && Aligned(a, page) && Aligned(b, page)
    ensures Aligned(Sub64(a, b), page)
  {
    LimitAligned(page);
    if a >= b {
      AlignedDifference(b, a, page);
    } else {
      AlignedSum(a, LIMIT, page);
      AlignedDifference(b, a + LIMIT, page);
    }
  }

  lemma BoundsAligned(table: seq<Phdr>, page: nat)
    requires 0 < page <= LIMIT
    ensures Aligned(MinVaddr(table, page), page) && Aligned(MaxVaddr(table, page), page)
  {
    DownBounds(Add64(Greatest(table), page - 1), page);
    DownBounds(Least(table), page);
  }

  /** The size to load is whole pages, whatever the table holds. */
  lemma LoadSizeAligned(table: seq<Phdr>, page: nat)
    requires IsPowerOfTwo(page) && page <= LIMIT
    ensures Aligned(Sub64(MaxVaddr(table, page), MinVaddr(table, page)), page)
  {
    BoundsAligned(table, page);
    DifferenceAligned(MaxVaddr(table, page), MinVaddr(table, page), page);
  }
}
