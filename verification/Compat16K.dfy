/**
 * Loading files laid out for 4 KiB pages on a system with larger pages: one boundary between RX and RW, moved to a
 * page.
 */
module Compat16K {
  import opened Powers
  import opened Options
  import opened Words
  import opened Pages
  import opened ProgramHeaders

  const COMPAT_PAGE: nat := 0x1000

  /** Refused; a null dereference; or the address where the writable part starts. */
  datatype Eligibility = No | Crash | Yes(boundary: u64)

  predicate IsRw(p: Phdr) {
    p.kind == Load && p.writable && p.readable
  }

  ghost predicate SingleRelro(table: seq<Phdr>) {
    forall i, j :: 0 <= i < j < |table| ==> !(table[i].kind == GnuRelro && table[j].kind == GnuRelro)
  }

  /** The RW segments are next to each other in the table. */
  ghost predicate Adjacent(table: seq<Phdr>) {
    forall i, k, j {:trigger table[i], table[k], table[j]} ::
      0 <= i < k < j < |table| && IsRw(table[i]) && IsRw(table[j]) ==> IsRw(table[k])
  }

  /** Index of the first RW segment, and of the RELRO entry; the table's length if there is none. */
  function FirstRw(table: seq<Phdr>): (n: nat)
    ensures n <= |table| && (n < |table| ==> IsRw(table[n]))
    ensures forall k {:trigger table[k]} :: 0 <= k < n ==> !IsRw(table[k])
  {
    if table == [] then 0
    else
      var n := FirstRw(table[..|table| - 1]);
      if n < |table| - 1 || IsRw(table[|table| - 1]) then n else |table|
  }

  function Relro(table: seq<Phdr>): (n: nat)
    ensures n <= |table| && (n < |table| ==> table[n].kind == GnuRelro)
    ensures forall k :: 0 <= k < n ==> table[k].kind != GnuRelro
  {
    if table == [] then 0
    else
      var n := Relro(table[..|table| - 1]);
      if n < |table| - 1 || table[|table| - 1].kind == GnuRelro then n else |table|
  }

  method HasAtMostOneRelro(table: seq<Phdr>) returns (ok: bool, relro: Option<Phdr>)
    ensures ok <==> SingleRelro(table)
    ensures ok ==> relro == if Relro(table) < |table| then Some(table[Relro(table)]) else None
  {
    relro := None;
    ghost var at := 0;
    for i := 0 to |table|
      invariant SingleRelro(table[..i])
      invariant relro.None? ==> forall k :: 0 <= k < i ==> table[k].kind != GnuRelro
      invariant relro.Some? ==> at < i && table[at].kind == GnuRelro && relro.value == table[at]
    {
      if table[i].kind != GnuRelro {
        continue;
      }
      if relro.Some? {
        return false, relro;
      }
      relro, at := Some(table[i]), i;
    }
    assert table[..|table|] == table;
    return true, relro;
  }

  /** In words: what the file is refused for, what is missed, and where the boundary goes. */
  ghost predicate Judged(table: seq<Phdr>, r: Eligibility) {
    var rw, relro := FirstRw(table), Relro(table);
    if !SingleRelro(table) || !Adjacent(table) then r == No
    else if relro == |table| then
      r == if rw == |table| then Crash else Yes(Start64(table[rw].vaddr, COMPAT_PAGE))
    else if rw == |table| || table[rw].vaddr != table[relro].vaddr then r == No
    else if table[relro].vaddr + table[relro].memsz >= LIMIT then r == No
    else r == Yes(End64(table[relro].vaddr + table[relro].memsz, COMPAT_PAGE))
  }

  method IsEligible(table: seq<Phdr>) returns (r: Eligibility)
    ensures Judged(table, r)
  {
    var single, relro := HasAtMostOneRelro(table);
    if !single {
      return No;
    }
    var first, last: nat := |table|, |table|;
    for i := 0 to |table|
      invariant 0 <= first <= |table| && (first == |table| <==> last == |table|)
      invariant first == |table| ==> forall k {:trigger table[k]} :: 0 <= k < i ==> !IsRw(table[k])
      invariant first < |table| ==> first <= last < i
      invariant first < |table| ==>
                  forall k {:trigger table[k]} :: 0 <= k < i ==> (IsRw(table[k]) <==> first <= k <= last)
    {
      if IsRw(table[i]) {
        if first == |table| {
          first := i;
        }
        if last < |table| && last != i - 1 {
          assert IsRw(table[last]) && !IsRw(table[last + 1]) && IsRw(table[i]);
          return No;
        }
        last := i;
      }
    }
    ghost var n := FirstRw(table);
    assert n < |table| ==> IsRw(table[n]);
    assert first < |table| ==> IsRw(table[first]);
    assert first == n;
    if relro.None? {
      return if first == |table| then Crash else Yes(Start64(table[first].vaddr, COMPAT_PAGE));
    }
    if first == |table| || table[first].vaddr != relro.value.vaddr {
      return No;
    }
    if relro.value.vaddr + relro.value.memsz >= LIMIT {
      return No;
    }
    return Yes(End64(relro.value.vaddr + relro.value.memsz, COMPAT_PAGE));
  }

  /** How far an address has to move to be on a page. */
  function PermBoundaryOffset(address: u64, page: nat): (shift: u64)
    requires 0 < page <= LIMIT
    ensures shift < page
  {
    DownBounds(address, page);
    var offset := address - Down(address, page);
    if offset > 0 then page - offset else 0
  }

  /** Moved that far it is on the next page boundary. */
  lemma ShiftedToPage(address: u64, page: nat)
    requires 0 < page <= LIMIT
    ensures address + PermBoundaryOffset(address, page) == Up(address, page)
    ensures Aligned(address + PermBoundaryOffset(address, page), page)
  {
    DownBounds(address, page);
    UpBounds(address, page);
    var d := Down(address, page);
    AlignedSum(d, page, page);
    if address > d {
      UpLeast(d + page, address, page);
      NextPage(d, Up(address, page), page);
    } else {
      UpAligned(address, page);
    }
  }

  /** The boundary moved up to a page. */
  function BoundaryPage(boundary: u64, page: nat): u64
    requires 0 < page <= LIMIT
  {
    Add64(boundary, PermBoundaryOffset(boundary, page))
  }

  /** The writable part starts this far into the reservation, as the source computes it. */
  function RwOffset(boundary: u64, minVaddr: u64, page: nat): u64
    requires 0 < page <= LIMIT
  {
    Sub64(BoundaryPage(boundary, page), minVaddr)
  }

  /** The bias places the boundary on a page of the reservation, wherever that is. */
  lemma BoundaryPlaced(boundary: u64, minVaddr: u64, loadStart: u64, bias: u64, page: nat)
    requires IsPowerOfTwo(page) && page <= LIMIT && Aligned(minVaddr, page) && Aligned(loadStart, page)
    requires Add64(minVaddr, bias) == loadStart
    ensures Add64(Add64(bias, PermBoundaryOffset(boundary, page)), boundary)
              == Add64(loadStart, RwOffset(boundary, minVaddr, page))
    ensures Aligned(Add64(loadStart, RwOffset(boundary, minVaddr, page)), page)
    ensures Aligned(RwOffset(boundary, minVaddr, page), page)
  {
    var shift := PermBoundaryOffset(boundary, page);
    ShiftedToPage(boundary, page);
    SumAligned(boundary, shift, page);
    var offset := RwOffset(boundary, minVaddr, page);
    DifferenceAligned(Add64(boundary, shift), minVaddr, page);
    AlignedSum(loadStart, offset, page);
    SumAligned(loadStart, offset, page);
    Rearranged(minVaddr, bias, loadStart, shift, boundary);
  }

  lemma Rearranged(min: u64, bias: u64, start: u64, shift: u64, boundary: u64)
    requires Add64(min, bias) == start
    ensures Add64(Add64(bias, shift), boundary) == Add64(start, Sub64(Add64(boundary, shift), min))
  {
  }

  lemma SumAligned(a: u64, b: u64, page: nat)
    requires IsPowerOfTwo(page) && page <= LIMIT && Aligned(a + b, page)
    ensures Aligned(Add64(a, b), page)
  {
    LimitAligned(page);
    if a + b >= LIMIT {
      AlignedDifference(LIMIT, a + b, page);
    }
  }

  /** The two parts share out the reservation, neither outside it. */
  ghost predicate Partition(loadStart: u64, loadSize: u64, rwStart: u64, rwSize: u64, relroSize: u64) {
    loadStart <= rwStart && rwStart + rwSize == loadStart + loadSize && relroSize == rwStart - loadStart
  }

  lemma PartitionBySize(loadStart: u64, loadSize: u64, offset: u64)
    requires loadStart + loadSize < LIMIT
    ensures var rwStart := Add64(loadStart, offset);
            var rwSize := Sub64(loadSize, Sub64(rwStart, loadStart));
            Partition(loadStart, loadSize, rwStart, rwSize, Sub64(loadSize, rwSize)) <==> offset <= loadSize
  {
  }

  /** What the source computes from the boundary are the two parts of the reservation. */
  ghost predicate SharesOut(table: seq<Phdr>, boundary: u64, loadStart: u64, page: nat)
    requires 0 < page <= LIMIT && loadStart + LoadSize(table, page, true) < LIMIT
  {
    var loadSize: u64 := LoadSize(table, page, true);
    var rwStart := Add64(loadStart, RwOffset(boundary, MinVaddr(table, page), page));
    var rwSize := Sub64(loadSize, Sub64(rwStart, loadStart));
    Partition(loadStart, loadSize, rwStart, rwSize, Sub64(loadSize, rwSize))
  }

  /** For every table, whatever wraps: they are if and only if the boundary's page is not past the load size. */
  lemma SharesOutBySize(table: seq<Phdr>, boundary: u64, loadStart: u64, page: nat)
    requires 0 < page <= LIMIT && loadStart + LoadSize(table, page, true) < LIMIT
    ensures SharesOut(table, boundary, loadStart, page) <==>
              Sub64(BoundaryPage(boundary, page), MinVaddr(table, page)) <= LoadSize(table, page, true)
  {
    PartitionBySize(loadStart, LoadSize(table, page, true), RwOffset(boundary, MinVaddr(table, page), page));
  }

  /**
   * For every accepted table they are if and only if the boundary's page is neither below the lowest segment's page
   * nor more than a page past the highest segment's end.
   */
  lemma PartitionExactly(table: seq<Phdr>, boundary: u64, loadStart: u64, page: nat)
    requires 0 < page <= LIMIT / 4 && NoWrap(table, 2 * page) && Judged(table, Yes(boundary))
    requires loadStart + LoadSize(table, page, true) < LIMIT
    ensures SharesOut(table, boundary, loadStart, page) <==>
              MinVaddr(table, page) <= BoundaryPage(boundary, page) <= MaxVaddr(table, page) + page
  {
    SharesOutBySize(table, boundary, loadStart, page);
    Spans(table, page, FirstRw(table));
    GreatestFits(table, 2 * page);
    UpBounds(Greatest(table), page);
    NoWrapEnd(Greatest(table), page);
  }

  /** Below the end of the address space, the boundary's page is the boundary rounded up. */
  lemma BoundaryRoundsUp(boundary: u64, page: nat)
    requires 0 < page <= LIMIT && boundary + page <= LIMIT
    ensures BoundaryPage(boundary, page) == Up(boundary, page)
  {
    ShiftedToPage(boundary, page);
    UpBounds(boundary, page);
  }

  /** The RELRO entry, which must start its segment, also ends in it. */
  ghost predicate RelroInside(table: seq<Phdr>) {
    Relro(table) < |table| && FirstRw(table) < |table| ==>
      table[Relro(table)].vaddr + table[Relro(table)].memsz <= table[FirstRw(table)].vaddr + table[FirstRw(table)].memsz
  }

  /**
   * When RELRO ends in its segment, the boundary lies inside what is reserved, and nothing is past it but RW
   * segments' pages.
   */
  lemma BoundaryInside(table: seq<Phdr>, boundary: u64, page: nat)
    requires 0 < page <= LIMIT / 4 && COMPAT_PAGE <= page && Aligned(page, COMPAT_PAGE) && NoWrap(table, 2 * page)
    requires Judged(table, Yes(boundary)) && RelroInside(table)
    ensures MinVaddr(table, page) <= boundary && Up(boundary, page) <= MaxVaddr(table, page)
    ensures RwOffset(boundary, MinVaddr(table, page), page) <= Sub64(MaxVaddr(table, page), MinVaddr(table, page))
  {
    BoundaryIs(table, boundary);
    var p := table[FirstRw(table)];
    BoundaryInSegment(table, boundary);
    Spans(table, page, FirstRw(table));
    ShiftedToPage(boundary, page);
    CoarserDown(p.vaddr, page);
    UpMonotone(boundary, Up(p.vaddr + p.memsz, COMPAT_PAGE), page);
    CoarserUp(p.vaddr + p.memsz, p.vaddr + p.memsz, page);
    UpBounds(boundary, page);
    DownBounds(p.vaddr, page);
  }

  /** Something to execute or to read only: a segment that is loaded, and not RW. */
  ghost predicate IsRx(p: Phdr) {
    p.kind == Load && !IsRw(p) && p.memsz > 0
  }

  /** Such a segment ends before the boundary if it stands before the RW segments, and starts behind it otherwise. */
  lemma SideOfBoundary(table: seq<Phdr>, boundary: u64, i: nat)
    requires NoWrap(table, COMPAT_PAGE) && Ascending(table, COMPAT_PAGE)
    requires Judged(table, Yes(boundary)) && RelroInside(table) && i < |table| && IsRx(table[i])
    ensures i < FirstRw(table) ==> EndsBefore(table[i], boundary)
    ensures i >= FirstRw(table) ==> boundary <= Down(table[i].vaddr, COMPAT_PAGE)
  {
    BoundaryIs(table, boundary);
    BoundaryInSegment(table, boundary);
    assert table[FirstRw(table)].kind == Load;
  }

  /** The boundary lies in the pages of the first RW segment. */
  lemma BoundaryInSegment(table: seq<Phdr>, boundary: u64)
    requires NoWrap(table, COMPAT_PAGE) && BoundaryOf(table, boundary) && RelroInside(table)
    ensures FirstRw(table) < |table|
    ensures Down(table[FirstRw(table)].vaddr, COMPAT_PAGE) <= boundary
    ensures boundary <= Up(table[FirstRw(table)].vaddr + table[FirstRw(table)].memsz, COMPAT_PAGE)
  {
    BoundaryBetweenIn(table, FirstRw(table), Relro(table), boundary);
  }

  lemma BoundaryBetweenIn(table: seq<Phdr>, rw: nat, relro: nat, boundary: u64)
    requires NoWrap(table, COMPAT_PAGE) && rw < |table| && relro <= |table| && table[rw].kind == Load
    requires relro < |table| ==> table[relro].memsz <= table[rw].memsz
    requires boundary == if relro == |table| then Start64(table[rw].vaddr, COMPAT_PAGE)
                         else End64(table[rw].vaddr + table[relro].memsz, COMPAT_PAGE)
    ensures Down(table[rw].vaddr, COMPAT_PAGE) <= boundary
    ensures boundary <= Up(table[rw].vaddr + table[rw].memsz, COMPAT_PAGE)
  {
    BoundaryBetween(table[rw], if relro < |table| then Some(table[relro].memsz) else None, boundary);
  }

  lemma BoundaryBetween(p: Phdr, part: Option<u64>, boundary: u64)
    requires p.vaddr + p.memsz + COMPAT_PAGE <= LIMIT && (part.Some? ==> part.value <= p.memsz)
    requires boundary == if part.None? then Start64(p.vaddr, COMPAT_PAGE) else End64(p.vaddr + part.value, COMPAT_PAGE)
    ensures Down(p.vaddr, COMPAT_PAGE) <= boundary <= Up(p.vaddr + p.memsz, COMPAT_PAGE)
  {
    if part.Some? {
      EndInside(p.vaddr, part.value, p.memsz);
    } else {
      StartInside(p.vaddr, p.memsz);
    }
  }

  lemma StartInside(a: u64, whole: u64)
    ensures Down(a, COMPAT_PAGE) == Start64(a, COMPAT_PAGE) <= Up(a + whole, COMPAT_PAGE)
  {
    DownBounds(a, COMPAT_PAGE);
    UpBounds(a + whole, COMPAT_PAGE);
  }

  lemma BoundaryIs(table: seq<Phdr>, boundary: u64)
    requires Judged(table, Yes(boundary))
    ensures BoundaryOf(table, boundary)
  {
  }

  /** The boundary is on a page of 4 KiB: that of the first RW address, or the first one not below RELRO's end. */
  lemma BoundaryLies(table: seq<Phdr>, boundary: u64, rw: nat)
    requires NoWrap(table, COMPAT_PAGE) && Judged(table, Yes(boundary)) && RelroInside(table)
    requires rw < |table| && table[rw].kind == Load && table[rw].readable && table[rw].writable
    requires forall k :: 0 <= k < rw ==> !(table[k].kind == Load && table[k].readable && table[k].writable)
    ensures boundary % 0x1000 == 0
    ensures (forall k :: 0 <= k < |table| ==> table[k].kind != GnuRelro) ==>
              boundary <= table[rw].vaddr < boundary + 0x1000
    ensures forall k | 0 <= k < |table| && table[k].kind == GnuRelro ::
              table[k].vaddr == table[rw].vaddr
              && boundary - 0x1000 < table[k].vaddr + table[k].memsz <= boundary
  {
    BoundaryIs(table, boundary);
    FirstIs(table, rw);
    var p, relro := table[rw], Relro(table);
    if relro < |table| {
      var end := p.vaddr + table[relro].memsz;
      NoWrapEnd(end, COMPAT_PAGE);
      UpBounds(end, COMPAT_PAGE);
      forall k | 0 <= k < |table| && table[k].kind == GnuRelro
        ensures k == relro
      {
        OneRelro(table, boundary, k);
      }
    }
    DownBounds(p.vaddr, COMPAT_PAGE);
    OnGrain(boundary);
  }

  lemma FirstIs(table: seq<Phdr>, rw: nat)
    requires rw < |table| && table[rw].kind == Load && table[rw].readable && table[rw].writable
    requires forall k :: 0 <= k < rw ==> !(table[k].kind == Load && table[k].readable && table[k].writable)
    ensures FirstRw(table) == rw
  {
    assert IsRw(table[rw]);
  }

  lemma OneRelro(table: seq<Phdr>, boundary: u64, k: nat)
    requires Judged(table, Yes(boundary)) && k < |table| && table[k].kind == GnuRelro
    ensures Relro(table) == k
  {
  }

  lemma OnGrain(a: nat)
    requires Aligned(a, COMPAT_PAGE)
    ensures a % 0x1000 == 0
  {
    DownIsRemainder(a, COMPAT_PAGE);
  }

  /** What is accepted, in the words of the table's own fields. */
  lemma AcceptedExactly(table: seq<Phdr>)
    ensures (exists boundary: u64 :: Judged(table, Yes(boundary))) <==>
              && (forall i, j :: 0 <= i < j < |table| ==> table[i].kind != GnuRelro || table[j].kind != GnuRelro)
              && (forall i, k, j {:trigger table[i], table[k], table[j]} ::
                    0 <= i < k < j < |table| && Rw(table[i]) && Rw(table[j]) ==> Rw(table[k]))
              && (exists i :: FirstRwAt(table, i))
              && forall i, k | FirstRwAt(table, i) && 0 <= k < |table| && table[k].kind == GnuRelro ::
                   table[k].vaddr == table[i].vaddr && table[k].vaddr + table[k].memsz < LIMIT
  {
    var rw, relro := FirstRw(table), Relro(table);
    forall i | FirstRwAt(table, i)
      ensures i == rw
    {
      FirstIs(table, i);
    }
    if rw < |table| {
      assert IsRw(table[rw]) && FirstRwAt(table, rw);
    }
    var boundary: u64 := if rw == |table| then 0 else if relro == |table| then Start64(table[rw].vaddr, COMPAT_PAGE)
      else if table[relro].vaddr + table[relro].memsz < LIMIT
      then End64(table[relro].vaddr + table[relro].memsz, COMPAT_PAGE) else 0;
    if b: u64 :| Judged(table, Yes(b)) {
      forall k | 0 <= k < |table| && table[k].kind == GnuRelro
        ensures k == relro
      {
        OneRelro(table, b, k);
      }
    } else {
      assert !Judged(table, Yes(boundary));
    }
  }

  /** Loadable, readable and writable. */
  ghost predicate Rw(p: Phdr) {
    p.kind == Load && p.readable && p.writable
  }

  ghost predicate FirstRwAt(table: seq<Phdr>, i: int) {
    0 <= i < |table| && Rw(table[i]) && forall k :: 0 <= k < i ==> !Rw(table[k])
  }

  /** Without RELRO the boundary is the page the RW segments start on, with RELRO the page it ends on. */
  ghost predicate BoundaryOf(table: seq<Phdr>, boundary: u64) {
    var rw, relro := FirstRw(table), Relro(table);
    && rw < |table|
    && if relro == |table| then boundary == Start64(table[rw].vaddr, COMPAT_PAGE)
       else table[rw].vaddr == table[relro].vaddr && table[rw].vaddr + table[relro].memsz < LIMIT
            && boundary == End64(table[rw].vaddr + table[relro].memsz, COMPAT_PAGE)
  }

  lemma EndInside(a: u64, part: u64, whole: u64)
    requires part <= whole && a + whole + COMPAT_PAGE <= LIMIT
    ensures Down(a, COMPAT_PAGE) <= a <= End64(a + part, COMPAT_PAGE) <= Up(a + whole, COMPAT_PAGE)
  {
    DownBounds(a, COMPAT_PAGE);
    NoWrapEnd(a + part, COMPAT_PAGE);
    UpBounds(a + part, COMPAT_PAGE);
    UpMonotone(a + part, a + whole, COMPAT_PAGE);
  }

  /** The segment's pages all lie before the boundary. */
  ghost predicate EndsBefore(p: Phdr, boundary: u64) {
    Up(p.vaddr + p.memsz, COMPAT_PAGE) <= boundary
  }

  /** All of them end before the boundary if and only if all of them stand before the RW segments. */
  lemma RxBeforeBoundaryExactly(table: seq<Phdr>, boundary: u64)
    requires NoWrap(table, COMPAT_PAGE) && Ascending(table, COMPAT_PAGE)
    requires Judged(table, Yes(boundary)) && RelroInside(table)
    ensures (forall i :: 0 <= i < |table| && IsRx(table[i]) ==> EndsBefore(table[i], boundary))
            <==> forall i :: 0 <= i < |table| && IsRx(table[i]) ==> i < FirstRw(table)
  {
    forall i | 0 <= i < |table| && IsRx(table[i])
      ensures EndsBefore(table[i], boundary) <==> i < FirstRw(table)
    {
      SideOfBoundary(table, boundary, i);
      NotBothSides(table[i], boundary);
    }
  }

  lemma NotBothSides(p: Phdr, boundary: u64)
    requires p.memsz > 0
    ensures !(EndsBefore(p, boundary) && boundary <= Down(p.vaddr, COMPAT_PAGE))
  {
    DownBounds(p.vaddr, COMPAT_PAGE);
    UpBounds(p.vaddr + p.memsz, COMPAT_PAGE);
  }

  /** Then the RX part and the RW part share out the reservation, and the RW part is a page at least. */
  lemma PartsShareOut(table: seq<Phdr>, boundary: u64, loadStart: u64, page: nat)
    requires 0 < page <= LIMIT / 4 && COMPAT_PAGE <= page && Aligned(page, COMPAT_PAGE) && NoWrap(table, 2 * page)
    requires Judged(table, Yes(boundary)) && RelroInside(table) && loadStart + LoadSize(table, page, true) < LIMIT
    ensures SharesOut(table, boundary, loadStart, page)
    ensures RwOffset(boundary, MinVaddr(table, page), page) + page <= LoadSize(table, page, true)
  {
    BoundaryInside(table, boundary, page);
    SharesOutBySize(table, boundary, loadStart, page);
    GreatestFits(table, 2 * page);
    NoWrapEnd(Greatest(table), page);
    UpBounds(Greatest(table), page);
  }

  lemma CoarserDown(a: nat, page: nat)
    requires COMPAT_PAGE <= page && Aligned(page, COMPAT_PAGE)
    ensures Down(a, page) <= Down(a, COMPAT_PAGE)
  {
    DownBounds(a, page);
    PagesOf(Down(a, page), page, COMPAT_PAGE);
    DownGreatest(Down(a, page), a, COMPAT_PAGE);
  }

  lemma CoarserUp(a: nat, b: nat, page: nat)
    requires COMPAT_PAGE <= page && Aligned(page, COMPAT_PAGE) && a <= b
    ensures Up(Up(a, COMPAT_PAGE), page) <= Up(b, page)
  {
    UpBounds(b, page);
    PagesOf(Up(b, page), page, COMPAT_PAGE);
    UpLeast(Up(b, page), a, COMPAT_PAGE);
    UpLeast(Up(b, page), Up(a, COMPAT_PAGE), page);
  }

  /** One RW page whose RELRO entry claims sixteen: accepted, and the parts do not share out the reservation. */
  lemma OversizedRelro()
    ensures exists table: seq<Phdr>, boundary: u64 ::
              && Judged(table, Yes(boundary)) && NoWrap(table, 0x8000) && LoadSize(table, 0x4000, true) < LIMIT
              && !SharesOut(table, boundary, 0, 0x4000)
  {
    var p := Phdr(Load, true, true, false, 0, 0, 0x1000, 0x1000, 0x1000);
    var q := Phdr(GnuRelro, true, false, false, 0, 0, 0x1000, 0x1_0000, 0x1000);
    OnPages(0x1_0000);
    TwoHeaders(p, q, 0x1_0000, 0x4000);
    assert NoWrap([p, q], 0x8000);
    SharesOutBySize([p, q], 0x1_0000, 0, 0x4000);
  }

  lemma TwoHeaders(p: Phdr, q: Phdr, end: u64, page: nat)
    requires COMPAT_PAGE <= page && page + page < end && end + page < LIMIT
    requires IsRw(p) && p.vaddr == 0 && p.memsz <= page && q.kind == GnuRelro && q.vaddr == 0 && q.memsz == end
    requires Aligned(end, COMPAT_PAGE) && Aligned(end, page) && Aligned(page, page)
    ensures Judged([p, q], Yes(end)) && MinVaddr([p, q], page) == 0 && MaxVaddr([p, q], page) <= page
    ensures RwOffset(end, 0, page) == end
  {
    var table := [p, q];
    assert table[..1] == [p] && [p][..0] == [];
    assert FirstRw([p]) == 0 && FirstRw(table) == 0 && Relro([p]) == 1 && Relro(table) == 1;
    UpAligned(end, COMPAT_PAGE);
    NoWrapEnd(end, COMPAT_PAGE);
    assert Least(table) == Least([p]) == 0 && Greatest(table) == Greatest([p]) == p.memsz;
    assert table[0].kind == Load;
    NoWrapEnd(p.memsz, page);
    UpLeast(page, p.memsz, page);
    ShiftedToPage(end, page);
    UpAligned(end, page);
  }

  lemma OnPages(end: nat)
    requires end == 0x1_0000
    ensures Aligned(end, COMPAT_PAGE) && Aligned(end, 0x4000) && Aligned(0x4000, 0x4000)
  {
    assert Power2(6) == 64 && Power2(2) == 4;
    Power2Add(6, 6);
    Power2Add(12, 2);
    Power2Add(14, 2);
    Halve(COMPAT_PAGE, 12);
    Halve(0x4000, 14);
    Halve(end, 16);
    PowerDivides(COMPAT_PAGE, end);
    PowerDivides(0x4000, end);
    PowerDivides(0x4000, 0x4000);
  }

  /** Code behind the data is accepted too, though it ends up in the part that is writable and not executable. */
  lemma CodeAfterData()
    ensures exists table: seq<Phdr>, boundary: u64 ::
              && Judged(table, Yes(boundary)) && |table| == 2 && table[1].kind == Load && table[1].executable
              && !table[1].writable && table[1].memsz > 0 && boundary <= table[0].vaddr < table[1].vaddr
  {
    var p := Phdr(Load, true, true, false, 0, 0, 0x1000, 0x1000, 0x1000);
    var q := Phdr(Load, true, false, true, 0x1000, 0x1000, 0x1000, 0x1000, 0x1000);
    var table := [p, q];
    assert table[..1] == [p] && [p][..0] == [];
    assert FirstRw([p]) == 0 && FirstRw(table) == 0 && Relro([p]) == 1 && Relro(table) == 2;
    assert Judged(table, Yes(0));
  }

  /** A table with code only: the source looks at the first RW segment, which there is not. */
  lemma NullForCodeOnly()
    ensures exists table: seq<Phdr> ::
              |table| == 1 && table[0].kind == Load && table[0].executable && Judged(table, Crash)
  {
    var p := Phdr(Load, true, false, true, 0, 0, 0x1000, 0x1000, 0x1000);
    var table := [p];
    assert table[..0] == [];
    assert FirstRw(table) == 1 && Relro(table) == 1;
    assert Judged(table, Crash);
  }
}
