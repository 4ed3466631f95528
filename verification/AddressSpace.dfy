/** Reserving address space for a library: aligned, randomly placed, and sometimes followed by an inaccessible gap. */
module AddressSpace {
  import opened Powers
  import opened Options
  import opened Words
  import opened Pages
  import opened ProgramHeaders

  const GAP_ALIGNMENT: nat := 0x20_0000
  const LIBRARY_ALIGNMENT: nat := 0x4_0000

  /** Which addresses are mapped. */
  type Space = nat -> bool

  function Map(s: Space, at: nat, n: nat): Space {
    (x: nat) => s(x) || at <= x < at + n
  }

  function Unmap(s: Space, at: nat, n: nat): Space {
    (x: nat) => s(x) && !(at <= x < at + n)
  }

  /** The kernel keeps the upper half of the address space for itself. */
  const USER_END: nat := 0x8000_0000_0000_0000

  /** Where the kernel may put a mapping of n bytes: on a page, over nothing, in the lower half of the address space. */
  ghost predicate Grants(s: Space, ptr: Option<nat>, n: nat, page: nat)
    requires page > 0
  {
    ptr.Some? ==>
      && Aligned(ptr.value, page) && ptr.value + n <= USER_END
      && forall x: nat :: ptr.value <= x < ptr.value + n ==> !s(x)
  }

  /** The three numbers are powers of two, none below a page. */
  predicate Alignments(mapping: nat, start: nat, page: nat) {
    IsPowerOfTwo(page) && IsPowerOfTwo(mapping) && IsPowerOfTwo(start) && page <= mapping && page <= start
      && page <= GAP_ALIGNMENT
  }

  function Max(a: nat, b: nat): nat { if a < b then b else a }

  /** What is asked of mmap, for the region, the gap, and room to move both to an alignment. */
  function Asked(size: nat, gap: nat, align: nat, page: nat): nat
    requires align >= page > 0
  {
    Up(size + gap, align) + align - page
  }

  /** The first place for the region, and the end of the last. */
  function First(ptr: nat, align: nat): nat
    requires align > 0
  {
    Up(ptr, align)
  }

  function GapEnd(end: nat, gap: nat): nat {
    if gap > 0 then Down(end, GAP_ALIGNMENT) else end
  }

  /** The last end the region can have, in front of the gap. */
  function Last(end: nat, gap: nat, align: nat): nat
    requires align > 0
  {
    if gap <= GapEnd(end, gap) then Down(GapEnd(end, gap) - gap, align) else 0
  }

  /** The region and the gap can be rounded up apart without taking more than both together. */
  predicate Roomy(size: nat, gap: nat, align: nat)
    requires align > 0
  {
    Up(size, align) + gap <= Up(size + gap, align)
  }

  /** With a gap made of whole alignment units, as the loader asks for, there always is room. */
  lemma WholeUnitsAreRoomy(size: nat, gap: nat, align: nat)
    requires align > 0 && Aligned(gap, align)
    ensures Roomy(size, gap, align)
  {
    UpShift(gap, size, align);
  }

  lemma PageUp(ptr: nat, align: nat, page: nat)
    requires align >= page > 0 && Aligned(ptr, page) && Aligned(align, page)
    ensures Up(ptr, align) + page <= ptr + align
  {
    UpBounds(ptr, align);
    PagesOf(Up(ptr, align), align, page);
    if Up(ptr, align) + page > ptr + align {
      AlignedSum(ptr, align, page);
      NextPage(Up(ptr, align), ptr + align, page);
    }
  }

  /** The region fits between the first place and the gap, wherever the kernel put the mapping, if there is room. */
  lemma RoomForRegion(ptr: nat, size: nat, gap: nat, align: nat, page: nat)
    requires align >= page > 0 && Aligned(ptr, page) && Aligned(align, page)
    requires Aligned(align, GAP_ALIGNMENT) || gap == 0
    requires Aligned(gap, GAP_ALIGNMENT) && Roomy(size, gap, align)
    ensures First(ptr, align) + size <= Last(ptr + Asked(size, gap, align, page), gap, align)
    ensures gap <= GapEnd(ptr + Asked(size, gap, align, page), gap)
  {
    var end := ptr + Asked(size, gap, align, page);
    var first, both := First(ptr, align), Up(size + gap, align);
    PageUp(ptr, align, page);
    UpBounds(ptr, align);
    UpBounds(size, align);
    UpBounds(size + gap, align);
    AlignedSum(first, both, align);
    assert first + both <= end;
    if gap > 0 {
      PagesOf(first + both, align, GAP_ALIGNMENT);
      DownGreatest(first + both, end, GAP_ALIGNMENT);
    }
    assert first + Up(size, align) + gap <= first + both <= GapEnd(end, gap);
    AlignedSum(first, Up(size, align), align);
    DownGreatest(first + Up(size, align), GapEnd(end, gap) - gap, align);
  }

  /**
   * There is room wherever the kernel puts the mapping exactly when the rounded region and the gap fit what is
   * asked.
   */
  lemma RoomExactly(size: nat, gap: nat, align: nat, page: nat)
    requires align >= page > 0 && Aligned(align, page) && page <= GAP_ALIGNMENT && Aligned(GAP_ALIGNMENT, page)
    requires gap > 0 && Aligned(align, GAP_ALIGNMENT) && Aligned(gap, GAP_ALIGNMENT) && Aligned(size, page)
    ensures Roomy(size, gap, align) <==> forall at: nat {:trigger First(at, align)} | Aligned(at, page) ::
              First(at, align) + size <= Last(at + Asked(size, gap, align, page), gap, align)
  {
    if Roomy(size, gap, align) {
      forall at: nat | Aligned(at, page)
        ensures First(at, align) + size <= Last(at + Asked(size, gap, align, page), gap, align)
      {
        RoomForRegion(at, size, gap, align, page);
      }
    } else {
      NoRoomForRegion(0, size, gap, align, page);
    }
  }

  /** One page, a gap of 2 MiB, and an alignment of 4 MiB. */
  lemma NoRoomForOnePage()
    ensures !Roomy(0x1000, 0x20_0000, 0x40_0000)
  {
  }

  /** Without room the kernel can put the mapping where the region does not fit. */
  lemma NoRoomForRegion(ptr: nat, size: nat, gap: nat, align: nat, page: nat)
    requires align >= page > 0 && Aligned(ptr, align) && Aligned(align, page)
    requires gap > 0 && Aligned(align, GAP_ALIGNMENT) && Aligned(gap, GAP_ALIGNMENT) && Aligned(size, page)
    requires !Roomy(size, gap, align)
    requires page <= GAP_ALIGNMENT && Aligned(GAP_ALIGNMENT, page)
    ensures exists at: nat {:trigger First(at, align)} ::
              && Aligned(at, page)
              && First(at, align) + size > Last(at + Asked(size, gap, align, page), gap, align)
  {
    var at := ptr + page;
    var both := Up(size + gap, align);
    var end := at + Asked(size, gap, align, page);
    PagesOf(ptr, align, page);
    AlignedSum(ptr, page, page);
    UpBounds(at, align);
    UpBounds(size, align);
    UpBounds(size + gap, align);
    AlignedSum(ptr, align, align);
    UpLeast(ptr + align, at, align);
    UpShift(ptr, page, align);
    UpLeast(align, page, align);
    AlignedSum(ptr + align, both, align);
    assert end == ptr + align + both;
    PagesOf(end, align, GAP_ALIGNMENT);
    DownBounds(end - gap, align);
    var low := Down(end - gap, align);
    if First(at, align) + size <= low {
      AlignedDifference(ptr + align, low, align);
      UpLeast(low - (ptr + align), size, align);
    }
  }

  lemma {:induction false} MultipleAligned(n: nat, align: nat)
    requires align > 0
    ensures Aligned(n * align, align)
  {
    if n > 0 {
      MultipleAligned(n - 1, align);
      AlignedSum(align, (n - 1) * align, align);
      assert n * align == align + (n - 1) * align;
    }
  }

  lemma StepsFit(n: nat, room: nat, align: nat)
    requires align > 0 && n <= room / align
    ensures n * align <= room
  {
    assert room / align * align <= room;
    LessTimes(n, room / align, align);
  }

  lemma LessTimes(n: nat, m: nat, align: nat)
    requires n <= m
    ensures n * align <= m * align
  {
  }

  /** A region in steps of startAlign between the first place and the gap lies as promised. */
  lemma RegionInside(ptr: nat, offset: nat, size: nat, gapStart: nat, align: nat, startAlign: nat)
    requires align > 0 && startAlign > 0 && align >= startAlign && Aligned(align, startAlign)
    requires Aligned(offset, startAlign)
    requires Up(ptr, align) + offset + size <= Down(gapStart, align)
    ensures Aligned(Up(ptr, align) + offset, startAlign)
    ensures ptr <= Up(ptr, align) && ptr <= Down(Up(ptr, align) + offset, align)
    ensures Up(ptr, align) + offset + size <= Up(Up(ptr, align) + offset + size, align) <= gapStart
  {
    UpBounds(ptr, align);
    DownBounds(gapStart, align);
    PagesOf(Up(ptr, align), align, startAlign);
    AlignedSum(Up(ptr, align), offset, startAlign);
    DownGreatest(Up(ptr, align), Up(ptr, align) + offset, align);
    UpLeast(Down(gapStart, align), Up(ptr, align) + offset + size, align);
    UpBounds(Up(ptr, align) + offset + size, align);
  }

  /** What the three calls to munmap leave. */
  lemma CutOut(s: Space, ptr: nat, start: nat, size: nat, gapStart: nat, gapEnd: nat, end: nat)
    requires ptr <= start && start + size <= gapStart <= gapEnd <= end
    requires forall x: nat :: ptr <= x < end ==> s(x)
    ensures forall x: nat ::
              Unmap(Unmap(Unmap(s, ptr, start - ptr), start + size, gapStart - (start + size)), gapEnd, end - gapEnd)(x)
              <==> (s(x) && !(ptr <= x < end)) || start <= x < start + size || gapStart <= x < gapEnd
  {
    var a := Unmap(s, ptr, start - ptr);
    var b := Unmap(a, start + size, gapStart - (start + size));
    var c := Unmap(b, gapEnd, end - gapEnd);
    forall x: nat ensures c(x) <==> (s(x) && !(ptr <= x < end)) || start <= x < start + size || gapStart <= x < gapEnd {
      assert a(x) <==> s(x) && !(ptr <= x < start);
      assert b(x) <==> a(x) && !(start + size <= x < gapStart);
      assert c(x) <==> b(x) && !(gapEnd <= x < end);
      assert ptr <= x < end ==> s(x);
    }
  }

  /** A random number of steps that does not leave the room there is. */
  method Offset(room: nat, startAlign: nat, fixed: bool, pick: nat -> nat) returns (offset: nat)
    requires startAlign > 0 && forall bound: nat :: bound > 0 ==> pick(bound) < bound
    ensures offset <= room && Aligned(offset, startAlign)
    ensures offset == if fixed then 0 else pick(room / startAlign + 1) * startAlign
  {
    var n := if fixed then 0 else pick(room / startAlign + 1);
    StepsFit(n, room, startAlign);
    MultipleAligned(n, startAlign);
    return n * startAlign;
  }

  /** Every aligned start that leaves the region room can be drawn. */
  lemma EveryStart(room: nat, startAlign: nat, offset: nat) returns (n: nat)
    requires startAlign > 0 && Aligned(offset, startAlign) && offset <= room
    ensures n < room / startAlign + 1 && n * startAlign == offset
  {
    DownIsRemainder(offset, startAlign);
    n := offset / startAlign;
    NotMore(offset, room, startAlign);
  }

  lemma NotMore(a: nat, b: nat, d: nat)
    requires d > 0 && a <= b
    ensures a / d <= b / d
  {
    var q := a / d;
    assert q * d <= a;
    Quotient(b, d, b / d, b % d);
    if q > b / d {
      LessTimes(b / d + 1, q, d);
    }
  }

  datatype Gap = Gap(start: nat, size: nat)

  /** No region; the offsets' difference below zero; or the region, and the gap if the caller is told of one. */
  datatype Reservation = Failed | Wrapped | Reserved(start: nat, gap: Option<Gap>)

  /** What a reservation promises about where it lies in the mapping it was cut from. */
  ghost predicate Within(r: Reservation, size: nat, align: nat, startAlign: nat, from: nat, span: nat)
    requires align > 0 && startAlign > 0
  {
    r.Reserved? ==>
      && Aligned(r.start, startAlign)
      && from <= Down(r.start, align) && Up(r.start + size, align) <= from + span
      && (r.gap.Some? ==> r.start + size <= r.gap.value.start && r.gap.value.start + r.gap.value.size <= from + span)
  }

  class Process {
    var mapped: Space

    constructor (mapped: Space)
      ensures this.mapped == mapped
    {
      this.mapped := mapped;
    }

    /** The mapped addresses are those of `s`, and those of the region and the gap. */
    ghost predicate Plus(s: Space, r: Reservation, size: nat)
      requires r.Reserved?
      reads this
    {
      forall x: nat :: mapped(x) <==>
        || s(x)
        || r.start <= x < r.start + size
        || (r.gap.Some? && r.gap.value.start <= x < r.gap.value.start + r.gap.value.size)
    }

    /**
     * Cuts the region and the gap out of the mapping at ptr.
     * `pick` draws a number below the one it is given; before randomness is to be had, `fixed` makes it zero.
     */
    method Place(ptr: nat, size: nat, gap: nat, align: nat, startAlign: nat, page: nat, fixed: bool, pick: nat -> nat)
      returns (r: Reservation)
      requires page > 0 && align >= page && startAlign >= page
      requires Aligned(ptr, page) && Aligned(align, page) && Aligned(align, startAlign)
      requires Aligned(gap, GAP_ALIGNMENT) && (gap == 0 || Aligned(align, GAP_ALIGNMENT))
      requires forall bound: nat :: bound > 0 ==> pick(bound) < bound
      requires forall x: nat :: ptr <= x < ptr + Asked(size, gap, align, page) ==> mapped(x)
      modifies this
      ensures !r.Failed? && (Roomy(size, gap, align) ==> r.Reserved?)
      ensures r.Reserved? ==> r.gap.Some? && r.gap.value.size == gap
      ensures r.Reserved? && fixed ==> r.start == First(ptr, align)
      ensures Within(r, size, align, startAlign, ptr, Asked(size, gap, align, page))
      ensures r.Reserved? ==> forall x: nat :: mapped(x) <==>
                || (old(mapped)(x) && !(ptr <= x < ptr + Asked(size, gap, align, page)))
                || r.start <= x < r.start + size
                || r.gap.value.start <= x < r.gap.value.start + r.gap.value.size
    {
      var end := ptr + Asked(size, gap, align, page);
      var gapEnd := GapEnd(end, gap);
      DownBounds(end, GAP_ALIGNMENT);
      if Roomy(size, gap, align) {
        RoomForRegion(ptr, size, gap, align, page);
      }
      if gap > gapEnd {
        return Wrapped;
      }
      var gapStart := gapEnd - gap;
      var first, last := Up(ptr, align), Down(gapStart, align) - size;
      if last < first {
        return Wrapped;
      }
      var offset := Offset(last - first, startAlign, fixed, pick);
      var start := first + offset;
      RegionInside(ptr, offset, size, gapStart, align, startAlign);
      CutOut(mapped, ptr, start, size, gapStart, gapEnd, end);
      mapped := Unmap(mapped, ptr, start - ptr);
      mapped := Unmap(mapped, start + size, gapStart - (start + size));
      ghost var cut := Unmap(mapped, gapEnd, end - gapEnd);
      if gapEnd != end {
        mapped := Unmap(mapped, gapEnd, end - gapEnd);
      }
      assert forall x: nat :: mapped(x) <==> cut(x);
      r := Reserved(start, Some(Gap(gapStart, gap)));
    }

    /** The second mapping has room for a gap as well, and for alignment to the gap's units. */
    method PlaceWithGap(
      ptr: nat, size: nat, align: nat, startAlign: nat, page: nat, firstStage: bool, units: nat, pick: nat -> nat)
      returns (r: Reservation)
      requires IsPowerOfTwo(page) && IsPowerOfTwo(align) && IsPowerOfTwo(startAlign) && page <= startAlign <= align
      requires page <= GAP_ALIGNMENT && Aligned(size, page)
      requires forall bound: nat :: bound > 0 ==> pick(bound) < bound
      requires Grants(mapped, Some(ptr), SecondAsked(size, align, page, firstStage, units), page)
      modifies this
      ensures !r.Failed?
      ensures r.Reserved? ==>
                Plus(old(mapped), r, size) && r.gap.Some? && r.gap.value.size == GapSize(firstStage, units)
      ensures r.Reserved? && firstStage ==> r.start == First(ptr, Max(align, GAP_ALIGNMENT))
      ensures Within(r, size, align, startAlign, ptr, SecondAsked(size, align, page, firstStage, units))
      ensures r.Wrapped? ==> !Roomy(size, GapSize(firstStage, units), Max(align, GAP_ALIGNMENT))
    {
      var gap, wider := GapSize(firstStage, units), Max(align, GAP_ALIGNMENT);
      Wider(align, startAlign, page, firstStage, units);
      mapped := Map(mapped, ptr, Asked(size, gap, wider, page));
      r := Place(ptr, size, gap, wider, startAlign, page, firstStage, pick);
      if r.Reserved? {
        Finer(r.start, size, align, wider, ptr, Asked(size, gap, wider, page));
      }
    }

    /**
     * Reserves `size` bytes. `first` and `second` are what the two calls to mmap return; `units`, below 31, and `pick`
     * are the random draws. In the end only the region and the gap are mapped, out of `span` bytes at `from`.
     */
    method ReserveWithAlignmentPadding(
      size: nat, mappingAlign: nat, startAlign: nat, page: nat,
      first: Option<nat>, second: Option<nat>, firstStage: bool, units: nat, pick: nat -> nat)
      returns (r: Reservation, from: nat, span: nat)
      requires Alignments(mappingAlign, startAlign, page) && Aligned(size, page)
      requires units < 31 && forall bound: nat :: bound > 0 ==> pick(bound) < bound
      requires Grants(mapped, first, FirstAsked(size, Max(mappingAlign, startAlign), page), page)
      requires Grants(mapped, second, SecondAsked(size, Max(mappingAlign, startAlign), page, firstStage, units), page)
      modifies this
      ensures r.Reserved? ==> Plus(old(mapped), r, size)
      ensures r.Reserved? ==> forall x: nat :: from <= x < from + span ==> !old(mapped)(x)
      ensures Within(r, size, Max(mappingAlign, startAlign), startAlign, from, span)
      ensures r.Reserved? ==> (r.gap.None? <==> Max(mappingAlign, startAlign) == page)
      ensures r.Reserved? && r.gap.Some? ==>
                && first.Some?
                && r.gap.value.size
                   == if Crosses(first.value, size, Max(mappingAlign, startAlign), page)
                      then GapSize(firstStage, units) else 0
      ensures r.Reserved? && r.gap.Some? ==>
                r.gap.value.size == if SpansHugePages(first.value, size, Greater(mappingAlign, startAlign), page)
                                    then 0x20_0000 * (if firstStage then 1 else units + 1) else 0
      ensures r.Reserved? ==>
                span == if r.gap.None? then size
                        else Padded(size + r.gap.value.size, if r.gap.value.size == 0
                          then Greater(mappingAlign, startAlign)
                          else Greater(Greater(mappingAlign, startAlign), 0x20_0000), page)
      ensures r.Reserved? && firstStage && r.gap.Some? ==>
                r.start == First(from, if r.gap.value.size == 0 then Max(mappingAlign, startAlign)
                                       else Max(Max(mappingAlign, startAlign), GAP_ALIGNMENT))
      ensures r.Reserved? ==> r.start + size <= from + span <= USER_END
      ensures r.Failed? ==> forall x: nat :: mapped(x) == old(mapped)(x)
      ensures r.Failed? ==> first.None? || second.None?
      ensures r.Wrapped? ==> !Roomy(size, GapSize(firstStage, units), Max(Max(mappingAlign, startAlign), GAP_ALIGNMENT))
    {
      var align := Max(mappingAlign, startAlign);
      if first.Some? {
        CrossesExactly(first.value, size, align, page);
      }
      PowerDivides(page, align);
      PowerDivides(startAlign, align);
      if first.None? {
        return Failed, 0, 0;
      }
      from, span := first.value, FirstAsked(size, align, page);
      if align == page {
        OnPages(from, size, page, startAlign);
        mapped := Map(mapped, from, size);
        return Reserved(from, None), from, span;
      }
      ghost var before := mapped;
      mapped := Map(mapped, from, span);
      if Crosses(first.value, size, align, page) {
        mapped := Unmap(mapped, from, span);
        assert forall x: nat :: mapped(x) == before(x);
        if second.None? {
          return Failed, 0, 0;
        }
        from, span := second.value, SecondAsked(size, align, page, firstStage, units);
        r := PlaceWithGap(second.value, size, align, startAlign, page, firstStage, units, pick);
      } else {
        r := Place(first.value, size, 0, align, startAlign, page, firstStage, pick);
      }
    }

    /**
     * Finds the place for a library. `first` and `second` answer the two requests for memory, whatever their size.
     * Space set aside by the caller is used up from its start; of the alignments asked for none leaves the region
     * without room.
     */
    method ReserveAddressSpace(
      table: seq<Phdr>, page: nat, compat: bool, params: Params, hugePages: bool,
      first: nat -> Option<nat>, second: nat -> Option<nat>, firstStage: bool, units: nat, pick: nat -> nat)
      returns (r: Placement, left: Params)
      requires IsPowerOfTwo(page) && page <= LIBRARY_ALIGNMENT && params.start + params.reserved <= USER_END
      requires units < 31 && forall bound: nat :: bound > 0 ==> pick(bound) < bound
      requires forall n: nat :: Grants(mapped, first(n), n, page) && Grants(mapped, second(n), n, page)
      modifies this
      ensures r.NoSegments? <==> MaxVaddr(table, page) == MinVaddr(table, page)
      ensures r.TooSmall? <==> !r.NoSegments? && params.mustUse && params.reserved < LoadSize(table, page, compat)
      ensures r.At? ==> r.size == LoadSize(table, page, compat) && Add64(MinVaddr(table, page), r.bias) == r.start
      ensures r.At? ==> r.start + r.size <= USER_END && (r.byCaller <==> r.size <= params.reserved)
      ensures r.At? && r.byCaller ==>
                && r.start == params.start && r.gap.None?
                && left == Params(params.start + r.size, params.reserved - r.size, params.mustUse)
      ensures !(r.At? && r.byCaller) ==> left == params
      ensures r.At? && !r.byCaller ==>
                && Aligned(r.start, page) && Plus(old(mapped), Reserved(r.start, r.gap), r.size)
                && (hugePages && AsksForHuge(table) ==> Aligned(r.start, 0x20_0000))
                && forall x: nat :: r.start <= x < r.start + r.size ==> !old(mapped)(x)
      ensures !(r.At? && !r.byCaller) ==> forall x: nat :: mapped(x) == old(mapped)(x)
    {
      left := params;
      var loadSize, minVaddr, _ := GetLoadSize(table, page);
      if loadSize == 0 {
        return NoSegments, left;
      }
      var size: nat := if compat then loadSize + page else loadSize;
      if size <= params.reserved {
        left := Params(params.start + size, params.reserved - size, params.mustUse);
        return At(params.start, size, Sub64(params.start, minVaddr), None, true), left;
      }
      if params.mustUse {
        return TooSmall, left;
      }
      var startAlign := StartAlignment(table, page, hugePages);
      LoadSizeAligned(table, page);
      AlignedSum(page, loadSize, page);
      var reservation, from, span := AsLoader(size, startAlign, page, first, second, firstStage, units, pick);
      if reservation.Failed? {
        return NoSpace, left;
      }
      PagesOf(reservation.start, startAlign, page);
      return At(reservation.start, size, Sub64(reservation.start, minVaddr), reservation.gap, false), left;
    }

    /** A huge page when they are to be had and the table asks for just that, a page otherwise. */
    method StartAlignment(table: seq<Phdr>, page: nat, hugePages: bool) returns (align: nat)
      requires page <= 0x4_0000
      ensures align == if hugePages && AsksForHuge(table) then 0x20_0000 else page
    {
      GapIsPower();
      PowersExactly(GAP_ALIGNMENT);
      align := page;
      if hugePages {
        var maxAlign := GetMaximumAlignment(table, page);
        align := if maxAlign == GAP_ALIGNMENT then GAP_ALIGNMENT else page;
      }
    }

    /** The alignments the loader asks for: 256 KiB around the region, and a page or 2 MiB for its start. */
    method AsLoader(
      size: nat, startAlign: nat, page: nat,
      first: nat -> Option<nat>, second: nat -> Option<nat>, firstStage: bool, units: nat, pick: nat -> nat)
      returns (r: Reservation, from: nat, span: nat)
      requires IsPowerOfTwo(page) && page <= LIBRARY_ALIGNMENT && (startAlign == page || startAlign == GAP_ALIGNMENT)
      requires Aligned(size, page) && units < 31
      requires forall bound: nat :: bound > 0 ==> pick(bound) < bound
      requires forall n: nat :: Grants(mapped, first(n), n, page) && Grants(mapped, second(n), n, page)
      modifies this
      ensures !r.Wrapped? && Aligned(startAlign, page) && startAlign >= page
      ensures r.Reserved? ==> Plus(old(mapped), r, size) && Aligned(r.start, startAlign) && r.start + size <= USER_END
      ensures r.Reserved? ==> forall x: nat :: r.start <= x < r.start + size ==> !old(mapped)(x)
      ensures Within(r, size, Greater(0x4_0000, startAlign), startAlign, from, span)
      ensures r.Failed? ==> forall x: nat :: mapped(x) == old(mapped)(x)
    {
      var align := Max(LIBRARY_ALIGNMENT, startAlign);
      LoaderAlignments(startAlign, page);
      WholeUnitsAreRoomy(size, GapSize(firstStage, units), GAP_ALIGNMENT);
      r, from, span := ReserveWithAlignmentPadding(
        size, LIBRARY_ALIGNMENT, startAlign, page,
        first(FirstAsked(size, align, page)), second(SecondAsked(size, align, page, firstStage, units)),
        firstStage, units, pick);
      if r.Reserved? {
        DownBounds(r.start, align);
      }
    }
  }

  lemma LoaderAlignments(startAlign: nat, page: nat)
    requires IsPowerOfTwo(page) && page <= LIBRARY_ALIGNMENT && (startAlign == page || startAlign == GAP_ALIGNMENT)
    ensures Alignments(LIBRARY_ALIGNMENT, startAlign, page) && Aligned(startAlign, page)
    ensures forall firstStage, units :: Aligned(GapSize(firstStage, units), GAP_ALIGNMENT)
  {
    GapIsPower();
    PowerDivides(page, startAlign);
    assert Power2(4) == 16;
    Power2Add(7, 7);
    Power2Add(14, 4);
    assert Power2(7) == 128;
    Halve(LIBRARY_ALIGNMENT, 18);
    forall firstStage, units: nat ensures Aligned(GapSize(firstStage, units), GAP_ALIGNMENT) {
      MultipleAligned(if firstStage then 1 else units + 1, GAP_ALIGNMENT);
    }
  }

  /** The region the caller of the loader has set aside. */
  datatype Params = Params(start: u64, reserved: nat, mustUse: bool)

  datatype Placement =
    | NoSegments | TooSmall | NoSpace
    | At(start: u64, size: nat, bias: u64, gap: Option<Gap>, byCaller: bool)

  /** The greatest alignment any segment asks for is that of a huge page. */
  ghost predicate AsksForHuge(table: seq<Phdr>) {
    && (exists i :: 0 <= i < |table| && table[i].kind == Load && table[i].align == 0x20_0000)
    && forall i :: 0 <= i < |table| && table[i].kind == Load && PowerOfTwo(table[i].align) ==>
         table[i].align <= 0x20_0000
  }

  function GapSize(firstStage: bool, units: nat): nat {
    GAP_ALIGNMENT * if firstStage then 1 else units + 1
  }

  /** What the mapping holds between two multiples of the alignment goes over a 2 MiB boundary. */
  predicate Crosses(ptr: nat, size: nat, align: nat, page: nat)
    requires align >= page > 0
  {
    First(ptr, align) / GAP_ALIGNMENT != (Down(ptr + Asked(size, 0, align, page), align) - 1) / GAP_ALIGNMENT
  }

  ghost function Greater(a: nat, b: nat): nat { if a >= b then a else b }

  /** The size rounded up to the alignment, and room for a start off a page. */
  ghost function Padded(size: nat, align: nat, page: nat): int
    requires align > 0
  {
    Up(size, align) + align - page
  }

  /**
   * What a mapping of that size at ptr holds between multiples of the alignment has its first and its last byte in
   * different pages of 2 MiB.
   */
  ghost predicate SpansHugePages(ptr: nat, size: nat, align: nat, page: nat)
    requires align >= page
    requires align > 0
  {
    !exists k: int :: HugePage(k, Up(ptr, align)) && HugePage(k, Down(ptr + Padded(size, align, page), align) - 1)
  }

  ghost predicate HugePage(k: int, x: int) {
    k * 0x20_0000 <= x < (k + 1) * 0x20_0000
  }

  lemma CrossesExactly(ptr: nat, size: nat, align: nat, page: nat)
    requires align >= page > 0
    ensures Crosses(ptr, size, align, page) <==> SpansHugePages(ptr, size, align, page)
  {
    var from, to := Up(ptr, align), Down(ptr + Padded(size, align, page), align) - 1;
    assert HugePage(from / 0x20_0000, from) && HugePage(to / 0x20_0000, to);
    if k: int :| HugePage(k, from) && HugePage(k, to) {
      assert from / 0x20_0000 == k == to / 0x20_0000;
    }
  }

  function FirstAsked(size: nat, align: nat, page: nat): nat
    requires align >= page > 0
  {
    if align == page then size else Asked(size, 0, align, page)
  }

  function SecondAsked(size: nat, align: nat, page: nat, firstStage: bool, units: nat): nat
    requires align >= page > 0
  {
    Asked(size, GapSize(firstStage, units), Max(align, GAP_ALIGNMENT), page)
  }

  lemma OnPages(start: nat, size: nat, page: nat, startAlign: nat)
    requires page > 0 && Aligned(start, page) && Aligned(size, page) && startAlign == page
    ensures Aligned(start, startAlign) && Down(start, page) == start && Up(start + size, page) == start + size
  {
    AlignedSum(start, size, page);
    UpAligned(start + size, page);
  }

  lemma GapIsPower()
    ensures IsPowerOfTwo(GAP_ALIGNMENT) && Power2(21) == 0x20_0000
  {
    assert Power2(7) == 128;
    assert Power2(14) == 128 * 128 by {
      Power2Add(7, 7);
    }
    Power2Add(14, 7);
    Halve(GAP_ALIGNMENT, 21);
  }

  lemma Wider(align: nat, startAlign: nat, page: nat, firstStage: bool, units: nat)
    requires IsPowerOfTwo(align) && IsPowerOfTwo(startAlign) && IsPowerOfTwo(page) && page <= startAlign <= align
    requires page <= GAP_ALIGNMENT
    ensures Max(align, GAP_ALIGNMENT) >= page
    ensures Aligned(Max(align, GAP_ALIGNMENT), page) && Aligned(Max(align, GAP_ALIGNMENT), startAlign)
    ensures Aligned(Max(align, GAP_ALIGNMENT), GAP_ALIGNMENT) && Aligned(Max(align, GAP_ALIGNMENT), align)
    ensures Aligned(GapSize(firstStage, units), GAP_ALIGNMENT)
  {
    GapIsPower();
    var wider := Max(align, GAP_ALIGNMENT);
    PowerDivides(page, wider);
    PowerDivides(startAlign, wider);
    PowerDivides(GAP_ALIGNMENT, wider);
    PowerDivides(align, wider);
    MultipleAligned(if firstStage then 1 else units + 1, GAP_ALIGNMENT);
  }

  lemma Finer(start: nat, size: nat, align: nat, wider: nat, from: nat, span: nat)
    requires wider >= align > 0 && Aligned(wider, align)
    requires from <= Down(start, wider) && Up(start + size, wider) <= from + span
    ensures from <= Down(start, align) && Up(start + size, align) <= from + span
  {
    DownBounds(start, wider);
    PagesOf(Down(start, wider), wider, align);
    DownGreatest(Down(start, wider), start, align);
    UpBounds(start + size, wider);
    PagesOf(Up(start + size, wider), wider, align);
    UpLeast(Up(start + size, wider), start + size, align);
  }
}
