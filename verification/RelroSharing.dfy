/** Sharing read-only pages: those of the RELRO segments that equal a file's are replaced by pages of the file. */
module RelroSharing {
  import opened Powers
  import opened Words
  import opened Pages
  import opened ProgramHeaders

  /** A byte of the file's mapping: zeros fill its last page. */
  function FileAt(file: seq<u8>, pos: nat): u8 {
    if pos < |file| then file[pos] else 0
  }

  /** memcmp of a page finds no difference. */
  predicate SamePage(bytes: nat -> u8, at: nat, file: seq<u8>, pos: nat, page: nat) {
    forall x: nat :: at <= x < at + page ==> bytes(x) == FileAt(file, pos + (x - at))
  }

  /** The bytes to compare lie in the file's mapping. */
  predicate Readable(file: seq<u8>, pos: nat, page: nat)
    requires page > 0
  {
    pos + page <= Up(|file|, page)
  }

  /** All pages done; a mapping failed; or the comparison left the file's mapping. */
  datatype Outcome = Done | Failed | Faulted

  function SegmentSize(p: Phdr, page: nat): u64
    requires 0 < page <= LIMIT
  {
    Sub64(End64(Add64(p.vaddr, p.memsz), page), Start64(p.vaddr, page))
  }

  function SegmentStart(p: Phdr, bias: u64, page: nat): u64
    requires 0 < page <= LIMIT
  {
    Add64(Start64(p.vaddr, page), bias)
  }

  /** Where in the file the pages for entry i start: behind those of the entries before it. */
  function OffsetAt(table: seq<Phdr>, i: nat, fileOffset: u64, page: nat): u64
    requires 0 < page <= LIMIT && i <= |table|
  {
    if i == 0 then fileOffset
    else
      var before := OffsetAt(table, i - 1, fileOffset, page);
      if table[i - 1].kind == GnuRelro then Add64(before, SegmentSize(table[i - 1], page)) else before
  }

  /** The file has too little left for the entry. The difference does not go below zero: it wraps. */
  predicate TooShort(table: seq<Phdr>, i: nat, file: seq<u8>, fileOffset: u64, page: nat)
    requires 0 < page <= LIMIT && i < |table| && |file| < LIMIT
  {
    table[i].kind == GnuRelro && Sub64(|file|, OffsetAt(table, i, fileOffset, page)) < SegmentSize(table[i], page)
  }

  /** The address lies in a page of one of the first n entries that equals the file's page for it. */
  ghost predicate Shareable(
    bytes: nat -> u8, x: nat, table: seq<Phdr>, n: nat, bias: u64, file: seq<u8>, fileOffset: u64, page: nat)
    requires 0 < page <= LIMIT && n <= |table|
  {
    exists i :: 0 <= i < n && EntryEqual(bytes, x, table, i, bias, file, fileOffset, page)
  }

  ghost predicate EntryEqual(
    bytes: nat -> u8, x: nat, table: seq<Phdr>, i: nat, bias: u64, file: seq<u8>, fileOffset: u64, page: nat)
    requires 0 < page <= LIMIT && i < |table|
  {
    table[i].kind == GnuRelro
    && Equal(bytes, x, SegmentStart(table[i], bias, page), SegmentSize(table[i], page), file,
             OffsetAt(table, i, fileOffset, page), page)
  }

  /** The first RELRO entry with pages. */
  function FirstNonEmpty(table: seq<Phdr>, n: nat, page: nat): (f: nat)
    requires 0 < page <= LIMIT && n <= |table|
    ensures f <= n && (f < n ==> table[f].kind == GnuRelro && SegmentSize(table[f], page) > 0)
  {
    if n == 0 then 0
    else
      var f := FirstNonEmpty(table, n - 1, page);
      if f < n - 1 || (table[n - 1].kind == GnuRelro && SegmentSize(table[n - 1], page) > 0) then f else n
  }

  lemma SegmentAligned(p: Phdr, page: nat)
    requires IsPowerOfTwo(page) && page <= LIMIT
    ensures Aligned(SegmentSize(p, page), page)
  {
    DownBounds(Add64(Add64(p.vaddr, p.memsz), page - 1), page);
    DownBounds(p.vaddr, page);
    DifferenceAligned(End64(Add64(p.vaddr, p.memsz), page), Start64(p.vaddr, page), page);
  }

  /** The offset in a segment of the page that holds a byte. */
  function PageAt(x: nat, start: nat, page: nat): nat
    requires page > 0 && start <= x
  {
    Down(x - start, page)
  }

  lemma InPage(x: nat, start: nat, offset: nat, page: nat)
    requires page > 0 && Aligned(offset, page) && start + offset <= x < start + offset + page
    ensures PageAt(x, start, page) == offset
  {
    SumRounds(x - start, offset, x - start - offset, page);
  }

  lemma NextOffset(offset: nat, size: nat, page: nat)
    requires page > 0 && Aligned(offset, page) && Aligned(size, page) && offset < size
    ensures Aligned(offset + page, page) && offset + page <= size
  {
    AlignedSum(offset, page, page);
    AlignedDifference(offset, size, page);
  }

  /** A page of a segment that equals the file's. */
  ghost predicate Equal(bytes: nat -> u8, x: nat, start: nat, size: nat, file: seq<u8>, pos: nat, page: nat)
    requires page > 0
  {
    && start <= x < start + size
    && SamePage(bytes, start + PageAt(x, start, page), file, pos + PageAt(x, start, page), page)
  }

  ghost predicate SameBytes(a: nat -> u8, b: nat -> u8) {
    forall x: nat :: a(x) == b(x)
  }

  /** Mapping the file over pages that equal it changes no byte. */
  lemma EqualPages(bytes: nat -> u8, start: nat, from: nat, to: nat, file: seq<u8>, pos: nat, page: nat, x: nat)
    requires page > 0 && start + from <= x < start + to
    requires SamePage(bytes, start + PageAt(x, start, page), file, pos + PageAt(x, start, page), page)
    ensures FileAt(file, pos + from + (x - (start + from))) == bytes(x)
  {
    DownBounds(x - start, page);
  }

  class Process {
    var bytes: nat -> u8
    /** Which addresses are backed by pages of the file. */
    var shared: nat -> bool

    constructor (bytes: nat -> u8)
      ensures this.bytes == bytes && forall x: nat :: !shared(x)
    {
      this.bytes := bytes;
      this.shared := (x: nat) => false;
    }

    /** mmap over n bytes of memory. */
    method MapOver(at: nat, n: nat, file: seq<u8>, pos: nat)
      modifies this
      ensures forall x: nat :: bytes(x) == if at <= x < at + n then FileAt(file, pos + (x - at)) else old(bytes)(x)
      ensures forall x: nat :: shared(x) <==> old(shared)(x) || at <= x < at + n
    {
      var b, s := bytes, shared;
      bytes := (x: nat) => if at <= x < at + n then FileAt(file, pos + (x - at)) else b(x);
      shared := (x: nat) => s(x) || at <= x < at + n;
    }

    /** Skips pages from offset on as long as their being the file's is `same`. */
    method Scan(same: bool, ghost b: nat -> u8, start: nat, offset: nat, size: nat, file: seq<u8>, pos: nat, page: nat)
      returns (next: nat, readable: bool)
      requires page > 0 && Aligned(offset, page) && Aligned(size, page) && offset <= size && SameBytes(bytes, b)
      ensures Aligned(next, page) && offset <= next <= size
      ensures forall x: nat :: start + offset <= x < start + next ==>
                (Equal(b, x, start, size, file, pos, page) <==> same)
      ensures readable && offset < size ==> Readable(file, pos + offset, page)
      ensures readable && next < size ==> SamePage(b, start + next, file, pos + next, page) != same
      ensures !readable ==> next < size && !Readable(file, pos + next, page)
    {
      next := offset;
      while next < size
        invariant Aligned(next, page) && offset <= next <= size
        invariant offset < next ==> Readable(file, pos + offset, page)
        invariant forall x: nat :: start + offset <= x < start + next ==>
                    (Equal(b, x, start, size, file, pos, page) <==> same)
        decreases size - next
      {
        if !Readable(file, pos + next, page) {
          return next, false;
        }
        assert SamePage(bytes, start + next, file, pos + next, page)
          == SamePage(b, start + next, file, pos + next, page);
        if SamePage(bytes, start + next, file, pos + next, page) != same {
          return next, true;
        }
        NextOffset(next, size, page);
        forall x: nat | start + next <= x < start + next + page
          ensures Equal(b, x, start, size, file, pos, page) <==> same
        {
          InPage(x, start, next, page);
        }
        next := next + page;
      }
      return next, true;
    }

    /** The pages of one segment that equal the file's, and only those, become pages of the file. */
    method ShareSegment(
      start: nat, size: nat, file: seq<u8>, pos: nat, page: nat, maps: nat -> bool)
      returns (r: Outcome)
      requires page > 0 && Aligned(size, page)
      modifies this
      ensures SameBytes(bytes, old(bytes))
      ensures r.Done? ==>
                forall x: nat :: shared(x) <==> old(shared)(x) || Equal(old(bytes), x, start, size, file, pos, page)
      ensures forall x: nat :: shared(x) ==> old(shared)(x) || Equal(old(bytes), x, start, size, file, pos, page)
      ensures forall x: nat :: old(shared)(x) ==> shared(x)
      ensures pos + size <= |file| || size == 0 ==> !r.Faulted?
      ensures size == 0 ==> r.Done?
      ensures size > 0 && !Readable(file, pos, page) ==> r.Faulted?
    {
      ghost var b := bytes;
      ghost var was := shared;
      var done := 0;
      while done < size
        invariant Aligned(done, page) && done <= size && SameBytes(bytes, b)
        invariant forall x: nat :: shared(x)
                    <==> was(x) || (x < start + done && Equal(b, x, start, size, file, pos, page))
        invariant done > 0 ==> Readable(file, pos, page)
        decreases size - done
      {
        var next, readable := Scan(false, b, start, done, size, file, pos, page);
        if !readable {
          if pos + size <= |file| {
            InFile(file, pos, next, size, page);
          }
          return Faulted;
        }
        var mismatch;
        mismatch, readable := Scan(true, b, start, next, size, file, pos, page);
        if !readable {
          if pos + size <= |file| {
            InFile(file, pos, mismatch, size, page);
          }
          return Faulted;
        }
        if mismatch > next {
          if !maps(pos + next) {
            return Failed;
          }
          forall x: nat | start + next <= x < start + mismatch
            ensures FileAt(file, pos + next + (x - (start + next))) == b(x)
          {
            var equal := Equal(b, x, start, size, file, pos, page);
            assert equal;
            EqualPages(b, start, next, mismatch, file, pos, page, x);
          }
          MapOver(start + next, mismatch - next, file, pos + next);
        }
        done := mismatch;
      }
      return Done;
    }

    /** One RELRO entry; `b` and `was` are what memory and sharing were at the start. */
    method ShareEntry(
      table: seq<Phdr>, i: nat, bias: u64, file: seq<u8>, fileOffset: u64, page: nat, maps: nat -> bool,
      ghost b: nat -> u8, ghost was: nat -> bool)
      returns (r: Outcome)
      requires IsPowerOfTwo(page) && page <= LIMIT && |file| < LIMIT && i < |table| && table[i].kind == GnuRelro
      requires SameBytes(bytes, b)
      requires forall x: nat :: shared(x) <==> was(x) || Shareable(b, x, table, i, bias, file, fileOffset, page)
      modifies this
      ensures SameBytes(bytes, b)
      ensures forall x: nat :: was(x) ==> shared(x)
      ensures forall x: nat :: shared(x) ==> was(x) || Shareable(b, x, table, |table|, bias, file, fileOffset, page)
      ensures r.Done? ==>
                forall x: nat :: shared(x) <==> was(x) || Shareable(b, x, table, i + 1, bias, file, fileOffset, page)
      ensures OffsetAt(table, i, fileOffset, page) + SegmentSize(table[i], page) <= |file| ==> !r.Faulted?
      ensures SegmentSize(table[i], page) > 0 && !Readable(file, OffsetAt(table, i, fileOffset, page), page) ==>
                r.Faulted?
      ensures SegmentSize(table[i], page) == 0 ==> r.Done?
    {
      var start, size := SegmentStart(table[i], bias, page), SegmentSize(table[i], page);
      var pos := OffsetAt(table, i, fileOffset, page);
      SegmentAligned(table[i], page);
      ghost var before, now := bytes, shared;
      r := ShareSegment(start, size, file, pos, page, maps);
      forall x: nat
        ensures Equal(before, x, start, size, file, pos, page) == Equal(b, x, start, size, file, pos, page)
        ensures Shareable(b, x, table, i + 1, bias, file, fileOffset, page)
           <==> Shareable(b, x, table, i, bias, file, fileOffset, page) || Equal(b, x, start, size, file, pos, page)
        ensures Shareable(b, x, table, i + 1, bias, file, fileOffset, page) ==>
                  Shareable(b, x, table, |table|, bias, file, fileOffset, page)
      {
        SameEqual(before, b, x, start, size, file, pos, page);
        OneMoreEntry(b, x, table, i, bias, file, fileOffset, page);
        if Shareable(b, x, table, i + 1, bias, file, fileOffset, page) {
          MoreEntries(b, x, table, i + 1, bias, file, fileOffset, page);
        }
      }
    }

    /**
     * Shares the RELRO segments' pages with the file, as far as the file goes. `stop` is the entry it stopped at.
     * The bytes in memory never change. Starting past the end of the file is not noticed: the check wraps, and the
     * first entry with pages is compared with what lies behind the file, unless it is larger than the wrapped
     * difference.
     */
    method MapGnuRelro(
      table: seq<Phdr>, bias: u64, file: seq<u8>, fileOffset: u64, page: nat, opens: bool, maps: nat -> bool)
      returns (r: Outcome, offset: u64, stop: nat)
      requires IsPowerOfTwo(page) && page <= LIMIT && |file| < LIMIT
      modifies this
      ensures stop <= |table| && SameBytes(bytes, old(bytes))
      ensures forall x: nat :: old(shared)(x) ==> shared(x)
      ensures forall x: nat :: shared(x) ==>
                old(shared)(x) || Shareable(old(bytes), x, table, |table|, bias, file, fileOffset, page)
      ensures r.Done? ==> forall x: nat :: shared(x) <==>
                old(shared)(x) || Shareable(old(bytes), x, table, stop, bias, file, fileOffset, page)
      ensures r.Done? ==> offset == OffsetAt(table, stop, fileOffset, page)
      ensures r.Done? && stop < |table| ==> TooShort(table, stop, file, fileOffset, page)
      ensures r.Done? ==> forall i :: 0 <= i < stop ==> !TooShort(table, i, file, fileOffset, page)
      ensures fileOffset <= |file| ==> !r.Faulted?
      ensures fileOffset > |file| && opens ==>
                var f := FirstNonEmpty(table, |table|, page);
                (r.Faulted? <==> f < |table| && SegmentSize(table[f], page) <= Sub64(|file|, fileOffset))
    {
      offset, stop := fileOffset, 0;
      if !opens {
        return Failed, offset, stop;
      }
      while stop < |table|
        invariant stop <= |table| && SameBytes(bytes, old(bytes)) && offset == OffsetAt(table, stop, fileOffset, page)
        invariant forall x: nat :: shared(x)
                    <==> old(shared)(x) || Shareable(old(bytes), x, table, stop, bias, file, fileOffset, page)
        invariant forall i :: 0 <= i < stop ==> !TooShort(table, i, file, fileOffset, page)
        invariant fileOffset <= |file| ==> offset <= |file|
        invariant fileOffset > |file| ==> FirstNonEmpty(table, stop, page) == stop && offset == fileOffset
        decreases |table| - stop
      {
        var p := table[stop];
        if p.kind == GnuRelro {
          var start, size := SegmentStart(p, bias, page), SegmentSize(p, page);
          SegmentAligned(p, page);
          if Sub64(|file|, offset) < size {
            FirstHere(table, stop, page);
            return Done, offset, stop;
          }
          r := ShareEntry(table, stop, bias, file, fileOffset, page, maps, old(bytes), old(shared));
          FirstHere(table, stop, page);
          if fileOffset > |file| {
            PastFile(file, fileOffset, page);
          }
          if !r.Done? {
            return r, offset, stop;
          }
          offset := Add64(offset, size);
        }
        stop := stop + 1;
      }
      return Done, offset, stop;
    }
  }

  // ---------------------------------------------------------------- which pages these are

  /** No end of a RELRO entry is past the address space. */
  ghost predicate EndsFit(table: seq<Phdr>, page: nat) {
    forall i :: 0 <= i < |table| && table[i].kind == GnuRelro ==> table[i].vaddr + table[i].memsz + page <= LIMIT
  }

  /** The bytes of an entry's pages, and of those of all the entries before one. */
  ghost function PageSpan(p: Phdr, page: nat): int
    requires page > 0
  {
    Up(p.vaddr + p.memsz, page) - Down(p.vaddr, page)
  }

  ghost function SpanBefore(table: seq<Phdr>, n: nat, page: nat): int
    requires page > 0 && n <= |table|
  {
    if n == 0 then 0
    else SpanBefore(table, n - 1, page) + if table[n - 1].kind == GnuRelro then PageSpan(table[n - 1], page) else 0
  }

  /** x lies in a page of the entry, o bytes after its first, that holds what the file has o bytes after pos. */
  ghost predicate InEqualPage(bytes: nat -> u8, x: nat, start: nat, span: int, file: seq<u8>, pos: nat, page: nat)
    requires page > 0
  {
    exists o: nat :: EqualPageAt(bytes, x, start, span, file, pos, page, o)
  }

  ghost predicate EqualPageAt(
    bytes: nat -> u8, x: nat, start: nat, span: int, file: seq<u8>, pos: nat, page: nat, o: nat)
    requires page > 0
  {
    && Aligned(o, page) && o + page <= span && start + o <= x < start + o + page
    && forall z: nat | start + o <= z < start + o + page ::
         bytes(z) == if pos + (z - start) < |file| then file[pos + (z - start)] else 0
  }

  lemma SpanIs(p: Phdr, bias: u64, page: nat)
    requires 0 < page <= LIMIT && p.vaddr + p.memsz + page <= LIMIT
    ensures SegmentSize(p, page) == PageSpan(p, page)
    ensures SegmentStart(p, bias, page) == (Down(p.vaddr, page) + bias) % 0x1_0000_0000_0000_0000
  {
    NoWrapEnd(p.vaddr + p.memsz, page);
    DownBounds(p.vaddr, page);
    UpBounds(p.vaddr + p.memsz, page);
    Sum64(Down(p.vaddr, page), bias);
  }

  lemma {:induction false} OffsetIs(table: seq<Phdr>, n: nat, fileOffset: u64, page: nat)
    requires 0 < page <= LIMIT && n <= |table| && EndsFit(table, page)
    ensures OffsetAt(table, n, fileOffset, page) == (fileOffset + SpanBefore(table, n, page)) % 0x1_0000_0000_0000_0000
  {
    if n > 0 {
      OffsetIs(table, n - 1, fileOffset, page);
      if table[n - 1].kind == GnuRelro {
        SpanIs(table[n - 1], 0, page);
        Sum64(OffsetAt(table, n - 1, fileOffset, page), SegmentSize(table[n - 1], page));
        ModuloSum(fileOffset + SpanBefore(table, n - 1, page), PageSpan(table[n - 1], page));
      }
    }
  }

  /** As long as the pages so far fit the file, an entry finds it too short exactly when its own do not. */
  lemma ShortExactly(table: seq<Phdr>, i: nat, file: seq<u8>, fileOffset: u64, page: nat)
    requires 0 < page <= LIMIT && i < |table| && EndsFit(table, page) && table[i].kind == GnuRelro
    requires 0 <= fileOffset + SpanBefore(table, i, page) <= |file| < LIMIT
    ensures TooShort(table, i, file, fileOffset, page) <==>
              fileOffset + SpanBefore(table, i, page) + PageSpan(table[i], page) > |file|
  {
    OffsetIs(table, i, fileOffset, page);
    SpanIs(table[i], 0, page);
  }

  lemma ModuloSum(a: int, b: int)
    ensures (a % 0x1_0000_0000_0000_0000 + b) % 0x1_0000_0000_0000_0000 == (a + b) % 0x1_0000_0000_0000_0000
  {
  }

  /** The same of entry i: the entries' pages follow each other in the file, from the offset on. */
  ghost predicate InEntryPage(
    bytes: nat -> u8, x: nat, table: seq<Phdr>, i: nat, bias: u64, file: seq<u8>, fileOffset: u64, page: nat)
    requires page > 0 && i < |table|
  {
    && table[i].kind == GnuRelro
    && InEqualPage(bytes, x, (Down(table[i].vaddr, page) + bias) % 0x1_0000_0000_0000_0000, PageSpan(table[i], page),
                   file, (fileOffset + SpanBefore(table, i, page)) % 0x1_0000_0000_0000_0000, page)
  }

  /** An address can be shared if and only if it lies in a page of one of the entries that equals the file's. */
  lemma SharedExactly(
    bytes: nat -> u8, x: nat, table: seq<Phdr>, n: nat, bias: u64, file: seq<u8>, fileOffset: u64, page: nat)
    requires IsPowerOfTwo(page) && page <= LIMIT && n <= |table| && EndsFit(table, page)
    ensures Shareable(bytes, x, table, n, bias, file, fileOffset, page) <==>
              exists i :: 0 <= i < n && InEntryPage(bytes, x, table, i, bias, file, fileOffset, page)
  {
    forall i | 0 <= i < n
      ensures EntryEqual(bytes, x, table, i, bias, file, fileOffset, page)
         <==> InEntryPage(bytes, x, table, i, bias, file, fileOffset, page)
    {
      EntryExactly(bytes, x, table, i, bias, file, fileOffset, page);
    }
  }

  lemma EntryExactly(
    bytes: nat -> u8, x: nat, table: seq<Phdr>, i: nat, bias: u64, file: seq<u8>, fileOffset: u64, page: nat)
    requires IsPowerOfTwo(page) && page <= LIMIT && i < |table| && EndsFit(table, page)
    ensures EntryEqual(bytes, x, table, i, bias, file, fileOffset, page)
       <==> InEntryPage(bytes, x, table, i, bias, file, fileOffset, page)
  {
    if table[i].kind == GnuRelro {
      SpanIs(table[i], bias, page);
      OffsetIs(table, i, fileOffset, page);
      SegmentAligned(table[i], page);
      EqualExactly(bytes, x, SegmentStart(table[i], bias, page), SegmentSize(table[i], page), file,
        OffsetAt(table, i, fileOffset, page), page);
    }
  }

  lemma EqualExactly(bytes: nat -> u8, x: nat, start: nat, size: nat, file: seq<u8>, pos: nat, page: nat)
    requires page > 0 && Aligned(size, page)
    ensures Equal(bytes, x, start, size, file, pos, page) <==> InEqualPage(bytes, x, start, size, file, pos, page)
  {
    if Equal(bytes, x, start, size, file, pos, page) {
      var o := PageAt(x, start, page);
      DownBounds(x - start, page);
      NextOffset(o, size, page);
      assert EqualPageAt(bytes, x, start, size, file, pos, page, o);
    }
    if o: nat :| EqualPageAt(bytes, x, start, size, file, pos, page, o) {
      InPage(x, start, o, page);
      forall z: nat | start + o <= z < start + o + page
        ensures bytes(z) == FileAt(file, pos + o + (z - (start + o)))
      {
        assert pos + o + (z - (start + o)) == pos + (z - start);
      }
    }
  }

  lemma OneMoreEntry(
    bytes: nat -> u8, x: nat, table: seq<Phdr>, n: nat, bias: u64, file: seq<u8>, fileOffset: u64, page: nat)
    requires 0 < page <= LIMIT && n < |table|
    ensures Shareable(bytes, x, table, n + 1, bias, file, fileOffset, page)
       <==> || Shareable(bytes, x, table, n, bias, file, fileOffset, page)
            || EntryEqual(bytes, x, table, n, bias, file, fileOffset, page)
  {
    var entry := EntryEqual(bytes, x, table, n, bias, file, fileOffset, page);
  }

  lemma MoreEntries(
    bytes: nat -> u8, x: nat, table: seq<Phdr>, n: nat, bias: u64, file: seq<u8>, fileOffset: u64, page: nat)
    requires 0 < page <= LIMIT && n <= |table|
    requires Shareable(bytes, x, table, n, bias, file, fileOffset, page)
    ensures Shareable(bytes, x, table, |table|, bias, file, fileOffset, page)
  {
    var i :| 0 <= i < n && EntryEqual(bytes, x, table, i, bias, file, fileOffset, page);
    var entry := EntryEqual(bytes, x, table, i, bias, file, fileOffset, page);
  }

  lemma SameEqual(a: nat -> u8, b: nat -> u8, x: nat, start: nat, size: nat, file: seq<u8>, pos: nat, page: nat)
    requires page > 0 && SameBytes(a, b)
    ensures Equal(a, x, start, size, file, pos, page) <==> Equal(b, x, start, size, file, pos, page)
  {
  }

  lemma {:induction false} FirstStays(table: seq<Phdr>, n: nat, m: nat, page: nat)
    requires 0 < page <= LIMIT && n <= m <= |table| && FirstNonEmpty(table, n, page) < n
    ensures FirstNonEmpty(table, m, page) == FirstNonEmpty(table, n, page)
  {
    if n < m {
      FirstStays(table, n, m - 1, page);
    }
  }

  /** If no entry before this one has pages and this one does, it is the first of the whole table. */
  lemma FirstHere(table: seq<Phdr>, n: nat, page: nat)
    requires 0 < page <= LIMIT && n < |table|
    ensures FirstNonEmpty(table, n, page) == n && table[n].kind == GnuRelro && SegmentSize(table[n], page) > 0 ==>
              FirstNonEmpty(table, |table|, page) == n
  {
    if FirstNonEmpty(table, n + 1, page) == n {
      FirstStays(table, n + 1, |table|, page);
    }
  }

  /** A page past the end of the file cannot be compared. */
  lemma PastFile(file: seq<u8>, pos: nat, page: nat)
    requires page > 0 && pos >= |file|
    ensures !Readable(file, pos, page)
  {
    UpBounds(|file|, page);
  }

  lemma InFile(file: seq<u8>, pos: nat, offset: nat, size: nat, page: nat)
    requires page > 0 && Aligned(offset, page) && Aligned(size, page) && offset < size && pos + size <= |file|
    ensures Readable(file, pos + offset, page)
  {
    NextOffset(offset, size, page);
    UpBounds(|file|, page);
  }

  /** One page of RELRO, a file of one page, and an offset of two. */
  method OffsetPastFile(bytes: nat -> u8, file: seq<u8>) returns (r: Outcome)
    requires |file| == 0x1000
    ensures r.Faulted?
  {
    var process := new Process(bytes);
    var p := Phdr(GnuRelro, true, false, false, 0, 0, 0x1000, 0x1000, 0x1000);
    OnePage(p);
    var offset, stop;
    r, offset, stop := process.MapGnuRelro([p], 0, file, 0x2000, 0x1000, true, _ => true);
  }

  lemma OnePage(p: Phdr)
    requires p.kind == GnuRelro && p.vaddr == 0 && p.memsz == 0x1000
    ensures IsPowerOfTwo(0x1000) && SegmentSize(p, 0x1000) == 0x1000 && FirstNonEmpty([p], 1, 0x1000) == 0
  {
    assert Power2(4) == 16;
    Power2Add(4, 4);
    Power2Add(4, 8);
    Halve(0x1000, 12);
    NoWrapEnd(0x1000, 0x1000);
    PowerDivides(0x1000, 0x1000);
    UpAligned(0x1000, 0x1000);
  }
}
