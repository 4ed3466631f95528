/** Mapping the loadable segments of a file into the address space reserved for it. */
module SegmentLoader {
  import opened Powers
  import opened Options
  import opened Words
  import opened Pages
  import opened ProgramHeaders
  import opened Compat16K
  import AddressSpace

  const API_O := 26

  /** Memory by address; nothing where an access faults. */
  type Memory = nat -> Option<u8>

  /** A file mapping: whole pages of the file, zeros after its end on its last page, nothing behind that. */
  function MapFile(m: Memory, file: seq<u8>, start: nat, n: nat, pos: nat, page: nat): Memory
    requires page > 0
  {
    var end, eof := start + Up(n, page), Up(|file|, page);
    (x: nat) => if start <= x < end then FromFile(file, eof, pos + (x - start)) else m(x)
  }

  function FromFile(file: seq<u8>, eof: nat, pos: nat): Option<u8> {
    if pos < |file| then Some(file[pos]) else if pos < eof then Some(0) else None
  }

  /** Zeros over a range: an anonymous mapping, or memset where it does not fault. */
  function Zeros(m: Memory, start: nat, n: nat): Memory {
    (x: nat) => if start <= x < start + n then Some(0) else m(x)
  }

  /** A store somewhere in the range faults. */
  predicate Faults(m: Memory, start: nat, end: nat) {
    exists x: nat :: start <= x < end && m(x).None?
  }

  /** pread: the bytes there are. */
  function ReadFile(m: Memory, file: seq<u8>, start: nat, n: nat, pos: nat): Memory {
    (x: nat) => if start <= x < start + n && pos + (x - start) < |file| then Some(file[pos + (x - start)]) else m(x)
  }

  /**
   * What is loaded, and the system it is loaded on. `maps` and `bssMaps` say which segments the kernel maps,
   * `drops` whether it takes hints about padding.
   */
  datatype Setting = Setting(
    table: seq<Phdr>, file: seq<u8>, fileOffset: u64, page: nat, api: int, compat: bool, pads: bool, drops: bool,
    maps: nat -> bool, bssMaps: nat -> bool)

  ghost predicate Proper(e: Setting) {
    IsPowerOfTwo(e.page) && COMPAT_PAGE <= e.page <= GREATEST_PAGE
  }

  const GREATEST_PAGE: nat := 0x1_0000

  function Grain(e: Setting): (g: nat) {
    if e.compat then COMPAT_PAGE else e.page
  }

  /** By how much a segment is stretched, so that its mapping reaches the next segment's. */
  function Extension(e: Setting, i: nat): u64
    requires i < |e.table| && 0 < e.page <= LIMIT
  {
    var p := e.table[i];
    if e.compat || p.align <= e.page || p.align > 0x1_0000 || !e.pads then 0
    else if i + 1 >= |e.table| || e.table[i + 1].kind != Load || p.memsz != p.filesz then 0
    else
      var nextStart, end := Start64(e.table[i + 1].vaddr, e.page), End64(Add64(p.vaddr, p.memsz), e.page);
      if end >= nextStart then 0 else nextStart - end
  }

  /** The addresses LoadSegments computes for a segment. */
  datatype Extent = Extent(segStart: u64, segPageEnd: u64, segFileEnd: u64, fileLength: u64)

  function ExtentOf(e: Setting, i: nat, bias: u64): Extent
    requires i < |e.table| && 0 < e.page <= LIMIT
  {
    var p := e.table[i];
    var memsz, filesz := Add64(p.memsz, Extension(e, i)), Add64(p.filesz, Extension(e, i));
    var segStart := Add64(p.vaddr, bias);
    Extent(segStart, End64(Add64(segStart, memsz), Grain(e)), Add64(segStart, filesz),
           Sub64(Add64(p.offset, filesz), Start64(p.offset, Grain(e))))
  }

  datatype Error =
    | SmallAlignment | NotEligible | NullDereference | CheckFailed
    | EmptyFile | PastEnd | WriteAndExecute | NotMapped | Faulted | BssNotMapped

  /** Why a segment is refused before anything is mapped. */
  function Refusal(e: Setting, i: nat, bias: u64): Option<Error>
    requires i < |e.table| && 0 < e.page <= LIMIT
  {
    var p := e.table[i];
    if |e.file| == 0 then Some(EmptyFile)
    else if Add64(p.offset, p.filesz) > |e.file| then Some(PastEnd)
    else if p.writable && p.executable && ExtentOf(e, i, bias).fileLength != 0 && e.api >= API_O then
      Some(WriteAndExecute)
    else None
  }

  /** The file's bytes, page by page or, in compatibility mode, read. */
  function Mapped(e: Setting, i: nat, bias: u64, m: Memory): Memory
    requires i < |e.table| && 0 < e.page <= LIMIT
  {
    var p, x := e.table[i], ExtentOf(e, i, bias);
    if x.fileLength == 0 then m
    else if e.compat then
      ReadFile(m, e.file, Start64(x.segStart, COMPAT_PAGE), x.fileLength,
               Add64(e.fileOffset, Start64(p.offset, COMPAT_PAGE)))
    else
      MapFile(m, e.file, Start64(x.segStart, e.page), x.fileLength,
              Add64(e.fileOffset, Start64(p.offset, e.page)), e.page)
  }

  /** Where the contents end, without what stretches the segment. */
  function ContentsEnd(e: Setting, i: nat, bias: u64): u64
    requires i < |e.table|
  {
    Add64(Add64(e.table[i].vaddr, bias), e.table[i].filesz)
  }

  /** How many bytes from there are cleared. */
  function FillSize(e: Setting, i: nat, bias: u64): (n: nat)
    requires i < |e.table| && 0 < e.page <= LIMIT
    ensures n < e.page
  {
    var end := ContentsEnd(e, i, bias);
    DownBounds(end, e.page);
    var offset := end - Down(end, e.page);
    if !e.compat && e.table[i].writable && offset > 0 then e.page - offset else 0
  }

  function ZeroFilled(e: Setting, i: nat, bias: u64, m: Memory): Memory
    requires i < |e.table| && 0 < e.page <= LIMIT
  {
    var n := FillSize(e, i, bias);
    if n > 0 then Zeros(m, ContentsEnd(e, i, bias), n) else m
  }

  /** Clearing reaches a page that is not there. */
  predicate FillFaults(e: Setting, i: nat, bias: u64, m: Memory)
    requires i < |e.table| && 0 < e.page <= LIMIT
  {
    Faults(m, ContentsEnd(e, i, bias), ContentsEnd(e, i, bias) + FillSize(e, i, bias))
  }

  /** Padding pages that are dropped come back from the file. */
  function Dropped(e: Setting, i: nat, bias: u64, m: Memory): Memory
    requires i < |e.table| && 0 < e.page <= LIMIT
  {
    var x := ExtentOf(e, i, bias);
    DropPages(e, i, x.segStart, End64(Add64(x.segStart, e.table[i].filesz), e.page), End64(x.segFileEnd, e.page), m)
  }

  function DropPages(e: Setting, i: nat, segStart: u64, padStart: u64, padEnd: u64, m: Memory): Memory
    requires i < |e.table| && 0 < e.page <= LIMIT
  {
    if e.compat || padStart >= padEnd || !e.drops then m
    else MapFile(m, e.file, padStart, padEnd - padStart, PadPosition(e, i, segStart, padStart), e.page)
  }

  function PadPosition(e: Setting, i: nat, segStart: u64, padStart: u64): u64
    requires i < |e.table| && 0 < e.page <= LIMIT
  {
    Add64(Add64(e.fileOffset, Start64(e.table[i].offset, e.page)), Sub64(padStart, Start64(segStart, e.page)))
  }

  /** Whether pages are needed past the last page of file contents. */
  predicate NeedsBss(e: Setting, i: nat, bias: u64)
    requires i < |e.table| && 0 < e.page <= LIMIT
  {
    var x := ExtentOf(e, i, bias);
    !e.compat && x.segPageEnd > End64(x.segFileEnd, e.page)
  }

  function BssMapped(e: Setting, i: nat, bias: u64, m: Memory): Memory
    requires i < |e.table| && 0 < e.page <= LIMIT && NeedsBss(e, i, bias)
  {
    var x := ExtentOf(e, i, bias);
    var start := End64(x.segFileEnd, e.page);
    Zeros(m, start, x.segPageEnd - start)
  }

  /** The assertion made on the way: padding does not end before it starts. */
  predicate PaddingChecks(e: Setting, i: nat, bias: u64)
    requires i < |e.table| && 0 < e.page <= LIMIT
  {
    var x := ExtentOf(e, i, bias);
    e.compat || End64(Add64(x.segStart, e.table[i].filesz), e.page) <= End64(x.segFileEnd, e.page)
  }

  /** One segment: memory afterwards, and what went wrong. */
  function Step(e: Setting, i: nat, bias: u64, m: Memory): (Memory, Option<Error>)
    requires i < |e.table| && 0 < e.page <= LIMIT
  {
    var refusal := Refusal(e, i, bias);
    if e.table[i].kind != Load then (m, None)
    else if refusal.Some? then (m, refusal)
    else if ExtentOf(e, i, bias).fileLength != 0 && !e.maps(i) then (m, Some(NotMapped))
    else
      var mapped := Mapped(e, i, bias, m);
      var filled := ZeroFilled(e, i, bias, mapped);
      if FillFaults(e, i, bias, mapped) then (mapped, Some(Faulted))
      else if !PaddingChecks(e, i, bias) then (filled, Some(CheckFailed))
      else
        var dropped := Dropped(e, i, bias, filled);
        if !NeedsBss(e, i, bias) then (dropped, None)
        else if !e.bssMaps(i) then (dropped, Some(BssNotMapped))
        else (BssMapped(e, i, bias, dropped), None)
  }

  /** The segments from i on, until one fails. */
  function LoadFrom(e: Setting, i: nat, bias: u64, m: Memory): (Memory, Option<Error>)
    requires i <= |e.table| && 0 < e.page <= LIMIT
    decreases |e.table| - i
  {
    if i == |e.table| then (m, None)
    else
      var (n, error) := Step(e, i, bias, m);
      if error.Some? then (n, error) else LoadFrom(e, i + 1, bias, n)
  }

  // ---- well-formed tables, and where their segments go

  /**
   * Segments ascend on pages of their own, hold no less in memory than in the file, and lie at the same place in a page
   * of memory as in a page of the file. A file inside another starts on a page, or the kernel would not map it.
   */
  ghost predicate WellFormed(e: Setting) {
    && Proper(e) && e.fileOffset + |e.file| + e.page < LIMIT && NoWrap(e.table, e.page)
    && (e.compat || Aligned(e.fileOffset, e.page))
    && (forall i :: 0 <= i < |e.table| && e.table[i].kind == Load ==> Matched(e.table[i], Grain(e)))
    && Ascending(e.table, Grain(e))
  }

  ghost predicate Matched(p: Phdr, grain: nat)
    requires grain > 0
  {
    && p.filesz <= p.memsz && p.offset + p.filesz < LIMIT
    && p.vaddr - Down(p.vaddr, grain) == p.offset - Down(p.offset, grain)
  }

  /** The bias moves the table's lowest page to `base`, and everything stays below the end of the address space. */
  ghost predicate Placed(e: Setting, bias: u64, base: u64)
    requires 0 < e.page <= LIMIT
  {
    && Add64(MinVaddr(e.table, e.page), bias) == base && Aligned(base, Grain(e))
    && base + Sub64(MaxVaddr(e.table, e.page), MinVaddr(e.table, e.page)) + e.page < LIMIT
  }

  /** Where a segment's address goes. */
  function At(e: Setting, base: u64, vaddr: nat): int
    requires 0 < e.page <= LIMIT
  {
    base + vaddr - MinVaddr(e.table, e.page)
  }

  lemma GrainDivides(e: Setting)
    requires Proper(e)
    ensures Aligned(e.page, Grain(e)) && Grain(e) <= e.page && e.page <= LIMIT
    ensures Aligned(MinVaddr(e.table, e.page), Grain(e)) && Aligned(MaxVaddr(e.table, e.page), Grain(e))
  {
    assert Power2(4) == 16;
    Power2Add(4, 4);
    Power2Add(4, 8);
    Halve(COMPAT_PAGE, 12);
    PowerDivides(COMPAT_PAGE, e.page);
    BoundsAligned(e.table, e.page);
    UpAligned(e.page, e.page);
    assert Aligned(e.page, e.page) by {
      AlignedSum(e.page, 0, e.page);
    }
    if e.compat {
      PagesOf(MinVaddr(e.table, e.page), e.page, COMPAT_PAGE);
      PagesOf(MaxVaddr(e.table, e.page), e.page, COMPAT_PAGE);
    }
  }

  /** Addresses keep their place in a page. */
  lemma RoundsAlong(base: nat, min: nat, v: nat, t: nat, grain: nat)
    requires grain > 0 && Aligned(base, grain) && Aligned(min, grain) && min <= v && t == base + v - min
    ensures min <= Down(v, grain) && Down(t, grain) == base + Down(v, grain) - min
    ensures Up(t, grain) == base + Up(v, grain) - min
  {
    var d := v - min;
    SumRounds(t, base, d, grain);
    SumRounds(v, min, d, grain);
  }

  /** A stretched segment has no bss, and reaches exactly to the page of the segment after it. */
  lemma ExtensionReaches(e: Setting, i: nat)
    requires WellFormed(e) && i < |e.table| && e.table[i].kind == Load && Extension(e, i) > 0
    ensures !e.compat && e.table[i].memsz == e.table[i].filesz && i + 1 < |e.table| && e.table[i + 1].kind == Load
    ensures Up(e.table[i].vaddr + e.table[i].memsz, e.page) + Extension(e, i) == Down(e.table[i + 1].vaddr, e.page)
  {
    NoWrapEnd(e.table[i].vaddr + e.table[i].memsz, e.page);
  }

  /**
   * A segment is stretched exactly when segments are padded, it asks for an alignment above a page and up to 64 KiB,
   * has no bss, and is followed in the table by a loadable segment that does not start on its last page's end.
   */
  lemma StretchedExactly(e: Setting, i: nat)
    requires WellFormed(e) && i < |e.table| && e.table[i].kind == Load
    ensures Extension(e, i) > 0 <==>
              && !e.compat && e.pads && e.page < e.table[i].align <= 0x1_0000
              && e.table[i].memsz == e.table[i].filesz
              && i + 1 < |e.table| && e.table[i + 1].kind == Load
              && Up(e.table[i].vaddr + e.table[i].memsz, e.page) < Down(e.table[i + 1].vaddr, e.page)
  {
    NoWrapEnd(e.table[i].vaddr + e.table[i].memsz, e.page);
  }

  /** Past the last page a segment's mappings take. */
  function Top(e: Setting, i: nat, base: u64): int
    requires i < |e.table| && 0 < e.page <= LIMIT
  {
    At(e, base, Up(e.table[i].vaddr + e.table[i].memsz, Grain(e))) + Extension(e, i)
  }

  function Bottom(e: Setting, i: nat, base: u64): int
    requires i < |e.table| && 0 < e.page <= LIMIT
  {
    At(e, base, Down(e.table[i].vaddr, Grain(e)))
  }

  /** The segments' ranges do not overlap, and lie between the reservation's ends. */
  lemma Ranges(e: Setting, i: nat, base: u64)
    requires WellFormed(e) && i < |e.table| && e.table[i].kind == Load
    ensures base <= Bottom(e, i, base)
    ensures Top(e, i, base) <= base + Sub64(MaxVaddr(e.table, e.page), MinVaddr(e.table, e.page))
    ensures forall j :: i < j < |e.table| && e.table[j].kind == Load ==> Top(e, i, base) <= Bottom(e, j, base)
  {
    var p, g := e.table[i], Grain(e);
    GrainDivides(e);
    Spans(e.table, e.page, i);
    DownBounds(p.vaddr, e.page);
    DownGreatest(MinVaddr(e.table, e.page), p.vaddr, g);
    UpBounds(p.vaddr + p.memsz, e.page);
    UpLeast(MaxVaddr(e.table, e.page), p.vaddr + p.memsz, g);
    if Extension(e, i) > 0 {
      NextRange(e, i, base);
    }
  }

  lemma NextRange(e: Setting, i: nat, base: u64)
    requires WellFormed(e) && i < |e.table| && e.table[i].kind == Load && Extension(e, i) > 0
    ensures Top(e, i, base) <= base + Sub64(MaxVaddr(e.table, e.page), MinVaddr(e.table, e.page))
    ensures forall j :: i < j < |e.table| && e.table[j].kind == Load ==> Top(e, i, base) <= Bottom(e, j, base)
  {
    ExtensionReaches(e, i);
    GrainDivides(e);
    Spans(e.table, e.page, i + 1);
    var q, g := e.table[i + 1], Grain(e);
    DownBounds(q.vaddr, g);
    UpBounds(q.vaddr + q.memsz, g);
  }

  /** The computed addresses are the ones meant: the segment starts at s, and its pages run from bottom to top. */
  ghost predicate Meant(p: Phdr, x: Extent, ext: nat, s: nat, bottom: nat, top: nat, g: nat)
    requires g > 0
  {
    && x.segStart == s && Down(s, g) == bottom
    && s - bottom == p.offset - Down(p.offset, g)
    && x.fileLength == p.filesz + ext + (s - bottom)
    && x.segFileEnd == s + p.filesz + ext && s + p.memsz + ext <= top
    && x.segPageEnd == top
    && Up(s + p.filesz, g) + ext == Up(s + p.filesz + ext, g) <= top
    && (ext > 0 ==> p.memsz == p.filesz)
  }

  lemma Geometry(e: Setting, i: nat, bias: u64, base: u64) returns (s: nat, bottom: nat, top: nat)
    requires WellFormed(e) && Placed(e, bias, base) && i < |e.table| && e.table[i].kind == Load
    ensures s == At(e, base, e.table[i].vaddr) && bottom == Bottom(e, i, base) && top == Top(e, i, base)
    ensures Meant(e.table[i], ExtentOf(e, i, bias), Extension(e, i), s, bottom, top, Grain(e))
    ensures top + e.page < LIMIT
  {
    s := StartMeant(e, i, base);
    bottom := BottomMeant(e, i, base, s);
    top := TopMeant(e, i, base, s);
    Sums(e, i, bias, base, s);
    ExtensionAligned(e, i);
  }

  lemma StartMeant(e: Setting, i: nat, base: u64) returns (s: nat)
    requires WellFormed(e) && i < |e.table| && e.table[i].kind == Load
    ensures s == At(e, base, e.table[i].vaddr) && MinVaddr(e.table, e.page) <= e.table[i].vaddr
  {
    AboveMin(e, i);
    s := base + e.table[i].vaddr - MinVaddr(e.table, e.page);
  }

  lemma BottomMeant(e: Setting, i: nat, base: u64, s: nat) returns (bottom: nat)
    requires WellFormed(e) && Aligned(base, Grain(e)) && i < |e.table| && e.table[i].kind == Load
    requires s == At(e, base, e.table[i].vaddr)
    ensures bottom == Bottom(e, i, base) == Down(s, Grain(e))
    ensures s - bottom == e.table[i].offset - Down(e.table[i].offset, Grain(e))
  {
    GrainDivides(e);
    AboveMin(e, i);
    RoundsAlong(base, MinVaddr(e.table, e.page), e.table[i].vaddr, s, Grain(e));
    bottom := Down(s, Grain(e));
    assert Matched(e.table[i], Grain(e));
  }

  lemma TopMeant(e: Setting, i: nat, base: u64, s: nat) returns (top: nat)
    requires WellFormed(e) && Aligned(base, Grain(e)) && i < |e.table| && e.table[i].kind == Load
    requires s == At(e, base, e.table[i].vaddr)
    requires base + Sub64(MaxVaddr(e.table, e.page), MinVaddr(e.table, e.page)) + e.page < LIMIT
    ensures top == Top(e, i, base) && top + e.page < LIMIT
    ensures top == Up(s + e.table[i].memsz + Extension(e, i), Grain(e)) && s + e.table[i].memsz + Extension(e, i) <= top
    ensures Up(s + e.table[i].filesz, Grain(e)) + Extension(e, i)
              == Up(s + e.table[i].filesz + Extension(e, i), Grain(e)) <= top
  {
    top := TopIs(e, i, base, s);
    FileInside(e, i, s, top);
  }

  lemma FileInside(e: Setting, i: nat, s: nat, top: nat)
    requires WellFormed(e) && i < |e.table| && e.table[i].kind == Load
    requires top == Up(s + e.table[i].memsz + Extension(e, i), Grain(e))
    ensures s + e.table[i].memsz + Extension(e, i) <= top
    ensures Up(s + e.table[i].filesz, Grain(e)) + Extension(e, i)
              == Up(s + e.table[i].filesz + Extension(e, i), Grain(e)) <= top
  {
    ExtensionAligned(e, i);
    MemoryNoLess(e, i);
    FileBelow(s, e.table[i].filesz, e.table[i].memsz, Extension(e, i), Grain(e), top);
  }

  lemma TopIs(e: Setting, i: nat, base: u64, s: nat) returns (top: nat)
    requires WellFormed(e) && Aligned(base, Grain(e)) && i < |e.table| && e.table[i].kind == Load
    requires s == At(e, base, e.table[i].vaddr)
    requires base + Sub64(MaxVaddr(e.table, e.page), MinVaddr(e.table, e.page)) + e.page < LIMIT
    ensures top == Top(e, i, base) == Up(s + e.table[i].memsz + Extension(e, i), Grain(e)) && top + e.page < LIMIT
  {
    TopRounds(e, i, base, s, e.table[i].vaddr + e.table[i].memsz, s + e.table[i].memsz);
    TopBelow(e, i, base);
    top := Up(s + e.table[i].memsz + Extension(e, i), Grain(e));
  }

  lemma MemoryNoLess(e: Setting, i: nat)
    requires WellFormed(e) && i < |e.table| && e.table[i].kind == Load
    ensures e.table[i].filesz <= e.table[i].memsz
  {
    assert Matched(e.table[i], Grain(e));
  }

  lemma TopRounds(e: Setting, i: nat, base: u64, s: nat, v: nat, t: nat)
    requires WellFormed(e) && Aligned(base, Grain(e)) && i < |e.table| && e.table[i].kind == Load
    requires v == e.table[i].vaddr + e.table[i].memsz && t == At(e, base, v)
    ensures Up(t + Extension(e, i), Grain(e)) == At(e, base, Up(v, Grain(e))) + Extension(e, i)
  {
    GrainDivides(e);
    AboveMin(e, i);
    ExtensionAligned(e, i);
    RoundsAlong(base, MinVaddr(e.table, e.page), v, t, Grain(e));
    Stretched(t, Extension(e, i), Grain(e));
  }

  lemma TopBelow(e: Setting, i: nat, base: u64)
    requires WellFormed(e) && i < |e.table| && e.table[i].kind == Load
    ensures Top(e, i, base) <= base + Sub64(MaxVaddr(e.table, e.page), MinVaddr(e.table, e.page))
  {
    Ranges(e, i, base);
  }

  lemma FileBelow(s: nat, filesz: nat, memsz: nat, ext: nat, g: nat, top: nat)
    requires g > 0 && Aligned(ext, g) && filesz <= memsz && top == Up(s + memsz + ext, g)
    ensures s + memsz + ext <= top
    ensures Up(s + filesz, g) + ext == Up(s + filesz + ext, g) <= top
  {
    Stretched(s + filesz, ext, g);
    UpMonotone(s + filesz + ext, s + memsz + ext, g);
    UpBounds(s + memsz + ext, g);
  }

  lemma AboveMin(e: Setting, i: nat)
    requires WellFormed(e) && i < |e.table| && e.table[i].kind == Load
    ensures MinVaddr(e.table, e.page) <= e.table[i].vaddr
  {
    GrainDivides(e);
    Spans(e.table, e.page, i);
    DownBounds(e.table[i].vaddr, e.page);
  }

  lemma ExtensionAligned(e: Setting, i: nat)
    requires WellFormed(e) && i < |e.table| && e.table[i].kind == Load
    ensures Aligned(Extension(e, i), Grain(e))
    ensures Extension(e, i) > 0 ==> e.table[i].memsz == e.table[i].filesz && !e.compat
  {
    if Extension(e, i) > 0 {
      var p := e.table[i];
      ExtensionReaches(e, i);
      DownBounds(e.table[i + 1].vaddr, e.page);
      UpBounds(p.vaddr + p.memsz, e.page);
      AlignedDifference(Up(p.vaddr + p.memsz, e.page), Down(e.table[i + 1].vaddr, e.page), e.page);
    }
  }

  lemma Stretched(a: nat, ext: nat, g: nat)
    requires g > 0 && Aligned(ext, g)
    ensures Up(a + ext, g) == Up(a, g) + ext
  {
    SumRounds(a + ext, ext, a, g);
  }

  /** No sum wraps. */
  lemma Sums(e: Setting, i: nat, bias: u64, base: u64, s: nat)
    requires Proper(e) && i < |e.table| && s + e.table[i].memsz + Extension(e, i) + e.page < LIMIT
    requires s == At(e, base, e.table[i].vaddr) && Placed(e, bias, base)
    requires MinVaddr(e.table, e.page) <= e.table[i].vaddr
    requires e.table[i].filesz <= e.table[i].memsz && e.table[i].offset + e.table[i].filesz < LIMIT
    ensures ExtentOf(e, i, bias).segStart == s
    ensures ExtentOf(e, i, bias).segPageEnd == Up(s + e.table[i].memsz + Extension(e, i), Grain(e))
    ensures ExtentOf(e, i, bias).segFileEnd == s + e.table[i].filesz + Extension(e, i)
    ensures ExtentOf(e, i, bias).fileLength ==
              e.table[i].filesz + Extension(e, i) + (e.table[i].offset - Down(e.table[i].offset, Grain(e)))
  {
    var p, ext := e.table[i], Extension(e, i);
    GrainDivides(e);
    DownBounds(p.offset, Grain(e));
    NoWrapEnd(s + p.memsz + ext, Grain(e));
  }

  // ---- what each step leaves at an address

  /** The file's byte for an address of a segment that starts at s. */
  function Content(e: Setting, i: nat, s: nat, x: nat): Option<u8>
    requires i < |e.table| && 0 < e.page <= LIMIT
  {
    var pos := e.fileOffset + e.table[i].offset + x - s;
    if pos < 0 then None else FromFile(e.file, Up(|e.file|, e.page), pos)
  }

  /** How far what comes from the file goes: whole pages of a mapping, the bytes of a read. */
  function FileTop(e: Setting, i: nat, s: nat): nat
    requires i < |e.table| && 0 < e.page <= LIMIT
  {
    var end := s + e.table[i].filesz + Extension(e, i);
    if e.compat then end else Up(end, e.page)
  }

  lemma MappedAt(e: Setting, i: nat, bias: u64, m: Memory, s: nat, bottom: nat, top: nat, x: nat)
    requires 0 < COMPAT_PAGE <= e.page <= LIMIT && i < |e.table| && e.fileOffset + e.table[i].offset < LIMIT
    requires Meant(e.table[i], ExtentOf(e, i, bias), Extension(e, i), s, bottom, top, Grain(e))
    ensures Mapped(e, i, bias, m)(x) ==
              if bottom <= x < FileTop(e, i, s) && (e.compat ==> e.fileOffset + e.table[i].offset + x - s < |e.file|)
              then Content(e, i, s, x) else m(x)
  {
    var p, g, n := e.table[i], Grain(e), ExtentOf(e, i, bias).fileLength;
    DownBounds(s, g);
    DownBounds(p.offset, g);
    assert Start64(ExtentOf(e, i, bias).segStart, g) == bottom;
    assert Add64(e.fileOffset, Start64(p.offset, g)) == e.fileOffset + Down(p.offset, g);
    if !e.compat {
      SumRounds(s + p.filesz + Extension(e, i), bottom, n, g);
      if n == 0 {
        UpAligned(0, g);
      }
    }
  }

  lemma ZeroFilledAt(e: Setting, i: nat, bias: u64, m: Memory, s: nat, bottom: nat, top: nat, x: nat)
    requires 0 < COMPAT_PAGE <= e.page <= LIMIT && i < |e.table| && s + e.table[i].filesz < LIMIT
    requires Meant(e.table[i], ExtentOf(e, i, bias), Extension(e, i), s, bottom, top, Grain(e))
    ensures ZeroFilled(e, i, bias, m)(x) ==
              if !e.compat && e.table[i].writable && s + e.table[i].filesz <= x < Up(s + e.table[i].filesz, e.page)
              then Some(0) else m(x)
  {
    FillRange(e, i, bias, s, bottom, top);
  }

  /** What is cleared goes from the end of the contents to the end of the page. */
  lemma FillRange(e: Setting, i: nat, bias: u64, s: nat, bottom: nat, top: nat)
    requires 0 < COMPAT_PAGE <= e.page <= LIMIT && i < |e.table| && s + e.table[i].filesz < LIMIT
    requires Meant(e.table[i], ExtentOf(e, i, bias), Extension(e, i), s, bottom, top, Grain(e))
    ensures ContentsEnd(e, i, bias) == s + e.table[i].filesz <= Up(s + e.table[i].filesz, e.page)
    ensures FillSize(e, i, bias) ==
              if !e.compat && e.table[i].writable
              then Up(s + e.table[i].filesz, e.page) - (s + e.table[i].filesz) else 0
  {
    var end := s + e.table[i].filesz;
    DownBounds(end, e.page);
    UpBounds(end, e.page);
    var d := Down(end, e.page);
    if end == d {
      UpAligned(end, e.page);
    } else {
      AlignedSum(d, e.page, e.page);
      UpLeast(d + e.page, end, e.page);
      NextPage(d, Up(end, e.page), e.page);
    }
  }

  lemma DroppedAt(e: Setting, i: nat, bias: u64, m: Memory, s: nat, bottom: nat, top: nat, x: nat)
    requires 0 < COMPAT_PAGE <= e.page <= LIMIT && i < |e.table|
    requires e.fileOffset + e.table[i].offset + e.table[i].filesz + e.page < LIMIT
    requires top + e.page < LIMIT && Aligned(Extension(e, i), e.page)
    requires Meant(e.table[i], ExtentOf(e, i, bias), Extension(e, i), s, bottom, top, Grain(e))
    ensures Dropped(e, i, bias, m)(x) ==
              if !e.compat && e.drops
                && Up(s + e.table[i].filesz, e.page) <= x < Up(s + e.table[i].filesz, e.page) + Extension(e, i)
              then Content(e, i, s, x) else m(x)
  {
    if !e.compat {
      var padStart := PadStart(e, i, bias, m, s, bottom, top);
      DropPagesAt(e, i, s, bottom, padStart, Extension(e, i), m, x);
    }
  }

  lemma PadStart(e: Setting, i: nat, bias: u64, m: Memory, s: nat, bottom: nat, top: nat) returns (padStart: u64)
    requires 0 < COMPAT_PAGE <= e.page <= LIMIT && i < |e.table| && !e.compat && top + e.page < LIMIT
    requires Meant(e.table[i], ExtentOf(e, i, bias), Extension(e, i), s, bottom, top, Grain(e))
    ensures padStart == Up(s + e.table[i].filesz, e.page) && s <= padStart < s + e.table[i].filesz + e.page
    ensures padStart + Extension(e, i) < LIMIT
    ensures Dropped(e, i, bias, m) == DropPages(e, i, s, padStart, padStart + Extension(e, i), m)
  {
    PadEnds(s, e.table[i].filesz, Extension(e, i), top, e.page);
    padStart := Up(s + e.table[i].filesz, e.page);
  }

  lemma DropPagesAt(e: Setting, i: nat, s: u64, bottom: nat, padStart: u64, ext: nat, m: Memory, x: nat)
    requires i < |e.table| && 0 < e.page <= LIMIT && Aligned(ext, e.page) && padStart + ext < LIMIT
    requires bottom == Down(s, e.page) && s - bottom == e.table[i].offset - Down(e.table[i].offset, e.page)
    requires s <= padStart < s + e.table[i].filesz + e.page
    requires e.fileOffset + e.table[i].offset + e.table[i].filesz + e.page < LIMIT
    ensures DropPages(e, i, s, padStart, padStart + ext, m)(x) ==
              if !e.compat && e.drops && padStart <= x < padStart + ext then Content(e, i, s, x) else m(x)
  {
    if ext > 0 && e.drops {
      PadPositionMeant(e, i, s, bottom, padStart);
      MapPages(m, e.file, padStart, ext, PadPosition(e, i, s, padStart), e.page, x);
    }
  }

  lemma MapPages(m: Memory, file: seq<u8>, start: nat, n: nat, pos: nat, page: nat, x: nat)
    requires page > 0 && Aligned(n, page)
    ensures MapFile(m, file, start, n, pos, page)(x) ==
              if start <= x < start + n then FromFile(file, Up(|file|, page), pos + (x - start)) else m(x)
  {
    UpAligned(n, page);
  }

  lemma PadEnds(s: nat, filesz: nat, ext: nat, top: nat, page: nat)
    requires 0 < page <= LIMIT && Up(s + filesz, page) + ext == Up(s + filesz + ext, page) <= top && top + page < LIMIT
    ensures s + filesz + ext < LIMIT && Add64(s, filesz) == s + filesz <= Up(s + filesz, page) < s + filesz + page
    ensures End64(s + filesz, page) == Up(s + filesz, page)
    ensures End64(s + filesz + ext, page) == Up(s + filesz + ext, page)
  {
    UpBounds(s + filesz, page);
    UpBounds(s + filesz + ext, page);
    NoWrapEnd(s + filesz, page);
    NoWrapEnd(s + filesz + ext, page);
  }

  lemma PadPositionMeant(e: Setting, i: nat, s: u64, bottom: nat, padStart: u64)
    requires i < |e.table| && 0 < e.page <= LIMIT
    requires bottom == Down(s, e.page) && s - bottom == e.table[i].offset - Down(e.table[i].offset, e.page)
    requires s <= padStart < s + e.table[i].filesz + e.page
    requires e.fileOffset + e.table[i].offset + e.table[i].filesz + e.page < LIMIT
    ensures PadPosition(e, i, s, padStart) == e.fileOffset + e.table[i].offset + padStart - s
  {
    DownBounds(e.table[i].offset, e.page);
    DownBounds(s, e.page);
  }

  /** Memory after the pages for bss are mapped, if any are needed. */
  function WithBss(e: Setting, i: nat, bias: u64, m: Memory): Memory
    requires i < |e.table| && 0 < e.page <= LIMIT
  {
    if NeedsBss(e, i, bias) then BssMapped(e, i, bias, m) else m
  }

  lemma BssAt(e: Setting, i: nat, bias: u64, m: Memory, s: nat, bottom: nat, top: nat, x: nat)
    requires 0 < COMPAT_PAGE <= e.page <= LIMIT && i < |e.table| && top + e.page < LIMIT
    requires Meant(e.table[i], ExtentOf(e, i, bias), Extension(e, i), s, bottom, top, Grain(e))
    ensures WithBss(e, i, bias, m)(x) ==
              if !e.compat && Up(s + e.table[i].filesz + Extension(e, i), e.page) <= x < top then Some(0) else m(x)
  {
    if !e.compat {
      UpBounds(s + e.table[i].filesz + Extension(e, i), e.page);
      NoWrapEnd(s + e.table[i].filesz + Extension(e, i), e.page);
    }
  }

  /** What one segment leaves at an address of its pages. */
  function Left(e: Setting, i: nat, s: nat, before: Option<u8>, x: nat): Option<u8>
    requires i < |e.table| && 0 < e.page <= LIMIT
  {
    var p, c := e.table[i], Content(e, i, s, x);
    if e.compat then
      if x < s + p.filesz && e.fileOffset + p.offset + x - s < |e.file| then c else before
    else if Up(s + p.filesz, e.page) + Extension(e, i) <= x then Some(0)
    else if p.writable && s + p.filesz <= x < Up(s + p.filesz, e.page) then Some(0)
    else c
  }

  lemma NotRefused(e: Setting, i: nat, bias: u64)
    requires WellFormed(e) && i < |e.table| && e.table[i].kind == Load && Refusal(e, i, bias).None?
    ensures e.table[i].offset + e.table[i].filesz <= |e.file|
    ensures e.fileOffset + e.table[i].offset + e.table[i].filesz + e.page < LIMIT
  {
    assert Matched(e.table[i], Grain(e));
  }

  /** A segment's mappings stay in its range, whether they succeed or not; when they do, this is what they leave. */
  lemma StepAt(e: Setting, i: nat, bias: u64, base: u64, m: Memory, x: nat)
    requires WellFormed(e) && Placed(e, bias, base) && i < |e.table| && e.table[i].kind == Load
    ensures !(Bottom(e, i, base) <= x < Top(e, i, base)) ==> Step(e, i, bias, m).0(x) == m(x)
    ensures Step(e, i, bias, m).1.None? && Bottom(e, i, base) <= x < Top(e, i, base) ==>
              At(e, base, e.table[i].vaddr) >= 0
                && Step(e, i, bias, m).0(x) == Left(e, i, At(e, base, e.table[i].vaddr), m(x), x)
  {
    if Refusal(e, i, bias).None? {
      var s, bottom, top := Geometry(e, i, bias, base);
      NotRefused(e, i, bias);
      ExtensionAligned(e, i);
      Checks(e, i, bias, s, bottom, top);
      LayersTogether(e, i, bias, m, s, bottom, top, x);
      StepOutcomes(e, i, bias, m);
    }
  }

  /** How far a segment that is not refused gets. */
  lemma StepOutcomes(e: Setting, i: nat, bias: u64, m: Memory)
    requires i < |e.table| && 0 < e.page <= LIMIT && e.table[i].kind == Load
    requires Refusal(e, i, bias).None? && PaddingChecks(e, i, bias)
    ensures var dropped := Dropped(e, i, bias, ZeroFilled(e, i, bias, Mapped(e, i, bias, m)));
            || Step(e, i, bias, m) == (m, Some(NotMapped))
            || Step(e, i, bias, m) == (Mapped(e, i, bias, m), Some(Faulted))
            || Step(e, i, bias, m) == (dropped, Some(BssNotMapped))
            || Step(e, i, bias, m) == (WithBss(e, i, bias, dropped), None)
  {
  }

  lemma LayersTogether(e: Setting, i: nat, bias: u64, m: Memory, s: nat, bottom: nat, top: nat, x: nat)
    requires 0 < COMPAT_PAGE <= e.page <= LIMIT && i < |e.table|
    requires e.fileOffset + e.table[i].offset + e.table[i].filesz + e.page < LIMIT
    requires top + e.page < LIMIT && Aligned(Extension(e, i), Grain(e))
    requires Meant(e.table[i], ExtentOf(e, i, bias), Extension(e, i), s, bottom, top, Grain(e))
    ensures var dropped := Dropped(e, i, bias, ZeroFilled(e, i, bias, Mapped(e, i, bias, m)));
            && (!(bottom <= x < top) ==>
                  Mapped(e, i, bias, m)(x) == dropped(x) == WithBss(e, i, bias, dropped)(x) == m(x))
            && (bottom <= x < top ==> WithBss(e, i, bias, dropped)(x) == Left(e, i, s, m(x), x))
  {
    var a := Mapped(e, i, bias, m);
    var b := ZeroFilled(e, i, bias, a);
    var c := Dropped(e, i, bias, b);
    Layers(e, i, bias, m, a, b, c, s, bottom, top, x);
    Together(e, i, s, bottom, top, x, m(x), a(x), b(x), c(x), WithBss(e, i, bias, c)(x));
  }

  /** The four layers of a segment, one over the other. */
  lemma Layers(
    e: Setting, i: nat, bias: u64, m: Memory, a: Memory, b: Memory, c: Memory, s: nat, bottom: nat, top: nat, x: nat)
    requires 0 < COMPAT_PAGE <= e.page <= LIMIT && i < |e.table|
    requires e.fileOffset + e.table[i].offset + e.table[i].filesz + e.page < LIMIT
    requires top + e.page < LIMIT && Aligned(Extension(e, i), Grain(e))
    requires Meant(e.table[i], ExtentOf(e, i, bias), Extension(e, i), s, bottom, top, Grain(e))
    requires a == Mapped(e, i, bias, m) && b == ZeroFilled(e, i, bias, a) && c == Dropped(e, i, bias, b)
    ensures Layered(e, i, s, bottom, top, x, m(x), a(x), b(x), c(x), WithBss(e, i, bias, c)(x))
  {
    MappedAt(e, i, bias, m, s, bottom, top, x);
    ZeroFilledAt(e, i, bias, a, s, bottom, top, x);
    DroppedAt(e, i, bias, b, s, bottom, top, x);
    BssAt(e, i, bias, c, s, bottom, top, x);
  }

  /** The value at x after each layer, given the one before. */
  ghost predicate Layered(
    e: Setting, i: nat, s: nat, bottom: nat, top: nat, x: nat, m: Option<u8>, a: Option<u8>, b: Option<u8>,
    c: Option<u8>, d: Option<u8>)
    requires 0 < e.page <= LIMIT && i < |e.table|
  {
    var p, ext := e.table[i], Extension(e, i);
    var fileEnd := Up(s + p.filesz, e.page);
    var onDisk := x < FileTop(e, i, s) && (e.compat ==> e.fileOffset + p.offset + x - s < |e.file|);
    && a == (if bottom <= x && onDisk then Content(e, i, s, x) else m)
    && b == (if !e.compat && p.writable && s + p.filesz <= x < fileEnd then Some(0) else a)
    && c == (if !e.compat && e.drops && fileEnd <= x < fileEnd + ext then Content(e, i, s, x) else b)
    && d == (if !e.compat && Up(s + p.filesz + ext, e.page) <= x < top then Some(0) else c)
  }

  lemma Composed(
    e: Setting, i: nat, s: nat, bottom: nat, top: nat, x: nat, m: Option<u8>, a: Option<u8>, b: Option<u8>,
    c: Option<u8>, d: Option<u8>)
    requires 0 < e.page <= LIMIT && i < |e.table| && Layered(e, i, s, bottom, top, x, m, a, b, c, d)
    requires bottom <= s && FileTop(e, i, s) <= top && (e.compat ==> Extension(e, i) == 0)
    requires !e.compat ==>
               && s + e.table[i].filesz <= Up(s + e.table[i].filesz, e.page)
               && Up(s + e.table[i].filesz + Extension(e, i), e.page)
                  == Up(s + e.table[i].filesz, e.page) + Extension(e, i)
    ensures !(bottom <= x < top) ==> a == b == c == d == m
    ensures bottom <= x < top ==> d == Left(e, i, s, m, x)
  {
  }

  lemma Together(
    e: Setting, i: nat, s: nat, bottom: nat, top: nat, x: nat, m: Option<u8>, a: Option<u8>, b: Option<u8>,
    c: Option<u8>, d: Option<u8>)
    requires 0 < e.page <= LIMIT && i < |e.table| && Layered(e, i, s, bottom, top, x, m, a, b, c, d)
    requires bottom == Down(s, Grain(e))
    requires Up(s + e.table[i].filesz, Grain(e)) + Extension(e, i)
               == Up(s + e.table[i].filesz + Extension(e, i), Grain(e)) <= top
    ensures !(bottom <= x < top) ==> a == b == c == d == m
    ensures bottom <= x < top ==> d == Left(e, i, s, m, x)
  {
    FileEndsInside(e, i, s, bottom, top);
    Composed(e, i, s, bottom, top, x, m, a, b, c, d);
  }

  lemma FileEndsInside(e: Setting, i: nat, s: nat, bottom: nat, top: nat)
    requires 0 < e.page <= LIMIT && i < |e.table| && bottom == Down(s, Grain(e))
    requires Up(s + e.table[i].filesz, Grain(e)) + Extension(e, i)
               == Up(s + e.table[i].filesz + Extension(e, i), Grain(e)) <= top
    ensures bottom <= s && FileTop(e, i, s) <= top && (e.compat ==> Extension(e, i) == 0)
    ensures !e.compat ==>
              && s + e.table[i].filesz <= Up(s + e.table[i].filesz, e.page)
              && Up(s + e.table[i].filesz + Extension(e, i), e.page)
                 == Up(s + e.table[i].filesz, e.page) + Extension(e, i)
  {
    if e.compat {
      Order(s, e.table[i].filesz, 0, top, COMPAT_PAGE);
    } else {
      Order(s, e.table[i].filesz, Extension(e, i), top, e.page);
    }
  }

  lemma Order(s: nat, filesz: nat, ext: nat, top: nat, g: nat)
    requires g > 0 && Up(s + filesz, g) + ext == Up(s + filesz + ext, g) <= top
    ensures Down(s, g) <= s <= s + filesz <= Up(s + filesz, g) && s + filesz + ext <= Up(s + filesz + ext, g)
  {
    DownBounds(s, g);
    UpBounds(s + filesz, g);
    UpBounds(s + filesz + ext, g);
  }

  /** The assertion about padding never fails. */
  lemma Checks(e: Setting, i: nat, bias: u64, s: nat, bottom: nat, top: nat)
    requires 0 < COMPAT_PAGE <= e.page <= LIMIT && i < |e.table| && top + e.page < LIMIT
    requires Meant(e.table[i], ExtentOf(e, i, bias), Extension(e, i), s, bottom, top, Grain(e))
    ensures PaddingChecks(e, i, bias)
  {
    if !e.compat {
      PadEnds(s, e.table[i].filesz, Extension(e, i), top, e.page);
    }
  }

  // ---- the whole image

  ghost predicate InRange(e: Setting, i: nat, base: u64, x: nat)
    requires i < |e.table| && 0 < e.page <= LIMIT
  {
    e.table[i].kind == Load && Bottom(e, i, base) <= x < Top(e, i, base)
  }

  lemma {:induction false} LoadOutside(e: Setting, i: nat, bias: u64, base: u64, m: Memory, x: nat)
    requires WellFormed(e) && Placed(e, bias, base) && i <= |e.table|
    requires forall j :: i <= j < |e.table| ==> !InRange(e, j, base, x)
    ensures LoadFrom(e, i, bias, m).0(x) == m(x)
    decreases |e.table| - i
  {
    if i < |e.table| {
      if e.table[i].kind == Load {
        StepAt(e, i, bias, base, m, x);
        assert !InRange(e, i, base, x);
      }
      LoadOutside(e, i + 1, bias, base, Step(e, i, bias, m).0, x);
    }
  }

  /** What a segment's own mappings leave is what is there in the end: nothing mapped before or after disturbs it. */
  lemma {:induction false} SegmentStays(e: Setting, from: nat, bias: u64, base: u64, m: Memory, i: nat, x: nat)
    requires WellFormed(e) && Placed(e, bias, base) && from <= i < |e.table| && InRange(e, i, base, x)
    requires LoadFrom(e, from, bias, m).1.None?
    ensures At(e, base, e.table[i].vaddr) >= 0
    ensures LoadFrom(e, from, bias, m).0(x) == Left(e, i, At(e, base, e.table[i].vaddr), m(x), x)
    decreases |e.table| - from
  {
    var n := Step(e, from, bias, m).0;
    if from < i {
      if e.table[from].kind == Load {
        Ranges(e, from, base);
        StepAt(e, from, bias, base, m, x);
      }
      SegmentStays(e, from + 1, bias, base, n, i, x);
    } else {
      StepAt(e, i, bias, base, m, x);
      Ranges(e, i, base);
      LoadOutside(e, i + 1, bias, base, n, x);
    }
  }

  /** Loading touches nothing outside the reservation, whether it succeeds or not. */
  lemma InsideReservation(e: Setting, bias: u64, base: u64, m: Memory, x: nat)
    requires WellFormed(e) && Placed(e, bias, base)
    requires !(base <= x < base + Sub64(MaxVaddr(e.table, e.page), MinVaddr(e.table, e.page)))
    ensures LoadFrom(e, 0, bias, m).0(x) == m(x)
  {
    forall j | 0 <= j < |e.table| ensures !InRange(e, j, base, x) {
      if e.table[j].kind == Load {
        Ranges(e, j, base);
      }
    }
    LoadOutside(e, 0, bias, base, m, x);
  }

  /** The same, by how far into its segment a byte lies. */
  lemma ByteStays(e: Setting, bias: u64, base: u64, m: Memory, i: nat, k: nat) returns (s: nat)
    requires WellFormed(e) && Placed(e, bias, base) && LoadFrom(e, 0, bias, m).1.None?
    requires i < |e.table| && e.table[i].kind == Load && k < e.table[i].memsz
    ensures s == At(e, base, e.table[i].vaddr)
    ensures LoadFrom(e, 0, bias, m).0(s + k) == Left(e, i, s, m(s + k), s + k)
    ensures base <= s + k < base + Sub64(MaxVaddr(e.table, e.page), MinVaddr(e.table, e.page))
  {
    var bottom, top;
    s, bottom, top := Geometry(e, i, bias, base);
    DownBounds(s, Grain(e));
    SegmentStays(e, 0, bias, base, m, i, s + k);
    Ranges(e, i, base);
  }

  /** The segment's bytes are all in the file, also when the file is part of another. */
  ghost predicate Intact(e: Setting, i: nat)
    requires i < |e.table|
  {
    e.fileOffset + e.table[i].offset + e.table[i].filesz <= |e.file|
  }

  /** The last page of the contents is backed by the file, when they do not end past its last page. */
  lemma Backed(e: Setting, i: nat, s: nat, x: nat)
    requires WellFormed(e) && !e.compat && i < |e.table| && e.table[i].kind == Load
    requires e.fileOffset + e.table[i].offset + e.table[i].filesz <= Up(|e.file|, e.page)
    requires s - Down(s, e.page) == e.table[i].offset - Down(e.table[i].offset, e.page)
    requires s <= x < Up(s + e.table[i].filesz, e.page)
    ensures Content(e, i, s, x).Some?
  {
    DownBounds(e.table[i].offset, e.page);
    DownBounds(s, e.page);
    BackedAt(e.fileOffset, Down(e.table[i].offset, e.page), s - Down(s, e.page), e.table[i].filesz, Down(s, e.page),
      x, |e.file|, e.page);
    assert e.fileOffset + e.table[i].offset + x - s
      == e.fileOffset + Down(e.table[i].offset, e.page) + (x - Down(s, e.page));
  }

  /** The segment starts r bytes into a page, in memory at `bottom` and in the file at `start`. */
  lemma BackedAt(fileOffset: nat, start: nat, r: nat, filesz: nat, bottom: nat, x: nat, size: nat, page: nat)
    requires page > 0 && Aligned(fileOffset, page) && Aligned(start, page) && Aligned(bottom, page)
    requires bottom <= x < Up(bottom + r + filesz, page) && fileOffset + start + r + filesz <= Up(size, page)
    ensures fileOffset + start + (x - bottom) < Up(size, page)
  {
    var end := r + filesz;
    AlignedSum(fileOffset, start, page);
    SumRounds(bottom + r + filesz, bottom, end, page);
    SumRounds(fileOffset + start + r + filesz, fileOffset + start, end, page);
    UpBounds(size, page);
    UpLeast(Up(size, page), fileOffset + start + r + filesz, page);
  }

  /** The byte a segment should have k bytes after its start, as the program header says. */
  function Described(e: Setting, i: nat, k: nat): u8
    requires i < |e.table| && k < e.table[i].memsz && Intact(e, i)
  {
    if k < e.table[i].filesz then e.file[e.fileOffset + e.table[i].offset + k] else 0
  }

  /** A byte past the file contents, on their last page, of a segment that cannot be written to. */
  ghost predicate ReadOnlyBss(e: Setting, i: nat, k: nat)
    requires i < |e.table| && 0 < e.page <= LIMIT
  {
    !e.compat && !e.table[i].writable && e.table[i].filesz <= k
      && e.table[i].vaddr + k < Up(e.table[i].vaddr + e.table[i].filesz, e.page)
  }

  /**
   * After a successful load every byte of every segment is the one its header describes. The exception is bss of a
   * segment that is not writable, up to the end of a page: there it is what the file goes on with.
   */
  lemma LoadedImage(e: Setting, bias: u64, base: u64, m: Memory, i: nat, k: nat)
    requires WellFormed(e) && Placed(e, bias, base) && LoadFrom(e, 0, bias, m).1.None?
    requires i < |e.table| && e.table[i].kind == Load && k < e.table[i].memsz && Intact(e, i)
    requires e.compat ==> forall x: nat ::
               base <= x < base + Sub64(MaxVaddr(e.table, e.page), MinVaddr(e.table, e.page)) ==> m(x) == Some(0)
    ensures At(e, base, e.table[i].vaddr) >= 0
    ensures !ReadOnlyBss(e, i, k) ==>
              LoadFrom(e, 0, bias, m).0(At(e, base, e.table[i].vaddr) + k) == Some(Described(e, i, k))
    ensures ReadOnlyBss(e, i, k) ==>
              LoadFrom(e, 0, bias, m).0(At(e, base, e.table[i].vaddr) + k)
              == Some(if e.fileOffset + e.table[i].offset + k < |e.file|
                 then e.file[e.fileOffset + e.table[i].offset + k] else 0)
  {
    var s := ByteStays(e, bias, base, m, i, k);
    LeftIsDescribed(e, i, base, s, k, m(s + k));
  }

  lemma LeftIsDescribed(e: Setting, i: nat, base: u64, s: nat, k: nat, before: Option<u8>)
    requires WellFormed(e) && Aligned(base, Grain(e)) && i < |e.table| && e.table[i].kind == Load
    requires k < e.table[i].memsz
    requires Intact(e, i) && s == At(e, base, e.table[i].vaddr) && (e.compat ==> before == Some(0))
    ensures !ReadOnlyBss(e, i, k) ==> Left(e, i, s, before, s + k) == Some(Described(e, i, k))
    ensures ReadOnlyBss(e, i, k) ==>
              Left(e, i, s, before, s + k)
              == Some(if e.fileOffset + e.table[i].offset + k < |e.file|
                 then e.file[e.fileOffset + e.table[i].offset + k] else 0)
  {
    if !e.compat {
      SameHalf(e, i, base, s);
      ExtensionAligned(e, i);
      if s + k < Up(s + e.table[i].filesz, e.page) {
        var bottom := BottomMeant(e, i, base, s);
        UpBounds(|e.file|, e.page);
        Backed(e, i, s, s + k);
      }
    }
    LeftDescribed(e, i, s, k, before);
  }

  lemma LeftDescribed(e: Setting, i: nat, s: nat, k: nat, before: Option<u8>)
    requires 0 < e.page <= LIMIT && i < |e.table| && k < e.table[i].memsz && Intact(e, i)
    requires Extension(e, i) > 0 ==> e.table[i].memsz == e.table[i].filesz
    requires e.compat ==> before == Some(0)
    requires !e.compat ==>
               Up(s + e.table[i].filesz, e.page) - s
                 == Up(e.table[i].vaddr + e.table[i].filesz, e.page) - e.table[i].vaddr
    requires !e.compat && s + k < Up(s + e.table[i].filesz, e.page) ==> Content(e, i, s, s + k).Some?
    ensures !ReadOnlyBss(e, i, k) ==> Left(e, i, s, before, s + k) == Some(Described(e, i, k))
    ensures ReadOnlyBss(e, i, k) ==>
              Left(e, i, s, before, s + k)
              == Some(if e.fileOffset + e.table[i].offset + k < |e.file|
                 then e.file[e.fileOffset + e.table[i].offset + k] else 0)
  {
    UpBounds(s + e.table[i].filesz, e.page);
  }

  /** The contents of the segment are in memory, byte for byte. */
  ghost predicate ContentsAt(e: Setting, i: nat, n: Memory, s: nat)
    requires i < |e.table|
  {
    forall k: nat :: k < e.table[i].filesz ==> ContentAt(e, i, n, s, k)
  }

  ghost predicate ContentAt(e: Setting, i: nat, n: Memory, s: nat, k: nat)
    requires i < |e.table|
  {
    var pos := e.fileOffset + e.table[i].offset + k;
    pos < |e.file| && n(s + k) == Some(e.file[pos])
  }

  /** A segment that was loaded has all its contents in memory exactly when the archive goes on to their end. */
  lemma ContentsExactly(e: Setting, bias: u64, base: u64, m: Memory, i: nat) returns (s: nat)
    requires WellFormed(e) && Placed(e, bias, base) && LoadFrom(e, 0, bias, m).1.None?
    requires i < |e.table| && e.table[i].kind == Load && e.table[i].filesz > 0
    ensures s == At(e, base, e.table[i].vaddr)
    ensures ContentsAt(e, i, LoadFrom(e, 0, bias, m).0, s) <==> Intact(e, i)
  {
    s := StartMeant(e, i, base);
    var p, n := e.table[i], LoadFrom(e, 0, bias, m).0;
    if Intact(e, i) {
      forall k: nat | k < p.filesz
        ensures ContentAt(e, i, n, s, k)
      {
        ContentByte(e, bias, base, m, i, k);
      }
    } else {
      var last := ContentAt(e, i, n, s, p.filesz - 1);
    }
  }

  /** What a segment that was loaded has at one byte of its contents: past the archive's end zeros, then a fault. */
  lemma ContentByte(e: Setting, bias: u64, base: u64, m: Memory, i: nat, k: nat)
    requires WellFormed(e) && Placed(e, bias, base) && LoadFrom(e, 0, bias, m).1.None?
    requires i < |e.table| && e.table[i].kind == Load && k < e.table[i].filesz
    requires e.compat ==> e.fileOffset + e.table[i].offset + k < |e.file|
    ensures At(e, base, e.table[i].vaddr) >= 0
    ensures LoadFrom(e, 0, bias, m).0(At(e, base, e.table[i].vaddr) + k)
         == FromFile(e.file, Up(|e.file|, e.page), e.fileOffset + e.table[i].offset + k)
  {
    MemoryNoLess(e, i);
    var s := ByteStays(e, bias, base, m, i, k);
    LeftContent(e, i, s, k, m(s + k));
  }

  lemma LeftContent(e: Setting, i: nat, s: nat, k: nat, before: Option<u8>)
    requires 0 < e.page <= LIMIT && i < |e.table| && k < e.table[i].filesz
    requires e.compat ==> e.fileOffset + e.table[i].offset + k < |e.file|
    ensures Left(e, i, s, before, s + k) == FromFile(e.file, Up(|e.file|, e.page), e.fileOffset + e.table[i].offset + k)
  {
    UpBounds(s + e.table[i].filesz, e.page);
  }

  /** Byte k of a segment is what the header describes. */
  ghost predicate DescribedAt(e: Setting, i: nat, n: Memory, s: nat, k: nat)
    requires i < |e.table|
  {
    if k < e.table[i].filesz then ContentAt(e, i, n, s, k) else n(s + k) == Some(0)
  }

  /** There the file, or what pads its last page, goes on with a zero. */
  ghost predicate GoesOnWithZero(e: Setting, i: nat, k: nat)
    requires i < |e.table| && 0 < e.page <= LIMIT
  {
    var pos := e.fileOffset + e.table[i].offset + k;
    if pos < |e.file| then e.file[pos] == 0 else pos < Up(|e.file|, e.page)
  }

  /**
   * The whole image: a segment that was loaded is as its header describes, to the last byte, if and only if its
   * contents end inside the archive and the file goes on with zeros where bss is not cleared.
   */
  lemma ImageExactly(e: Setting, bias: u64, base: u64, m: Memory, i: nat) returns (s: nat)
    requires WellFormed(e) && Placed(e, bias, base) && LoadFrom(e, 0, bias, m).1.None?
    requires i < |e.table| && e.table[i].kind == Load
    requires e.compat ==> forall x: nat ::
               base <= x < base + Sub64(MaxVaddr(e.table, e.page), MinVaddr(e.table, e.page)) ==> m(x) == Some(0)
    ensures s == At(e, base, e.table[i].vaddr)
    ensures (forall k: nat :: k < e.table[i].memsz ==> DescribedAt(e, i, LoadFrom(e, 0, bias, m).0, s, k)) <==>
              && (e.table[i].filesz > 0 ==> Intact(e, i))
              && forall k: nat :: k < e.table[i].memsz && ReadOnlyBss(e, i, k) ==> GoesOnWithZero(e, i, k)
  {
    s := StartMeant(e, i, base);
    var p, n := e.table[i], LoadFrom(e, 0, bias, m).0;
    MemoryNoLess(e, i);
    forall k: nat | k < p.memsz
      ensures DescribedAt(e, i, n, s, k) <==>
                if k < p.filesz then e.fileOffset + p.offset + k < |e.file|
                else ReadOnlyBss(e, i, k) ==> GoesOnWithZero(e, i, k)
    {
      ByteExactly(e, bias, base, m, i, s, k);
    }
    if p.filesz > 0 && !Intact(e, i) {
      assert !DescribedAt(e, i, n, s, p.filesz - 1);
    }
  }

  lemma ByteExactly(e: Setting, bias: u64, base: u64, m: Memory, i: nat, s: nat, k: nat)
    requires WellFormed(e) && Placed(e, bias, base) && LoadFrom(e, 0, bias, m).1.None?
    requires i < |e.table| && e.table[i].kind == Load && k < e.table[i].memsz && s == At(e, base, e.table[i].vaddr)
    requires e.compat ==> forall x: nat ::
               base <= x < base + Sub64(MaxVaddr(e.table, e.page), MinVaddr(e.table, e.page)) ==> m(x) == Some(0)
    ensures DescribedAt(e, i, LoadFrom(e, 0, bias, m).0, s, k) <==>
              if k < e.table[i].filesz then e.fileOffset + e.table[i].offset + k < |e.file|
              else ReadOnlyBss(e, i, k) ==> GoesOnWithZero(e, i, k)
  {
    var s' := ByteStays(e, bias, base, m, i, k);
    LeftAsDescribed(e, i, base, s, k, m(s + k));
  }

  lemma LeftAsDescribed(e: Setting, i: nat, base: u64, s: nat, k: nat, before: Option<u8>)
    requires WellFormed(e) && Aligned(base, Grain(e)) && i < |e.table| && e.table[i].kind == Load
    requires k < e.table[i].memsz && s == At(e, base, e.table[i].vaddr) && (e.compat ==> before == Some(0))
    ensures var p, pos := e.table[i], e.fileOffset + e.table[i].offset + k;
            if k < p.filesz then pos < |e.file| ==> Left(e, i, s, before, s + k) == Some(e.file[pos])
            else Left(e, i, s, before, s + k) == Some(0) <==> (ReadOnlyBss(e, i, k) ==> GoesOnWithZero(e, i, k))
  {
    ExtensionAligned(e, i);
    if !e.compat {
      SameHalf(e, i, base, s);
    }
    LeftExactly(e, i, s, k, before);
  }

  lemma LeftExactly(e: Setting, i: nat, s: nat, k: nat, before: Option<u8>)
    requires 0 < e.page <= LIMIT && i < |e.table| && k < e.table[i].memsz
    requires Extension(e, i) > 0 ==> e.table[i].memsz == e.table[i].filesz
    requires e.compat ==> before == Some(0)
    requires !e.compat ==>
               Up(s + e.table[i].filesz, e.page) - s
                 == Up(e.table[i].vaddr + e.table[i].filesz, e.page) - e.table[i].vaddr
    ensures var p, pos := e.table[i], e.fileOffset + e.table[i].offset + k;
            if k < p.filesz then pos < |e.file| ==> Left(e, i, s, before, s + k) == Some(e.file[pos])
            else Left(e, i, s, before, s + k) == Some(0) <==> (ReadOnlyBss(e, i, k) ==> GoesOnWithZero(e, i, k))
  {
    UpBounds(s + e.table[i].filesz, e.page);
  }

  /** The end of the contents' last page, in the file's addresses and in memory. */
  lemma SameHalf(e: Setting, i: nat, base: u64, s: nat)
    requires WellFormed(e) && !e.compat && i < |e.table| && e.table[i].kind == Load && Aligned(base, e.page)
    requires s == At(e, base, e.table[i].vaddr)
    ensures Up(s + e.table[i].filesz, e.page) - s == Up(e.table[i].vaddr + e.table[i].filesz, e.page) - e.table[i].vaddr
  {
    GrainDivides(e);
    AboveMin(e, i);
    RoundsAlong(base, MinVaddr(e.table, e.page), e.table[i].vaddr + e.table[i].filesz, s + e.table[i].filesz, e.page);
  }

  // ---- when loading succeeds

  /** Something of the file is mapped for the segment: its contents, or what its pages share with them. */
  ghost predicate HasContents(e: Setting, i: nat)
    requires i < |e.table| && 0 < e.page <= LIMIT
  {
    e.table[i].filesz > 0 || !Aligned(e.table[i].offset, Grain(e)) || Extension(e, i) > 0
  }

  /** The segment goes on in memory past the last page of its contents. */
  ghost predicate GoesOn(e: Setting, i: nat)
    requires i < |e.table| && 0 < e.page <= LIMIT
  {
    !e.compat && Up(e.table[i].vaddr + e.table[i].memsz, e.page) > Up(e.table[i].vaddr + e.table[i].filesz, e.page)
  }

  /** The rest of the last page of contents is cleared. */
  ghost predicate Fills(e: Setting, i: nat)
    requires i < |e.table| && 0 < e.page <= LIMIT
  {
    !e.compat && e.table[i].writable && !Aligned(e.table[i].vaddr + e.table[i].filesz, e.page)
  }

  /**
   * Nothing stands against the segment: file, protection, a page to clear that the archive does not reach, and the
   * kernel's two answers.
   */
  ghost predicate Acceptable(e: Setting, i: nat)
    requires i < |e.table| && 0 < e.page <= LIMIT
  {
    var p := e.table[i];
    && |e.file| > 0 && p.offset + p.filesz <= |e.file|
    && (HasContents(e, i) ==> !(p.writable && p.executable && e.api >= 26) && e.maps(i))
    && (Fills(e, i) ==> e.fileOffset + p.offset + p.filesz < Up(|e.file|, e.page))
    && (GoesOn(e, i) ==> e.bssMaps(i))
  }

  lemma BssNeeded(e: Setting, i: nat, bias: u64, base: u64)
    requires WellFormed(e) && Placed(e, bias, base) && i < |e.table| && e.table[i].kind == Load
    ensures NeedsBss(e, i, bias) <==> GoesOn(e, i)
  {
    if !e.compat {
      var s := FileEnd64(e, i, bias, base);
      SameHalf(e, i, base, s);
    }
  }

  lemma FileEnd64(e: Setting, i: nat, bias: u64, base: u64) returns (s: nat)
    requires WellFormed(e) && Placed(e, bias, base) && !e.compat && i < |e.table| && e.table[i].kind == Load
    ensures s == At(e, base, e.table[i].vaddr) && ExtentOf(e, i, bias).segPageEnd == Top(e, i, base)
    ensures End64(ExtentOf(e, i, bias).segFileEnd, e.page) == Up(s + e.table[i].filesz, e.page) + Extension(e, i)
  {
    var bottom, top;
    s, bottom, top := Geometry(e, i, bias, base);
    FileEndRounds(e, i, bias, s, bottom, top);
  }

  lemma FileEndRounds(e: Setting, i: nat, bias: u64, s: nat, bottom: nat, top: nat)
    requires 0 < COMPAT_PAGE <= e.page <= LIMIT && i < |e.table| && !e.compat && top + e.page < LIMIT
    requires Meant(e.table[i], ExtentOf(e, i, bias), Extension(e, i), s, bottom, top, Grain(e))
    ensures End64(ExtentOf(e, i, bias).segFileEnd, e.page) == Up(s + e.table[i].filesz, e.page) + Extension(e, i)
  {
    PadEnds(s, e.table[i].filesz, Extension(e, i), top, e.page);
  }

  /** Clearing the rest of the last page faults if and only if the contents end past the archive's last page. */
  lemma FaultsExactly(e: Setting, i: nat, bias: u64, base: u64, m: Memory)
    requires WellFormed(e) && Placed(e, bias, base) && i < |e.table| && e.table[i].kind == Load
    requires Refusal(e, i, bias).None?
    ensures FillFaults(e, i, bias, Mapped(e, i, bias, m)) <==>
              Fills(e, i) && e.fileOffset + e.table[i].offset + e.table[i].filesz >= Up(|e.file|, e.page)
  {
    var s, bottom, top := Geometry(e, i, bias, base);
    NotRefused(e, i, bias);
    if !e.compat {
      MappedInFill(e, i, bias, m, s, bottom, top);
    }
    FillDecides(e, i, bias, base, Mapped(e, i, bias, m), s, bottom, top);
  }

  lemma FillDecides(e: Setting, i: nat, bias: u64, base: u64, n: Memory, s: nat, bottom: nat, top: nat)
    requires WellFormed(e) && Aligned(base, Grain(e)) && i < |e.table| && e.table[i].kind == Load
    requires s == At(e, base, e.table[i].vaddr) && s + e.table[i].filesz < LIMIT
    requires Meant(e.table[i], ExtentOf(e, i, bias), Extension(e, i), s, bottom, top, Grain(e))
    requires !e.compat ==> InFill(e, i, s, n)
    ensures FillFaults(e, i, bias, n) <==>
              Fills(e, i) && e.fileOffset + e.table[i].offset + e.table[i].filesz >= Up(|e.file|, e.page)
  {
    FillFaultsAt(e, i, bias, n, s, bottom, top);
    if !e.compat {
      FillDecided(e, i, base, s, n);
    }
  }

  lemma FillFaultsAt(e: Setting, i: nat, bias: u64, n: Memory, s: nat, bottom: nat, top: nat)
    requires 0 < COMPAT_PAGE <= e.page <= LIMIT && i < |e.table| && s + e.table[i].filesz < LIMIT
    requires Meant(e.table[i], ExtentOf(e, i, bias), Extension(e, i), s, bottom, top, Grain(e))
    ensures s + e.table[i].filesz <= Up(s + e.table[i].filesz, e.page)
    ensures FillFaults(e, i, bias, n) <==>
              !e.compat && e.table[i].writable && Faults(n, s + e.table[i].filesz, Up(s + e.table[i].filesz, e.page))
  {
    FillRange(e, i, bias, s, bottom, top);
  }

  lemma FillDecided(e: Setting, i: nat, base: u64, s: nat, n: Memory)
    requires WellFormed(e) && !e.compat && i < |e.table| && e.table[i].kind == Load && InFill(e, i, s, n)
    requires Aligned(base, e.page) && s == At(e, base, e.table[i].vaddr)
    requires s - Down(s, e.page) == e.table[i].offset - Down(e.table[i].offset, e.page)
    ensures Faults(n, s + e.table[i].filesz, Up(s + e.table[i].filesz, e.page)) <==>
              && !Aligned(e.table[i].vaddr + e.table[i].filesz, e.page)
              && e.fileOffset + e.table[i].offset + e.table[i].filesz >= Up(|e.file|, e.page)
  {
    FillsWhen(e, i, base, s);
    if e.fileOffset + e.table[i].offset + e.table[i].filesz < Up(|e.file|, e.page) {
      NoFaultInFill(e, i, s, n);
    }
    FaultInFill(e, i, s, n);
  }

  /** Up to the archive's last page there is no fault. */
  lemma NoFaultInFill(e: Setting, i: nat, s: nat, n: Memory)
    requires WellFormed(e) && !e.compat && i < |e.table| && e.table[i].kind == Load && InFill(e, i, s, n)
    requires s - Down(s, e.page) == e.table[i].offset - Down(e.table[i].offset, e.page)
    requires e.fileOffset + e.table[i].offset + e.table[i].filesz <= Up(|e.file|, e.page)
    ensures !Faults(n, s + e.table[i].filesz, Up(s + e.table[i].filesz, e.page))
  {
    var end := s + e.table[i].filesz;
    forall x: nat | end <= x < Up(end, e.page)
      ensures n(x).Some?
    {
      Backed(e, i, s, x);
    }
  }

  /** Past it, the first byte faults. */
  lemma FaultInFill(e: Setting, i: nat, s: nat, n: Memory)
    requires 0 < e.page <= LIMIT && i < |e.table| && InFill(e, i, s, n)
    ensures e.fileOffset + e.table[i].offset + e.table[i].filesz >= Up(|e.file|, e.page) ==>
              (Faults(n, s + e.table[i].filesz, Up(s + e.table[i].filesz, e.page)) <==>
               s + e.table[i].filesz != Up(s + e.table[i].filesz, e.page))
  {
    UpBounds(|e.file|, e.page);
    UpBounds(s + e.table[i].filesz, e.page);
    if s + e.table[i].filesz < Up(s + e.table[i].filesz, e.page) {
      assert n(s + e.table[i].filesz) == Content(e, i, s, s + e.table[i].filesz);
    }
  }

  /** Where the segment is cleared, the memory holds what the file goes on with. */
  ghost predicate InFill(e: Setting, i: nat, s: nat, n: Memory)
    requires i < |e.table| && 0 < e.page <= LIMIT
  {
    forall x: nat :: s + e.table[i].filesz <= x < Up(s + e.table[i].filesz, e.page) ==> n(x) == Content(e, i, s, x)
  }

  /** The segment's end is on a page of memory exactly when the table has it on one. */
  lemma FillsWhen(e: Setting, i: nat, base: u64, s: nat)
    requires WellFormed(e) && !e.compat && i < |e.table| && e.table[i].kind == Load && Aligned(base, e.page)
    requires s == At(e, base, e.table[i].vaddr)
    ensures Aligned(e.table[i].vaddr + e.table[i].filesz, e.page) <==>
              Up(s + e.table[i].filesz, e.page) == s + e.table[i].filesz
  {
    var end := e.table[i].vaddr + e.table[i].filesz;
    SameHalf(e, i, base, s);
    UpBounds(end, e.page);
    if Aligned(end, e.page) {
      UpAligned(end, e.page);
    }
  }

  lemma MappedInFill(e: Setting, i: nat, bias: u64, m: Memory, s: nat, bottom: nat, top: nat)
    requires 0 < COMPAT_PAGE <= e.page <= LIMIT && i < |e.table| && e.fileOffset + e.table[i].offset < LIMIT
    requires Meant(e.table[i], ExtentOf(e, i, bias), Extension(e, i), s, bottom, top, Grain(e)) && !e.compat
    ensures InFill(e, i, s, Mapped(e, i, bias, m))
  {
    DownBounds(s, e.page);
    forall x: nat | s + e.table[i].filesz <= x < Up(s + e.table[i].filesz, e.page)
      ensures Mapped(e, i, bias, m)(x) == Content(e, i, s, x)
    {
      MappedAt(e, i, bias, m, s, bottom, top, x);
    }
  }

  /** Loading a segment that ends inside the archive never faults. */
  lemma IntactNeverFaults(e: Setting, i: nat, bias: u64, base: u64, m: Memory)
    requires WellFormed(e) && Placed(e, bias, base) && i < |e.table| && e.table[i].kind == Load && Intact(e, i)
    ensures Step(e, i, bias, m).1 != Some(Faulted)
  {
    StepFaults(e, i, bias, m);
    if Refusal(e, i, bias).None? {
      FaultsExactly(e, i, bias, base, m);
      IntactFills(e, i);
    }
  }

  lemma StepFaults(e: Setting, i: nat, bias: u64, m: Memory)
    requires i < |e.table| && 0 < e.page <= LIMIT && e.table[i].kind == Load
    ensures Step(e, i, bias, m).1 == Some(Faulted) ==>
              Refusal(e, i, bias).None? && FillFaults(e, i, bias, Mapped(e, i, bias, m))
  {
  }

  lemma IntactFills(e: Setting, i: nat)
    requires WellFormed(e) && i < |e.table| && e.table[i].kind == Load && Intact(e, i)
    ensures Fills(e, i) ==> e.fileOffset + e.table[i].offset + e.table[i].filesz < Up(|e.file|, e.page)
  {
    UpBounds(|e.file|, e.page);
    if Fills(e, i) {
      EndsAlike(e, i);
    }
  }

  /** The contents end on a page of the file exactly when they end on one of memory. */
  lemma EndsAlike(e: Setting, i: nat)
    requires WellFormed(e) && !e.compat && i < |e.table| && e.table[i].kind == Load
    ensures Aligned(e.fileOffset + e.table[i].offset + e.table[i].filesz, e.page) <==>
              Aligned(e.table[i].vaddr + e.table[i].filesz, e.page)
  {
    var p := e.table[i];
    assert Matched(p, e.page);
    DownBounds(p.offset, e.page);
    DownBounds(p.vaddr, e.page);
    var r := p.offset - Down(p.offset, e.page) + p.filesz;
    AlignedSum(e.fileOffset, Down(p.offset, e.page), e.page);
    AlignedSum(e.fileOffset + Down(p.offset, e.page), r, e.page);
    AlignedSum(Down(p.vaddr, e.page), r, e.page);
    assert e.fileOffset + p.offset + p.filesz == e.fileOffset + Down(p.offset, e.page) + r;
    assert p.vaddr + p.filesz == Down(p.vaddr, e.page) + r;
  }

  lemma StepSucceeds(e: Setting, i: nat, bias: u64, base: u64, m: Memory)
    requires WellFormed(e) && Placed(e, bias, base) && i < |e.table| && e.table[i].kind == Load
    ensures Step(e, i, bias, m).1.None? <==> Acceptable(e, i)
  {
    var s, bottom, top := Geometry(e, i, bias, base);
    assert Matched(e.table[i], Grain(e));
    DownBounds(e.table[i].offset, Grain(e));
    Checks(e, i, bias, s, bottom, top);
    BssNeeded(e, i, bias, base);
    assert HasContents(e, i) <==> ExtentOf(e, i, bias).fileLength != 0;
    if Refusal(e, i, bias).None? {
      FaultsExactly(e, i, bias, base, m);
    }
  }

  /** What a segment that is not acceptable fails of: the first thing that stands against it. */
  lemma StepFails(e: Setting, i: nat, bias: u64, base: u64, m: Memory)
    requires WellFormed(e) && Placed(e, bias, base) && i < |e.table| && e.table[i].kind == Load
    ensures var p, error := e.table[i], Step(e, i, bias, m).1;
            if |e.file| == 0 then error == Some(EmptyFile)
            else if p.offset + p.filesz > |e.file| then error == Some(PastEnd)
            else if HasContents(e, i) && p.writable && p.executable && e.api >= 26 then error == Some(WriteAndExecute)
            else if HasContents(e, i) && !e.maps(i) then error == Some(NotMapped)
            else if Fills(e, i) && e.fileOffset + p.offset + p.filesz >= Up(|e.file|, e.page) then
              error == Some(Faulted)
            else if GoesOn(e, i) && !e.bssMaps(i) then error == Some(BssNotMapped)
            else error == None
  {
    var s, bottom, top := Geometry(e, i, bias, base);
    assert Matched(e.table[i], Grain(e));
    DownBounds(e.table[i].offset, Grain(e));
    Checks(e, i, bias, s, bottom, top);
    BssNeeded(e, i, bias, base);
    assert HasContents(e, i) <==> ExtentOf(e, i, bias).fileLength != 0;
    if Refusal(e, i, bias).None? {
      FaultsExactly(e, i, bias, base, m);
    }
  }

  /** A well-formed table is loaded if and only if every segment is acceptable. */
  lemma {:induction false} LoadsExactly(e: Setting, from: nat, bias: u64, base: u64, m: Memory)
    requires WellFormed(e) && Placed(e, bias, base) && from <= |e.table|
    ensures LoadFrom(e, from, bias, m).1.None? <==>
              forall i :: from <= i < |e.table| && e.table[i].kind == Load ==> Acceptable(e, i)
    decreases |e.table| - from
  {
    if from < |e.table| {
      var n := Step(e, from, bias, m).0;
      if e.table[from].kind == Load {
        StepSucceeds(e, from, bias, base, m);
      }
      var acceptable := Acceptable(e, from);
      LoadsExactly(e, from + 1, bias, base, n);
    }
  }

  // ---- two files that are loaded, though not as described

  /** One segment of a file, with pages of 4 KiB and a kernel that maps what it is asked for. */
  function OneSegment(p: Phdr, file: seq<u8>, fileOffset: u64): Setting {
    Setting([p], file, fileOffset, COMPAT_PAGE, API_O, false, false, false, _ => true, _ => true)
  }

  lemma OneSegmentPlaced(p: Phdr, file: seq<u8>, fileOffset: u64)
    requires p.kind == Load && p.offset == 0 && p.vaddr == 0
    requires 0 < p.filesz <= p.memsz <= 0x1_0000 && p.filesz <= |file| < 0x1_0000
    requires fileOffset == 0 || fileOffset == COMPAT_PAGE
    ensures WellFormed(OneSegment(p, file, fileOffset)) && Placed(OneSegment(p, file, fileOffset), 0, 0)
  {
    SmallTable(p);
    GrainDivides(OneSegment(p, file, fileOffset));
  }

  lemma OneSegmentLoads(p: Phdr, file: seq<u8>, fileOffset: u64, m: Memory)
    requires p.kind == Load && p.offset == 0 && p.vaddr == 0 && !p.writable
    requires 0 < p.filesz <= p.memsz <= 0x1_0000 && p.filesz <= |file| < 0x1_0000
    requires fileOffset == 0 || fileOffset == COMPAT_PAGE
    ensures WellFormed(OneSegment(p, file, fileOffset)) && Placed(OneSegment(p, file, fileOffset), 0, 0)
    ensures LoadFrom(OneSegment(p, file, fileOffset), 0, 0, m).1.None?
  {
    var e := OneSegment(p, file, fileOffset);
    OneSegmentPlaced(p, file, fileOffset);
    assert Acceptable(e, 0);
    LoadsExactly(e, 0, 0, 0, m);
  }

  lemma SmallTable(p: Phdr)
    requires p.kind == Load && p.offset == 0 && p.vaddr == 0 && p.filesz <= p.memsz <= 0x1_0000
    ensures NoWrap([p], COMPAT_PAGE) && Matched(p, COMPAT_PAGE) && IsPowerOfTwo(COMPAT_PAGE)
    ensures MinVaddr([p], COMPAT_PAGE) == 0 && MaxVaddr([p], COMPAT_PAGE) <= 0x1_1000
  {
    assert Power2(4) == 16;
    Power2Add(4, 4);
    Power2Add(4, 8);
    Halve(COMPAT_PAGE, 12);
    assert [p][..0] == [] && [p][0] == p;
    assert Least([p]) == 0 && Greatest([p]) == p.memsz;
    NoWrapEnd(p.memsz, COMPAT_PAGE);
    UpBounds(p.memsz, COMPAT_PAGE);
  }

  /** An archive of two pages, and in its second one a file whose only segment claims a page and a half. */
  lemma PastTheArchive(file: seq<u8>, m: Memory) returns (e: Setting)
    requires |file| == 0x2000
    ensures |e.table| == 1 && e.file == file
    ensures WellFormed(e) && Placed(e, 0, 0) && LoadFrom(e, 0, 0, m).1.None? && !Intact(e, 0)
    ensures e.table[0].filesz == 0x1800 && LoadFrom(e, 0, 0, m).0(0x1000) == None
  {
    var p := Phdr(Load, true, false, false, 0, 0, 0x1800, 0x1800, 0x1000);
    e := OneSegment(p, file, COMPAT_PAGE);
    OneSegmentLoads(p, file, COMPAT_PAGE, m);
    SmallTable(p);
    ContentByte(e, 0, 0, m, 0, 0x1000);
    PowerDivides(COMPAT_PAGE, 0x2000);
    UpAligned(0x2000, COMPAT_PAGE);
  }

  /** The same segment, but writable: the rest of its last page is cleared, and that page is not there. */
  lemma FillPastTheArchive(file: seq<u8>, m: Memory) returns (e: Setting)
    requires |file| == 0x2000
    ensures |e.table| == 1 && e.file == file && e.table[0].writable && e.table[0].filesz == 0x1800
    ensures WellFormed(e) && Placed(e, 0, 0) && LoadFrom(e, 0, 0, m).1 == Some(Faulted)
  {
    var p := Phdr(Load, true, true, false, 0, 0, 0x1800, 0x1800, 0x1000);
    e := OneSegment(p, file, COMPAT_PAGE);
    OneSegmentPlaced(p, file, COMPAT_PAGE);
    PowerDivides(COMPAT_PAGE, 0x2000);
    UpAligned(0x2000, COMPAT_PAGE);
    HalfPages();
    FaultsExactly(e, 0, 0, 0, m);
    assert Step(e, 0, 0, m).1 == Some(Faulted);
  }

  lemma HalfPages()
    ensures !Aligned(0x1800, COMPAT_PAGE)
  {
    DownIsRemainder(0x1800, COMPAT_PAGE);
  }

  /** A page of ones, the first half of which is the contents of a read-only segment; its bss is not zero. */
  lemma BssOfOnes(m: Memory) returns (e: Setting)
    ensures |e.table| == 1
    ensures WellFormed(e) && Placed(e, 0, 0) && LoadFrom(e, 0, 0, m).1.None? && Intact(e, 0) && ReadOnlyBss(e, 0, 0x900)
    ensures e.table[0].filesz < 0x900 < e.table[0].memsz && LoadFrom(e, 0, 0, m).0(0x900) == Some(1)
  {
    var p := Phdr(Load, true, false, false, 0, 0, 0x800, 0x1000, 0x1000);
    e := OneSegment(p, seq(0x1000, _ => 1), 0);
    OneSegmentLoads(p, e.file, 0, m);
    SmallTable(p);
    UpBounds(0x800, COMPAT_PAGE);
    PowerDivides(COMPAT_PAGE, COMPAT_PAGE);
    LoadedImage(e, 0, 0, m, 0, 0x900);
  }

  /** What the loop over the segments fails of is not their alignment. */
  lemma {:induction false} NotForAlignment(e: Setting, i: nat, bias: u64, m: Memory)
    requires i <= |e.table| && 0 < e.page <= LIMIT
    ensures LoadFrom(e, i, bias, m).1 != Some(SmallAlignment)
    decreases |e.table| - i
  {
    if i < |e.table| {
      NotForAlignment(e, i + 1, bias, Step(e, i, bias, m).0);
    }
  }

  // ---- the reader

  /** Alignment a system with large pages refuses. */
  predicate SmallAligned(e: Setting) {
    e.page >= 16384 && LeastAlignment(e.table, e.page) < e.page && !e.compat
  }

  class ElfReader {
    const e: Setting
    const loadStart: u64
    const loadSize: u64
    var mem: Memory
    var loadBias: u64
    var compatRelroStart: u64
    var compatRelroSize: u64

    constructor (e: Setting, loadStart: u64, loadSize: u64, bias: u64, mem: Memory)
      ensures this.e == e && this.loadStart == loadStart && this.loadSize == loadSize && loadBias == bias
      ensures this.mem == mem
    {
      this.e, this.loadStart, this.loadSize, loadBias, this.mem := e, loadStart, loadSize, bias, mem;
      compatRelroStart, compatRelroSize := 0, 0;
    }

    /** The bias and the reservation belong together. */
    ghost predicate Reserved()
      reads this
    {
      && Proper(e) && Add64(MinVaddr(e.table, e.page), loadBias) == loadStart
      && Aligned(loadStart, e.page) && Aligned(loadSize, e.page)
    }

    /** The boundary comes to lie on a page, and what is behind it are whole pages. */
    lemma AssertionsHold(boundary: u64)
      requires Reserved()
      ensures var rwStart := Add64(Add64(loadBias, PermBoundaryOffset(boundary, e.page)), boundary);
              var rwSize := Sub64(loadSize, Sub64(rwStart, loadStart));
              && Aligned(rwStart, e.page) && Aligned(rwSize, e.page)
              && Sub64(loadSize, rwSize) == RwOffset(boundary, MinVaddr(e.table, e.page), e.page)
    {
      var offset := RwOffset(boundary, MinVaddr(e.table, e.page), e.page);
      BoundsAligned(e.table, e.page);
      BoundaryPlaced(boundary, MinVaddr(e.table, e.page), loadStart, loadBias, e.page);
      DifferenceAligned(loadSize, offset, e.page);
    }

    /** Moves the bias so that the boundary lies on a page. Neither of the two assertions about it can fail. */
    method Setup16KiBAppCompat() returns (error: Option<Error>, judged: Eligibility)
      requires Reserved()
      modifies this`loadBias, this`compatRelroStart, this`compatRelroSize
      ensures !e.compat ==> error.None? && unchanged(this)
      ensures e.compat ==> Judged(e.table, judged)
      ensures e.compat ==>
                error == if judged.No? then Some(NotEligible) else if judged.Crash? then Some(NullDereference) else None
      ensures error.Some? ==> unchanged(this)
      ensures e.compat && error.None? ==>
                && loadBias == Add64(old(loadBias), PermBoundaryOffset(judged.boundary, e.page))
                && Aligned(Add64(loadBias, judged.boundary), e.page)
                && compatRelroStart == loadStart
                   && compatRelroSize == RwOffset(judged.boundary, MinVaddr(e.table, e.page), e.page)
    {
      judged := No;
      if !e.compat {
        return None, judged;
      }
      judged := IsEligible(e.table);
      if judged.No? {
        return Some(NotEligible), judged;
      }
      if judged.Crash? {
        return Some(NullDereference), judged;
      }
      AssertionsHold(judged.boundary);
      loadBias := Add64(loadBias, PermBoundaryOffset(judged.boundary, e.page));
      var rwStart := Add64(loadBias, judged.boundary);
      var rwSize := Sub64(loadSize, Sub64(rwStart, loadStart));
      if !Aligned(rwStart, e.page) || !Aligned(rwSize, e.page) {
        return Some(CheckFailed), judged;
      }
      compatRelroStart := loadStart;
      compatRelroSize := Sub64(loadSize, rwSize);
      return None, judged;
    }

    method ExtendLoadSegmentVma(i: nat) returns (memsz: u64, filesz: u64)
      requires i < |e.table| && 0 < e.page <= LIMIT
      ensures memsz == Add64(e.table[i].memsz, Extension(e, i)) && filesz == Add64(e.table[i].filesz, Extension(e, i))
    {
      var p := e.table[i];
      memsz, filesz := p.memsz, p.filesz;
      if e.compat || p.align <= e.page || p.align > 0x1_0000 || !e.pads {
        return;
      }
      if i + 1 >= |e.table| || e.table[i + 1].kind != Load || memsz != filesz {
        return;
      }
      var nextStart, end := Start64(e.table[i + 1].vaddr, e.page), End64(Add64(p.vaddr, memsz), e.page);
      if end >= nextStart {
        return;
      }
      var extend := nextStart - end;
      memsz, filesz := Add64(memsz, extend), Add64(filesz, extend);
    }

    method MapSegment(i: nat, len: nat) returns (ok: bool)
      requires i < |e.table| && 0 < e.page <= LIMIT && !e.compat && len == ExtentOf(e, i, loadBias).fileLength
      requires len != 0
      modifies this`mem
      ensures ok == e.maps(i) && mem == if ok then Mapped(e, i, loadBias, old(mem)) else old(mem)
    {
      var start := Start64(Add64(e.table[i].vaddr, loadBias), e.page);
      var offset := Add64(e.fileOffset, Start64(e.table[i].offset, e.page));
      if !e.maps(i) {
        return false;
      }
      mem := MapFile(mem, e.file, start, len, offset, e.page);
      return true;
    }

    method CompatMapSegment(i: nat, len: nat) returns (ok: bool)
      requires i < |e.table| && 0 < e.page <= LIMIT && e.compat && len == ExtentOf(e, i, loadBias).fileLength
      requires len != 0
      modifies this`mem
      ensures ok == e.maps(i) && mem == if ok then Mapped(e, i, loadBias, old(mem)) else old(mem)
    {
      var start := Start64(Add64(e.table[i].vaddr, loadBias), COMPAT_PAGE);
      var offset := Add64(e.fileOffset, Start64(e.table[i].offset, COMPAT_PAGE));
      if !e.maps(i) {
        return false;
      }
      mem := ReadFile(mem, e.file, start, len, offset);
      return true;
    }

    /** The result says whether memset came back; where it writes to nothing it does not. */
    method ZeroFillSegment(i: nat) returns (ok: bool)
      requires i < |e.table| && 0 < e.page <= LIMIT
      modifies this`mem
      ensures ok == !FillFaults(e, i, loadBias, old(mem))
      ensures mem == if ok then ZeroFilled(e, i, loadBias, old(mem)) else old(mem)
    {
      if e.compat {
        return true;
      }
      var end := Add64(Add64(e.table[i].vaddr, loadBias), e.table[i].filesz);
      DownBounds(end, e.page);
      var offset := end - Down(end, e.page);
      if e.table[i].writable && offset > 0 {
        if Faults(mem, end, end + (e.page - offset)) {
          return false;
        }
        mem := Zeros(mem, end, e.page - offset);
      }
      return true;
    }

    method DropPaddingPages(i: nat, segFileEnd: u64) returns (ok: bool)
      requires i < |e.table| && 0 < e.page <= LIMIT && segFileEnd == ExtentOf(e, i, loadBias).segFileEnd
      modifies this`mem
      ensures ok == PaddingChecks(e, i, loadBias)
      ensures mem == if ok then Dropped(e, i, loadBias, old(mem)) else old(mem)
    {
      if e.compat {
        return true;
      }
      var segStart := Add64(e.table[i].vaddr, loadBias);
      var padStart, padEnd := End64(Add64(segStart, e.table[i].filesz), e.page), End64(segFileEnd, e.page);
      if padStart > padEnd {
        return false;
      }
      if padStart < padEnd && e.drops {
        mem := MapFile(mem, e.file, padStart, padEnd - padStart, PadPosition(e, i, segStart, padStart), e.page);
      }
      return true;
    }

    method MapBssSection(i: nat, segPageEnd: u64, segFileEnd: u64) returns (ok: bool)
      requires i < |e.table| && 0 < e.page <= LIMIT
      requires segPageEnd == ExtentOf(e, i, loadBias).segPageEnd && segFileEnd == ExtentOf(e, i, loadBias).segFileEnd
      modifies this`mem
      ensures ok == (NeedsBss(e, i, loadBias) ==> e.bssMaps(i))
      ensures mem == if ok then WithBss(e, i, loadBias, old(mem)) else old(mem)
    {
      if e.compat {
        return true;
      }
      var end := End64(segFileEnd, e.page);
      if segPageEnd <= end {
        return true;
      }
      if !e.bssMaps(i) {
        return false;
      }
      mem := Zeros(mem, end, segPageEnd - end);
      return true;
    }

    /** One loadable segment. */
    method LoadSegment(i: nat) returns (error: Option<Error>)
      requires i < |e.table| && e.table[i].kind == Load && 0 < e.page <= LIMIT
      modifies this`mem
      ensures (mem, error) == Step(e, i, loadBias, old(mem))
    {
      var p, align := e.table[i], Grain(e);
      var memsz, filesz := ExtendLoadSegmentVma(i);
      var segStart := Add64(p.vaddr, loadBias);
      var segPageEnd, segFileEnd := End64(Add64(segStart, memsz), align), Add64(segStart, filesz);
      var fileLength := Sub64(Add64(p.offset, filesz), Start64(p.offset, align));
      if |e.file| == 0 {
        return Some(EmptyFile);
      }
      if Add64(p.offset, p.filesz) > |e.file| {
        return Some(PastEnd);
      }
      if fileLength != 0 {
        if p.writable && p.executable && e.api >= API_O {
          return Some(WriteAndExecute);
        }
        var mapped;
        if e.compat {
          mapped := CompatMapSegment(i, fileLength);
        } else {
          mapped := MapSegment(i, fileLength);
        }
        if !mapped {
          return Some(NotMapped);
        }
      }
      var filled := ZeroFillSegment(i);
      if !filled {
        return Some(Faulted);
      }
      var checked := DropPaddingPages(i, segFileEnd);
      if !checked {
        return Some(CheckFailed);
      }
      var ok := MapBssSection(i, segPageEnd, segFileEnd);
      return if ok then None else Some(BssNotMapped);
    }

    /** Loads the segments in the table's order until one fails. */
    method LoadSegments() returns (error: Option<Error>, judged: Eligibility)
      requires Reserved()
      modifies this
      ensures SmallAligned(e) ==> error == Some(SmallAlignment) && unchanged(this)
      ensures error == Some(SmallAlignment) <==> !e.compat && e.page >= 0x4000 && AsksForLess(e.table, e.page)
      ensures !SmallAligned(e) && e.compat ==> Judged(e.table, judged)
      ensures !SmallAligned(e) && e.compat && judged.No? ==> error == Some(NotEligible) && unchanged(this)
      ensures !SmallAligned(e) && e.compat && judged.Crash? ==> error == Some(NullDereference) && unchanged(this)
      ensures !SmallAligned(e) && e.compat && judged.Yes? ==>
                && loadBias == Add64(old(loadBias), PermBoundaryOffset(judged.boundary, e.page))
                && (mem, error) == LoadFrom(e, 0, loadBias, old(mem))
      ensures !SmallAligned(e) && !e.compat ==>
                loadBias == old(loadBias) && (mem, error) == LoadFrom(e, 0, loadBias, old(mem))
    {
      LessExactly(e.table, e.page);
      var min := GetMinimumAlignment(e.table, e.page);
      if e.page >= 16384 && min < e.page && !e.compat {
        return Some(SmallAlignment), No;
      }
      error, judged := Setup16KiBAppCompat();
      if error.Some? {
        return;
      }
      error := LoadAll();
      NotForAlignment(e, 0, loadBias, old(mem));
    }

    /** The loop over the table. */
    method LoadAll() returns (error: Option<Error>)
      requires 0 < e.page <= LIMIT
      modifies this`mem
      ensures (mem, error) == LoadFrom(e, 0, loadBias, old(mem))
    {
      error := None;
      for i := 0 to |e.table|
        invariant error.None? && LoadFrom(e, i, loadBias, mem) == LoadFrom(e, 0, loadBias, old(mem))
      {
        ghost var was := mem;
        if e.table[i].kind == Load {
          error := LoadSegment(i);
          if error.Some? {
            assert LoadFrom(e, i, loadBias, was) == (mem, error);
            return;
          }
        }
        assert LoadFrom(e, i, loadBias, was) == LoadFrom(e, i + 1, loadBias, mem);
      }
    }
  }

  /** Moved by the shift the segments still fit what was reserved, which was a page more than they span. */
  lemma ShiftedSegmentsFit(e: Setting, boundary: u64, loadStart: u64, bias: u64)
    requires WellFormed(e) && e.compat && Judged(e.table, Yes(boundary))
    requires Add64(MinVaddr(e.table, e.page), bias) == loadStart && Aligned(loadStart, e.page)
    requires loadStart + Sub64(MaxVaddr(e.table, e.page), MinVaddr(e.table, e.page)) + 2 * e.page < LIMIT
    ensures var shift := PermBoundaryOffset(boundary, e.page);
            Placed(e, Add64(bias, shift), loadStart + shift)
    ensures var shift := PermBoundaryOffset(boundary, e.page);
            var span := Sub64(MaxVaddr(e.table, e.page), MinVaddr(e.table, e.page));
            loadStart <= loadStart + shift && loadStart + shift + span < loadStart + (span + e.page)
  {
    var shift := PermBoundaryOffset(boundary, e.page);
    GrainDivides(e);
    ShiftedToPage(boundary, e.page);
    BoundaryAligned(e.table, boundary);
    PagesOf(boundary + shift, e.page, COMPAT_PAGE);
    AlignedDifference(boundary, boundary + shift, COMPAT_PAGE);
    PagesOf(loadStart, e.page, COMPAT_PAGE);
    AlignedSum(loadStart, shift, COMPAT_PAGE);
  }

  /** A reservation is a place for the segments: as it is, or moved by the shift of compatibility mode. */
  lemma ReservationPlaces(e: Setting, r: AddressSpace.Placement)
    requires WellFormed(e) && r.At? && Add64(MinVaddr(e.table, e.page), r.bias) == r.start && Aligned(r.start, e.page)
    requires r.size == LoadSize(e.table, e.page, e.compat) && r.start + r.size <= AddressSpace.USER_END
    ensures !e.compat ==> Placed(e, r.bias, r.start)
    ensures forall boundary: u64 | e.compat && Judged(e.table, Yes(boundary)) ::
              var shift := PermBoundaryOffset(boundary, e.page);
              Placed(e, Add64(r.bias, shift), r.start + shift)
  {
    forall boundary: u64 | e.compat && Judged(e.table, Yes(boundary))
      ensures var shift := PermBoundaryOffset(boundary, e.page);
              Placed(e, Add64(r.bias, shift), r.start + shift)
    {
      ShiftedSegmentsFit(e, boundary, r.start, r.bias);
    }
  }

  lemma BoundaryAligned(table: seq<Phdr>, boundary: u64)
    requires Judged(table, Yes(boundary))
    ensures Aligned(boundary, COMPAT_PAGE)
  {
    var rw, relro := FirstRw(table), Relro(table);
    if relro == |table| {
      DownBounds(table[rw].vaddr, COMPAT_PAGE);
    } else {
      DownBounds(Add64(table[relro].vaddr + table[relro].memsz, COMPAT_PAGE - 1), COMPAT_PAGE);
    }
  }
}
