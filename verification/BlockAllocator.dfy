/** The linker's block allocator: pages cut into equal blocks, with the list of free runs kept inside the blocks. */
module BlockAllocator {
  import opened Options
  import opened Pages

  const API_Q := 29
  const API_U := 34

  /** The bytes of a page, and those in front of its first block. */
  function PageBytes(api: int): nat {
    if api >= API_U then 65536 * 6
    else if api >= API_Q then 4096 * 100
    else 4096
  }

  const HEADER: nat := 16

  function BlockBytes(size: nat): nat {
    ((if size < 16 then 16 else size) + 15) / 16 * 16
  }

  function Capacity(page: nat, block: nat): nat
    requires block > 0 && page >= HEADER
  {
    (page - HEADER) / block
  }

  /** A page has room for a block exactly when the caller asked for no more than a page less its header. */
  lemma HasRoom(api: int, size: nat)
    ensures BlockBytes(size) >= 16 && BlockBytes(size) % 16 == 0 && BlockBytes(size) >= size
    ensures Capacity(PageBytes(api), BlockBytes(size)) >= 1 <==> size <= PageBytes(api) - HEADER
    ensures HEADER + BlockBytes(size) <= PageBytes(api) <==> size <= PageBytes(api) - HEADER
  {
    var room, block := PageBytes(api) - HEADER, BlockBytes(size);
    assert room % 16 == 0;
    assert block <= room <==> size <= room;
    OneFits(room, block);
  }

  /** The sizes for each version of Android: of a page, of a block, and how many blocks follow a page's 16 bytes. */
  lemma Sizes(api: int, size: nat)
    ensures PageBytes(api) == if api >= 34 then 393216 else if api >= 29 then 409600 else 4096
    ensures BlockBytes(size) % 16 == 0 && BlockBytes(size) >= 16 && BlockBytes(size) >= size
    ensures forall b: nat :: b % 16 == 0 && b >= 16 && b >= size ==> BlockBytes(size) <= b
    ensures var page, block := PageBytes(api), BlockBytes(size);
            16 + Capacity(page, block) * block <= page < 16 + (Capacity(page, block) + 1) * block
  {
    var page, block := PageBytes(api), BlockBytes(size);
    FillsPage(page - 16, block);
  }

  /** Reduction modulo 2^64 of a number that is hardly negative. */
  lemma Unsigned(x: int)
    requires -8 <= x < 0x1_0000_0000_0000_0000 - 8
    ensures (if x < 0 then x + 0x1_0000_0000_0000_0000 else x) == x % 0x1_0000_0000_0000_0000
  {
  }

  lemma FillsPage(room: nat, block: nat)
    requires block > 0
    ensures room / block * block <= room < (room / block + 1) * block
  {
  }

  lemma OneFits(room: nat, block: nat)
    requires block > 0
    ensures room / block >= 1 <==> block <= room
    ensures room / block * block <= room
  {
  }

  /** Memory by the address of a word; what is not listed is zero. */
  type WordMap = map<nat, nat>

  function Get(m: WordMap, a: nat): nat { if a in m then m[a] else 0 }

  function Zeroed(m: WordMap, a: nat, n: nat): (z: WordMap)
    ensures forall k: nat :: Get(z, k) == if a <= k < a + n then 0 else Get(m, k)
  {
    map k | k in m && !(a <= k < a + n) :: m[k]
  }

  datatype Run = Run(first: nat, count: nat)

  ghost function Cells(first: nat, count: nat, block: nat): set<nat>
    decreases count
  {
    if count == 0 then {} else {first} + Cells(first + block, count - 1, block)
  }

  ghost function FreeCells(runs: seq<Run>, block: nat): set<nat> {
    if runs == [] then {} else Cells(runs[0].first, runs[0].count, block) + FreeCells(runs[1..], block)
  }

  ghost predicate Disjoint(runs: seq<Run>, block: nat) {
    runs == [] || (Cells(runs[0].first, runs[0].count, block) !! FreeCells(runs[1..], block)
      && Disjoint(runs[1..], block))
  }

  function Total(runs: seq<Run>): nat {
    if runs == [] then 0 else runs[0].count + Total(runs[1..])
  }

  /** Every block of every page. */
  ghost function AllCells(pages: seq<nat>, block: nat, capacity: nat): set<nat> {
    if pages == [] then {} else Cells(pages[0] + HEADER, capacity, block) + AllCells(pages[1..], block, capacity)
  }

  /** The words of the free blocks spell out the runs: next run, blocks in this one. */
  ghost predicate FreeList(m: WordMap, head: nat, runs: seq<Run>)
    decreases |runs|
  {
    if runs == [] then head == 0
    else head == runs[0].first && runs[0].count > 0 && head > 0 && Get(m, head + 8) == runs[0].count
         && FreeList(m, Get(m, head), runs[1..])
  }

  ghost predicate PageList(m: WordMap, head: nat, pages: seq<nat>)
    decreases |pages|
  {
    if pages == [] then head == 0
    else head == pages[0] && head > 0 && PageList(m, Get(m, head), pages[1..])
  }

  predicate Apart(a: nat, b: nat, size: nat) { a + size <= b || b + size <= a }

  ghost predicate PagesApart(pages: seq<nat>, page: nat) {
    forall i, j :: 0 <= i < j < |pages| ==> Apart(pages[i], pages[j], page)
  }

  /** Where mmap may put a page: over none of the others. */
  ghost predicate Elsewhere(p: nat, pages: seq<nat>, page: nat) {
    forall i :: 0 <= i < |pages| ==> Apart(p, pages[i], page)
  }

  // ---- where blocks lie

  lemma {:induction false} CellBounds(first: nat, count: nat, block: nat, c: nat)
    requires block > 0 && c in Cells(first, count, block)
    ensures first <= c && c + block <= first + count * block && (c - first) % block == 0
    decreases count
  {
    Times(count, block);
    if c != first {
      CellBounds(first + block, count - 1, block, c);
      OneMore(c - first - block, block);
    } else {
      Quotient(0, block, 0, 0);
    }
  }

  lemma Times(n: nat, block: nat)
    requires n > 0
    ensures n * block == (n - 1) * block + block && n * block >= block
  {
  }

  lemma {:induction false} CellsApart(first: nat, count: nat, block: nat, c: nat, d: nat)
    requires block > 0 && c in Cells(first, count, block) && d in Cells(first, count, block) && c != d
    ensures Apart(c, d, block)
    decreases count
  {
    if c == first {
      CellBounds(first + block, count - 1, block, d);
    } else if d == first {
      CellBounds(first + block, count - 1, block, c);
    } else {
      CellsApart(first + block, count - 1, block, c, d);
    }
  }

  /** A block lies in a page, behind its header. */
  ghost predicate InPage(p: nat, c: nat, block: nat, page: nat) {
    block > 0 && p + 16 <= c && c + block <= p + page && (c - p - 16) % block == 0
  }

  lemma {:induction false} PageOf(pages: seq<nat>, block: nat, page: nat, c: nat) returns (i: nat)
    requires block > 0 && page >= HEADER && c in AllCells(pages, block, Capacity(page, block))
    ensures i < |pages| && InPage(pages[i], c, block, page)
    ensures c in Cells(pages[i] + HEADER, Capacity(page, block), block)
  {
    if c in Cells(pages[0] + HEADER, Capacity(page, block), block) {
      i := 0;
      CellBounds(pages[0] + HEADER, Capacity(page, block), block, c);
      OneFits(page - HEADER, block);
    } else {
      var k := PageOf(pages[1..], block, page, c);
      i := k + 1;
    }
  }

  /** Two different blocks never overlap. */
  lemma BlocksApart(pages: seq<nat>, block: nat, page: nat, c: nat, d: nat)
    requires block > 0 && page >= HEADER && PagesApart(pages, page) && c != d
    requires c in AllCells(pages, block, Capacity(page, block)) && d in AllCells(pages, block, Capacity(page, block))
    ensures Apart(c, d, block)
  {
    var i := PageOf(pages, block, page, c);
    var j := PageOf(pages, block, page, d);
    if i == j {
      CellsApart(pages[i] + HEADER, Capacity(page, block), block, c, d);
    } else if i < j {
      assert Apart(pages[i], pages[j], page);
    } else {
      assert Apart(pages[j], pages[i], page);
    }
  }

  /** No block covers the first words of a page. */
  lemma HeaderApart(pages: seq<nat>, block: nat, page: nat, i: nat, c: nat)
    requires block > 0 && page >= HEADER && PagesApart(pages, page) && i < |pages|
    requires c in AllCells(pages, block, Capacity(page, block))
    ensures c + block <= pages[i] || pages[i] + HEADER <= c
  {
    var j := PageOf(pages, block, page, c);
    if i < j {
      assert Apart(pages[i], pages[j], page);
    } else if j < i {
      assert Apart(pages[j], pages[i], page);
    }
  }

  lemma {:induction false} CountCells(first: nat, count: nat, block: nat)
    requires block > 0
    ensures |Cells(first, count, block)| == count
    decreases count
  {
    if count > 0 {
      CountCells(first + block, count - 1, block);
      if first in Cells(first + block, count - 1, block) {
        CellBounds(first + block, count - 1, block, first);
      }
    }
  }

  lemma {:induction false} CountFree(runs: seq<Run>, block: nat)
    requires block > 0 && Disjoint(runs, block)
    ensures |FreeCells(runs, block)| == Total(runs)
  {
    if runs != [] {
      CountFree(runs[1..], block);
      CountCells(runs[0].first, runs[0].count, block);
    }
  }

  lemma {:induction false} CountAll(pages: seq<nat>, block: nat, page: nat)
    requires block > 0 && page >= HEADER && PagesApart(pages, page)
    ensures |AllCells(pages, block, Capacity(page, block))| == |pages| * Capacity(page, block)
  {
    if pages != [] {
      var k := Capacity(page, block);
      CountAll(pages[1..], block, page);
      CountCells(pages[0] + HEADER, k, block);
      NewPageApart(pages, block, page);
      Times(|pages|, k);
    }
  }

  lemma NewPageApart(pages: seq<nat>, block: nat, page: nat)
    requires block > 0 && page >= HEADER && pages != [] && PagesApart(pages, page)
    ensures Cells(pages[0] + HEADER, Capacity(page, block), block) !! AllCells(pages[1..], block, Capacity(page, block))
  {
    var k := Capacity(page, block);
    forall c | c in Cells(pages[0] + HEADER, k, block) && c in AllCells(pages[1..], block, k) ensures false {
      var j := PageOf(pages[1..], block, page, c);
      CellBounds(pages[0] + HEADER, k, block, c);
      OneFits(page - HEADER, block);
      assert false;
    }
  }

  // ---- what a write leaves alone

  lemma {:induction false} FreeListFrame(m: WordMap, n: WordMap, head: nat, runs: seq<Run>)
    requires FreeList(m, head, runs)
    requires forall i :: 0 <= i < |runs| ==> Get(n, runs[i].first) == Get(m, runs[i].first)
    requires forall i :: 0 <= i < |runs| ==> Get(n, runs[i].first + 8) == Get(m, runs[i].first + 8)
    ensures FreeList(n, head, runs)
    decreases |runs|
  {
    if runs != [] {
      assert runs[0].first == head;
      forall i | 0 <= i < |runs[1..]| ensures runs[1..][i] == runs[i + 1] {}
      FreeListFrame(m, n, Get(m, head), runs[1..]);
    }
  }

  lemma {:induction false} PageListFrame(m: WordMap, n: WordMap, head: nat, pages: seq<nat>)
    requires PageList(m, head, pages)
    requires forall i :: 0 <= i < |pages| ==> Get(n, pages[i]) == Get(m, pages[i])
    ensures PageList(n, head, pages)
    decreases |pages|
  {
    if pages != [] {
      assert pages[0] == head;
      forall i | 0 <= i < |pages[1..]| ensures pages[1..][i] == pages[i + 1] {}
      PageListFrame(m, n, Get(m, head), pages[1..]);
    }
  }

  lemma {:induction false} RunStarts(runs: seq<Run>, block: nat, m: WordMap, head: nat, i: nat)
    requires FreeList(m, head, runs) && i < |runs|
    ensures runs[i].count > 0 && runs[i].first in FreeCells(runs, block)
    decreases |runs|
  {
    if i > 0 {
      RunStarts(runs[1..], block, m, Get(m, head), i - 1);
    }
  }

  // ---- one block leaves or enters the free runs

  /** The runs without their first block. */
  ghost function Shorter(runs: seq<Run>, block: nat): seq<Run>
    requires runs != [] && runs[0].count > 0
  {
    if runs[0].count > 1 then [Run(runs[0].first + block, runs[0].count - 1)] + runs[1..] else runs[1..]
  }

  lemma ShorterCells(runs: seq<Run>, block: nat)
    requires block > 0 && runs != [] && runs[0].count > 0 && Disjoint(runs, block)
    ensures FreeCells(Shorter(runs, block), block) == FreeCells(runs, block) - {runs[0].first}
    ensures runs[0].first in FreeCells(runs, block) && Disjoint(Shorter(runs, block), block)
  {
    var r, rest := runs[0], runs[1..];
    var tail := Cells(r.first + block, r.count - 1, block);
    if r.first in tail {
      CellBounds(r.first + block, r.count - 1, block, r.first);
    }
    if r.count > 1 {
      assert Shorter(runs, block)[1..] == rest;
    }
  }

  /** Memory after the first free block was handed out: its words are zero, and the run's header has moved on. */
  ghost predicate Handed(m: WordMap, n: WordMap, c: nat, count: nat, block: nat) {
    forall k: nat :: Get(n, k) ==
      if c <= k < c + block then 0
      else if count > 1 && k == c + block then Get(m, c)
      else if count > 1 && k == c + block + 8 then count - 1
      else Get(m, k)
  }

  /** The blocks that start a run further down the list are away from the two first blocks of the first run. */
  ghost predicate Clear(runs: seq<Run>, block: nat)
    requires runs != []
  {
    forall i :: 0 < i < |runs| ==>
      && Apart(runs[0].first, runs[i].first, block)
      && (runs[0].count > 1 ==> Apart(runs[0].first + block, runs[i].first, block))
  }

  lemma ShorterList(m: WordMap, n: WordMap, runs: seq<Run>, block: nat)
    requires block >= 16 && runs != [] && FreeList(m, runs[0].first, runs) && Clear(runs, block)
    requires Handed(m, n, runs[0].first, runs[0].count, block)
    ensures var next := if runs[0].count > 1 then runs[0].first + block else Get(m, runs[0].first);
            FreeList(n, next, Shorter(runs, block))
  {
    var r, rest := runs[0], runs[1..];
    assert forall i :: 0 <= i < |rest| ==> rest[i] == runs[i + 1];
    FreeListFrame(m, n, Get(m, r.first), rest);
    if r.count > 1 {
      assert Shorter(runs, block)[1..] == rest;
    }
  }

  ghost predicate Sane(
    m: WordMap, pageList: nat, freeList: nat, pages: seq<nat>, runs: seq<Run>, live: set<nat>, block: nat, page: nat) {
    && block >= 16 && page >= HEADER + block && PagesApart(pages, page)
    && PageList(m, pageList, pages) && FreeList(m, freeList, runs)
    && Disjoint(runs, block) && live !! FreeCells(runs, block)
    && live + FreeCells(runs, block) == AllCells(pages, block, Capacity(page, block))
  }

  lemma RunsClear(
    m: WordMap, pageList: nat, freeList: nat, pages: seq<nat>, runs: seq<Run>, live: set<nat>, block: nat, page: nat)
    requires Sane(m, pageList, freeList, pages, runs, live, block, page) && runs != []
    ensures Clear(runs, block)
  {
    forall i | 0 < i < |runs|
      ensures Apart(runs[0].first, runs[i].first, block)
      ensures runs[0].count > 1 ==> Apart(runs[0].first + block, runs[i].first, block)
    {
      RunStarts(runs[1..], block, m, Get(m, freeList), i - 1);
      assert runs[1..][i - 1] == runs[i];
      BlocksApart(pages, block, page, runs[0].first, runs[i].first);
      if runs[0].count > 1 {
        assert runs[0].first + block in Cells(runs[0].first + block, runs[0].count - 1, block);
        BlocksApart(pages, block, page, runs[0].first + block, runs[i].first);
      }
    }
  }

  lemma PagesKept(
    m: WordMap, n: WordMap, pageList: nat, freeList: nat, pages: seq<nat>, runs: seq<Run>, live: set<nat>, block: nat,
    page: nat)
    requires Sane(m, pageList, freeList, pages, runs, live, block, page) && runs != []
    requires Handed(m, n, runs[0].first, runs[0].count, block)
    ensures PageList(n, pageList, pages)
  {
    forall i | 0 <= i < |pages| ensures Get(n, pages[i]) == Get(m, pages[i]) {
      HeaderApart(pages, block, page, i, runs[0].first);
      if runs[0].count > 1 {
        assert runs[0].first + block in Cells(runs[0].first + block, runs[0].count - 1, block);
        HeaderApart(pages, block, page, i, runs[0].first + block);
      }
    }
    PageListFrame(m, n, pageList, pages);
  }

  /** Handing out the first free block keeps everything in order. */
  lemma StaysSane(
    m: WordMap, n: WordMap, pageList: nat, freeList: nat, pages: seq<nat>, runs: seq<Run>, live: set<nat>, block: nat,
    page: nat)
    requires Sane(m, pageList, freeList, pages, runs, live, block, page) && runs != []
    requires Handed(m, n, freeList, runs[0].count, block)
    ensures Sane(n, pageList, if runs[0].count > 1 then freeList + block else Get(m, freeList), pages,
                 Shorter(runs, block), live + {freeList}, block, page)
    ensures freeList in FreeCells(runs, block)
  {
    RunsClear(m, pageList, freeList, pages, runs, live, block, page);
    ShorterCells(runs, block);
    ShorterList(m, n, runs, block);
    PagesKept(m, n, pageList, freeList, pages, runs, live, block, page);
  }

  /** Handing out a block writes to no other live block. */
  lemma LiveUntouched(
    m: WordMap, n: WordMap, pageList: nat, freeList: nat, pages: seq<nat>, runs: seq<Run>, live: set<nat>, block: nat,
    page: nat, b: nat, k: nat)
    requires Sane(m, pageList, freeList, pages, runs, live, block, page) && runs != []
    requires Handed(m, n, freeList, runs[0].count, block)
    requires b in live && b <= k < b + block
    ensures Get(n, k) == Get(m, k)
  {
    BlocksApart(pages, block, page, b, freeList);
    if runs[0].count > 1 {
      assert runs[0].first + block in Cells(runs[0].first + block, runs[0].count - 1, block);
      BlocksApart(pages, block, page, b, freeList + block);
    }
  }

  /** Memory after a live block was given back. */
  ghost predicate GivenBack(m: WordMap, n: WordMap, c: nat, next: nat, block: nat) {
    forall k: nat :: Get(n, k) ==
      if k == c then next
      else if k == c + 8 then 1
      else if c <= k < c + block then 0
      else Get(m, k)
  }

  lemma StaysSaneReturned(
    m: WordMap, n: WordMap, pageList: nat, freeList: nat, pages: seq<nat>, runs: seq<Run>, live: set<nat>, block: nat,
    page: nat, c: nat)
    requires Sane(m, pageList, freeList, pages, runs, live, block, page) && c in live && c > 0
    requires GivenBack(m, n, c, freeList, block)
    ensures Sane(n, pageList, c, pages, [Run(c, 1)] + runs, live - {c}, block, page)
  {
    var longer := [Run(c, 1)] + runs;
    assert longer[1..] == runs;
    assert Cells(c, 1, block) == {c} + Cells(c + block, 0, block) == {c};
    forall i | 0 <= i < |runs|
      ensures Get(n, runs[i].first) == Get(m, runs[i].first) && Get(n, runs[i].first + 8) == Get(m, runs[i].first + 8)
    {
      RunStarts(runs, block, m, freeList, i);
      BlocksApart(pages, block, page, c, runs[i].first);
    }
    FreeListFrame(m, n, freeList, runs);
    forall i | 0 <= i < |pages| ensures Get(n, pages[i]) == Get(m, pages[i]) {
      HeaderApart(pages, block, page, i, c);
    }
    PageListFrame(m, n, pageList, pages);
  }

  /** Some runs and some set of live blocks fit the memory: the allocator can be in order. */
  ghost predicate Orderable(m: WordMap, pageList: nat, freeList: nat, pages: seq<nat>, block: nat, page: nat) {
    exists runs: seq<Run>, live: set<nat> :: Sane(m, pageList, freeList, pages, runs, live, block, page)
  }

  /** Two free lists from the same head in memories that differ at c only: the second meets c, or is the first. */
  lemma {:induction false} MeetsOrSame(
    m: WordMap, n: WordMap, head: nat, runs: seq<Run>, others: seq<Run>, c: nat, block: nat)
    requires FreeList(m, head, runs) && FreeList(n, head, others)
    requires forall i :: 0 <= i < |runs| && runs[i].first != c ==>
               Get(n, runs[i].first) == Get(m, runs[i].first) && Get(n, runs[i].first + 8) == Get(m, runs[i].first + 8)
    ensures c in FreeCells(others, block) || others == runs
    decreases |runs|
  {
    if runs != [] {
      assert others != [] && others[0].first == runs[0].first == head;
      if head == c {
        assert c in Cells(others[0].first, others[0].count, block);
      } else {
        assert others[0] == runs[0];
        forall i | 0 <= i < |runs[1..]| ensures runs[1..][i] == runs[i + 1] {}
        MeetsOrSame(m, n, Get(m, head), runs[1..], others[1..], c, block);
        assert others == [others[0]] + others[1..] && runs == [runs[0]] + runs[1..];
      }
    }
  }

  /**
   * Giving back what is not live, free already or never a block, leaves a memory that no runs and no live blocks
   * fit.
   */
  lemma TwiceFree(
    m: WordMap, n: WordMap, pageList: nat, freeList: nat, pages: seq<nat>, runs: seq<Run>, live: set<nat>, block: nat,
    page: nat, c: nat)
    requires Sane(m, pageList, freeList, pages, runs, live, block, page) && c !in live && c > 0
    requires GivenBack(m, n, c, freeList, block)
    ensures !Orderable(n, pageList, c, pages, block, page)
  {
    forall others: seq<Run>, held: set<nat> | Sane(n, pageList, c, pages, others, held, block, page)
      ensures false
    {
      HeadsList(m, n, pageList, freeList, pages, runs, live, block, page, c, others, held);
      MeetsOrSame(m, n, freeList, runs, others[1..], c, block);
    }
  }

  /** After anything was given back, a free list in order is c, a block, and then a list from the old head without c. */
  lemma HeadsList(
    m: WordMap, n: WordMap, pageList: nat, freeList: nat, pages: seq<nat>, runs: seq<Run>, live: set<nat>, block: nat,
    page: nat, c: nat, others: seq<Run>, held: set<nat>)
    requires Sane(m, pageList, freeList, pages, runs, live, block, page) && c > 0
    requires GivenBack(m, n, c, freeList, block)
    requires Sane(n, pageList, c, pages, others, held, block, page)
    ensures others != [] && FreeList(n, freeList, others[1..])
    ensures c in AllCells(pages, block, Capacity(page, block)) && c !in FreeCells(others[1..], block)
    ensures forall i :: 0 <= i < |runs| && runs[i].first != c ==>
              Get(n, runs[i].first) == Get(m, runs[i].first) && Get(n, runs[i].first + 8) == Get(m, runs[i].first + 8)
  {
    assert others[0].first == c && c in Cells(c, others[0].count, block);
    assert c in FreeCells(others, block);
    forall i | 0 <= i < |runs| && runs[i].first != c
      ensures Get(n, runs[i].first) == Get(m, runs[i].first) && Get(n, runs[i].first + 8) == Get(m, runs[i].first + 8)
    {
      RunStarts(runs, block, m, freeList, i);
      BlocksApart(pages, block, page, c, runs[i].first);
    }
  }

  lemma ReturnedElsewhere(
    m: WordMap, n: WordMap, pageList: nat, freeList: nat, pages: seq<nat>, runs: seq<Run>, live: set<nat>, block: nat,
    page: nat, c: nat, b: nat, k: nat)
    requires Sane(m, pageList, freeList, pages, runs, live, block, page) && c in live && b in live && b != c
    requires GivenBack(m, n, c, freeList, block) && b <= k < b + block
    ensures Get(n, k) == Get(m, k)
  {
    BlocksApart(pages, block, page, b, c);
  }

  /** What is in the blocks is the same in both memories. */
  ghost predicate Same(m: WordMap, n: WordMap, blocks: set<nat>, size: nat) {
    forall b, k: nat | b in blocks && b <= k < b + size :: Get(n, k) == Get(m, k)
  }

  lemma SameSame(l: WordMap, m: WordMap, n: WordMap, blocks: set<nat>, size: nat)
    requires Same(l, m, blocks, size) && Same(m, n, blocks, size)
    ensures Same(l, n, blocks, size)
  {
  }

  // ---- a new page

  ghost predicate Paged(m: WordMap, n: WordMap, p: nat, pageList: nat, freeList: nat, block: nat, page: nat)
    requires block > 0 && page >= HEADER
  {
    forall k: nat :: Get(n, k) ==
      if k == p then pageList
      else if k == p + HEADER then freeList
      else if k == p + HEADER + 8 then Capacity(page, block)
      else if p <= k < p + page then 0
      else Get(m, k)
  }

  lemma PagedBy(m: WordMap, p: nat, pageList: nat, freeList: nat, block: nat, page: nat)
    requires block > 0 && page >= HEADER
    ensures Paged(m, Zeroed(m, p, page)[p + HEADER := freeList][p + HEADER + 8 := Capacity(page, block)][p := pageList],
                  p, pageList, freeList, block, page)
  {
  }

  lemma StaysSanePaged(
    m: WordMap, n: WordMap, pageList: nat, freeList: nat, pages: seq<nat>, runs: seq<Run>, live: set<nat>, block: nat,
    page: nat, p: nat)
    requires Sane(m, pageList, freeList, pages, runs, live, block, page)
    requires p > 0 && Elsewhere(p, pages, page) && Paged(m, n, p, pageList, freeList, block, page)
    ensures Sane(n, p, p + HEADER, [p] + pages, [Run(p + HEADER, Capacity(page, block))] + runs, live, block, page)
    ensures Cells(p + HEADER, Capacity(page, block), block) !! live
  {
    var k := Capacity(page, block);
    OneFits(page - HEADER, block);
    var more, longer := [p] + pages, [Run(p + HEADER, k)] + runs;
    assert more[1..] == pages && longer[1..] == runs;
    NewPageApart(more, block, page);
    forall i | 0 <= i < |runs|
      ensures Get(n, runs[i].first) == Get(m, runs[i].first) && Get(n, runs[i].first + 8) == Get(m, runs[i].first + 8)
    {
      RunStarts(runs, block, m, freeList, i);
      var j := PageOf(pages, block, page, runs[i].first);
      assert more[j + 1] == pages[j] && Apart(more[0], more[j + 1], page);
    }
    FreeListFrame(m, n, freeList, runs);
    forall i | 0 <= i < |pages| ensures Get(n, pages[i]) == Get(m, pages[i]) {
      assert more[i + 1] == pages[i] && Apart(more[0], more[i + 1], page);
    }
    PageListFrame(m, n, pageList, pages);
  }

  lemma PagedElsewhere(
    m: WordMap, n: WordMap, pageList: nat, freeList: nat, pages: seq<nat>, runs: seq<Run>, live: set<nat>, block: nat,
    page: nat,
    p: nat, b: nat, k: nat)
    requires Sane(m, pageList, freeList, pages, runs, live, block, page) && Elsewhere(p, pages, page)
    requires Paged(m, n, p, pageList, freeList, block, page)
    requires b in live && b <= k < b + block
    ensures Get(n, k) == Get(m, k)
  {
    var more := [p] + pages;
    var j := PageOf(pages, block, page, b);
    assert more[j + 1] == pages[j] && Apart(more[0], more[j + 1], page);
  }

  /** The client's own stores go to its own blocks. */
  lemma StaysSaneStored(
    m: WordMap, n: WordMap, pageList: nat, freeList: nat, pages: seq<nat>, runs: seq<Run>, live: set<nat>, block: nat,
    page: nat, b: nat)
    requires Sane(m, pageList, freeList, pages, runs, live, block, page) && b in live
    requires forall k: nat :: !(b <= k < b + block) ==> Get(n, k) == Get(m, k)
    ensures Sane(n, pageList, freeList, pages, runs, live, block, page)
  {
    forall i | 0 <= i < |runs|
      ensures Get(n, runs[i].first) == Get(m, runs[i].first) && Get(n, runs[i].first + 8) == Get(m, runs[i].first + 8)
    {
      RunStarts(runs, block, m, freeList, i);
      BlocksApart(pages, block, page, b, runs[i].first);
    }
    FreeListFrame(m, n, freeList, runs);
    forall i | 0 <= i < |pages| ensures Get(n, pages[i]) == Get(m, pages[i]) {
      HeaderApart(pages, block, page, i, b);
    }
    PageListFrame(m, n, pageList, pages);
  }

  /** Free and live blocks together are all the blocks there are. */
  lemma Conservation(
    m: WordMap, pageList: nat, freeList: nat, pages: seq<nat>, runs: seq<Run>, live: set<nat>, block: nat, page: nat)
    requires Sane(m, pageList, freeList, pages, runs, live, block, page)
    ensures |live| + Total(runs) == |pages| * Capacity(page, block)
  {
    CountFree(runs, block);
    CountAll(pages, block, page);
    Union(live, FreeCells(runs, block));
  }

  lemma Union(a: set<nat>, b: set<nat>)
    requires a !! b
    ensures |a + b| == |a| + |b|
  {
  }

  datatype Allocated = Aborted | Block(address: nat)
  datatype Freed = Nothing | NoPage | Misplaced | Returned

  class LinkerBlockAllocator {
    const api: int
    const size: nat
    var mem: WordMap
    var pageList: nat
    var freeList: nat
    /** The source's allocated_. */
    var count: int
    ghost var pages: seq<nat>
    ghost var runs: seq<Run>
    /** The blocks the client holds. */
    ghost var live: set<nat>

    function Page(): nat { PageBytes(api) }

    function Size(): (b: nat)
      ensures b >= 16
    {
      BlockBytes(size)
    }

    /** Page and free list as they should be; every block of every page is either free or live. */
    ghost predicate Orderly()
      reads this
    {
      Sane(mem, pageList, freeList, pages, runs, live, Size(), Page())
    }

    ghost predicate Valid()
      reads this
    {
      Orderly() && (api >= 29 ==> count == |live|)
    }

    constructor (size: nat, api: int)
      ensures this.size == size && this.api == api && live == {} && pages == [] && freeList == 0
      ensures Valid() <==> size <= PageBytes(api) - HEADER
    {
      this.size, this.api := size, api;
      mem, pageList, freeList, count := map[], 0, 0, 0;
      pages, runs, live := [], [], {};
      HasRoom(api, size);
    }

    /** Maps a page at p and makes all its blocks the first free run. */
    method CreateNewPage(p: nat)
      requires p > 0 && Elsewhere(p, pages, Page())
      modifies this`mem, this`pageList, this`freeList, this`pages, this`runs
      ensures freeList == p + HEADER && pages == [p] + old(pages)
      ensures Get(mem, freeList) == old(freeList) && Get(mem, freeList + 8) == Capacity(Page(), Size())
      ensures old(Orderly()) ==> Orderly() && Same(old(mem), mem, live, Size()) && runs != []
    {
      mem := Zeroed(mem, p, Page());
      mem := mem[p + HEADER := freeList];
      mem := mem[p + HEADER + 8 := Capacity(Page(), Size())];
      freeList := p + HEADER;
      mem := mem[p := pageList];
      pageList := p;
      pages := [p] + pages;
      runs := [Run(p + HEADER, Capacity(Page(), Size()))] + runs;
      PagedBy(old(mem), p, old(pageList), old(freeList), Size(), Page());
      if old(Orderly()) {
        StaysSanePaged(old(mem), mem, old(pageList), old(freeList), old(pages), old(runs), live, Size(), Page(), p);
        forall b, k: nat | b in live && b <= k < b + Size() ensures Get(mem, k) == Get(old(mem), k) {
          PagedElsewhere(old(mem), mem, old(pageList), old(freeList), old(pages), old(runs), live, Size(), Page(), p,
            b, k);
        }
      }
    }

    /** Takes the first block off the first free run. */
    method TakeBlock() returns (block: nat)
      requires freeList > 0
      modifies this`mem, this`freeList, this`runs, this`live
      ensures block == old(freeList) && forall k: nat :: block <= k < block + Size() ==> Get(mem, k) == 0
      ensures freeList == if Get(old(mem), block + 8) > 1 then block + Size() else Get(old(mem), block)
      ensures old(Orderly()) ==>
                && Orderly() && Same(old(mem), mem, old(live), Size())
                && block !in old(live) && live == old(live) + {block}
                && block in AllCells(pages, Size(), Capacity(Page(), Size()))
    {
      block := freeList;
      var free := Get(mem, block + 8);
      if free > 1 {
        var next := block + Size();
        mem := mem[next := Get(mem, block)];
        mem := mem[next + 8 := free - 1];
        freeList := next;
      } else {
        freeList := Get(mem, block);
      }
      mem := Zeroed(mem, block, Size());
      if old(Orderly()) {
        StaysSane(old(mem), mem, pageList, block, pages, runs, live, Size(), Page());
        forall b, k: nat | b in live && b <= k < b + Size() ensures Get(mem, k) == Get(old(mem), k) {
          LiveUntouched(old(mem), mem, pageList, block, pages, runs, live, Size(), Page(), b, k);
        }
        runs := Shorter(runs, Size());
        live := live + {block};
      }
    }

    /** Sees to it that there is a free run; false when no page can be had. */
    method Refill(mapped: Option<nat>) returns (ready: bool)
      requires Orderly() && (mapped.Some? ==> mapped.value > 0 && Elsewhere(mapped.value, pages, Page()))
      modifies this`mem, this`pageList, this`freeList, this`pages, this`runs
      ensures ready <==> old(freeList) != 0 || mapped.Some?
      ensures ready <==> freeList != 0
      ensures !ready ==> mem == old(mem)
      ensures Orderly() && Same(old(mem), mem, live, Size())
      ensures pages == if old(freeList) == 0 && mapped.Some? then [mapped.value] + old(pages) else old(pages)
    {
      if freeList == 0 && mapped.Some? {
        CreateNewPage(mapped.value);
      }
      return freeList != 0;
    }

    /**
     * A zeroed block that was free, in a page. `mapped` is where mmap puts a new page if one is needed; None is its
     * failure.
     */
    method Alloc(mapped: Option<nat>) returns (r: Allocated)
      requires Valid()
      requires mapped.Some? ==> mapped.value > 0 && Elsewhere(mapped.value, pages, Page())
      modifies this
      ensures Valid()
      ensures r.Aborted? <==> old(freeList) == 0 && mapped.None?
      ensures r.Aborted? ==> live == old(live) && mem == old(mem)
      ensures r.Block? ==> r.address !in old(live) && live == old(live) + {r.address}
      ensures r.Block? ==> r.address in AllCells(pages, Size(), Capacity(Page(), Size()))
      ensures r.Block? ==> forall k: nat :: r.address <= k < r.address + Size() ==> Get(mem, k) == 0
      ensures Same(old(mem), mem, old(live), Size())
      ensures pages == if old(freeList) == 0 && mapped.Some? then [mapped.value] + old(pages) else old(pages)
    {
      var ready := Refill(mapped);
      if !ready {
        return Aborted;
      }
      ghost var paged := mem;
      var block := TakeBlock();
      SameSame(old(mem), paged, mem, old(live), Size());
      if api >= API_Q {
        count := count + 1;
      }
      return Block(block);
    }

    /** A block handed out lies in one of the pages, behind its first 16 bytes. */
    lemma InSomePage(block: nat)
      requires Orderly() && block in AllCells(pages, Size(), Capacity(Page(), Size()))
      ensures exists p :: p in pages && InPage(p, block, Size(), Page())
    {
      var i := PageOf(pages, Size(), Page(), block);
      assert pages[i] in pages;
    }

    /**
     * The first block of a fresh allocator whose pages have no room for a block: it is handed out, and runs past the
     * page.
     */
    method AllocWithoutRoom(p: nat) returns (block: nat)
      requires freeList == 0 && pages == [] && p > 0 && size > PageBytes(api) - HEADER
      modifies this
      ensures block == p + HEADER && block + Size() > p + Page()
      ensures freeList == 0
    {
      HasRoom(api, size);
      CreateNewPage(p);
      block := TakeBlock();
    }

    /** The page that holds the address; its next pointer's words do not count. */
    method FindPage(address: nat) returns (page: Option<nat>)
      requires PageList(mem, pageList, pages)
      ensures page.Some? ==> page.value in pages && page.value + 8 <= address < page.value + Page()
      ensures page.None? ==> forall p :: p in pages ==> !(p + 8 <= address < p + Page())
    {
      var p: nat := pageList;
      ghost var i: nat := 0;
      while p != 0
        invariant i <= |pages| && PageList(mem, p, pages[i..])
        invariant forall k :: 0 <= k < i ==> !(pages[k] + 8 <= address < pages[k] + Page())
        decreases |pages| - i
      {
        assert p == pages[i..][0] == pages[i] && pages[i..][1..] == pages[i + 1..];
        if p + 8 <= address < p + Page() {
          return Some(p);
        }
        p := Get(mem, p);
        i := i + 1;
      }
      return None;
    }

    /** The test the source makes; the offset in front of a page's first block wraps to a large number. */
    predicate Fits(page: nat, address: nat) {
      var offset := address - (page + HEADER);
      (if offset < 0 then offset + 0x1_0000_0000_0000_0000 else offset) % Size() == 0
    }

    /** The address is where `free` would take it for a block. */
    ghost predicate Passes(address: nat)
      reads this
    {
      exists p :: p in pages && p + 8 <= address < p + Page() && Whole(p, address)
    }

    /** The address is a whole number of blocks behind the page's first 16 bytes, in unsigned arithmetic. */
    ghost predicate Whole(page: nat, address: nat) {
      (address - page - 16) % 0x1_0000_0000_0000_0000 % Size() == 0
    }

    /** The pages do not overlap: an address is in one of them at most. */
    lemma OnePage(address: nat, p: nat, q: nat)
      requires Orderly() && p in pages && q in pages
      requires p + 8 <= address < p + Page() && q + 8 <= address < q + Page()
      ensures p == q
    {
      var i :| 0 <= i < |pages| && pages[i] == p;
      var j :| 0 <= j < |pages| && pages[j] == q;
      assert i == j;
    }

    /** A live block passes. */
    lemma LivePasses(address: nat)
      requires Orderly() && address in live
      ensures address > 0 && Passes(address)
    {
      var i := PageOf(pages, Size(), Page(), address);
      assert pages[i] in pages && Whole(pages[i], address);
    }

    /** With the page that holds the address, the test decides. */
    lemma FoundDecides(address: nat, p: nat)
      requires Orderly() && p in pages && p + 8 <= address < p + Page()
      ensures Passes(address) <==> Fits(p, address)
    {
      if Passes(address) {
        var q :| q in pages && q + 8 <= address < q + Page() && Whole(q, address);
        OnePage(address, p, q);
      }
      Sizes(api, size);
      Unsigned(address - p - 16);
    }

    /**
     * Gives back what passes for a block. Whether the client holds it is not checked: the allocator stays in order
     * exactly when it does, or nothing is given back. Otherwise nothing could put it in order.
     */
    method Free(address: nat) returns (r: Freed)
      requires Valid()
      modifies this
      ensures Valid() <==> (r.Returned? ==> address in old(live))
      ensures Orderable(mem, pageList, freeList, pages, Size(), Page()) <==> (r.Returned? ==> address in old(live))
      ensures r.Returned? <==> old(Passes(address))
      ensures address in old(live) ==> r.Returned? && live == old(live) - {address} && Same(old(mem), mem, live, Size())
      ensures r.Returned? ==> freeList == address && GivenBack(old(mem), mem, address, old(freeList), Size())
      ensures pages == old(pages)
      ensures !r.Returned? ==> live == old(live) && mem == old(mem) && freeList == old(freeList)
      ensures r.Nothing? <==> address == 0
      ensures r.NoPage? <==> address != 0 && forall p :: p in pages ==> !(p + 8 <= address < p + Page())
    {
      r := Classify(address);
      if r.Returned? {
        GiveBack(address);
      }
    }

    method GiveBack(block: nat)
      requires Valid() && block > 0
      modifies this`mem, this`freeList, this`runs, this`live, this`count
      ensures Valid() <==> block in old(live)
      ensures Orderable(mem, pageList, freeList, pages, Size(), Page()) <==> block in old(live)
      ensures freeList == block && GivenBack(old(mem), mem, block, old(freeList), Size())
      ensures live == old(live) - {block}
      ensures block in old(live) ==> Same(old(mem), mem, live, Size())
    {
      PutBlock(block);
      if api >= API_Q {
        count := count - 1;
      }
    }

    /** What `free` makes of an address before it writes anything. */
    method Classify(address: nat) returns (r: Freed)
      requires Orderly()
      ensures r.Returned? <==> Passes(address)
      ensures r.Returned? ==> address > 0
      ensures address in live ==> r.Returned?
      ensures r.Nothing? <==> address == 0
      ensures r.NoPage? <==> address != 0 && forall p :: p in pages ==> !(p + 8 <= address < p + Page())
    {
      if address in live {
        LivePasses(address);
      }
      if address == 0 {
        return Nothing;
      }
      var page := FindPage(address);
      if page.None? {
        return NoPage;
      }
      FoundDecides(address, page.value);
      return if Fits(page.value, address) then Returned else Misplaced;
    }

    /** Zeroes the block and makes it the first free run. */
    method PutBlock(block: nat)
      requires Orderly() && block > 0
      modifies this`mem, this`freeList, this`runs, this`live
      ensures freeList == block && GivenBack(old(mem), mem, block, old(freeList), Size())
      ensures live == old(live) - {block}
      ensures Orderly() <==> block in old(live)
      ensures Orderable(mem, pageList, freeList, pages, Size(), Page()) <==> block in old(live)
      ensures block in old(live) ==> Same(old(mem), mem, live, Size())
    {
      mem := Zeroed(mem, block, Size());
      mem := mem[block := freeList];
      mem := mem[block + 8 := 1];
      if block in live {
        StaysSaneReturned(old(mem), mem, pageList, freeList, pages, runs, live, Size(), Page(), block);
        forall b, k: nat | b in live && b != block && b <= k < b + Size() ensures Get(mem, k) == Get(old(mem), k) {
          ReturnedElsewhere(old(mem), mem, pageList, freeList, pages, runs, live, Size(), Page(), block, b, k);
        }
      } else {
        TwiceFree(old(mem), mem, pageList, freeList, pages, runs, live, Size(), Page(), block);
      }
      freeList := block;
      runs := [Run(block, 1)] + runs;
      live := live - {block};
    }

    /** The client stores a word in one of its blocks. */
    method Store(block: nat, offset: nat, value: nat)
      requires Valid() && block in live && offset < Size()
      modifies this`mem
      ensures Valid() && mem == old(mem)[block + offset := value]
    {
      mem := mem[block + offset := value];
      StaysSaneStored(old(mem), mem, pageList, freeList, pages, runs, live, Size(), Page(), block);
    }

    /** The pages munmap is called on, one after the other. */
    method UnmapAll() returns (unmapped: seq<nat>)
      requires PageList(mem, pageList, pages)
      ensures unmapped == pages
    {
      unmapped := [];
      var page := pageList;
      while page != 0
        invariant unmapped <= pages && PageList(mem, page, pages[|unmapped|..])
        decreases |pages| - |unmapped|
      {
        assert page == pages[|unmapped|..][0] == pages[|unmapped|];
        assert pages[|unmapped|..][1..] == pages[|unmapped| + 1..];
        var next := Get(mem, page);
        unmapped := unmapped + [page];
        page := next;
      }
      assert pages[|unmapped|..] == [];
    }

    /** Unmaps every page, from API 29 on only when no block is live. */
    method Purge() returns (unmapped: seq<nat>)
      requires Valid()
      modifies this
      ensures Valid()
      ensures api >= 29 && old(live) != {} ==>
                unmapped == [] && live == old(live) && pages == old(pages) && mem == old(mem)
      ensures api < 29 || old(live) == {} ==> unmapped == old(pages) && pages == [] && live == {} && freeList == 0
    {
      unmapped := [];
      if api >= API_Q && count != 0 {
        return;
      }
      unmapped := UnmapAll();
      pageList, freeList := 0, 0;
      pages, runs, live := [], [], {};
    }
  }
}
