/**
 SHT_RELR relocations: the decoder that walks address entries and bitmaps, and the
 reference encoder that it undoes.
 */
module Relr {
  import opened Powers
  import opened Words
  import opened Memory
  import opened Bitwise

  /** A bitmap entry covers 63 words. */
  const WINDOW_BYTES: nat := 504

  // ---------------------------------------------------------------- decoding

  /** The offsets a bitmap selects, its tag bit already dropped. */
  function BitmapOffsets(bitmap: nat, offset: u64): seq<u64> {
    if bitmap == 0 then []
    else (if bitmap % 2 == 1 then [offset] else []) + BitmapOffsets(bitmap / 2, Add64(offset, 8))
  }

  /** The offsets a RELR section lists, in the order in which they are relocated. */
  function Decode(entries: seq<u64>, base: u64): seq<u64> {
    if entries == [] then []
    else if entries[0] % 2 == 0 then
      [entries[0]] + Decode(entries[1..], Add64(entries[0], 8))
    else
      BitmapOffsets(entries[0] / 2, base) + Decode(entries[1..], Add64(base, WINDOW_BYTES))
  }

  function Destination(offset: u64, loadBias: u64): u64 {
    Add64(offset, loadBias)
  }

  /** Every word to be relocated is mapped. */
  ghost predicate AllMapped(m: Bytes, offsets: seq<u64>, loadBias: u64) {
    forall i :: 0 <= i < |offsets| ==> Mapped(m, Destination(offsets[i], loadBias), WORD)
  }

  /** One relocation: the word grows by the load bias. */
  function ApplyOne(m: Bytes, offset: u64, loadBias: u64): (m': Bytes)
    requires Mapped(m, Destination(offset, loadBias), WORD)
    ensures m'.Keys == m.Keys
  {
    var a := Destination(offset, loadBias);
    Write64(m, a, Add64(Read64(m, a), loadBias))
  }

  function ApplyAll(m: Bytes, offsets: seq<u64>, loadBias: u64): (m': Bytes)
    requires AllMapped(m, offsets, loadBias)
    ensures m'.Keys == m.Keys
    decreases |offsets|
  {
    if offsets == [] then m
    else
      assert Mapped(m, Destination(offsets[0], loadBias), WORD);
      ApplyAll(ApplyOne(m, offsets[0], loadBias), offsets[1..], loadBias)
  }

  lemma ApplyFirst(m: Bytes, offset: u64, later: seq<u64>, loadBias: u64)
    requires AllMapped(m, [offset] + later, loadBias)
    ensures Mapped(m, Destination(offset, loadBias), WORD)
    ensures AllMapped(ApplyOne(m, offset, loadBias), later, loadBias)
    ensures ApplyAll(m, [offset] + later, loadBias) == ApplyAll(ApplyOne(m, offset, loadBias), later, loadBias)
  {
    var all := [offset] + later;
    assert Mapped(m, Destination(all[0], loadBias), WORD);
    forall i | 0 <= i < |later|
      ensures Mapped(m, Destination(later[i], loadBias), WORD)
    {
      assert all[i + 1] == later[i];
    }
    assert all[1..] == later;
  }

  lemma UnfoldDecode(entries: seq<u64>, i: nat, base: u64, later: seq<u64>)
    requires i < |entries|
    requires later == Decode(entries[i + 1..],
                             if entries[i] % 2 == 0 then Add64(entries[i], 8) else Add64(base, WINDOW_BYTES))
    ensures Decode(entries[i..], base)
         == (if entries[i] % 2 == 0 then [entries[i]] else BitmapOffsets(entries[i] / 2, base)) + later
  {
    assert entries[i..][1..] == entries[i + 1..];
  }

  /** What is left to relocate when the loop over a bitmap is about to shift `entry`. */
  ghost function Remaining(entry: nat, offset: u64, later: seq<u64>): seq<u64> {
    if entry == 0 then later else BitmapOffsets(entry / 2, offset) + later
  }

  lemma UnfoldBitmap(v: nat, offset: u64, later: seq<u64>)
    ensures var left := Remaining(v, Add64(offset, 8), later);
            BitmapOffsets(v, offset) + later == if v % 2 == 1 then [offset] + left else left
  {
    if v > 0 {
      FirstBit(v, offset);
      Regroup(offset, BitmapOffsets(v / 2, Add64(offset, 8)), later);
    } else {
      assert [] + later == later;
    }
  }

  lemma FirstBit(v: nat, offset: u64)
    requires v > 0
    ensures BitmapOffsets(v, offset)
         == if v % 2 == 1 then [offset] + BitmapOffsets(v / 2, Add64(offset, 8))
            else BitmapOffsets(v / 2, Add64(offset, 8))
  {
    assert [] + BitmapOffsets(v / 2, Add64(offset, 8)) == BitmapOffsets(v / 2, Add64(offset, 8));
  }

  lemma Regroup(x: u64, inner: seq<u64>, later: seq<u64>)
    ensures ([x] + inner) + later == [x] + (inner + later)
  {
  }

  // ---------------------------------------------------------------- what entries stand for

  /** Where the window of entry i starts: behind the last address entry, or behind the window of the entry before. */
  ghost function WindowAt(entries: seq<u64>, i: nat): nat
    requires i <= |entries|
  {
    if i == 0 then 0
    else if entries[i - 1] % 2 == 0 then (entries[i - 1] + 8) % 0x1_0000_0000_0000_0000
    else (WindowAt(entries, i - 1) + 63 * 8) % 0x1_0000_0000_0000_0000
  }

  /** An even entry stands for its own word; bit j of an odd one, from 1 on, for word j - 1 of its window. */
  ghost predicate Stands(entries: seq<u64>, i: nat, x: u64)
    requires i < |entries|
  {
    if entries[i] % 2 == 0 then x == entries[i]
    else exists j: nat :: WindowWord(WindowAt(entries, i), j, x) && entries[i] / Power2(j + 1) % 2 == 1
  }

  ghost predicate WindowWord(base: nat, j: nat, x: u64) {
    x == (base + 8 * j) % 0x1_0000_0000_0000_0000
  }

  lemma BitmapSelects(bitmap: nat, base: u64, x: u64)
    ensures x in BitmapOffsets(bitmap, base) <==>
              exists j: nat :: WindowWord(base, j, x) && bitmap / Power2(j) % 2 == 1
  {
    if x in BitmapOffsets(bitmap, base) {
      var j := BitOf(bitmap, base, x);
    }
    if j: nat :| WindowWord(base, j, x) && bitmap / Power2(j) % 2 == 1 {
      OfBit(bitmap, base, x, j);
    }
  }

  lemma {:induction false} BitOf(bitmap: nat, base: u64, x: u64) returns (j: nat)
    requires x in BitmapOffsets(bitmap, base)
    ensures WindowWord(base, j, x) && bitmap / Power2(j) % 2 == 1
    decreases bitmap
  {
    FirstBit(bitmap, base);
    if bitmap % 2 == 1 && x == base {
      j := 0;
    } else {
      var k := BitOf(bitmap / 2, Add64(base, 8), x);
      ShiftedOnce(bitmap, k);
      NextWord(base, k, x);
      j := k + 1;
    }
  }

  lemma {:induction false} OfBit(bitmap: nat, base: u64, x: u64, j: nat)
    requires WindowWord(base, j, x) && bitmap / Power2(j) % 2 == 1
    ensures x in BitmapOffsets(bitmap, base)
    decreases j
  {
    SomeBit(bitmap, Power2(j));
    FirstBit(bitmap, base);
    if j == 0 {
      Undivided(bitmap, Power2(j));
    } else {
      ShiftedOnce(bitmap, j - 1);
      NextWord(base, j - 1, x);
      OfBit(bitmap / 2, Add64(base, 8), x, j - 1);
    }
  }

  lemma SomeBit(v: nat, p: nat)
    requires p > 0 && v / p % 2 == 1
    ensures v > 0
  {
  }

  lemma Undivided(v: nat, p: nat)
    requires p == 1
    ensures v / p == v
  {
  }

  lemma NextWord(base: u64, j: nat, x: u64)
    ensures WindowWord(Add64(base, 8), j, x) <==> WindowWord(base, j + 1, x)
  {
  }

  /** The words that are relocated are exactly those that entries stand for. */
  lemma DecodedExactly(entries: seq<u64>, x: u64)
    ensures x in Decode(entries, 0) <==> exists i :: 0 <= i < |entries| && Stands(entries, i, x)
  {
    assert entries[0..] == entries;
    DecodedFrom(entries, 0, 0, x);
  }

  lemma {:induction false} DecodedFrom(entries: seq<u64>, i: nat, base: u64, x: u64)
    requires i <= |entries| && base == WindowAt(entries, i)
    ensures x in Decode(entries[i..], base) <==> exists k :: i <= k < |entries| && Stands(entries, k, x)
    decreases |entries| - i
  {
    if i < |entries| {
      var next := if entries[i] % 2 == 0 then Add64(entries[i], 8) else Add64(base, WINDOW_BYTES);
      DecodedFrom(entries, i + 1, next, x);
      UnfoldDecode(entries, i, base, Decode(entries[i + 1..], next));
      EntryStands(entries, i, base, x);
    }
  }

  lemma EntryStands(entries: seq<u64>, i: nat, base: u64, x: u64)
    requires i < |entries| && base == WindowAt(entries, i)
    ensures Stands(entries, i, x) <==>
              x in if entries[i] % 2 == 0 then [entries[i]] else BitmapOffsets(entries[i] / 2, base)
  {
    if entries[i] % 2 == 1 {
      BitmapSelects(entries[i] / 2, base, x);
      forall j: nat
        ensures entries[i] / 2 / Power2(j) == entries[i] / Power2(j + 1)
      {
        ShiftedOnce(entries[i], j);
      }
      if j: nat :| WindowWord(base, j, x) && entries[i] / 2 / Power2(j) % 2 == 1 {
        assert entries[i] / Power2(j + 1) % 2 == 1;
      }
    }
  }

  class Image {
    var bytes: Bytes

    method ApplyRelrReloc(offset: u64, loadBias: u64)
      requires Mapped(bytes, Destination(offset, loadBias), WORD)
      modifies this
      ensures bytes == ApplyOne(old(bytes), offset, loadBias)
    {
      var destination := Add64(offset, loadBias);
      bytes := Write64(bytes, destination, Add64(Read64(bytes, destination), loadBias));
    }

    method RelocateRelr(entries: seq<u64>, loadBias: u64)
      requires AllMapped(bytes, Decode(entries, 0), loadBias)
      modifies this
      ensures bytes == ApplyAll(old(bytes), Decode(entries, 0), loadBias)
    {
      var base: u64 := 0;
      var current := 0;
      ghost var goal := ApplyAll(bytes, Decode(entries, 0), loadBias);
      assert entries[0..] == entries;
      while current < |entries|
        invariant Pending(entries, current, base, loadBias, goal)
      {
        base := RelocateNext(entries, current, base, loadBias, goal);
        current := current + 1;
      }
      assert entries[current..] == [];
    }

    /** Relocating what the entries from here on stand for leads to the goal. */
    ghost predicate Pending(entries: seq<u64>, current: nat, base: u64, loadBias: u64, goal: Bytes)
      reads this
    {
      && current <= |entries| && AllMapped(bytes, Decode(entries[current..], base), loadBias)
      && ApplyAll(bytes, Decode(entries[current..], base), loadBias) == goal
    }

    method RelocateNext(entries: seq<u64>, current: nat, base: u64, loadBias: u64, ghost goal: Bytes)
      returns (next: u64)
      requires current < |entries| && Pending(entries, current, base, loadBias, goal)
      modifies this
      ensures Pending(entries, current + 1, next, loadBias, goal)
    {
      var entry := entries[current];
      ghost var later :=
        Decode(entries[current + 1..], if entry % 2 == 0 then Add64(entry, 8) else Add64(base, WINDOW_BYTES));
      UnfoldDecode(entries, current, base, later);
      next := RelocateEntry(entry, base, loadBias, later);
    }

    /** The body of the loop: what an entry stands for is relocated, and the window moves on. */
    method RelocateEntry(entry: u64, base: u64, loadBias: u64, ghost later: seq<u64>) returns (next: u64)
      requires AllMapped(bytes, (if entry % 2 == 0 then [entry] else BitmapOffsets(entry / 2, base)) + later, loadBias)
      modifies this
      ensures next == if entry % 2 == 0 then Add64(entry, 8) else Add64(base, WINDOW_BYTES)
      ensures AllMapped(bytes, later, loadBias)
      ensures ApplyAll(bytes, later, loadBias) == ApplyAll(old(bytes),
                (if entry % 2 == 0 then [entry] else BitmapOffsets(entry / 2, base)) + later, loadBias)
    {
      if entry % 2 == 0 {
        ApplyFirst(bytes, entry, later, loadBias);
        ApplyRelrReloc(entry, loadBias);
        return Add64(entry, 8);
      } else {
        RelocateBitmap(entry, base, loadBias, later);
        return Add64(base, WINDOW_BYTES);
      }
    }

    /** The inner loop: one odd entry. */
    method RelocateBitmap(bits: u64, base: u64, loadBias: u64, ghost later: seq<u64>)
      requires bits % 2 == 1
      requires AllMapped(bytes, BitmapOffsets(bits / 2, base) + later, loadBias)
      modifies this
      ensures AllMapped(bytes, later, loadBias)
      ensures ApplyAll(bytes, later, loadBias)
           == ApplyAll(old(bytes), BitmapOffsets(bits / 2, base) + later, loadBias)
    {
      var entry := bits;
      var offset: u64 := base;
      ghost var todo := BitmapOffsets(bits / 2, base) + later;
      while entry != 0
        invariant todo == Remaining(entry, offset, later)
        invariant AllMapped(bytes, todo, loadBias)
        invariant ApplyAll(bytes, todo, loadBias)
               == ApplyAll(old(bytes), BitmapOffsets(bits / 2, base) + later, loadBias)
        decreases entry
      {
        entry := entry / 2;
        ghost var next := Remaining(entry, Add64(offset, 8), later);
        UnfoldBitmap(entry, offset, later);
        if entry % 2 != 0 {
          ApplyFirst(bytes, offset, next, loadBias);
          ApplyRelrReloc(offset, loadBias);
        }
        todo := next;
        offset := Add64(offset, 8);
      }
    }
  }

  // ---------------------------------------------------------------- the reference encoder

  /** Strictly increasing word-aligned offsets. */
  ghost predicate Listed(xs: seq<u64>) {
    && (forall i :: 0 <= i < |xs| ==> xs[i] % 8 == 0)
    && (forall i, j :: 0 <= i < j < |xs| ==> xs[i] < xs[j])
  }

  /** The encoder counts in words: offset x is word x / 8. */
  type WordNumber = w: nat | w < 0x2000_0000_0000_0000

  function WordNumbers(xs: seq<u64>): seq<WordNumber> {
    seq(|xs|, i requires 0 <= i < |xs| => xs[i] / 8)
  }

  function ByteOffset(w: WordNumber): u64 {
    var n: nat := w;
    8 * n
  }

  /** How many of the words fall into the n words from base on. */
  function InWindow(ws: seq<nat>, base: nat, n: nat): (k: nat)
    ensures k <= |ws|
    decreases n
  {
    if n == 0 then 0
    else if ws != [] && ws[0] == base then 1 + InWindow(ws[1..], base + 1, n - 1)
    else InWindow(ws, base + 1, n - 1)
  }

  /** The bitmap of those words, the first word in the lowest bit. */
  function Bitmap(ws: seq<nat>, base: nat, n: nat): nat
    decreases n
  {
    if n == 0 then 0
    else if ws != [] && ws[0] == base then 1 + 2 * Bitmap(ws[1..], base + 1, n - 1)
    else 2 * Bitmap(ws, base + 1, n - 1)
  }

  lemma {:induction false} BitmapBound(ws: seq<nat>, base: nat, n: nat)
    ensures Bitmap(ws, base, n) < Power2(n)
    decreases n
  {
    if n > 0 {
      BitmapBound(ws, base + 1, n - 1);
      if ws != [] {
        BitmapBound(ws[1..], base + 1, n - 1);
      }
    }
  }

  lemma Power2Of63()
    ensures Power2(63) == 0x8000_0000_0000_0000
  {
    assert Power2(9) == 512;
    Power2Add(9, 9);
    Power2Add(18, 18);
    Power2Add(36, 18);
    Power2Add(54, 9);
  }

  function BitmapEntry(ws: seq<nat>, base: nat): (e: u64) {
    BitmapBound(ws, base, 63);
    Power2Of63();
    1 + 2 * Bitmap(ws, base, 63)
  }

  /** An address entry, then bitmaps while they select something, then again. */
  function EncodeWords(ws: seq<WordNumber>): seq<u64>
    decreases |ws|, 1
  {
    if ws == [] then [] else [ByteOffset(ws[0])] + EncodeBitmaps(ws[1..], ws[0] as nat + 1)
  }

  function EncodeBitmaps(ws: seq<WordNumber>, base: nat): seq<u64>
    decreases |ws|, 2
  {
    var k := InWindow(ws, base, 63);
    if k == 0 then EncodeWords(ws)
    else [BitmapEntry(ws, base)] + EncodeBitmaps(ws[k..], base + 63)
  }

  function Encode(xs: seq<u64>): seq<u64> {
    EncodeWords(WordNumbers(xs))
  }

  // ---------------------------------------------------------------- decoding undoes encoding

  ghost predicate Increasing(ws: seq<nat>, base: nat) {
    && (forall i :: 0 <= i < |ws| ==> base <= ws[i])
    && (forall i, j :: 0 <= i < j < |ws| ==> ws[i] < ws[j])
  }

  function Offsets(ws: seq<WordNumber>): seq<u64> {
    seq(|ws|, i requires 0 <= i < |ws| => ByteOffset(ws[i]))
  }

  /** The decoder's running base, which may have wrapped only when no word can follow. */
  ghost predicate Base(base: nat, b: u64) {
    base < 0x2000_0000_0000_0000 ==> b == 8 * base
  }

  lemma EvenBitmap(v: nat, w: nat, b: u64)
    ensures w == 2 * v ==> BitmapOffsets(w, b) == BitmapOffsets(v, Add64(b, 8))
    ensures w == 1 + 2 * v ==> BitmapOffsets(w, b) == [b] + BitmapOffsets(v, Add64(b, 8))
  {
    assert w == 2 * v || w == 1 + 2 * v ==> w / 2 == v;
    assert [] + BitmapOffsets(v, Add64(b, 8)) == BitmapOffsets(v, Add64(b, 8));
  }

  lemma OffsetsSplit(ws: seq<WordNumber>, k: nat)
    requires k <= |ws|
    ensures Offsets(ws) == Offsets(ws[..k]) + Offsets(ws[k..])
  {
  }

  lemma OffsetsFirst(ws: seq<WordNumber>, k: nat)
    requires k < |ws|
    ensures Offsets(ws[..k + 1]) == [ByteOffset(ws[0])] + Offsets(ws[1..][..k])
  {
  }

  lemma {:induction false} WindowDecodes(ws: seq<WordNumber>, base: nat, b: u64, n: nat, v: nat, k: nat)
    requires Increasing(ws, base) && Base(base, b)
    requires v == Bitmap(ws, base, n) && k == InWindow(ws, base, n)
    ensures BitmapOffsets(v, b) == Offsets(ws[..k])
    decreases n
  {
    if n > 0 {
      if ws != [] && ws[0] == base {
        var v', k' := Bitmap(ws[1..], base + 1, n - 1), InWindow(ws[1..], base + 1, n - 1);
        WindowDecodes(ws[1..], base + 1, Add64(b, 8), n - 1, v', k');
        WindowHit(ws, b, v', k');
      } else {
        var v' := Bitmap(ws, base + 1, n - 1);
        WindowDecodes(ws, base + 1, Add64(b, 8), n - 1, v', k);
        EvenBitmap(v', v, b);
      }
    }
  }

  lemma WindowHit(ws: seq<WordNumber>, b: u64, v: nat, k: nat)
    requires k < |ws| && b == ByteOffset(ws[0])
    requires BitmapOffsets(v, Add64(b, 8)) == Offsets(ws[1..][..k])
    ensures BitmapOffsets(1 + 2 * v, b) == Offsets(ws[..k + 1])
  {
    OffsetsFirst(ws, k);
    EvenBitmap(v, 1 + 2 * v, b);
  }

  /** Words beyond the window are not below the next base. */
  lemma {:induction false} BeyondWindow(ws: seq<nat>, base: nat, n: nat)
    requires Increasing(ws, base)
    ensures Increasing(ws[InWindow(ws, base, n)..], base + n)
    decreases n
  {
    if n > 0 {
      if ws != [] && ws[0] == base {
        BeyondWindow(ws[1..], base + 1, n - 1);
        var k := InWindow(ws[1..], base + 1, n - 1);
        assert ws[1..][k..] == ws[k + 1..];
      } else {
        BeyondWindow(ws, base + 1, n - 1);
      }
    }
  }

  lemma BitmapFirst(entry: u64, v: nat, rest: seq<u64>, b: u64)
    requires entry == 1 + 2 * v
    ensures Decode([entry] + rest, b) == BitmapOffsets(v, b) + Decode(rest, Add64(b, WINDOW_BYTES))
  {
    assert entry / 2 == v && entry % 2 == 1;
    assert ([entry] + rest)[1..] == rest;
  }

  lemma EvenOffset(w: WordNumber)
    ensures ByteOffset(w) % 2 == 0
  {
    var n: nat := w;
    Even(4 * n);
  }

  lemma Even(n: nat)
    ensures (2 * n) % 2 == 0
  {
  }

  lemma AddressFirst(w: WordNumber, rest: seq<u64>, b: u64)
    ensures Decode([ByteOffset(w)] + rest, b) == [ByteOffset(w)] + Decode(rest, Add64(ByteOffset(w), 8))
  {
    EvenOffset(w);
    assert ([ByteOffset(w)] + rest)[1..] == rest;
  }

  lemma {:induction false} DecodeWords(ws: seq<WordNumber>, b: u64)
    requires Increasing(ws, 0)
    ensures Decode(EncodeWords(ws), b) == Offsets(ws)
    decreases |ws|, 1
  {
    if ws != [] {
      DecodeBitmaps(ws[1..], ws[0] as nat + 1, Add64(ByteOffset(ws[0]), 8));
      AddressFirst(ws[0], EncodeBitmaps(ws[1..], ws[0] as nat + 1), b);
      OffsetsSplit(ws, 1);
    }
  }

  lemma {:induction false} DecodeBitmaps(ws: seq<WordNumber>, base: nat, b: u64)
    requires Increasing(ws, base) && Base(base, b)
    ensures Decode(EncodeBitmaps(ws, base), b) == Offsets(ws)
    decreases |ws|, 2
  {
    var k := InWindow(ws, base, 63);
    if k == 0 {
      DecodeWords(ws, b);
    } else {
      WindowDecodes(ws, base, b, 63, Bitmap(ws, base, 63), k);
      BeyondWindow(ws, base, 63);
      DecodeBitmaps(ws[k..], base + 63, Add64(b, WINDOW_BYTES));
      BitmapFirst(BitmapEntry(ws, base), Bitmap(ws, base, 63), EncodeBitmaps(ws[k..], base + 63), b);
      OffsetsSplit(ws, k);
    }
  }

  /** Every strictly increasing list of word-aligned offsets is recovered from its encoding. */
  lemma DecodeEncode(xs: seq<u64>)
    requires Listed(xs)
    ensures Decode(Encode(xs), 0) == xs
  {
    var ws := WordNumbers(xs);
    forall i, j | 0 <= i < j < |ws|
      ensures ws[i] < ws[j]
    {
      assert xs[i] < xs[j] && xs[i] % 8 == 0 && xs[j] % 8 == 0;
    }
    DecodeWords(ws, 0);
    assert Offsets(ws) == xs;
  }

  // ---------------------------------------------------------------- effect on memory

  ghost predicate Covers(offset: u64, loadBias: u64, k: int) {
    Destination(offset, loadBias) <= k < Destination(offset, loadBias) + WORD
  }

  lemma {:induction false} Untouched(m: Bytes, xs: seq<u64>, loadBias: u64, k: int)
    requires AllMapped(m, xs, loadBias) && k in m
    requires forall i :: 0 <= i < |xs| ==> !Covers(xs[i], loadBias, k)
    ensures ApplyAll(m, xs, loadBias)[k] == m[k]
    decreases |xs|
  {
    if xs != [] {
      assert xs == [xs[0]] + xs[1..];
      ApplyFirst(m, xs[0], xs[1..], loadBias);
      assert !Covers(xs[0], loadBias, k);
      Untouched(ApplyOne(m, xs[0], loadBias), xs[1..], loadBias, k);
    }
  }

  lemma Apart(x: u64, y: u64, loadBias: u64, k: int)
    requires x != y && x % 8 == 0 && y % 8 == 0 && Covers(x, loadBias, k)
    ensures !Covers(y, loadBias, k)
  {
  }

  /** Relocating a listed word adds the load bias to it exactly once. */
  lemma {:induction false} ListedOnce(m: Bytes, xs: seq<u64>, loadBias: u64, i: nat)
    requires Listed(xs) && AllMapped(m, xs, loadBias) && i < |xs|
    ensures Mapped(m, Destination(xs[i], loadBias), WORD)
    ensures Read64(ApplyAll(m, xs, loadBias), Destination(xs[i], loadBias))
         == Add64(Read64(m, Destination(xs[i], loadBias)), loadBias)
    decreases |xs|
  {
    var a := Destination(xs[i], loadBias);
    assert Mapped(m, a, WORD);
    var m1 := ApplyOne(m, xs[0], loadBias);
    assert xs == [xs[0]] + xs[1..];
    ApplyFirst(m, xs[0], xs[1..], loadBias);
    if i == 0 {
      ReadBack(m, a, Add64(Read64(m, a), loadBias));
      var m' := ApplyAll(m1, xs[1..], loadBias);
      forall k | a <= k < a + WORD
        ensures m'[k] == m1[k]
      {
        NotCoveredLater(xs, loadBias, k);
        Untouched(m1, xs[1..], loadBias, k);
      }
      SameWord(m', m1, a);
    } else {
      ListedOnce(m1, xs[1..], loadBias, i - 1);
      forall k | a <= k < a + WORD
        ensures m1[k] == m[k]
      {
        Apart(xs[i], xs[0], loadBias, k);
      }
      SameWord(m1, m, a);
    }
  }

  lemma NotCoveredLater(xs: seq<u64>, loadBias: u64, k: int)
    requires Listed(xs) && xs != [] && Covers(xs[0], loadBias, k)
    ensures forall i :: 0 <= i < |xs[1..]| ==> !Covers(xs[1..][i], loadBias, k)
  {
    forall i | 0 <= i < |xs[1..]|
      ensures !Covers(xs[1..][i], loadBias, k)
    {
      Apart(xs[0], xs[i + 1], loadBias, k);
    }
  }

  /** In other words: the word at offset plus bias grows by the bias, both modulo 2^64. */
  lemma GrowsByBias(m: Bytes, xs: seq<u64>, loadBias: u64, i: nat)
    requires Listed(xs) && AllMapped(m, xs, loadBias) && i < |xs|
    ensures var a := (xs[i] + loadBias) % 0x1_0000_0000_0000_0000;
            && Mapped(m, a, 8)
            && Read64(ApplyAll(m, xs, loadBias), a) == (Read64(m, a) + loadBias) % 0x1_0000_0000_0000_0000
  {
    Sum64(xs[i], loadBias);
    ListedOnce(m, xs, loadBias, i);
    Sum64(Read64(m, Destination(xs[i], loadBias)), loadBias);
  }

  /** Decoding what the encoder wrote relocates every listed word once and changes no other byte. */
  lemma EncodedEffect(m: Bytes, xs: seq<u64>, loadBias: u64)
    requires Listed(xs) && AllMapped(m, xs, loadBias)
    ensures Decode(Encode(xs), 0) == xs
    ensures var m' := ApplyAll(m, Decode(Encode(xs), 0), loadBias);
            && (forall i :: 0 <= i < |xs| ==>
                  Mapped(m, Destination(xs[i], loadBias), WORD)
                  && Read64(m', Destination(xs[i], loadBias))
                     == Add64(Read64(m, Destination(xs[i], loadBias)), loadBias))
            && (forall k :: k in m && (forall i :: 0 <= i < |xs| ==> !Covers(xs[i], loadBias, k)) ==> m'[k] == m[k])
  {
    DecodeEncode(xs);
    forall i | 0 <= i < |xs|
      ensures Mapped(m, Destination(xs[i], loadBias), WORD)
      ensures Read64(ApplyAll(m, xs, loadBias), Destination(xs[i], loadBias))
           == Add64(Read64(m, Destination(xs[i], loadBias)), loadBias)
    {
      ListedOnce(m, xs, loadBias, i);
    }
    forall k | k in m && (forall i :: 0 <= i < |xs| ==> !Covers(xs[i], loadBias, k))
      ensures ApplyAll(m, xs, loadBias)[k] == m[k]
    {
      Untouched(m, xs, loadBias, k);
    }
  }
}
