/**
 Manual re-relocation: the slots of a loaded library that refer to symbols exported by the hook
 library are made to point at the hook library. 64-bit RELA build.
 */
module HookRelocs {
  import opened Words
  import opened Memory
  import opened Relocations

  /** A symbol that relocations of the library refer to. */
  datatype Imported = Imported(name: string, bind: Bind)

  /** Exported names and their addresses. */
  type Exports = map<string, u64>

  datatype Pass = JumpTable | Typical

  // ---------------------------------------------------------------- exports

  /** The exported symbols without the filtered names. */
  method FilterExports(exports: Exports, filters: seq<string>) returns (symbols: Exports)
    ensures symbols == map n | n in exports && n !in filters :: exports[n]
  {
    symbols := exports;
    if |symbols| == 0 || |filters| == 0 {
      return;
    }
    for i := 0 to |filters|
      invariant symbols == map n | n in exports && n !in filters[..i] :: exports[n]
    {
      symbols := symbols - {filters[i]};
    }
  }

  // ---------------------------------------------------------------- meaning

  /** The relocation is redirected in this pass. */
  predicate Redirected(pass: Pass, symtab: seq<Imported>, rels: Exports, r: Reloc)
    requires r.sym < |symtab|
  {
    && r.sym != 0
    && !symtab[r.sym].bind.LOCAL?
    && symtab[r.sym].name in rels
    && (match pass
        case JumpTable => r.kind.JUMP_SLOT?
        case Typical => r.kind.ABSOLUTE? || r.kind.GLOB_DAT?)
  }

  /** The relocation could be redirected, but for a symbol that is not exported. */
  predicate Unconcerned(symtab: seq<Imported>, rels: Exports, r: Reloc)
    requires r.sym < |symtab|
  {
    !r.kind.NONE? && !IsTls(r.kind) && r.sym != 0 && !symtab[r.sym].bind.LOCAL? && symtab[r.sym].name !in rels
  }

  datatype Write = Write(address: u64, value: u64)

  function WriteFor(symtab: seq<Imported>, rels: Exports, bias: u64, r: Reloc): Write
    requires r.sym < |symtab| && symtab[r.sym].name in rels
  {
    Write(Add64(r.offset, bias), Add64(rels[symtab[r.sym].name], r.addend))
  }

  ghost predicate InTable(symtab: seq<Imported>, rs: seq<Reloc>) {
    forall i :: 0 <= i < |rs| ==> rs[i].sym < |symtab|
  }

  /** The writes of one pass, in order. */
  ghost function Writes(pass: Pass, symtab: seq<Imported>, rels: Exports, bias: u64, rs: seq<Reloc>): seq<Write>
    requires InTable(symtab, rs)
  {
    if rs == [] then []
    else
      var r, before := rs[|rs| - 1], Writes(pass, symtab, rels, bias, rs[..|rs| - 1]);
      if Redirected(pass, symtab, rels, r) then before + [WriteFor(symtab, rels, bias, r)] else before
  }

  ghost function Apply(m: Bytes, ws: seq<Write>): (m': Bytes)
    ensures m'.Keys == m.Keys
  {
    if ws == [] then m
    else Write64(Apply(m, ws[..|ws| - 1]), ws[|ws| - 1].address, ws[|ws| - 1].value)
  }

  // ---------------------------------------------------------------- the passes

  class Library {
    const symtab: seq<Imported>
    const bias: u64
    var mem: Bytes

    constructor (table: seq<Imported>, loadBias: u64, m: Bytes)
      ensures symtab == table && bias == loadBias && mem == m
    {
      symtab, bias, mem := table, loadBias, m;
    }

    /** The result is the source's: true also for a relocation that the exports do not concern. */
    method ProcessRelocation(pass: Pass, reloc: Reloc, rels: Exports) returns (done: bool)
      requires reloc.sym < |symtab|
      modifies this
      ensures done <==> Redirected(pass, symtab, rels, reloc) || Unconcerned(symtab, rels, reloc)
      ensures mem == if Redirected(pass, symtab, rels, reloc)
                     then Apply(old(mem), [WriteFor(symtab, rels, bias, reloc)]) else old(mem)
      ensures !Hooks(pass, symtab, rels, reloc) ==> mem == old(mem)
      ensures Hooks(pass, symtab, rels, reloc) ==>
                mem == Write64(old(mem), SlotOf(bias, reloc),
                  (rels[symtab[reloc.sym].name] + reloc.addend) % 0x1_0000_0000_0000_0000)
    {
      RedirectedIs(symtab, rels, bias, reloc);
      var relTarget := Add64(reloc.offset, bias);
      if reloc.kind.NONE? || IsTls(reloc.kind) || reloc.sym == 0 {
        return false;
      }
      if symtab[reloc.sym].bind.LOCAL? {
        return false;
      }
      var symName := symtab[reloc.sym].name;
      if symName in rels {
        var symAddr := rels[symName];
        ghost var w := WriteFor(symtab, rels, bias, reloc);
        assert [w][..|[w]| - 1] == [];
        if pass.JumpTable? {
          if reloc.kind.JUMP_SLOT? {
            mem := Write64(mem, relTarget, Add64(symAddr, reloc.addend));
            return true;
          }
        }
        if pass.Typical? {
          if reloc.kind.ABSOLUTE? {
            mem := Write64(mem, relTarget, Add64(symAddr, reloc.addend));
            return true;
          } else if reloc.kind.GLOB_DAT? {
            mem := Write64(mem, relTarget, Add64(symAddr, reloc.addend));
            return true;
          }
        }
        return false;
      }
      return true;
    }

    method PlainRelocate(pass: Pass, relocs: seq<Reloc>, rels: Exports)
      requires InTable(symtab, relocs)
      modifies this
      ensures mem == Apply(old(mem), Writes(pass, symtab, rels, bias, relocs))
    {
      for i := 0 to |relocs|
        invariant mem == Apply(old(mem), Writes(pass, symtab, rels, bias, relocs[..i]))
      {
        assert relocs[..i + 1][..i] == relocs[..i];
        ghost var before := Writes(pass, symtab, rels, bias, relocs[..i]);
        var _ := ProcessRelocation(pass, relocs[i], rels);
        if Redirected(pass, symtab, rels, relocs[i]) {
          var w := WriteFor(symtab, rels, bias, relocs[i]);
          ApplyConcat(old(mem), before, [w]);
        }
      }
      assert relocs[..|relocs|] == relocs;
    }

    /** The whole operation; nothing is written unless the pages of the library could be unlocked. */
    method AgainProcessRelocation(rela: seq<Reloc>, pltRela: seq<Reloc>, rels: Exports, unlocked: bool)
      returns (ok: bool)
      requires InTable(symtab, rela) && InTable(symtab, pltRela)
      modifies this
      ensures ok == unlocked
      ensures mem == if unlocked then Apply(old(mem), AllWrites(symtab, rels, bias, rela, pltRela)) else old(mem)
      ensures unlocked ==> AllHooked(old(mem), mem, symtab, rels, bias, rela, pltRela)
    {
      if !unlocked {
        return false;
      }
      AllAreHooked(mem, symtab, rels, bias, rela, pltRela);
      PlainRelocate(Typical, rela, rels);
      PlainRelocate(JumpTable, pltRela, rels);
      ApplyConcat(old(mem), Writes(Typical, symtab, rels, bias, rela), Writes(JumpTable, symtab, rels, bias, pltRela));
      return true;
    }
  }

  ghost function AllWrites(
    symtab: seq<Imported>, rels: Exports, bias: u64, rela: seq<Reloc>, pltRela: seq<Reloc>): seq<Write>
    requires InTable(symtab, rela) && InTable(symtab, pltRela)
  {
    Writes(Typical, symtab, rels, bias, rela) + Writes(JumpTable, symtab, rels, bias, pltRela)
  }

  lemma {:induction false} ApplyConcat(m: Bytes, ws: seq<Write>, vs: seq<Write>)
    ensures Apply(m, ws + vs) == Apply(Apply(m, ws), vs)
    decreases |vs|
  {
    if vs == [] {
      assert ws + vs == ws;
    } else {
      assert (ws + vs)[..|ws + vs| - 1] == ws + vs[..|vs| - 1];
      ApplyConcat(m, ws, vs[..|vs| - 1]);
    }
  }

  // ---------------------------------------------------------------- which slots, and what they hold

  ghost predicate Covers(w: Write, k: int) {
    w.address <= k < w.address + WORD
  }

  /** The writes of a pass are those of its redirected relocations, no others. */
  lemma {:induction false} WritesExactly(
    pass: Pass, symtab: seq<Imported>, rels: Exports, bias: u64, rs: seq<Reloc>, w: Write)
    requires InTable(symtab, rs)
    ensures w in Writes(pass, symtab, rels, bias, rs) <==>
            exists i :: 0 <= i < |rs| && Redirected(pass, symtab, rels, rs[i])
              && w == WriteFor(symtab, rels, bias, rs[i])
  {
    if rs != [] {
      var n := |rs| - 1;
      WritesExactly(pass, symtab, rels, bias, rs[..n], w);
      if w in Writes(pass, symtab, rels, bias, rs[..n]) {
        var i :| 0 <= i < n && Redirected(pass, symtab, rels, rs[..n][i])
                 && w == WriteFor(symtab, rels, bias, rs[..n][i]);
        assert rs[i] == rs[..n][i];
      }
      if i :| 0 <= i < |rs| && Redirected(pass, symtab, rels, rs[i]) && w == WriteFor(symtab, rels, bias, rs[i]) {
        if i < n {
          assert rs[..n][i] == rs[i];
        }
      }
    }
  }

  /** A byte that no write covers keeps its value. */
  lemma {:induction false} Uncovered(m: Bytes, ws: seq<Write>, k: int)
    requires k in m && forall i :: 0 <= i < |ws| ==> !Covers(ws[i], k)
    ensures Apply(m, ws)[k] == m[k]
  {
    if ws != [] {
      var n := |ws| - 1;
      assert !Covers(ws[n], k);
      assert forall i :: 0 <= i < n ==> ws[..n][i] == ws[i];
      Uncovered(m, ws[..n], k);
    }
  }

  /** A covered byte comes from the last write that covers it. */
  lemma {:induction false} LastCovering(m: Bytes, ws: seq<Write>, i: nat, k: int)
    requires k in m && i < |ws| && Covers(ws[i], k)
    requires forall j :: i < j < |ws| ==> !Covers(ws[j], k)
    ensures Apply(m, ws)[k] == ToBytes(ws[i].value, WORD)[k - ws[i].address]
    decreases |ws|
  {
    var n := |ws| - 1;
    var before := Apply(m, ws[..n]);
    WriteAt(before, ws[n], k);
    if i < n {
      assert !Covers(ws[n], k);
      assert ws[..n][i] == ws[i];
      LastCovering(m, ws[..n], i, k);
    }
  }

  lemma WriteAt(m: Bytes, w: Write, k: int)
    requires k in m
    ensures Write64(m, w.address, w.value)[k]
         == if Covers(w, k) then ToBytes(w.value, WORD)[k - w.address] else m[k]
  {
  }

  /** The last covering write, when there is one. */
  lemma {:induction false} FindLast(ws: seq<Write>, k: int) returns (i: int)
    ensures -1 <= i < |ws|
    ensures i >= 0 ==> Covers(ws[i], k)
    ensures forall j :: i < j < |ws| ==> !Covers(ws[j], k)
  {
    i := |ws| - 1;
    while i >= 0 && !Covers(ws[i], k)
      invariant -1 <= i < |ws|
      invariant forall j :: i < j < |ws| ==> !Covers(ws[j], k)
    {
      i := i - 1;
    }
  }

  /** Re-relocating again changes nothing. */
  lemma {:induction false} Idempotent(m: Bytes, ws: seq<Write>)
    ensures Apply(Apply(m, ws), ws) == Apply(m, ws)
  {
    var m1 := Apply(m, ws);
    forall k | k in m
      ensures Apply(m1, ws)[k] == m1[k]
    {
      var i := FindLast(ws, k);
      if i < 0 {
        Uncovered(m1, ws, k);
      } else {
        LastCovering(m, ws, i, k);
        LastCovering(m1, ws, i, k);
      }
    }
  }

  /** Two slots share a byte. */
  predicate Overlap(w: Write, v: Write) {
    w.address < v.address + WORD && v.address < w.address + WORD
  }

  /** A slot holds its own value afterwards if no later slot overlaps it. */
  lemma LastWins(m: Bytes, ws: seq<Write>, i: nat)
    requires i < |ws| && Mapped(m, ws[i].address, WORD)
    requires forall j :: i < j < |ws| ==> !Overlap(ws[j], ws[i])
    ensures Read64(Apply(m, ws), ws[i].address) == ws[i].value
  {
    var a, v, m' := ws[i].address, ws[i].value, Apply(m, ws);
    var clean := Write64(m, a, v);
    ReadBack(m, a, v);
    forall k | a <= k < a + WORD
      ensures m'[k] == clean[k]
    {
      LastCovering(m, ws, i, k);
    }
    SameWord(m', clean, a);
  }

  /** The same slots in the same order, whatever is written to them. */
  ghost predicate SameSlots(ws: seq<Write>, vs: seq<Write>) {
    |ws| == |vs| && forall j :: 0 <= j < |ws| ==> ws[j].address == vs[j].address
  }

  /** Slot i holds its own value afterwards, whatever values are written. */
  ghost predicate Keeps(m: Bytes, ws: seq<Write>, i: nat)
    requires i < |ws| && Mapped(m, ws[i].address, WORD)
  {
    forall vs: seq<Write> | SameSlots(ws, vs) :: Read64(Apply(m, vs), vs[i].address) == vs[i].value
  }

  /** It does, whatever the values are, exactly when no later slot overlaps it. */
  lemma KeepsExactly(m: Bytes, ws: seq<Write>, i: nat)
    requires i < |ws| && Mapped(m, ws[i].address, WORD)
    ensures Keeps(m, ws, i) <==> forall j :: i < j < |ws| ==> !Overlap(ws[j], ws[i])
  {
    if forall j :: i < j < |ws| ==> !Overlap(ws[j], ws[i]) {
      forall vs: seq<Write> | SameSlots(ws, vs)
        ensures Read64(Apply(m, vs), vs[i].address) == vs[i].value
      {
        LastWins(m, vs, i);
      }
    } else {
      var j :| i < j < |ws| && Overlap(ws[j], ws[i]);
      OverwrittenInPart(m, ws, i, j);
    }
  }

  const ONES: u64 := 0x0101_0101_0101_0101

  /** A slot that a later one overlaps loses a zero to a word of ones. */
  lemma OverwrittenInPart(m: Bytes, ws: seq<Write>, i: nat, j: nat)
    requires i < j < |ws| && Mapped(m, ws[i].address, WORD) && Overlap(ws[j], ws[i])
    ensures !Keeps(m, ws, i)
  {
    var vs := seq(|ws|, k requires 0 <= k < |ws| => Write(ws[k].address, if k == i then 0 else ONES));
    var k := if ws[j].address < ws[i].address then ws[i].address else ws[j].address;
    ByteOfOnes(m, vs, i, j, k);
    NotZeroWord(Apply(m, vs), ws[i].address, k);
    assert SameSlots(ws, vs) && Read64(Apply(m, vs), vs[i].address) != vs[i].value;
  }

  lemma {:induction false} ByteOfOnes(m: Bytes, vs: seq<Write>, i: nat, j: nat, k: int)
    requires i < j < |vs| && k in m && Covers(vs[i], k) && Covers(vs[j], k)
    requires forall n :: 0 <= n < |vs| && n != i ==> vs[n].value == ONES
    ensures Apply(m, vs)[k] == 1
  {
    var last := FindLast(vs, k);
    LastCovering(m, vs, last, k);
    BytesOfOnes(k - vs[last].address);
  }

  lemma BytesOfOnes(k: nat)
    requires k < WORD
    ensures ToBytes(ONES, WORD)[k] == 1
  {
    assert ByteAt(ONES, 0) == 1 && ByteAt(ONES, 1) == 1 && ByteAt(ONES, 2) == 1 && ByteAt(ONES, 3) == 1;
    assert ByteAt(ONES, 4) == 1 && ByteAt(ONES, 5) == 1 && ByteAt(ONES, 6) == 1 && ByteAt(ONES, 7) == 1;
  }

  lemma NotZeroWord(m: Bytes, a: int, k: int)
    requires Mapped(m, a, WORD) && a <= k < a + WORD && m[k] != 0
    ensures Read64(m, a) != 0
  {
    NotZero(ReadBytes(m, a, WORD), k - a);
  }

  lemma {:induction false} NotZero(bs: seq<u8>, k: nat)
    requires k < |bs| && bs[k] != 0
    ensures FromBytes(bs) != 0
  {
    if k > 0 {
      NotZero(bs[1..], k - 1);
    }
  }

  /** Two slots half a word apart: the first loses its upper half to the second. */
  lemma HalfAWordApart(m: Bytes)
    requires Mapped(m, 0, 12)
    ensures Read64(Apply(m, [Write(0, 0), Write(4, 1)]), 0) != 0
  {
    var ws := [Write(0, 0), Write(4, 1)];
    LastCovering(m, ws, 1, 4);
    assert ByteAt(1, 0) == 1;
    assert Apply(m, ws)[4] == 1;
    NotZeroWord(Apply(m, ws), 0, 4);
  }

  /** A redirected relocation of the list has its slot over the byte. */
  ghost predicate Reaches(pass: Pass, symtab: seq<Imported>, rels: Exports, bias: u64, rs: seq<Reloc>, k: int)
    requires InTable(symtab, rs)
  {
    exists i :: 0 <= i < |rs| && Redirected(pass, symtab, rels, rs[i]) && Covers(WriteFor(symtab, rels, bias, rs[i]), k)
  }

  /** A list split at one relocation, and its writes with it. */
  lemma {:induction false} WritesSplit(
    pass: Pass, symtab: seq<Imported>, rels: Exports, bias: u64, rs: seq<Reloc>, ts: seq<Reloc>)
    requires InTable(symtab, rs) && InTable(symtab, ts)
    ensures InTable(symtab, rs + ts)
    ensures Writes(pass, symtab, rels, bias, rs + ts)
         == Writes(pass, symtab, rels, bias, rs) + Writes(pass, symtab, rels, bias, ts)
    decreases |ts|
  {
    if ts == [] {
      assert rs + ts == rs;
    } else {
      assert (rs + ts)[..|rs + ts| - 1] == rs + ts[..|ts| - 1];
      WritesSplit(pass, symtab, rels, bias, rs, ts[..|ts| - 1]);
    }
  }

  /** No relocation of the list that the pass redirects has a slot over this one. */
  ghost predicate Spares(pass: Pass, symtab: seq<Imported>, rels: Exports, bias: u64, rs: seq<Reloc>, w: Write)
    requires InTable(symtab, rs)
  {
    forall i :: 0 <= i < |rs| && Redirected(pass, symtab, rels, rs[i]) ==>
      !Overlap(WriteFor(symtab, rels, bias, rs[i]), w)
  }

  /** A redirected slot holds address plus addend when the rest of its pass, and what is written later, spares it. */
  lemma SlotAfterPass(
    m: Bytes, pass: Pass, symtab: seq<Imported>, rels: Exports, bias: u64, rs: seq<Reloc>, i: nat, later: seq<Write>)
    requires InTable(symtab, rs) && i < |rs| && Redirected(pass, symtab, rels, rs[i])
    requires Mapped(m, WriteFor(symtab, rels, bias, rs[i]).address, WORD)
    requires Spares(pass, symtab, rels, bias, rs[i + 1..], WriteFor(symtab, rels, bias, rs[i]))
    requires forall v :: v in later ==> !Overlap(v, WriteFor(symtab, rels, bias, rs[i]))
    ensures var w := WriteFor(symtab, rels, bias, rs[i]);
            Read64(Apply(m, Writes(pass, symtab, rels, bias, rs) + later), w.address) == w.value
  {
    var w := WriteFor(symtab, rels, bias, rs[i]);
    var before, after := WritesAround(pass, symtab, rels, bias, rs, i);
    forall v | v in after
      ensures !Overlap(v, w)
    {
      WritesExactly(pass, symtab, rels, bias, rs[i + 1..], v);
    }
    LastOfThree(m, before, w, after, later);
  }

  /** The writes before, of, and after a redirected relocation. */
  lemma WritesAround(pass: Pass, symtab: seq<Imported>, rels: Exports, bias: u64, rs: seq<Reloc>, i: nat)
    returns (before: seq<Write>, after: seq<Write>)
    requires InTable(symtab, rs) && i < |rs| && Redirected(pass, symtab, rels, rs[i])
    ensures InTable(symtab, rs[i + 1..]) && after == Writes(pass, symtab, rels, bias, rs[i + 1..])
    ensures Writes(pass, symtab, rels, bias, rs) == before + ([WriteFor(symtab, rels, bias, rs[i])] + after)
  {
    var r, rest := rs[i], rs[i + 1..];
    before, after := Writes(pass, symtab, rels, bias, rs[..i]), Writes(pass, symtab, rels, bias, rest);
    OneWrite(pass, symtab, rels, bias, r);
    WritesSplit(pass, symtab, rels, bias, [r], rest);
    WritesSplit(pass, symtab, rels, bias, rs[..i], [r] + rest);
    assert rs == rs[..i] + ([r] + rest);
  }

  lemma OneWrite(pass: Pass, symtab: seq<Imported>, rels: Exports, bias: u64, r: Reloc)
    requires r.sym < |symtab| && Redirected(pass, symtab, rels, r)
    ensures Writes(pass, symtab, rels, bias, [r]) == [WriteFor(symtab, rels, bias, r)]
  {
    assert [r][..0] == [];
  }

  lemma LastOfThree(m: Bytes, before: seq<Write>, w: Write, after: seq<Write>, later: seq<Write>)
    requires Mapped(m, w.address, WORD)
    requires forall v :: v in after || v in later ==> !Overlap(v, w)
    ensures Read64(Apply(m, before + ([w] + after) + later), w.address) == w.value
  {
    var ws := before + ([w] + after) + later;
    forall j | |before| < j < |ws|
      ensures !Overlap(ws[j], w)
    {
      assert ws[j] in after || ws[j] in later;
    }
    LastWins(m, ws, |before|);
  }

  /**
   Both passes: a redirected slot that no later redirected one overlaps holds address plus addend, what no
   redirected slot covers is unchanged, and doing it again changes nothing.
   */
  lemma Redirection(m: Bytes, symtab: seq<Imported>, rels: Exports, bias: u64, rela: seq<Reloc>, pltRela: seq<Reloc>)
    requires InTable(symtab, rela) && InTable(symtab, pltRela)
    ensures var ws := AllWrites(symtab, rels, bias, rela, pltRela);
            && Apply(Apply(m, ws), ws) == Apply(m, ws)
            && forall k | k in m && !Reaches(Typical, symtab, rels, bias, rela, k)
                          && !Reaches(JumpTable, symtab, rels, bias, pltRela, k) :: Apply(m, ws)[k] == m[k]
    ensures forall i | 0 <= i < |rela| && Settled(m, Typical, symtab, rels, bias, rela, i)
                       && Spares(JumpTable, symtab, rels, bias, pltRela, WriteFor(symtab, rels, bias, rela[i])) ::
              Holds(Apply(m, AllWrites(symtab, rels, bias, rela, pltRela)), symtab, rels, bias, rela[i])
    ensures forall i | 0 <= i < |pltRela| && Settled(m, JumpTable, symtab, rels, bias, pltRela, i) ::
              Holds(Apply(m, AllWrites(symtab, rels, bias, rela, pltRela)), symtab, rels, bias, pltRela[i])
  {
    var ws := AllWrites(symtab, rels, bias, rela, pltRela);
    Idempotent(m, ws);
    forall k | k in m && !Reaches(Typical, symtab, rels, bias, rela, k)
               && !Reaches(JumpTable, symtab, rels, bias, pltRela, k)
      ensures Apply(m, ws)[k] == m[k]
    {
      Elsewhere(m, symtab, rels, bias, rela, pltRela, k);
    }
    forall i | 0 <= i < |rela| && Settled(m, Typical, symtab, rels, bias, rela, i)
               && Spares(JumpTable, symtab, rels, bias, pltRela, WriteFor(symtab, rels, bias, rela[i]))
      ensures Holds(Apply(m, ws), symtab, rels, bias, rela[i])
    {
      DataSlot(m, symtab, rels, bias, rela, pltRela, i);
    }
    forall i | 0 <= i < |pltRela| && Settled(m, JumpTable, symtab, rels, bias, pltRela, i)
      ensures Holds(Apply(m, ws), symtab, rels, bias, pltRela[i])
    {
      CallSlot(m, symtab, rels, bias, rela, pltRela, i);
    }
  }

  /** Relocation i is redirected, its slot is in memory, and no later one of the same pass overlaps it. */
  ghost predicate Settled(
    m: Bytes, pass: Pass, symtab: seq<Imported>, rels: Exports, bias: u64, rs: seq<Reloc>, i: nat)
    requires InTable(symtab, rs) && i < |rs|
  {
    && Redirected(pass, symtab, rels, rs[i])
    && Mapped(m, Add64(rs[i].offset, bias), WORD)
    && Spares(pass, symtab, rels, bias, rs[i + 1..], WriteFor(symtab, rels, bias, rs[i]))
  }

  /** The slot holds the address of the symbol in the hook library, plus the addend. */
  ghost predicate Holds(m: Bytes, symtab: seq<Imported>, rels: Exports, bias: u64, r: Reloc)
    requires r.sym < |symtab| && symtab[r.sym].name in rels
  {
    && Mapped(m, Add64(r.offset, bias), WORD)
    && Read64(m, Add64(r.offset, bias)) == Add64(rels[symtab[r.sym].name], r.addend)
  }

  lemma Elsewhere(
    m: Bytes, symtab: seq<Imported>, rels: Exports, bias: u64, rela: seq<Reloc>, pltRela: seq<Reloc>, k: int)
    requires InTable(symtab, rela) && InTable(symtab, pltRela) && k in m
    requires !Reaches(Typical, symtab, rels, bias, rela, k) && !Reaches(JumpTable, symtab, rels, bias, pltRela, k)
    ensures Apply(m, AllWrites(symtab, rels, bias, rela, pltRela))[k] == m[k]
  {
    var ws := AllWrites(symtab, rels, bias, rela, pltRela);
    forall i | 0 <= i < |ws|
      ensures !Covers(ws[i], k)
    {
      assert ws[i] in Writes(Typical, symtab, rels, bias, rela)
          || ws[i] in Writes(JumpTable, symtab, rels, bias, pltRela);
      WritesExactly(Typical, symtab, rels, bias, rela, ws[i]);
      WritesExactly(JumpTable, symtab, rels, bias, pltRela, ws[i]);
    }
    Uncovered(m, ws, k);
  }

  lemma DataSlot(
    m: Bytes, symtab: seq<Imported>, rels: Exports, bias: u64, rela: seq<Reloc>, pltRela: seq<Reloc>, i: nat)
    requires InTable(symtab, rela) && InTable(symtab, pltRela) && i < |rela|
    requires Settled(m, Typical, symtab, rels, bias, rela, i)
    requires Spares(JumpTable, symtab, rels, bias, pltRela, WriteFor(symtab, rels, bias, rela[i]))
    ensures Holds(Apply(m, AllWrites(symtab, rels, bias, rela, pltRela)), symtab, rels, bias, rela[i])
  {
    var later := Writes(JumpTable, symtab, rels, bias, pltRela);
    forall v | v in later
      ensures !Overlap(v, WriteFor(symtab, rels, bias, rela[i]))
    {
      WritesExactly(JumpTable, symtab, rels, bias, pltRela, v);
    }
    SlotAfterPass(m, Typical, symtab, rels, bias, rela, i, later);
  }

  lemma CallSlot(
    m: Bytes, symtab: seq<Imported>, rels: Exports, bias: u64, rela: seq<Reloc>, pltRela: seq<Reloc>, i: nat)
    requires InTable(symtab, rela) && InTable(symtab, pltRela) && i < |pltRela|
    requires Settled(m, JumpTable, symtab, rels, bias, pltRela, i)
    ensures Holds(Apply(m, AllWrites(symtab, rels, bias, rela, pltRela)), symtab, rels, bias, pltRela[i])
  {
    var first, second := Writes(Typical, symtab, rels, bias, rela), Writes(JumpTable, symtab, rels, bias, pltRela);
    ApplyConcat(m, first, second);
    assert second + [] == second;
    SlotAfterPass(Apply(m, first), JumpTable, symtab, rels, bias, pltRela, i, []);
  }

  // ---------------------------------------------------------------- the same, relocation by relocation

  /** The relocation refers to something the hook library has as well. */
  ghost predicate NamesExport(symtab: seq<Imported>, rels: Exports, r: Reloc) {
    0 < r.sym < |symtab| && symtab[r.sym].bind != LOCAL && symtab[r.sym].name in rels
  }

  ghost predicate HooksData(symtab: seq<Imported>, rels: Exports, r: Reloc) {
    NamesExport(symtab, rels, r) && (r.kind == ABSOLUTE || r.kind == GLOB_DAT)
  }

  ghost predicate HooksCall(symtab: seq<Imported>, rels: Exports, r: Reloc) {
    NamesExport(symtab, rels, r) && r.kind == JUMP_SLOT
  }

  ghost predicate Hooks(pass: Pass, symtab: seq<Imported>, rels: Exports, r: Reloc) {
    match pass
    case JumpTable => HooksCall(symtab, rels, r)
    case Typical => HooksData(symtab, rels, r)
  }

  ghost function SlotOf(bias: u64, r: Reloc): nat {
    (bias + r.offset) % 0x1_0000_0000_0000_0000
  }

  /** Their slots share a byte. */
  ghost predicate Meet(bias: u64, r: Reloc, s: Reloc) {
    SlotOf(bias, r) < SlotOf(bias, s) + 8 && SlotOf(bias, s) < SlotOf(bias, r) + 8
  }

  /** The slot holds what the hook library has under the name, plus the addend. */
  ghost predicate Hooked(m: Bytes, symtab: seq<Imported>, rels: Exports, bias: u64, r: Reloc)
    requires NamesExport(symtab, rels, r)
  {
    && Mapped(m, SlotOf(bias, r), 8)
    && Read64(m, SlotOf(bias, r)) == (rels[symtab[r.sym].name] + r.addend) % 0x1_0000_0000_0000_0000
  }

  /** No later call slot of the list meets that of relocation i. */
  ghost predicate LastCall(symtab: seq<Imported>, rels: Exports, bias: u64, rs: seq<Reloc>, i: nat)
    requires i < |rs|
  {
    HooksCall(symtab, rels, rs[i])
    && forall j | i < j < |rs| && HooksCall(symtab, rels, rs[j]) :: !Meet(bias, rs[j], rs[i])
  }

  ghost predicate LastData(
    symtab: seq<Imported>, rels: Exports, bias: u64, rs: seq<Reloc>, plts: seq<Reloc>, i: nat)
    requires i < |rs|
  {
    && HooksData(symtab, rels, rs[i])
    && (forall j | i < j < |rs| && HooksData(symtab, rels, rs[j]) :: !Meet(bias, rs[j], rs[i]))
    && forall j | 0 <= j < |plts| && HooksCall(symtab, rels, plts[j]) :: !Meet(bias, plts[j], rs[i])
  }

  /** A call slot or a data slot lies over the byte. */
  ghost predicate InSlot(
    symtab: seq<Imported>, rels: Exports, bias: u64, rela: seq<Reloc>, pltRela: seq<Reloc>, k: int) {
    || (exists i :: 0 <= i < |rela| && HooksData(symtab, rels, rela[i])
                    && SlotOf(bias, rela[i]) <= k < SlotOf(bias, rela[i]) + 8)
    || (exists i :: 0 <= i < |pltRela| && HooksCall(symtab, rels, pltRela[i])
                    && SlotOf(bias, pltRela[i]) <= k < SlotOf(bias, pltRela[i]) + 8)
  }

  /**
   What the operation makes of memory m: call slots of the second list and data slots of the first point at the hook
   library, and nothing else changes.
   */
  ghost predicate AllHooked(
    m: Bytes, n: Bytes, symtab: seq<Imported>, rels: Exports, bias: u64, rela: seq<Reloc>, pltRela: seq<Reloc>) {
    && n.Keys == m.Keys
    && (forall i: nat {:trigger LastCall(symtab, rels, bias, pltRela, i)} |
          i < |pltRela| && LastCall(symtab, rels, bias, pltRela, i) && Mapped(m, SlotOf(bias, pltRela[i]), 8) ::
          Hooked(n, symtab, rels, bias, pltRela[i]))
    && (forall i: nat {:trigger LastData(symtab, rels, bias, rela, pltRela, i)} |
          i < |rela| && LastData(symtab, rels, bias, rela, pltRela, i) && Mapped(m, SlotOf(bias, rela[i]), 8) ::
          Hooked(n, symtab, rels, bias, rela[i]))
    && forall k | k in m && !InSlot(symtab, rels, bias, rela, pltRela, k) :: n[k] == m[k]
  }

  /** A relocation is redirected in the pass for its type, to the hook library's symbol. */
  lemma RedirectedIs(symtab: seq<Imported>, rels: Exports, bias: u64, r: Reloc)
    requires r.sym < |symtab|
    ensures Redirected(JumpTable, symtab, rels, r) <==> HooksCall(symtab, rels, r)
    ensures Redirected(Typical, symtab, rels, r) <==> HooksData(symtab, rels, r)
    ensures NamesExport(symtab, rels, r) ==>
              var w := WriteFor(symtab, rels, bias, r);
              && w.address == Add64(r.offset, bias) == SlotOf(bias, r)
              && w.value == (rels[symtab[r.sym].name] + r.addend) % 0x1_0000_0000_0000_0000
  {
  }

  /** The writes of a pass, field by field. */
  lemma WritesByField(
    pass: Pass, symtab: seq<Imported>, rels: Exports, bias: u64, rs: seq<Reloc>, w: Write)
    requires InTable(symtab, rs)
    ensures w in Writes(pass, symtab, rels, bias, rs) <==>
            exists i :: 0 <= i < |rs| && Hooks(pass, symtab, rels, rs[i]) && w.address == SlotOf(bias, rs[i])
              && w.value == (rels[symtab[rs[i].sym].name] + rs[i].addend) % 0x1_0000_0000_0000_0000
  {
    WritesExactly(pass, symtab, rels, bias, rs, w);
    forall i | 0 <= i < |rs|
      ensures Redirected(pass, symtab, rels, rs[i]) <==> Hooks(pass, symtab, rels, rs[i])
      ensures Hooks(pass, symtab, rels, rs[i]) ==>
                (w == WriteFor(symtab, rels, bias, rs[i]) <==>
                 w.address == SlotOf(bias, rs[i])
                 && w.value == (rels[symtab[rs[i].sym].name] + rs[i].addend) % 0x1_0000_0000_0000_0000)
    {
      RedirectedIs(symtab, rels, bias, rs[i]);
    }
  }

  lemma AllAreHooked(m: Bytes, symtab: seq<Imported>, rels: Exports, bias: u64, rela: seq<Reloc>, pltRela: seq<Reloc>)
    requires InTable(symtab, rela) && InTable(symtab, pltRela)
    ensures AllHooked(m, Apply(m, AllWrites(symtab, rels, bias, rela, pltRela)), symtab, rels, bias, rela, pltRela)
  {
    var n := Apply(m, AllWrites(symtab, rels, bias, rela, pltRela));
    forall i: nat {:trigger LastCall(symtab, rels, bias, pltRela, i)} |
      i < |pltRela| && LastCall(symtab, rels, bias, pltRela, i) && Mapped(m, SlotOf(bias, pltRela[i]), 8)
      ensures Hooked(n, symtab, rels, bias, pltRela[i])
    {
      CallHooked(m, symtab, rels, bias, rela, pltRela, i);
    }
    forall i: nat {:trigger LastData(symtab, rels, bias, rela, pltRela, i)} |
      i < |rela| && LastData(symtab, rels, bias, rela, pltRela, i) && Mapped(m, SlotOf(bias, rela[i]), 8)
      ensures Hooked(n, symtab, rels, bias, rela[i])
    {
      DataHooked(m, symtab, rels, bias, rela, pltRela, i);
    }
    forall k | k in m && !InSlot(symtab, rels, bias, rela, pltRela, k)
      ensures n[k] == m[k]
    {
      OutOfSlots(m, symtab, rels, bias, rela, pltRela, k);
    }
  }

  lemma CallHooked(
    m: Bytes, symtab: seq<Imported>, rels: Exports, bias: u64, rela: seq<Reloc>, pltRela: seq<Reloc>, i: nat)
    requires InTable(symtab, rela) && InTable(symtab, pltRela) && i < |pltRela|
    requires LastCall(symtab, rels, bias, pltRela, i) && Mapped(m, SlotOf(bias, pltRela[i]), 8)
    ensures Hooked(Apply(m, AllWrites(symtab, rels, bias, rela, pltRela)), symtab, rels, bias, pltRela[i])
  {
    RedirectedIs(symtab, rels, bias, pltRela[i]);
    LaterCalls(symtab, rels, bias, pltRela, i);
    CallSlot(m, symtab, rels, bias, rela, pltRela, i);
  }

  lemma LaterCalls(symtab: seq<Imported>, rels: Exports, bias: u64, rs: seq<Reloc>, i: nat)
    requires InTable(symtab, rs) && i < |rs| && LastCall(symtab, rels, bias, rs, i)
    ensures InTable(symtab, rs[i + 1..])
    ensures Spares(JumpTable, symtab, rels, bias, rs[i + 1..], WriteFor(symtab, rels, bias, rs[i]))
  {
    RedirectedIs(symtab, rels, bias, rs[i]);
    var later := rs[i + 1..];
    forall j | 0 <= j < |later| && Redirected(JumpTable, symtab, rels, later[j])
      ensures !Overlap(WriteFor(symtab, rels, bias, later[j]), WriteFor(symtab, rels, bias, rs[i]))
    {
      assert later[j] == rs[i + 1 + j];
      RedirectedIs(symtab, rels, bias, rs[i + 1 + j]);
    }
  }

  lemma DataHooked(
    m: Bytes, symtab: seq<Imported>, rels: Exports, bias: u64, rela: seq<Reloc>, pltRela: seq<Reloc>, i: nat)
    requires InTable(symtab, rela) && InTable(symtab, pltRela) && i < |rela|
    requires LastData(symtab, rels, bias, rela, pltRela, i) && Mapped(m, SlotOf(bias, rela[i]), 8)
    ensures Hooked(Apply(m, AllWrites(symtab, rels, bias, rela, pltRela)), symtab, rels, bias, rela[i])
  {
    RedirectedIs(symtab, rels, bias, rela[i]);
    var later := rela[i + 1..];
    forall j | 0 <= j < |later| && Redirected(Typical, symtab, rels, later[j])
      ensures !Overlap(WriteFor(symtab, rels, bias, later[j]), WriteFor(symtab, rels, bias, rela[i]))
    {
      assert later[j] == rela[i + 1 + j];
      RedirectedIs(symtab, rels, bias, rela[i + 1 + j]);
    }
    forall j | 0 <= j < |pltRela| && Redirected(JumpTable, symtab, rels, pltRela[j])
      ensures !Overlap(WriteFor(symtab, rels, bias, pltRela[j]), WriteFor(symtab, rels, bias, rela[i]))
    {
      RedirectedIs(symtab, rels, bias, pltRela[j]);
    }
    DataSlot(m, symtab, rels, bias, rela, pltRela, i);
  }

  lemma OutOfSlots(
    m: Bytes, symtab: seq<Imported>, rels: Exports, bias: u64, rela: seq<Reloc>, pltRela: seq<Reloc>, k: int)
    requires InTable(symtab, rela) && InTable(symtab, pltRela) && k in m
    requires !InSlot(symtab, rels, bias, rela, pltRela, k)
    ensures Apply(m, AllWrites(symtab, rels, bias, rela, pltRela))[k] == m[k]
  {
    forall i | 0 <= i < |rela| && Redirected(Typical, symtab, rels, rela[i])
      ensures !Covers(WriteFor(symtab, rels, bias, rela[i]), k)
    {
      RedirectedIs(symtab, rels, bias, rela[i]);
    }
    forall i | 0 <= i < |pltRela| && Redirected(JumpTable, symtab, rels, pltRela[i])
      ensures !Covers(WriteFor(symtab, rels, bias, pltRela[i]), k)
    {
      RedirectedIs(symtab, rels, bias, pltRela[i]);
    }
    Elsewhere(m, symtab, rels, bias, rela, pltRela, k);
  }
}
