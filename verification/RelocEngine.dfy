/**
 Processing of single relocations on the 64-bit RELA build: the JumpTable, Typical and General
 modes and the one-symbol lookup cache, against the meaning of each relocation type.
 */
module RelocEngine {
  import opened Options
  import opened Words
  import opened Memory
  import opened Relocations

  datatype Arch = AArch64 | X86_64

  datatype SymType = IFUNC | TLS | SECTION | OTHER_TYPE

  datatype Sym = Sym(name: nat, bind: Bind, kind: SymType, value: u64)

  /** The TLS segment of a library, by module number; 0 is the uninitialised number. */
  datatype Library = Library(loadBias: u64, tls: Option<nat>)

  datatype Found = Found(lib: Library, sym: Sym)

  /** One uncached lookup of a symbol index: bad version data, or where the search ended. */
  datatype Lookup = BadVersion | Resolved(found: Option<Found>)

  /**
   What stays fixed while a library is relocated. `lookup` and `ifunc` are deterministic; the result
   of an ifunc resolver may depend on memory.
   */
  datatype Env = Env(
    arch: Arch,
    si: Library,
    isLinker: bool,
    symtab: seq<Sym>,
    strtabSize: nat,
    lookup: nat -> Lookup,
    ifunc: (u64, Bytes) -> u64,
    unresolvedWeakTlsdesc: u64)

  /** Failed is a false return, Aborted a fatal error, Faulted a store to memory that is not mapped. */
  datatype Outcome = Ok | Failed | Aborted | Faulted

  datatype State = State(outcome: Outcome, mem: Bytes)

  ghost predicate InTable(env: Env, r: Reloc) {
    r.sym < |env.symtab|
  }

  function Target(env: Env, r: Reloc): u64 {
    Add64(r.offset, env.si.loadBias)
  }

  /** Executable, because the methods ask it before they store. */
  predicate CanStore(m: Bytes, a: int, n: nat) {
    forall k | a <= k < a + n :: k in m
  }

  function Store(m: Bytes, a: int, bs: seq<u8>): State {
    if CanStore(m, a, |bs|) then State(Ok, WriteBytes(m, a, bs)) else State(Faulted, m)
  }

  function Store64(m: Bytes, a: int, v: u64): State {
    Store(m, a, ToBytes(v, WORD))
  }

  function Store32(m: Bytes, a: int, v: u64): State {
    Store(m, a, ToBytes(v, 4))
  }

  function ResolveAddress(env: Env, f: Found, m: Bytes): u64 {
    var a := Add64(f.sym.value, f.lib.loadBias);
    if f.sym.kind.IFUNC? then env.ifunc(a, m) else a
  }

  // ---------------------------------------------------------------- meaning

  /** What the symbol reference of a relocation denotes: processing ends, or a symbol (or none) at an address. */
  datatype Reference = End(outcome: Outcome) | Denotes(found: Option<Found>, address: u64)

  ghost function SymbolOf(env: Env, r: Reloc, m: Bytes): Reference
    requires InTable(env, r)
  {
    if r.sym == 0 then Denotes(None, 0)
    else
      match env.lookup(r.sym)
      case BadVersion => End(Failed)
      case Resolved(None) =>
        if env.symtab[r.sym].bind.WEAK? then Denotes(None, 0) else End(Failed)
      case Resolved(Some(f)) => Denotes(Some(f), ResolveAddress(env, f, m))
  }

  /** The library a TLS relocation refers to, and the offset of the symbol in its segment. */
  ghost function TlsSymbolOf(env: Env, r: Reloc): (e: (Outcome, Option<Library>, u64))
    requires InTable(env, r)
  {
    if r.sym == 0 then
      if env.si.tls.None? then (Failed, None, 0) else (Ok, Some(env.si), 0)
    else if env.symtab[r.sym].bind.LOCAL? then (Failed, None, 0)
    else
      match env.lookup(r.sym)
      case BadVersion => (Failed, None, 0)
      case Resolved(None) => if env.symtab[r.sym].bind.WEAK? then (Ok, None, 0) else (Failed, None, 0)
      case Resolved(Some(f)) =>
        if f.lib.tls.None? || !f.sym.kind.TLS? then (Failed, None, 0) else (Ok, Some(f.lib), f.sym.value)
  }

  ghost function TlsEffect(env: Env, r: Reloc, m: Bytes): State
    requires InTable(env, r) && IsTls(r.kind)
  {
    var (outcome, lib, value) := TlsSymbolOf(env, r);
    var p := Target(env, r);
    if outcome != Ok then State(outcome, m)
    else
      match r.kind
      case TLS_DTPREL => Store64(m, p, Add64(value, r.addend))
      case TLS_DTPMOD =>
        if lib.None? then Store64(m, p, 0)
        else if lib.value.tls.None? || lib.value.tls.value == 0 then State(Aborted, m)
        else Store64(m, p, Wrap64(lib.value.tls.value))
      case TLS_TPREL => if lib.None? then Store64(m, p, Add64(value, r.addend)) else State(Aborted, m)
      case TLSDESC =>
        if env.arch.X86_64? then State(Failed, m)
        else if lib.None? then Store(m, p, ToBytes(env.unresolvedWeakTlsdesc, WORD) + ToBytes(r.addend, WORD))
        else State(Aborted, m)
  }

  /** The meaning of one relocation: S + A, B + A, and the rarer forms. */
  ghost function Meaning(env: Env, r: Reloc, m: Bytes): State
    requires InTable(env, r)
  {
    var p := Target(env, r);
    if r.sym != 0 && env.symtab[r.sym].name >= env.strtabSize then State(Aborted, m)
    else if r.kind.NONE? then State(Ok, m)
    else if IsTls(r.kind) then TlsEffect(env, r, m)
    else
      match SymbolOf(env, r, m)
      case End(outcome) => State(outcome, m)
      case Denotes(found, s) =>
        var relative := Add64(env.si.loadBias, r.addend);
        match r.kind
        case JUMP_SLOT | ABSOLUTE | GLOB_DAT => Store64(m, p, Add64(s, r.addend))
        case RELATIVE => Store64(m, p, relative)
        case IRELATIVE => if env.isLinker then State(Ok, m) else Store64(m, p, env.ifunc(relative, m))
        case X86_64_32 => if env.arch.X86_64? then Store32(m, p, Add64(s, r.addend)) else State(Failed, m)
        case X86_64_PC32 =>
          if env.arch.AArch64? then State(Failed, m)
          else
            var s' := if found.None? && r.sym != 0 then p else s;
            Store32(m, p, Sub64(Add64(s', r.addend), p))
        case _ => State(Failed, m)
  }

  /** A list in order, ending at the first relocation that is not Ok. */
  ghost function MeaningOfAll(env: Env, rs: seq<Reloc>, m: Bytes): State
    requires forall r :: r in rs ==> InTable(env, r)
  {
    if rs == [] then State(Ok, m)
    else
      var st := Meaning(env, rs[0], m);
      if st.outcome != Ok then st else MeaningOfAll(env, rs[1..], st.mem)
  }

  // ---------------------------------------------------------------- properties of the meaning

  /** Two lists one after the other are their concatenation. */
  lemma {:induction false} Sequential(env: Env, rs: seq<Reloc>, ts: seq<Reloc>, m: Bytes)
    requires forall r :: r in rs + ts ==> InTable(env, r)
    ensures (forall r :: r in rs ==> InTable(env, r)) && (forall r :: r in ts ==> InTable(env, r))
    ensures MeaningOfAll(env, rs + ts, m)
         == var st := MeaningOfAll(env, rs, m);
            if st.outcome == Ok then MeaningOfAll(env, ts, st.mem) else st
    decreases |rs|
  {
    assert forall r :: r in rs ==> r in rs + ts;
    assert forall r :: r in ts ==> r in rs + ts;
    if rs == [] {
      assert rs + ts == ts;
    } else {
      assert (rs + ts)[0] == rs[0] && (rs + ts)[1..] == rs[1..] + ts;
      var st := Meaning(env, rs[0], m);
      if st.outcome == Ok {
        Sequential(env, rs[1..], ts, st.mem);
      }
    }
  }

  /** One relocation stores at most at its place. */
  lemma OneFrame(env: Env, r: Reloc, m: Bytes, k: int)
    requires InTable(env, r)
    ensures Meaning(env, r, m).mem.Keys == m.Keys
    ensures k in m && !(Place(env, r) <= k < Place(env, r) + Width(env, r)) ==> Meaning(env, r, m).mem[k] == m[k]
  {
    OneEffect(env, r, m);
  }

  /** Relocating changes no byte outside the places of the list, even when it ends early. */
  lemma {:induction false} Frame(env: Env, rs: seq<Reloc>, m: Bytes, k: int)
    requires forall r :: r in rs ==> InTable(env, r)
    requires k in m
    requires forall r :: r in rs ==> !(Place(env, r) <= k < Place(env, r) + Width(env, r))
    ensures MeaningOfAll(env, rs, m).mem.Keys == m.Keys && MeaningOfAll(env, rs, m).mem[k] == m[k]
    decreases |rs|
  {
    if rs != [] {
      OneFrame(env, rs[0], m, k);
      var st := Meaning(env, rs[0], m);
      if st.outcome == Ok {
        Frame(env, rs[1..], st.mem, k);
      }
    }
  }

  // ---------------------------------------------------------------- what is written where

  /** Where the relocation writes. */
  ghost function Place(env: Env, r: Reloc): nat {
    (env.si.loadBias + r.offset) % 0x1_0000_0000_0000_0000
  }

  /** How many bytes it writes there. */
  ghost function Width(env: Env, r: Reloc): nat {
    match r.kind
    case NONE => 0
    case IRELATIVE => if env.isLinker then 0 else 8
    case X86_64_32 | X86_64_PC32 => 4
    case TLSDESC => 16
    case _ => 8
  }

  /** The address of the symbol: its value moved by the bias of the library it is in, or what its resolver says. */
  ghost function SymbolValue(env: Env, r: Reloc, m: Bytes): u64 {
    if r.sym == 0 then 0
    else
      match env.lookup(r.sym)
      case Resolved(Some(f)) =>
        var a := (f.sym.value + f.lib.loadBias) % 0x1_0000_0000_0000_0000;
        if f.sym.kind == IFUNC then env.ifunc(a, m) else a
      case _ => 0
  }

  /** There is no symbol, it is found, or it need not be. */
  ghost predicate Findable(env: Env, r: Reloc)
    requires InTable(env, r)
  {
    r.sym != 0 ==>
      match env.lookup(r.sym)
      case BadVersion => false
      case Resolved(found) => found.Some? || env.symtab[r.sym].bind == WEAK
  }

  ghost predicate Undefined(env: Env, r: Reloc) {
    r.sym != 0 && env.lookup(r.sym) == Resolved(None)
  }

  /** The same of a thread-local reference: without a symbol it is to the library itself; local symbols are refused. */
  ghost predicate TlsFindable(env: Env, r: Reloc)
    requires InTable(env, r)
  {
    if r.sym == 0 then env.si.tls.Some?
    else
      && env.symtab[r.sym].bind != LOCAL
      && match env.lookup(r.sym)
         case BadVersion => false
         case Resolved(None) => env.symtab[r.sym].bind == WEAK
         case Resolved(Some(f)) => f.lib.tls.Some? && f.sym.kind == TLS
  }

  /** The offset in the segment, and the module it belongs to, 0 if there is none. */
  ghost function TlsValue(env: Env, r: Reloc): u64 {
    if r.sym == 0 then 0
    else match env.lookup(r.sym) case Resolved(Some(f)) => f.sym.value case _ => 0
  }

  ghost function TlsModule(env: Env, r: Reloc): nat {
    var tls := if r.sym == 0 then env.si.tls
               else match env.lookup(r.sym) case Resolved(Some(f)) => f.lib.tls case _ => None;
    if tls.Some? then tls.value else 0
  }

  ghost predicate NameFits(env: Env, r: Reloc)
    requires InTable(env, r)
  {
    r.sym != 0 ==> env.symtab[r.sym].name < env.strtabSize
  }

  ghost predicate ThreadLocal(r: Reloc) {
    r.kind == TLS_DTPMOD || r.kind == TLS_DTPREL || r.kind == TLS_TPREL || r.kind == TLSDESC
  }

  ghost predicate Supported(env: Env, r: Reloc) {
    && r.kind != COPY && r.kind != UNKNOWN
    && (r.kind == X86_64_32 || r.kind == X86_64_PC32 ==> env.arch == X86_64)
  }

  /** What it takes for the relocation to succeed. */
  ghost predicate Possible(env: Env, r: Reloc, m: Bytes)
    requires InTable(env, r)
  {
    && NameFits(env, r) && Mapped(m, Place(env, r), Width(env, r))
    && match r.kind
       case NONE => true
       case TLS_DTPREL => TlsFindable(env, r)
       case TLS_DTPMOD => TlsFindable(env, r) && (Undefined(env, r) || TlsModule(env, r) > 0)
       case TLS_TPREL => TlsFindable(env, r) && Undefined(env, r)
       case TLSDESC => TlsFindable(env, r) && Undefined(env, r) && env.arch == AArch64
       case _ => Findable(env, r) && Supported(env, r)
  }

  /** What is in memory n at the place of a relocation that was processed in memory m. */
  ghost predicate Holds(env: Env, r: Reloc, m: Bytes, n: Bytes) {
    var p, s := Place(env, r), SymbolValue(env, r, m);
    && Mapped(n, p, Width(env, r))
    && match r.kind
       case JUMP_SLOT | ABSOLUTE | GLOB_DAT => Read64(n, p) == (s + r.addend) % 0x1_0000_0000_0000_0000
       case RELATIVE => Read64(n, p) == (env.si.loadBias + r.addend) % 0x1_0000_0000_0000_0000
       case IRELATIVE =>
         env.isLinker
         || Read64(n, p) == env.ifunc((env.si.loadBias + r.addend) % 0x1_0000_0000_0000_0000, m)
       case X86_64_32 => Read32(n, p) == (s + r.addend) % 0x1_0000_0000
       case X86_64_PC32 =>
         Read32(n, p) == (if Undefined(env, r) then r.addend else s + r.addend - p) % 0x1_0000_0000
       case TLS_DTPREL | TLS_TPREL => Read64(n, p) == (TlsValue(env, r) + r.addend) % 0x1_0000_0000_0000_0000
       case TLS_DTPMOD => Read64(n, p) == TlsModule(env, r) % 0x1_0000_0000_0000_0000
       case TLSDESC => Read64(n, p) == env.unresolvedWeakTlsdesc && Read64(n, p + 8) == r.addend
       case _ => true
  }

  /** The step from m to n is that of the relocation: it holds, and nothing changed elsewhere. */
  ghost predicate Stored(env: Env, r: Reloc, m: Bytes, n: Bytes) {
    && Holds(env, r, m, n) && n.Keys == m.Keys
    && forall k | k in m && !(Place(env, r) <= k < Place(env, r) + Width(env, r)) :: n[k] == m[k]
  }

  /** How an impossible relocation ends, if it is not thread-local. */
  ghost predicate EndsAs(env: Env, r: Reloc, outcome: Outcome)
    requires InTable(env, r)
  {
    outcome == if !NameFits(env, r) then Aborted
               else if !Findable(env, r) || !Supported(env, r) then Failed
               else Faulted
  }

  /** The meaning of a relocation, in terms of what it takes and what is in memory then. */
  lemma OneEffect(env: Env, r: Reloc, m: Bytes)
    requires InTable(env, r)
    ensures Meaning(env, r, m).outcome == Ok <==> Possible(env, r, m)
    ensures Possible(env, r, m) ==> Stored(env, r, m, Meaning(env, r, m).mem)
    ensures !Possible(env, r, m) ==> Meaning(env, r, m).mem == m
    ensures !Possible(env, r, m) && !ThreadLocal(r) ==> EndsAs(env, r, Meaning(env, r, m).outcome)
  {
    if NameFits(env, r) && r.kind != NONE {
      if ThreadLocal(r) {
        TlsOneEffect(env, r, m);
      } else {
        PlainOneEffect(env, r, m);
      }
    }
  }

  /** A word is stored where all its bytes are. */
  lemma Stored64(m: Bytes, p: nat, v: u64)
    ensures Store64(m, p, v).outcome == (if Mapped(m, p, 8) then Ok else Faulted)
    ensures !Mapped(m, p, 8) ==> Store64(m, p, v).mem == m
    ensures Mapped(m, p, 8) ==>
              var n := Store64(m, p, v).mem;
              && n.Keys == m.Keys && Mapped(n, p, 8) && Read64(n, p) == v
              && forall k | k in m && !(p <= k < p + 8) :: n[k] == m[k]
  {
    if Mapped(m, p, 8) {
      ReadBack(m, p, v);
    }
  }

  lemma Stored32(m: Bytes, p: nat, v: u64)
    ensures Store32(m, p, v).outcome == (if Mapped(m, p, 4) then Ok else Faulted)
    ensures !Mapped(m, p, 4) ==> Store32(m, p, v).mem == m
    ensures Mapped(m, p, 4) ==>
              var n := Store32(m, p, v).mem;
              && n.Keys == m.Keys && Mapped(n, p, 4) && Read32(n, p) == v % 0x1_0000_0000
              && forall k | k in m && !(p <= k < p + 4) :: n[k] == m[k]
  {
    if Mapped(m, p, 4) {
      ReadBackHalf(m, p, v);
    }
  }

  lemma Stored128(m: Bytes, p: nat, v: u64, w: u64)
    ensures var st := Store(m, p, ToBytes(v, WORD) + ToBytes(w, WORD));
            && st.outcome == (if Mapped(m, p, 16) then Ok else Faulted)
            && (!Mapped(m, p, 16) ==> st.mem == m)
            && (Mapped(m, p, 16) ==>
                  && st.mem.Keys == m.Keys && Mapped(st.mem, p, 16)
                  && Read64(st.mem, p) == v && Read64(st.mem, p + 8) == w
                  && forall k | k in m && !(p <= k < p + 16) :: st.mem[k] == m[k])
  {
    if Mapped(m, p, 16) {
      var n := Store(m, p, ToBytes(v, WORD) + ToBytes(w, WORD)).mem;
      ReadBack(m, p, v);
      ReadBack(m, p + 8, w);
      SameWord(n, Write64(m, p, v), p);
      SameWord(n, Write64(m, p + 8, w), p + 8);
    }
  }

  lemma PlainOneEffect(env: Env, r: Reloc, m: Bytes)
    requires InTable(env, r) && NameFits(env, r) && r.kind != NONE && !ThreadLocal(r)
    ensures Meaning(env, r, m).outcome == Ok <==> Possible(env, r, m)
    ensures Possible(env, r, m) ==> Stored(env, r, m, Meaning(env, r, m).mem)
    ensures !Possible(env, r, m) ==> Meaning(env, r, m).mem == m && EndsAs(env, r, Meaning(env, r, m).outcome)
  {
    SymbolIs(env, r, m);
    if Findable(env, r) {
      var st := MeaningFound(env, r, m);
      match r.kind {
        case JUMP_SLOT | ABSOLUTE | GLOB_DAT | RELATIVE | IRELATIVE => WordEffect(env, r, m, st);
        case X86_64_32 | X86_64_PC32 => HalfWordEffect(env, r, m, st);
        case _ =>
      }
    }
  }

  /** The symbol is found, or need not be: what is left is the store. */
  ghost predicate StoredFrom(env: Env, r: Reloc, m: Bytes, st: State)
    requires InTable(env, r)
  {
    var p, s := Place(env, r), SymbolValue(env, r, m);
    match r.kind
    case JUMP_SLOT | ABSOLUTE | GLOB_DAT => st == Store64(m, p, Add64(s, r.addend))
    case RELATIVE => st == Store64(m, p, Add64(env.si.loadBias, r.addend))
    case IRELATIVE =>
      st == if env.isLinker then State(Ok, m) else Store64(m, p, env.ifunc(Add64(env.si.loadBias, r.addend), m))
    case X86_64_32 => st == if env.arch == X86_64 then Store32(m, p, Add64(s, r.addend)) else State(Failed, m)
    case X86_64_PC32 =>
      st == if env.arch == X86_64
            then Store32(m, p, Sub64(Add64(if Undefined(env, r) then p else s, r.addend), p)) else State(Failed, m)
    case _ => st == State(Failed, m)
  }

  lemma MeaningFound(env: Env, r: Reloc, m: Bytes) returns (st: State)
    requires InTable(env, r) && NameFits(env, r) && r.kind != NONE && !ThreadLocal(r) && Findable(env, r)
    ensures st == Meaning(env, r, m) && StoredFrom(env, r, m, st)
  {
    Sum64(r.offset, env.si.loadBias);
    SymbolIs(env, r, m);
    st := Meaning(env, r, m);
  }

  lemma WordEffect(env: Env, r: Reloc, m: Bytes, st: State)
    requires InTable(env, r) && NameFits(env, r) && Findable(env, r) && StoredFrom(env, r, m, st)
    requires r.kind.JUMP_SLOT? || r.kind.ABSOLUTE? || r.kind.GLOB_DAT? || r.kind.RELATIVE? || r.kind.IRELATIVE?
    ensures if Possible(env, r, m) then st.outcome == Ok && Stored(env, r, m, st.mem) else st == State(Faulted, m)
  {
    var p, s := Place(env, r), SymbolValue(env, r, m);
    var relative := Add64(env.si.loadBias, r.addend);
    Sum64(s, r.addend);
    Sum64(env.si.loadBias, r.addend);
    Stored64(m, p, if r.kind.RELATIVE? then relative else if r.kind.IRELATIVE? then env.ifunc(relative, m)
                   else Add64(s, r.addend));
  }

  lemma HalfWordEffect(env: Env, r: Reloc, m: Bytes, st: State)
    requires InTable(env, r) && NameFits(env, r) && Findable(env, r) && StoredFrom(env, r, m, st)
    requires r.kind.X86_64_32? || r.kind.X86_64_PC32?
    ensures if Possible(env, r, m) then st.outcome == Ok && Stored(env, r, m, st.mem)
            else st == State(if env.arch == X86_64 then Faulted else Failed, m)
  {
    var p, s := Place(env, r), SymbolValue(env, r, m);
    if r.kind.X86_64_32? {
      LowOfSum(s, r.addend);
      Stored32(m, p, Add64(s, r.addend));
    } else {
      var base: u64 := if Undefined(env, r) then p else s;
      LowOfDifference(base, r.addend, p);
      Stored32(m, p, Sub64(Add64(base, r.addend), p));
    }
  }

  lemma LowOfSum(s: u64, a: u64)
    ensures Add64(s, a) % 0x1_0000_0000 == (s + a) % 0x1_0000_0000
  {
  }

  lemma LowOfDifference(s: u64, a: u64, p: u64)
    ensures Sub64(Add64(s, a), p) % 0x1_0000_0000 == (s + a - p) % 0x1_0000_0000
  {
  }

  lemma SymbolIs(env: Env, r: Reloc, m: Bytes)
    requires InTable(env, r)
    ensures match SymbolOf(env, r, m)
            case End(outcome) => outcome == Failed && !Findable(env, r)
            case Denotes(found, s) =>
              Findable(env, r) && s == SymbolValue(env, r, m) && (found.None? && r.sym != 0 <==> Undefined(env, r))
  {
    if r.sym != 0 && env.lookup(r.sym).Resolved? && env.lookup(r.sym).found.Some? {
      var f := env.lookup(r.sym).found.value;
      Sum64(f.sym.value, f.lib.loadBias);
    }
  }

  lemma TlsOneEffect(env: Env, r: Reloc, m: Bytes)
    requires InTable(env, r) && NameFits(env, r) && ThreadLocal(r)
    ensures Meaning(env, r, m).outcome == Ok <==> Possible(env, r, m)
    ensures Possible(env, r, m) ==> Stored(env, r, m, Meaning(env, r, m).mem)
    ensures !Possible(env, r, m) ==> Meaning(env, r, m).mem == m
  {
    Sum64(r.offset, env.si.loadBias);
    TlsSymbolIs(env, r);
    match r.kind {
      case TLS_DTPREL | TLS_TPREL => OffsetEffect(env, r, m);
      case TLS_DTPMOD => ModuleEffect(env, r, m);
      case TLSDESC => DescriptorEffect(env, r, m);
    }
  }

  lemma TlsSymbolIs(env: Env, r: Reloc)
    requires InTable(env, r)
    ensures var (outcome, lib, value) := TlsSymbolOf(env, r);
            && (outcome == Ok <==> TlsFindable(env, r)) && outcome in {Ok, Failed}
            && (outcome == Ok ==> value == TlsValue(env, r) && (lib.None? <==> Undefined(env, r)))
            && (outcome == Ok ==> TlsModule(env, r) == if lib.None? then 0 else lib.value.tls.value)
  {
  }

  lemma OffsetEffect(env: Env, r: Reloc, m: Bytes)
    requires InTable(env, r) && NameFits(env, r) && (r.kind.TLS_DTPREL? || r.kind.TLS_TPREL?)
    requires Target(env, r) == Place(env, r)
    ensures var st := TlsEffect(env, r, m);
            if Possible(env, r, m) then st.outcome == Ok && Stored(env, r, m, st.mem)
            else st.outcome != Ok && st.mem == m
  {
    TlsSymbolIs(env, r);
    Sum64(TlsValue(env, r), r.addend);
    Stored64(m, Place(env, r), Add64(TlsValue(env, r), r.addend));
  }

  lemma ModuleEffect(env: Env, r: Reloc, m: Bytes)
    requires InTable(env, r) && NameFits(env, r) && r.kind.TLS_DTPMOD?
    requires Target(env, r) == Place(env, r)
    ensures var st := TlsEffect(env, r, m);
            if Possible(env, r, m) then st.outcome == Ok && Stored(env, r, m, st.mem)
            else st.outcome != Ok && st.mem == m
  {
    TlsSymbolIs(env, r);
    Stored64(m, Place(env, r), TlsModule(env, r) % 0x1_0000_0000_0000_0000);
  }

  lemma DescriptorEffect(env: Env, r: Reloc, m: Bytes)
    requires InTable(env, r) && NameFits(env, r) && r.kind.TLSDESC?
    requires Target(env, r) == Place(env, r)
    ensures var st := TlsEffect(env, r, m);
            if Possible(env, r, m) then st.outcome == Ok && Stored(env, r, m, st.mem)
            else st.outcome != Ok && st.mem == m
  {
    TlsSymbolIs(env, r);
    Stored128(m, Place(env, r), env.unresolvedWeakTlsdesc, r.addend);
  }

  // ---------------------------------------------------------------- whole lists

  /**
   A run over a list: the memory before each relocation, and at the end. Every relocation but the one it ends at was
   possible when its turn came and left its value; it ends early exactly at one that was not.
   */
  ghost predicate Run(env: Env, rs: seq<Reloc>, trace: seq<Bytes>, outcome: Outcome)
    requires forall r :: r in rs ==> InTable(env, r)
  {
    && 0 < |trace| <= |rs| + 1
    && (outcome == Ok <==> |trace| == |rs| + 1)
    && (forall i {:trigger rs[i]} | 0 <= i < |trace| - 1 ::
          Possible(env, rs[i], trace[i]) && Stored(env, rs[i], trace[i], trace[i + 1]))
    && (outcome != Ok ==>
          var last := rs[|trace| - 1];
          !Possible(env, last, trace[|trace| - 1]) && (!ThreadLocal(last) ==> EndsAs(env, last, outcome)))
  }

  /** The meaning of a list is such a run. */
  lemma {:induction false} RunOf(env: Env, rs: seq<Reloc>, m: Bytes) returns (trace: seq<Bytes>)
    requires forall r :: r in rs ==> InTable(env, r)
    ensures Run(env, rs, trace, MeaningOfAll(env, rs, m).outcome)
    ensures trace[0] == m && trace[|trace| - 1] == MeaningOfAll(env, rs, m).mem
    decreases |rs|
  {
    if rs == [] {
      return [m];
    }
    OneEffect(env, rs[0], m);
    var st := Meaning(env, rs[0], m);
    if st.outcome != Ok {
      EndsAtOnce(env, rs, m, st.outcome);
      return [m];
    }
    assert forall r :: r in rs[1..] ==> r in rs;
    var rest := RunOf(env, rs[1..], st.mem);
    trace := [m] + rest;
    OneMore(env, rs, m, rest, MeaningOfAll(env, rs, m).outcome);
  }

  lemma EndsAtOnce(env: Env, rs: seq<Reloc>, m: Bytes, outcome: Outcome)
    requires (forall r :: r in rs ==> InTable(env, r)) && rs != [] && outcome != Ok
    requires !Possible(env, rs[0], m) && (!ThreadLocal(rs[0]) ==> EndsAs(env, rs[0], outcome))
    ensures Run(env, rs, [m], outcome)
  {
  }

  /** A run of the rest, with a step before it. */
  lemma OneMore(env: Env, rs: seq<Reloc>, m: Bytes, rest: seq<Bytes>, outcome: Outcome)
    requires (forall r :: r in rs ==> InTable(env, r)) && rs != []
    requires Run(env, rs[1..], rest, outcome)
    requires Possible(env, rs[0], m) && Stored(env, rs[0], m, rest[0])
    ensures Run(env, rs, [m] + rest, outcome)
  {
    var trace := [m] + rest;
    forall i {:trigger rs[i]} | 0 <= i < |trace| - 1
      ensures Possible(env, rs[i], trace[i]) && Stored(env, rs[i], trace[i], trace[i + 1])
    {
      if i > 0 {
        assert rs[1..][i - 1] == rs[i] && trace[i] == rest[i - 1] && trace[i + 1] == rest[i];
      }
    }
    if outcome != Ok {
      assert rs[1..][|rest| - 1] == rs[|trace| - 1];
    }
  }

  /** No later relocation of the list writes to the place of relocation i. */
  ghost predicate Undisturbed(env: Env, rs: seq<Reloc>, i: nat)
    requires i < |rs|
  {
    forall j | i < j < |rs| ::
      || Place(env, rs[j]) + Width(env, rs[j]) <= Place(env, rs[i])
      || Place(env, rs[i]) + Width(env, rs[i]) <= Place(env, rs[j])
  }

  /** Then its value is there in the end. */
  lemma ValueStands(env: Env, rs: seq<Reloc>, trace: seq<Bytes>, i: nat)
    requires forall r :: r in rs ==> InTable(env, r)
    requires Run(env, rs, trace, Ok) && i < |rs| && Undisturbed(env, rs, i)
    ensures Holds(env, rs[i], trace[i], trace[|rs|])
  {
    assert Stored(env, rs[i], trace[i], trace[i + 1]);
    var p, w := Place(env, rs[i]), Width(env, rs[i]);
    forall k | p <= k < p + w
      ensures k in trace[|rs|] && trace[|rs|][k] == trace[i + 1][k]
    {
      ByteStands(env, rs, trace, i, |rs|, k);
    }
    StillHolds(env, rs[i], trace[i], trace[i + 1], trace[|rs|]);
  }

  /** In memory n every relocation of the run has its value that no later one wrote over. */
  ghost predicate ValuesIn(env: Env, rs: seq<Reloc>, trace: seq<Bytes>, n: Bytes)
    requires |trace| == |rs| + 1
  {
    forall i: nat {:trigger Undisturbed(env, rs, i)} | i < |rs| && Undisturbed(env, rs, i) ::
      Holds(env, rs[i], trace[i], n)
  }

  lemma ValuesStand(env: Env, rs: seq<Reloc>, trace: seq<Bytes>)
    requires forall r :: r in rs ==> InTable(env, r)
    requires Run(env, rs, trace, Ok)
    ensures ValuesIn(env, rs, trace, trace[|rs|])
  {
    forall i: nat {:trigger Undisturbed(env, rs, i)} | i < |rs| && Undisturbed(env, rs, i)
      ensures Holds(env, rs[i], trace[i], trace[|rs|])
    {
      ValueStands(env, rs, trace, i);
    }
  }

  lemma RunWithValues(env: Env, rs: seq<Reloc>, m: Bytes) returns (trace: seq<Bytes>)
    requires forall r :: r in rs ==> InTable(env, r)
    ensures Run(env, rs, trace, MeaningOfAll(env, rs, m).outcome)
    ensures trace[0] == m && trace[|trace| - 1] == MeaningOfAll(env, rs, m).mem
    ensures MeaningOfAll(env, rs, m).outcome == Ok ==> ValuesIn(env, rs, trace, MeaningOfAll(env, rs, m).mem)
  {
    trace := RunOf(env, rs, m);
    if MeaningOfAll(env, rs, m).outcome == Ok {
      ValuesStand(env, rs, trace);
    }
  }

  lemma {:induction false} ByteStands(env: Env, rs: seq<Reloc>, trace: seq<Bytes>, i: nat, n: nat, k: int)
    requires forall r :: r in rs ==> InTable(env, r)
    requires Run(env, rs, trace, Ok) && i < n <= |rs| && Undisturbed(env, rs, i)
    requires Place(env, rs[i]) <= k < Place(env, rs[i]) + Width(env, rs[i]) && k in trace[i + 1]
    ensures k in trace[n] && trace[n][k] == trace[i + 1][k]
    decreases n
  {
    if n > i + 1 {
      ByteStands(env, rs, trace, i, n - 1, k);
      assert Stored(env, rs[n - 1], trace[n - 1], trace[n]);
    }
  }

  lemma StillHolds(env: Env, r: Reloc, m: Bytes, n: Bytes, n': Bytes)
    requires Holds(env, r, m, n)
    requires forall k :: Place(env, r) <= k < Place(env, r) + Width(env, r) ==> k in n' && n'[k] == n[k]
    ensures Holds(env, r, m, n')
  {
    var p := Place(env, r);
    if Width(env, r) >= 8 {
      SameWord(n, n', p);
    }
    if Width(env, r) == 16 {
      SameWord(n, n', p + 8);
    }
    if Width(env, r) == 4 {
      SameHalfWord(n, n', p);
    }
  }

  // ---------------------------------------------------------------- the engine

  datatype Mode = JumpTable | Typical | General

  class Relocator {
    const env: Env
    var mem: Bytes
    var cacheSymVal: nat
    var cacheFound: Option<Found>

    /** The cache is empty or holds what a fresh lookup of its key would give. */
    ghost predicate CacheIsFresh()
      reads this
    {
      cacheSymVal == 0 || env.lookup(cacheSymVal) == Resolved(cacheFound)
    }

    constructor (e: Env, m: Bytes)
      ensures env == e && mem == m && CacheIsFresh()
    {
      env, mem, cacheSymVal, cacheFound := e, m, 0, None;
    }

    method LookupSymbol(rSym: nat) returns (ok: bool, found: Option<Found>)
      requires CacheIsFresh() && 0 < rSym < |env.symtab|
      modifies this`cacheSymVal, this`cacheFound
      ensures CacheIsFresh()
      ensures ok <==> env.lookup(rSym).Resolved? && (env.lookup(rSym).found.Some? || env.symtab[rSym].bind.WEAK?)
      ensures ok ==> found == env.lookup(rSym).found
    {
      if rSym == cacheSymVal {
        found := cacheFound;
      } else {
        var l := env.lookup(rSym);
        if l.BadVersion? {
          return false, None;
        }
        cacheSymVal := rSym;
        cacheFound := l.found;
        found := l.found;
      }
      if found.None? && !env.symtab[rSym].bind.WEAK? {
        return false, found;
      }
      return true, found;
    }

    method Put(st: State) returns (outcome: Outcome)
      modifies this`mem
      ensures State(outcome, mem) == st
    {
      mem := st.mem;
      outcome := st.outcome;
    }

    /** The fast modes handle their own types and leave the others, after the lookup, to the general mode. */
    method ProcessRelocation(mode: Mode, reloc: Reloc) returns (outcome: Outcome)
      requires CacheIsFresh() && InTable(env, reloc)
      modifies this`mem, this`cacheSymVal, this`cacheFound
      ensures CacheIsFresh()
      ensures State(outcome, mem) == Meaning(env, reloc, old(mem))
      ensures outcome == Ok <==> Possible(env, reloc, old(mem))
      ensures if outcome == Ok then Stored(env, reloc, old(mem), mem) else mem == old(mem)
      decreases if mode.General? then 0 else 1
    {
      OneEffect(env, reloc, mem);
      var relTarget := Add64(reloc.offset, env.si.loadBias);
      var rType, rSym := reloc.kind, reloc.sym;
      var found: Option<Found>, symAddr: u64 := None, 0;
      if rSym != 0 && env.symtab[rSym].name >= env.strtabSize {
        return Aborted;
      }
      if rType.NONE? {
        return Ok;
      }
      if IsTls(rType) {
        if !mode.General? {
          outcome := ProcessRelocation(General, reloc);
        } else {
          outcome := ProcessTls(reloc);
        }
        return;
      }
      if rSym != 0 {
        var ok;
        ok, found := LookupSymbol(rSym);
        if !ok {
          return Failed;
        }
        if found.Some? {
          symAddr := ResolveAddress(env, found.value, mem);
        } else if mode.General? && rType.X86_64_PC32? && env.arch.X86_64? {
          symAddr := relTarget;
        }
      }
      if (mode.General? || mode.JumpTable?) && rType.JUMP_SLOT? {
        outcome := Put(Store64(mem, relTarget, Add64(symAddr, reloc.addend)));
        return;
      }
      if mode.General? || mode.Typical? {
        if rType.ABSOLUTE? {
          outcome := Put(Store64(mem, relTarget, Add64(symAddr, reloc.addend)));
          return;
        } else if rType.GLOB_DAT? {
          outcome := Put(Store64(mem, relTarget, Add64(symAddr, reloc.addend)));
          return;
        } else if rType.RELATIVE? {
          outcome := Put(Store64(mem, relTarget, Add64(env.si.loadBias, reloc.addend)));
          return;
        }
      }
      if !mode.General? {
        outcome := ProcessRelocation(General, reloc);
        return;
      }
      match rType {
        case IRELATIVE =>
          if !env.isLinker {
            var ifuncAddr := Add64(env.si.loadBias, reloc.addend);
            outcome := Put(Store64(mem, relTarget, env.ifunc(ifuncAddr, mem)));
          } else {
            outcome := Ok;
          }
        case X86_64_32 =>
          if env.arch.X86_64? {
            outcome := Put(Store32(mem, relTarget, Add64(symAddr, reloc.addend)));
          } else {
            outcome := Failed;
          }
        case X86_64_PC32 =>
          if env.arch.X86_64? {
            outcome := Put(Store32(mem, relTarget, Sub64(Add64(symAddr, reloc.addend), relTarget)));
          } else {
            outcome := Failed;
          }
        case _ =>
          outcome := Failed;
      }
    }

    /** The TLS part of the general mode. */
    method ProcessTls(reloc: Reloc) returns (outcome: Outcome)
      requires CacheIsFresh() && InTable(env, reloc) && IsTls(reloc.kind)
      modifies this`mem, this`cacheSymVal, this`cacheFound
      ensures CacheIsFresh()
      ensures State(outcome, mem) == TlsEffect(env, reloc, old(mem))
    {
      var relTarget := Add64(reloc.offset, env.si.loadBias);
      var foundIn: Option<Library>, sym: Option<Found>, symAddr: u64 := None, None, 0;
      if reloc.sym == 0 {
        foundIn := Some(env.si);
      } else if env.symtab[reloc.sym].bind.LOCAL? {
        return Failed;
      } else {
        var ok, found := LookupSymbol(reloc.sym);
        if !ok {
          return Failed;
        }
        sym := found;
        foundIn := if found.Some? then Some(found.value.lib) else None;
      }
      if foundIn.Some? && foundIn.value.tls.None? {
        return Failed;
      }
      if sym.Some? {
        if !sym.value.sym.kind.TLS? {
          return Failed;
        }
        symAddr := sym.value.sym.value;
      }
      match reloc.kind {
        case TLS_TPREL =>
          if foundIn.Some? {
            return Aborted;
          }
          outcome := Put(Store64(mem, relTarget, Add64(symAddr, reloc.addend)));
        case TLS_DTPMOD =>
          var moduleId := 0;
          if foundIn.Some? {
            moduleId := foundIn.value.tls.value;
            if moduleId == 0 {
              return Aborted;
            }
          }
          outcome := Put(Store64(mem, relTarget, Wrap64(moduleId)));
        case TLS_DTPREL =>
          outcome := Put(Store64(mem, relTarget, Add64(symAddr, reloc.addend)));
        case TLSDESC =>
          if env.arch.X86_64? {
            return Failed;
          }
          if foundIn.Some? {
            return Aborted;
          }
          outcome := Put(Store(mem, relTarget, ToBytes(env.unresolvedWeakTlsdesc, WORD) + ToBytes(reloc.addend, WORD)));
      }
    }

    /**
     Whatever the mode, a list has the meaning of its relocations in order, and the cache stays fresh. After success
     every relocation has its value in memory, unless a later one wrote there.
     */
    method PlainRelocate(mode: Mode, rels: seq<Reloc>) returns (outcome: Outcome, ghost trace: seq<Bytes>)
      requires CacheIsFresh() && forall r :: r in rels ==> InTable(env, r)
      modifies this`mem, this`cacheSymVal, this`cacheFound
      ensures CacheIsFresh()
      ensures State(outcome, mem) == MeaningOfAll(env, rels, old(mem))
      ensures Run(env, rels, trace, outcome) && trace[0] == old(mem) && trace[|trace| - 1] == mem
      ensures outcome == Ok ==> ValuesIn(env, rels, trace, mem)
    {
      trace := RunWithValues(env, rels, mem);
      outcome := RelocateEach(mode, rels);
    }

    /** The loop. */
    method RelocateEach(mode: Mode, rels: seq<Reloc>) returns (outcome: Outcome)
      requires CacheIsFresh() && forall r :: r in rels ==> InTable(env, r)
      modifies this`mem, this`cacheSymVal, this`cacheFound
      ensures CacheIsFresh()
      ensures State(outcome, mem) == MeaningOfAll(env, rels, old(mem))
    {
      var i := 0;
      assert rels[0..] == rels;
      while i < |rels|
        invariant i <= |rels| && CacheIsFresh()
        invariant MeaningOfAll(env, rels[i..], mem) == MeaningOfAll(env, rels, old(mem))
      {
        assert rels[i..][0] == rels[i] && rels[i..][1..] == rels[i + 1..];
        outcome := ProcessRelocation(mode, rels[i]);
        if outcome != Ok {
          return;
        }
        i := i + 1;
      }
      outcome := Ok;
    }
  }
}
