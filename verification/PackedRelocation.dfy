/** Relocating from a packed list: the same as relocating from the plain list it encodes. */
module PackedRelocation {
  import opened Words
  import opened Sleb128
  import opened Relocations
  import Packed = PackedRelocs
  import Engine = RelocEngine
  import Memory

  /** How a packed run ended: as the engine did; on a bad stream; or at a symbol index outside the table. */
  datatype Ended = Relocated(outcome: Engine.Outcome) | BadStream(end: Packed.Outcome) | NoSuchSymbol

  const DONE := Relocated(Engine.Ok)

  /** A packed record as a relocation; `kinds` gives the machine's meaning of a type number. */
  function Unpack(kinds: nat -> RelType, r: Packed.Record): Reloc {
    Reloc(r.offset, kinds(r.info % 0x1_0000_0000), r.info / 0x1_0000_0000, r.addend)
  }

  /** The symbol is in the upper half of the info word, the type in the lower. */
  lemma UnpackIs(kinds: nat -> RelType, offset: u64, sym: u32, kind: u32, addend: u64)
    ensures Unpack(kinds, Packed.Record(offset, sym * 0x1_0000_0000 + kind, addend))
         == Reloc(offset, kinds(kind), sym, addend)
  {
  }

  function Unpacked(kinds: nat -> RelType, rs: seq<Packed.Record>): (us: seq<Reloc>)
    ensures |us| == |rs| && forall i :: 0 <= i < |us| ==> us[i] == Unpack(kinds, rs[i])
  {
    seq(|rs|, i requires 0 <= i < |rs| => Unpack(kinds, rs[i]))
  }

  ghost predicate InTable(env: Engine.Env, kinds: nat -> RelType, rs: seq<Packed.Record>) {
    forall r :: r in Unpacked(kinds, rs) ==> Engine.InTable(env, r)
  }

  /** What the list means for memory, when it stays in the symbol table. */
  ghost function Effect(env: Engine.Env, kinds: nat -> RelType, rs: seq<Packed.Record>, m: Memory.Bytes): Engine.State {
    if InTable(env, kinds, rs) then Engine.MeaningOfAll(env, Unpacked(kinds, rs), m) else Engine.State(Engine.Failed, m)
  }

  lemma EffectOfFirst(env: Engine.Env, kinds: nat -> RelType, rs: seq<Packed.Record>, m: Memory.Bytes)
    requires rs != [] && InTable(env, kinds, rs)
    ensures Engine.InTable(env, Unpack(kinds, rs[0])) && InTable(env, kinds, rs[1..])
    ensures var st := Engine.Meaning(env, Unpack(kinds, rs[0]), m);
            Effect(env, kinds, rs, m) == if st.outcome == Engine.Ok then Effect(env, kinds, rs[1..], st.mem) else st
  {
    var us := Unpacked(kinds, rs);
    assert us[0] in us && us[1..] == Unpacked(kinds, rs[1..]);
    assert forall r :: r in us[1..] ==> r in us;
  }

  lemma EffectOfTwo(
    env: Engine.Env, kinds: nat -> RelType, rs: seq<Packed.Record>, ts: seq<Packed.Record>, m: Memory.Bytes)
    requires InTable(env, kinds, rs + ts)
    ensures InTable(env, kinds, rs) && InTable(env, kinds, ts)
    ensures var st := Effect(env, kinds, rs, m);
            Effect(env, kinds, rs + ts, m) == if st.outcome == Engine.Ok then Effect(env, kinds, ts, st.mem) else st
  {
    assert Unpacked(kinds, rs + ts) == Unpacked(kinds, rs) + Unpacked(kinds, ts);
    Engine.Sequential(env, Unpacked(kinds, rs), Unpacked(kinds, ts), m);
  }

  /** One turn of the inner loop: a relocation is read and processed. */
  method RelocateOne(
    decoder: Decoder, relocator: Engine.Relocator, mode: Engine.Mode, kinds: nat -> RelType,
    f: Packed.Flags, delta: u64, reloc: Packed.Record, ghost r: Packed.Record, ghost rest: seq<u8>)
    returns (ended: Ended, reloc': Packed.Record)
    requires decoder.Valid() && relocator.CacheIsFresh()
    modifies decoder, relocator`mem, relocator`cacheSymVal, relocator`cacheFound
    ensures decoder.Valid() && decoder.current >= old(decoder.current) && relocator.CacheIsFresh()
    ensures old(decoder.Rest()) == Packed.EncodeOne(f, reloc, r) + rest && Packed.Fits(f, delta, reloc, r)
            && Engine.InTable(relocator.env, Unpack(kinds, r)) ==>
              && ended.Relocated? && decoder.Rest() == rest && reloc' == r
              && Engine.State(ended.outcome, relocator.mem)
                 == Engine.Meaning(relocator.env, Unpack(kinds, r), old(relocator.mem))
  {
    var end;
    end, reloc' := Packed.PopReloc(decoder, f, delta, reloc, r, rest);
    if end != Packed.Done {
      return BadStream(end), reloc';
    }
    var unpacked := Unpack(kinds, reloc');
    if unpacked.sym >= |relocator.env.symtab| {
      return NoSuchSymbol, reloc';
    }
    var outcome := relocator.ProcessRelocation(mode, unpacked);
    return Relocated(outcome), reloc';
  }

  /** What is left of a group: its encoding is next in the stream, and it leads to the same memory as all of it. */
  ghost predicate Left(
    s: seq<u8>, f: Packed.Flags, delta: u64, now: Packed.Record, todo: seq<Packed.Record>, rest: seq<u8>,
    env: Engine.Env, kinds: nat -> RelType, m: Memory.Bytes, goal: Engine.State, last: Packed.Record)
  {
    && Packed.InBody(s, f, delta, now, todo, rest) && InTable(env, kinds, todo)
    && Effect(env, kinds, todo, m) == goal && Packed.LastOf(now, todo) == last
  }

  /** The inner loop: the relocations of one group. */
  method RelocateBody(
    decoder: Decoder, relocator: Engine.Relocator, mode: Engine.Mode, kinds: nat -> RelType,
    f: Packed.Flags, delta: u64, size: u64, reloc: Packed.Record, ghost good: bool, ghost rs: seq<Packed.Record>,
    ghost rest: seq<u8>)
    returns (ended: Ended, reloc': Packed.Record)
    requires decoder.Valid() && relocator.CacheIsFresh()
    requires good ==> size == |rs| && InTable(relocator.env, kinds, rs)
    requires good ==> Packed.InBody(decoder.Rest(), f, delta, reloc, rs, rest)
    modifies decoder, relocator`mem, relocator`cacheSymVal, relocator`cacheFound
    ensures decoder.Valid() && decoder.current >= old(decoder.current) && relocator.CacheIsFresh()
    ensures good ==> ended.Relocated?
    ensures good ==> Engine.State(ended.outcome, relocator.mem) == Effect(relocator.env, kinds, rs, old(relocator.mem))
    ensures good && ended == DONE ==> decoder.Rest() == rest && reloc' == Packed.LastOf(reloc, rs)
  {
    ghost var env, last := relocator.env, Packed.LastOf(reloc, rs);
    ghost var goal := Effect(env, kinds, rs, relocator.mem);
    ghost var todo := rs;
    reloc' := reloc;
    var i := 0;
    while i < size
      invariant 0 <= i <= size && decoder.Valid() && decoder.current >= old(decoder.current) && relocator.CacheIsFresh()
      invariant good ==> i + |todo| == size
      invariant good ==> Left(decoder.Rest(), f, delta, reloc', todo, rest, env, kinds, relocator.mem, goal, last)
    {
      ghost var r := if todo == [] then reloc else todo[0];
      ghost var rest' := if todo == [] then [] else Packed.EncodeBody(f, r, todo[1..]) + rest;
      if good {
        Packed.BodyStep(decoder.Rest(), f, delta, reloc', todo, rest);
        EffectOfFirst(env, kinds, todo, relocator.mem);
      }
      ended, reloc' := RelocateOne(decoder, relocator, mode, kinds, f, delta, reloc', r, rest');
      if ended != DONE {
        return;
      }
      todo := if todo == [] then [] else todo[1..];
      i := i + 1;
    }
    ended := DONE;
    if good {
      AllLeft(decoder.Rest(), f, delta, reloc', todo, rest, env, kinds, relocator.mem, goal, last);
    }
  }

  lemma AllLeft(
    s: seq<u8>, f: Packed.Flags, delta: u64, now: Packed.Record, todo: seq<Packed.Record>, rest: seq<u8>,
    env: Engine.Env, kinds: nat -> RelType, m: Memory.Bytes, goal: Engine.State, last: Packed.Record)
    requires Left(s, f, delta, now, todo, rest, env, kinds, m, goal, last) && todo == []
    ensures s == rest && now == last && goal == Engine.State(Engine.Ok, m)
  {
    assert [] + rest == rest;
  }

  /** One turn of the outer loop, on a group that is encoded next if the stream is good. */
  method RelocateGroup(
    decoder: Decoder, relocator: Engine.Relocator, mode: Engine.Mode, kinds: nat -> RelType,
    prev: Packed.Record, ghost good: bool, ghost g: Packed.Group, ghost rest: seq<u8>)
    returns (ended: Ended, size: u64, reloc: Packed.Record)
    requires decoder.Valid() && relocator.CacheIsFresh()
    requires good ==> |g.relocs| < 0x1_0000_0000_0000_0000 && decoder.Rest() == Packed.EncodeGroup(g, prev) + rest
    requires good ==>
               Packed.BodyFits(Packed.FlagsOf(g.flags), g.delta, Packed.Shared(Packed.FlagsOf(g.flags), g, prev),
                 g.relocs)
    requires good ==> InTable(relocator.env, kinds, g.relocs)
    modifies decoder, relocator`mem, relocator`cacheSymVal, relocator`cacheFound
    ensures decoder.Valid() && relocator.CacheIsFresh()
    ensures ended == DONE ==> decoder.current > old(decoder.current)
    ensures good ==> ended.Relocated?
    ensures good ==>
              Engine.State(ended.outcome, relocator.mem) == Effect(relocator.env, kinds, g.relocs, old(relocator.mem))
    ensures good && ended == DONE ==> size == |g.relocs| && decoder.Rest() == rest && reloc == Packed.After(g, prev)
  {
    ghost var f0 := Packed.FlagsOf(g.flags);
    ghost var body := Packed.EncodeBody(f0, Packed.Shared(f0, g, prev), g.relocs) + rest;
    var end, flags, delta;
    reloc := prev;
    end, size, flags := Packed.PopSizeAndFlags(decoder, prev, good, g, rest);
    if end != Packed.Done {
      return BadStream(end), size, reloc;
    }
    end, delta, reloc := Packed.PopShared(decoder, Packed.FlagsOf(flags), prev, g, body);
    if end != Packed.Done {
      return BadStream(end), size, reloc;
    }
    if good && !f0.byOffsetDelta {
      Packed.DeltaUnused(f0, g.delta, delta, Packed.Shared(f0, g, prev), g.relocs);
    }
    ended, reloc := RelocateBody(decoder, relocator, mode, kinds, Packed.FlagsOf(flags), delta, size, reloc, good,
      g.relocs, rest);
  }

  /** What is left of the list, group by group. */
  ghost predicate LeftGroups(
    s: seq<u8>, prev: Packed.Record, todo: seq<Packed.Group>, rest: seq<u8>, all: seq<Packed.Record>,
    calls: seq<Packed.Record>,
    env: Engine.Env, kinds: nat -> RelType, m: Memory.Bytes, goal: Engine.State)
  {
    && Packed.InGroups(s, prev, todo, rest) && all == calls + Packed.Flatten(todo)
    && InTable(env, kinds, Packed.Flatten(todo)) && Effect(env, kinds, Packed.Flatten(todo), m) == goal
  }

  lemma GroupLeft(
    s: seq<u8>, prev: Packed.Record, todo: seq<Packed.Group>, rest: seq<u8>, all: seq<Packed.Record>,
    calls: seq<Packed.Record>,
    env: Engine.Env, kinds: nat -> RelType, m: Memory.Bytes, goal: Engine.State)
    requires LeftGroups(s, prev, todo, rest, all, calls, env, kinds, m, goal) && |calls| < |all|
    ensures todo != [] && InTable(env, kinds, todo[0].relocs) && InTable(env, kinds, Packed.Flatten(todo[1..]))
    ensures goal == (var st := Effect(env, kinds, todo[0].relocs, m);
                     if st.outcome == Engine.Ok then Effect(env, kinds, Packed.Flatten(todo[1..]), st.mem) else st)
  {
    assert Packed.Flatten([]) == [];
    EffectOfTwo(env, kinds, todo[0].relocs, Packed.Flatten(todo[1..]), m);
  }

  /** One turn of the outer loop, seen from the whole list. */
  method RelocateNext(
    decoder: Decoder, relocator: Engine.Relocator, mode: Engine.Mode, kinds: nat -> RelType, reloc: Packed.Record,
    ghost good: bool, ghost todo: seq<Packed.Group>, ghost rest: seq<u8>, ghost all: seq<Packed.Record>,
    ghost calls: seq<Packed.Record>, ghost goal: Engine.State)
    returns (ended: Ended, size: u64, reloc': Packed.Record, ghost todo': seq<Packed.Group>,
      ghost calls': seq<Packed.Record>)
    requires decoder.Valid() && relocator.CacheIsFresh() && (good ==> |calls| < |all|)
    requires good ==>
               LeftGroups(decoder.Rest(), reloc, todo, rest, all, calls, relocator.env, kinds, relocator.mem, goal)
    modifies decoder, relocator`mem, relocator`cacheSymVal, relocator`cacheFound
    ensures decoder.Valid() && relocator.CacheIsFresh()
    ensures ended == DONE ==> decoder.current > old(decoder.current)
    ensures good && ended != DONE ==> ended.Relocated? && Engine.State(ended.outcome, relocator.mem) == goal
    ensures good && ended == DONE ==> |calls'| == |calls| + size <= |all|
    ensures good && ended == DONE ==>
              LeftGroups(decoder.Rest(), reloc', todo', rest, all, calls', relocator.env, kinds, relocator.mem, goal)
  {
    ghost var g, later := Packed.Group(0, 0, 0, 0, []), [];
    todo', calls' := [], calls;
    if good {
      Packed.GroupsStep(decoder.Rest(), reloc, todo, rest, all, calls);
      GroupLeft(decoder.Rest(), reloc, todo, rest, all, calls, relocator.env, kinds, relocator.mem, goal);
      g, later := todo[0], Packed.EncodeGroups(todo[1..], Packed.After(todo[0], reloc)) + rest;
      todo', calls' := todo[1..], calls + todo[0].relocs;
    }
    ended, size, reloc' := RelocateGroup(decoder, relocator, mode, kinds, reloc, good, g, later);
  }

  /**
   * Relocates straight from the stream, in any mode. However the list was grouped, an encoded stream leaves the memory
   * and the result of the plain list. A stream that encodes nothing ends too.
   */
  method PackedRelocate(
    decoder: Decoder, relocator: Engine.Relocator, mode: Engine.Mode, kinds: nat -> RelType,
    ghost start: u64, ghost groups: seq<Packed.Group>, ghost rest: seq<u8>)
    returns (ended: Ended)
    requires decoder.Valid() && relocator.CacheIsFresh()
    modifies decoder, relocator`mem, relocator`cacheSymVal, relocator`cacheFound
    ensures relocator.CacheIsFresh()
    ensures Packed.Encoded(old(decoder.Rest()), start, groups, rest)
              && InTable(relocator.env, kinds, Packed.Flatten(groups)) ==>
              && ended.Relocated?
              && Engine.State(ended.outcome, relocator.mem)
                 == Engine.MeaningOfAll(relocator.env, Unpacked(kinds, Packed.Flatten(groups)), old(relocator.mem))
  {
    ghost var env, all := relocator.env, Packed.Flatten(groups);
    ghost var good := Packed.Encoded(decoder.Rest(), start, groups, rest);
    ghost var goal := Effect(env, kinds, all, relocator.mem);
    var end, numRelocs, offset := Packed.PopStart(decoder, good, start, groups, rest);
    good := good && InTable(env, kinds, all);
    if end != Packed.Done {
      return BadStream(end);
    }
    var reloc := Packed.Record(offset, 0, 0);
    ghost var todo, calls := groups, [];
    var idx: u64 := 0;
    while idx < numRelocs
      invariant decoder.Valid() && relocator.CacheIsFresh()
      invariant good ==> numRelocs == |all| && idx == |calls|
      invariant good ==> LeftGroups(decoder.Rest(), reloc, todo, rest, all, calls, env, kinds, relocator.mem, goal)
      decreases |decoder.buffer| - decoder.current
    {
      var size;
      ended, size, reloc, todo, calls :=
        RelocateNext(decoder, relocator, mode, kinds, reloc, good, todo, rest, all, calls, goal);
      if ended != DONE {
        return;
      }
      idx := Add64(idx, size);
    }
    ended := DONE;
    if good {
      AllGroupsLeft(decoder.Rest(), reloc, todo, rest, all, calls, env, kinds, relocator.mem, goal);
    }
  }

  lemma AllGroupsLeft(
    s: seq<u8>, prev: Packed.Record, todo: seq<Packed.Group>, rest: seq<u8>, all: seq<Packed.Record>,
    calls: seq<Packed.Record>,
    env: Engine.Env, kinds: nat -> RelType, m: Memory.Bytes, goal: Engine.State)
    requires LeftGroups(s, prev, todo, rest, all, calls, env, kinds, m, goal) && |calls| == |all|
    ensures goal == Engine.State(Engine.Ok, m)
  {
    assert Packed.Flatten(todo) == [];
    assert Unpacked(kinds, []) == [];
  }
}
