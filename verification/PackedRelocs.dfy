/**
 Packed (APS2) relocations: the decoder of grouped, delta-encoded relocation lists, and the
 reference encoder that it undoes for every choice of groups.
 */
module PackedRelocs {
  import opened Words
  import opened Sleb128
  import opened Powers
  import opened Bitwise

  datatype Record = Record(offset: u64, info: u64, addend: u64)

  /** The four group flags; unknown bits are ignored. */
  datatype Flags = Flags(byInfo: bool, byOffsetDelta: bool, byAddend: bool, hasAddend: bool)

  function FlagsOf(word: u64): Flags {
    Flags(word % 2 == 1, word / 2 % 2 == 1, word / 4 % 2 == 1, word / 8 % 2 == 1)
  }

  // ---------------------------------------------------------------- the reference encoder

  /** A group: its flag word, the values its header shares, and its relocations. */
  datatype Group = Group(flags: u64, delta: u64, info: u64, addend: u64, relocs: seq<Record>)

  ghost function EncodeField(present: bool, w: u64): seq<u8> {
    if present then EncodeWord(w) else []
  }

  ghost function EncodeShared(f: Flags, g: Group, prev: Record): seq<u8> {
    EncodeField(f.byOffsetDelta, g.delta)
    + (EncodeField(f.byInfo, g.info)
       + EncodeField(f.hasAddend && f.byAddend, Sub64(g.addend, prev.addend)))
  }

  ghost function EncodeOne(f: Flags, prev: Record, r: Record): seq<u8> {
    EncodeField(!f.byOffsetDelta, Sub64(r.offset, prev.offset))
    + (EncodeField(!f.byInfo, r.info)
       + EncodeField(f.hasAddend && !f.byAddend, Sub64(r.addend, prev.addend)))
  }

  ghost function EncodeBody(f: Flags, prev: Record, rs: seq<Record>): seq<u8>
    decreases |rs|
  {
    if rs == [] then [] else EncodeOne(f, prev, rs[0]) + EncodeBody(f, rs[0], rs[1..])
  }

  /** The running record after the header of a group. */
  function Shared(f: Flags, g: Group, prev: Record): Record {
    Record(prev.offset,
          if f.byInfo then g.info else prev.info,
          if !f.hasAddend then 0 else if f.byAddend then g.addend else prev.addend)
  }

  /** The flags fit the relocation: what the header shares does not vary. */
  ghost predicate Fits(f: Flags, delta: u64, prev: Record, r: Record) {
    && (f.byOffsetDelta ==> r.offset == Add64(prev.offset, delta))
    && (f.byInfo ==> r.info == prev.info)
    && (!(f.hasAddend && !f.byAddend) ==> r.addend == prev.addend)
  }

  ghost predicate BodyFits(f: Flags, delta: u64, prev: Record, rs: seq<Record>)
    decreases |rs|
  {
    rs != [] ==> Fits(f, delta, prev, rs[0]) && BodyFits(f, delta, rs[0], rs[1..])
  }

  ghost function LastOf(prev: Record, rs: seq<Record>): Record {
    if rs == [] then prev else rs[|rs| - 1]
  }

  ghost function After(g: Group, prev: Record): Record {
    LastOf(Shared(FlagsOf(g.flags), g, prev), g.relocs)
  }

  ghost predicate GroupsFit(groups: seq<Group>, prev: Record) {
    groups != [] ==>
      var g, f := groups[0], FlagsOf(groups[0].flags);
      && |g.relocs| < 0x1_0000_0000_0000_0000
      && BodyFits(f, g.delta, Shared(f, g, prev), g.relocs)
      && GroupsFit(groups[1..], After(g, prev))
  }

  ghost function EncodeGroup(g: Group, prev: Record): seq<u8>
    requires |g.relocs| < 0x1_0000_0000_0000_0000
  {
    var f := FlagsOf(g.flags);
    EncodeWord(|g.relocs|) + (EncodeWord(g.flags)
      + (EncodeShared(f, g, prev) + EncodeBody(f, Shared(f, g, prev), g.relocs)))
  }

  ghost function EncodeGroups(groups: seq<Group>, prev: Record): seq<u8>
    requires GroupsFit(groups, prev)
  {
    if groups == [] then []
    else EncodeGroup(groups[0], prev) + EncodeGroups(groups[1..], After(groups[0], prev))
  }

  /** All relocations of the groups, in order. */
  ghost function Flatten(groups: seq<Group>): seq<Record> {
    if groups == [] then [] else groups[0].relocs + Flatten(groups[1..])
  }

  /** The stream: the number of relocations, the first offset, the groups. */
  ghost function Encode(start: u64, groups: seq<Group>): seq<u8>
    requires |Flatten(groups)| < 0x1_0000_0000_0000_0000
    requires GroupsFit(groups, Record(start, 0, 0))
  {
    EncodeWord(|Flatten(groups)|) + (EncodeWord(start) + EncodeGroups(groups, Record(start, 0, 0)))
  }

  // ---------------------------------------------------------------- what is in the stream

  /** The flags are the low four bits of the word. */
  lemma FlagsAre(word: u64)
    ensures FlagsOf(word).byInfo <==> And(word, 1) != 0
    ensures FlagsOf(word).byOffsetDelta <==> And(word, 2) != 0
    ensures FlagsOf(word).byAddend <==> And(word, 4) != 0
    ensures FlagsOf(word).hasAddend <==> And(word, 8) != 0
  {
    assert Power2(0) == 1 && Power2(1) == 2 && Power2(2) == 4 && Power2(3) == 8;
    AndBit(word, word, 0, 0);
    AndBit(word, word / 2, word % 2, 1);
    AndBit(word, word / 4, word % 4, 2);
    AndBit(word, word / 8, word % 8, 3);
  }

  /** A group is its size, its flags, the shared fields that are there, and its relocations. */
  lemma GroupOnTheWire(g: Group, prev: Record)
    requires |g.relocs| < 0x1_0000_0000_0000_0000
    ensures var delta := if And(g.flags, 2) != 0 then EncodeWord(g.delta) else [];
            var info := if And(g.flags, 1) != 0 then EncodeWord(g.info) else [];
            var addend := if And(g.flags, 8) != 0 && And(g.flags, 4) != 0
                          then EncodeWord(Sub64(g.addend, prev.addend)) else [];
            var body := EncodeBody(FlagsOf(g.flags), Shared(FlagsOf(g.flags), g, prev), g.relocs);
            EncodeGroup(g, prev)
            == EncodeWord(|g.relocs|) + (EncodeWord(g.flags) + ((delta + (info + addend)) + body))
  {
    FlagsAre(g.flags);
  }

  /** A relocation is the fields that its group does not share, offset and addend as differences. */
  lemma RelocOnTheWire(flags: u64, prev: Record, r: Record)
    ensures var offset := if And(flags, 2) == 0 then EncodeWord(Sub64(r.offset, prev.offset)) else [];
            var info := if And(flags, 1) == 0 then EncodeWord(r.info) else [];
            var addend := if And(flags, 8) != 0 && And(flags, 4) == 0
                          then EncodeWord(Sub64(r.addend, prev.addend)) else [];
            EncodeOne(FlagsOf(flags), prev, r) == offset + (info + addend)
  {
    FlagsAre(flags);
  }

  // ---------------------------------------------------------------- decoding

  /** How decoding a field or a list ended; Fatal and Undefined are the decoder's own ends. */
  datatype Outcome = Done | Stopped | Fatal | Undefined

  /** A callback decides from the relocations passed to it so far, the last one being its argument. */
  type Callback = seq<Record> -> bool

  /** The callback accepted everything before the last call; Done means it accepted that one too. */
  ghost predicate Honoured(callback: Callback, calls: seq<Record>, outcome: Outcome) {
    && (forall n :: 0 < n < |calls| ==> callback(calls[..n]))
    && (outcome == Stopped ==> calls != [] && !callback(calls))
    && (outcome == Done && calls != [] ==> callback(calls))
  }

  /** One optional field; the decoder must stop when the data is bad. */
  method PopField(decoder: Decoder, present: bool, default: u64, ghost w: u64, ghost rest: seq<u8>)
    returns (outcome: Outcome, value: u64)
    requires decoder.Valid()
    modifies decoder
    ensures decoder.Valid() && decoder.current >= old(decoder.current) && outcome != Stopped
    ensures present && outcome == Done ==> decoder.current > old(decoder.current)
    ensures old(decoder.Rest()) == EncodeField(present, w) + rest ==>
              outcome == Done && decoder.Rest() == rest && value == if present then w else default
  {
    if !present {
      assert [] + rest == rest;
      return Done, default;
    }
    ghost var s := decoder.Rest();
    PopEncoded(w, rest);
    var r := decoder.PopFront();
    match r
    case Popped(v) => return Done, v;
    case OutOfBounds => return Fatal, 0;
    case Overlong => return Undefined, 0;
  }

  /** The shared part of a group header. */
  method PopShared(decoder: Decoder, f: Flags, reloc: Record, ghost g: Group, ghost rest: seq<u8>)
    returns (outcome: Outcome, delta: u64, reloc': Record)
    requires decoder.Valid()
    modifies decoder
    ensures decoder.Valid() && decoder.current >= old(decoder.current) && outcome != Stopped
    ensures old(decoder.Rest()) == EncodeShared(f, g, reloc) + rest ==>
              outcome == Done && decoder.Rest() == rest
              && reloc' == Shared(f, g, reloc) && (f.byOffsetDelta ==> delta == g.delta)
  {
    var info, addend := 0, 0;
    delta, reloc' := 0, reloc;
    ghost var step := Sub64(g.addend, reloc.addend);
    ghost var s1, s2 := EncodeField(f.byInfo, g.info), EncodeField(f.hasAddend && f.byAddend, step);
    assert EncodeShared(f, g, reloc) + rest == EncodeField(f.byOffsetDelta, g.delta) + (s1 + (s2 + rest));
    outcome, delta := PopField(decoder, f.byOffsetDelta, 0, g.delta, s1 + (s2 + rest));
    if outcome != Done { return; }
    outcome, info := PopField(decoder, f.byInfo, reloc.info, g.info, s2 + rest);
    if outcome != Done { return; }
    reloc' := reloc'.(info := info);
    if f.hasAddend && !f.byAddend {
      PopNothing(f.hasAddend && f.byAddend, step, rest);
    } else if f.hasAddend && f.byAddend {
      outcome, addend := PopField(decoder, true, 0, step, rest);
      if outcome != Done { return; }
      reloc' := reloc'.(addend := Add64(reloc'.addend, addend));
    } else {
      PopNothing(f.hasAddend && f.byAddend, step, rest);
      reloc' := reloc'.(addend := 0);
    }
  }

  lemma PopNothing(present: bool, w: u64, rest: seq<u8>)
    requires !present
    ensures EncodeField(present, w) + rest == rest
  {
  }

  /** One relocation of a group. */
  method PopReloc(decoder: Decoder, f: Flags, delta: u64, reloc: Record, ghost r: Record, ghost rest: seq<u8>)
    returns (outcome: Outcome, reloc': Record)
    requires decoder.Valid()
    modifies decoder
    ensures decoder.Valid() && decoder.current >= old(decoder.current) && outcome != Stopped
    ensures old(decoder.Rest()) == EncodeOne(f, reloc, r) + rest && Fits(f, delta, reloc, r) ==>
              outcome == Done && decoder.Rest() == rest && reloc' == r
  {
    var step, info, addend := 0, 0, 0;
    reloc' := reloc;
    ghost var s1 := EncodeField(!f.byInfo, r.info);
    ghost var s2 := EncodeField(f.hasAddend && !f.byAddend, Sub64(r.addend, reloc.addend));
    ghost var d := Sub64(r.offset, reloc.offset);
    assert EncodeOne(f, reloc, r) + rest == EncodeField(!f.byOffsetDelta, d) + (s1 + (s2 + rest));
    outcome, step := PopField(decoder, !f.byOffsetDelta, delta, d, s1 + (s2 + rest));
    if outcome != Done { return; }
    reloc' := reloc'.(offset := Add64(reloc'.offset, step));
    outcome, info := PopField(decoder, !f.byInfo, reloc.info, r.info, s2 + rest);
    if outcome != Done { return; }
    reloc' := reloc'.(info := info);
    outcome, addend := PopField(decoder, f.hasAddend && !f.byAddend, 0, Sub64(r.addend, reloc.addend), rest);
    if outcome != Done { return; }
    reloc' := reloc'.(addend := Add64(reloc'.addend, addend));
  }

  /** One turn of the inner loop: a relocation is read and passed to the callback. */
  method PassReloc(decoder: Decoder, f: Flags, delta: u64, reloc: Record, callback: Callback, before: seq<Record>,
                   ghost r: Record, ghost rest: seq<u8>)
    returns (outcome: Outcome, reloc': Record, calls: seq<Record>)
    requires decoder.Valid() && Honoured(callback, before, Done)
    modifies decoder
    ensures decoder.Valid() && decoder.current >= old(decoder.current) && Honoured(callback, calls, outcome)
    ensures calls == if outcome == Done || outcome == Stopped then before + [reloc'] else before
    ensures old(decoder.Rest()) == EncodeOne(f, reloc, r) + rest && Fits(f, delta, reloc, r) ==>
              (outcome == Done || outcome == Stopped) && decoder.Rest() == rest && reloc' == r
  {
    outcome, reloc' := PopReloc(decoder, f, delta, reloc, r, rest);
    HonouredSnoc(callback, before, reloc');
    calls := before;
    if outcome == Done {
      calls := before + [reloc'];
      if !callback(calls) {
        outcome := Stopped;
      }
    }
  }

  /** The inner loop: the relocations of one group. */
  method PopBody(decoder: Decoder, f: Flags, delta: u64, size: u64, reloc: Record, callback: Callback,
                 before: seq<Record>, ghost rs: seq<Record>, ghost rest: seq<u8>)
    returns (outcome: Outcome, reloc': Record, calls: seq<Record>)
    requires decoder.Valid() && Honoured(callback, before, Done)
    modifies decoder
    ensures decoder.Valid() && decoder.current >= old(decoder.current)
    ensures Honoured(callback, calls, outcome) && before <= calls
    ensures old(decoder.Rest()) == EncodeBody(f, reloc, rs) + rest && BodyFits(f, delta, reloc, rs) && size == |rs| ==>
              && calls <= before + rs && (outcome == Done || outcome == Stopped)
              && (outcome == Done ==> calls == before + rs && decoder.Rest() == rest && reloc' == LastOf(reloc, rs))
  {
    reloc', calls := reloc, before;
    ghost var good := InBody(decoder.Rest(), f, delta, reloc, rs, rest) && size == |rs|;
    ghost var todo, goal, last := rs, before + rs, LastOf(reloc, rs);
    var i := 0;
    while i < size
      invariant 0 <= i <= size && decoder.Valid() && decoder.current >= old(decoder.current)
      invariant Honoured(callback, calls, Done) && before <= calls
      invariant good ==> i + |todo| == size
      invariant good ==> Passing(decoder.Rest(), f, delta, reloc', todo, rest, calls, goal, last)
    {
      outcome, reloc', calls, todo := PassNext(decoder, f, delta, reloc', callback, calls, good, todo, rest, goal,
        last);
      if outcome != Done { return; }
      i := i + 1;
    }
    outcome := Done;
    if good {
      AllPassed(decoder.Rest(), f, delta, reloc', todo, rest, calls, goal, last);
    }
  }

  /** What is left of a group: its encoding comes next, and with it the calls will be the goal. */
  ghost predicate Passing(
    s: seq<u8>, f: Flags, delta: u64, now: Record, todo: seq<Record>, rest: seq<u8>,
    calls: seq<Record>, goal: seq<Record>, last: Record)
  {
    InBody(s, f, delta, now, todo, rest) && goal == calls + todo && LastOf(now, todo) == last
  }

  lemma AllPassed(
    s: seq<u8>, f: Flags, delta: u64, now: Record, todo: seq<Record>, rest: seq<u8>,
    calls: seq<Record>, goal: seq<Record>, last: Record)
    requires Passing(s, f, delta, now, todo, rest, calls, goal, last) && todo == []
    ensures s == rest && calls == goal && now == last
  {
    assert [] + rest == rest && calls + [] == calls;
  }

  /** One turn of the inner loop, seen from the whole group. */
  method PassNext(decoder: Decoder, f: Flags, delta: u64, reloc: Record, callback: Callback, calls: seq<Record>,
                  ghost good: bool, ghost todo: seq<Record>, ghost rest: seq<u8>, ghost goal: seq<Record>,
                    ghost last: Record)
    returns (outcome: Outcome, reloc': Record, calls': seq<Record>, ghost todo': seq<Record>)
    requires decoder.Valid() && Honoured(callback, calls, Done)
    requires good ==> todo != [] && Passing(decoder.Rest(), f, delta, reloc, todo, rest, calls, goal, last)
    modifies decoder
    ensures decoder.Valid() && decoder.current >= old(decoder.current)
    ensures Honoured(callback, calls', outcome) && calls <= calls'
    ensures good ==> (outcome == Done || outcome == Stopped) && calls' <= goal
    ensures good && outcome == Done ==>
              && |todo'| == |todo| - 1
              && Passing(decoder.Rest(), f, delta, reloc', todo', rest, calls', goal, last)
  {
    ghost var r, rest' := reloc, [];
    todo' := [];
    if good {
      BodyStep(decoder.Rest(), f, delta, reloc, todo, rest);
      r, todo' := todo[0], todo[1..];
      rest' := EncodeBody(f, r, todo') + rest;
      Associative(calls, [r], todo');
      PrefixOf(calls + [r], todo');
      assert todo == [r] + todo';
    }
    outcome, reloc', calls' := PassReloc(decoder, f, delta, reloc, callback, calls, r, rest');
  }

  /** The stream continues with the encodings of todo, then rest. */
  ghost predicate InBody(s: seq<u8>, f: Flags, delta: u64, reloc: Record, todo: seq<Record>, rest: seq<u8>) {
    s == EncodeBody(f, reloc, todo) + rest && BodyFits(f, delta, reloc, todo)
  }

  lemma BodyStep(s: seq<u8>, f: Flags, delta: u64, reloc: Record, todo: seq<Record>, rest: seq<u8>)
    requires InBody(s, f, delta, reloc, todo, rest) && todo != []
    ensures s == EncodeOne(f, reloc, todo[0]) + (EncodeBody(f, todo[0], todo[1..]) + rest)
    ensures Fits(f, delta, reloc, todo[0])
    ensures InBody(EncodeBody(f, todo[0], todo[1..]) + rest, f, delta, todo[0], todo[1..], rest)
  {
    Associative(EncodeOne(f, reloc, todo[0]), EncodeBody(f, todo[0], todo[1..]), rest);
  }

  lemma HonouredSnoc(callback: Callback, calls: seq<Record>, r: Record)
    requires Honoured(callback, calls, Done)
    ensures Honoured(callback, calls + [r], if callback(calls + [r]) then Done else Stopped)
    ensures Honoured(callback, calls, Fatal) && Honoured(callback, calls, Undefined)
  {
    forall n | 0 < n < |calls + [r]|
      ensures callback((calls + [r])[..n])
    {
      if n == |calls| {
        assert (calls + [r])[..n] == calls;
      } else {
        assert (calls + [r])[..n] == calls[..n];
      }
    }
  }

  /** The stream starts with the encoding of these groups. */
  ghost predicate Encoded(s: seq<u8>, start: u64, groups: seq<Group>, rest: seq<u8>) {
    && |Flatten(groups)| < 0x1_0000_0000_0000_0000
    && GroupsFit(groups, Record(start, 0, 0))
    && s == Encode(start, groups) + rest
  }

  /** The stream continues with these groups. */
  ghost predicate InGroups(s: seq<u8>, prev: Record, groups: seq<Group>, rest: seq<u8>) {
    GroupsFit(groups, prev) && s == EncodeGroups(groups, prev) + rest
  }

  /**
   The decoder calls back with the relocations of the stream: with exactly the encoded list, in order,
   unless the callback stops it. It ends on every finite stream.
   */
  method ForAllPackedRelocs(decoder: Decoder, callback: Callback,
                            ghost start: u64, ghost groups: seq<Group>, ghost rest: seq<u8>)
    returns (outcome: Outcome, calls: seq<Record>)
    requires decoder.Valid()
    modifies decoder
    ensures Honoured(callback, calls, outcome)
    ensures Encoded(old(decoder.Rest()), start, groups, rest) ==>
              && calls <= Flatten(groups) && (outcome == Done || outcome == Stopped)
              && (outcome == Done ==> calls == Flatten(groups))
  {
    ghost var good, all := Encoded(decoder.Rest(), start, groups, rest), Flatten(groups);
    var numRelocs, offset;
    outcome, numRelocs, offset := PopStart(decoder, good, start, groups, rest);
    calls := [];
    if outcome != Done { return; }
    var reloc := Record(offset, 0, 0);
    ghost var todo := groups;
    var idx: u64 := 0;
    while idx < numRelocs
      invariant decoder.Valid() && Honoured(callback, calls, Done)
      invariant good ==> numRelocs == |all| && idx == |calls| && all == calls + Flatten(todo)
      invariant good ==> InGroups(decoder.Rest(), reloc, todo, rest)
      decreases |decoder.buffer| - decoder.current
    {
      ghost var g, later := Group(0, 0, 0, 0, []), [];
      if good {
        GroupsStep(decoder.Rest(), reloc, todo, rest, all, calls);
        g, later := todo[0], EncodeGroups(todo[1..], After(todo[0], reloc)) + rest;
      }
      var size;
      outcome, size, reloc, calls := PopGroup(decoder, reloc, callback, calls, good, g, later);
      if outcome != Done { return; }
      todo := if good then todo[1..] else [];
      idx := Add64(idx, size);
    }
    outcome := Done;
  }

  lemma GroupsStep(s: seq<u8>, prev: Record, todo: seq<Group>, rest: seq<u8>, all: seq<Record>, calls: seq<Record>)
    requires InGroups(s, prev, todo, rest) && all == calls + Flatten(todo) && |calls| < |all|
    ensures todo != []
    ensures var g, f := todo[0], FlagsOf(todo[0].flags);
            && |g.relocs| < 0x1_0000_0000_0000_0000
            && BodyFits(f, g.delta, Shared(f, g, prev), g.relocs)
            && InGroups(EncodeGroups(todo[1..], After(g, prev)) + rest, After(g, prev), todo[1..], rest)
            && s == EncodeGroup(g, prev) + (EncodeGroups(todo[1..], After(g, prev)) + rest)
            && all == (calls + g.relocs) + Flatten(todo[1..])
            && calls + g.relocs <= all
  {
    assert Flatten([]) == [];
    var g := todo[0];
    Associative(calls, g.relocs, Flatten(todo[1..]));
    Associative(EncodeGroup(g, prev), EncodeGroups(todo[1..], After(g, prev)), rest);
    PrefixOf(calls + g.relocs, Flatten(todo[1..]));
  }

  lemma Associative<T>(a: seq<T>, b: seq<T>, c: seq<T>)
    ensures (a + b) + c == a + (b + c)
  {
  }

  lemma PrefixOf<T>(a: seq<T>, b: seq<T>)
    ensures a <= a + b
  {
  }

  lemma StartOf(start: u64, groups: seq<Group>, rest: seq<u8>)
    requires |Flatten(groups)| < 0x1_0000_0000_0000_0000 && GroupsFit(groups, Record(start, 0, 0))
    ensures Encode(start, groups) + rest
         == EncodeWord(|Flatten(groups)|) + (EncodeWord(start) + (EncodeGroups(groups, Record(start, 0, 0)) + rest))
  {
    var stream := EncodeGroups(groups, Record(start, 0, 0));
    Associative(EncodeWord(|Flatten(groups)|), EncodeWord(start) + stream, rest);
    Associative(EncodeWord(start), stream, rest);
  }

  /** The two leading fields. */
  method PopStart(decoder: Decoder, ghost good: bool, ghost start: u64, ghost groups: seq<Group>, ghost rest: seq<u8>)
    returns (outcome: Outcome, numRelocs: u64, offset: u64)
    requires decoder.Valid() && good == Encoded(decoder.Rest(), start, groups, rest)
    modifies decoder
    ensures decoder.Valid() && outcome != Stopped
    ensures good ==>
              && outcome == Done && numRelocs == |Flatten(groups)| && offset == start
              && InGroups(decoder.Rest(), Record(start, 0, 0), groups, rest)
  {
    ghost var count, stream := 0, [];
    if good {
      count, stream := |Flatten(groups)|, EncodeGroups(groups, Record(start, 0, 0)) + rest;
      StartOf(start, groups, rest);
    }
    offset := 0;
    outcome, numRelocs := PopField(decoder, true, 0, count, EncodeWord(start) + stream);
    if outcome != Done { return; }
    outcome, offset := PopField(decoder, true, 0, start, stream);
  }

  /** One turn of the outer loop. It consumes at least the size of the group, even of an empty one. */
  method PopGroup(decoder: Decoder, prev: Record, callback: Callback, before: seq<Record>,
                  ghost good: bool, ghost g: Group, ghost rest: seq<u8>)
    returns (outcome: Outcome, size: u64, reloc: Record, calls: seq<Record>)
    requires decoder.Valid() && Honoured(callback, before, Done)
    requires good ==> |g.relocs| < 0x1_0000_0000_0000_0000 && decoder.Rest() == EncodeGroup(g, prev) + rest
    requires good ==> BodyFits(FlagsOf(g.flags), g.delta, Shared(FlagsOf(g.flags), g, prev), g.relocs)
    modifies decoder
    ensures decoder.Valid() && Honoured(callback, calls, outcome) && before <= calls
    ensures outcome == Done ==> decoder.current > old(decoder.current)
    ensures good ==> calls <= before + g.relocs && (outcome == Done || outcome == Stopped)
    ensures good && outcome == Done ==>
              && size == |g.relocs| && calls == before + g.relocs
              && decoder.Rest() == rest && reloc == After(g, prev)
  {
    ghost var f0 := FlagsOf(g.flags);
    ghost var body := EncodeBody(f0, Shared(f0, g, prev), g.relocs) + rest;
    var flags, delta;
    reloc, calls := prev, before;
    HonouredEnd(callback, before);
    outcome, size, flags := PopSizeAndFlags(decoder, prev, good, g, rest);
    if outcome != Done { return; }
    outcome, delta, reloc := PopShared(decoder, FlagsOf(flags), prev, g, body);
    if outcome != Done { return; }
    if good && !f0.byOffsetDelta {
      DeltaUnused(f0, g.delta, delta, Shared(f0, g, prev), g.relocs);
    }
    outcome, reloc, calls := PopBody(decoder, FlagsOf(flags), delta, size, reloc, callback, before, g.relocs, rest);
  }

  method PopSizeAndFlags(decoder: Decoder, prev: Record, ghost good: bool, ghost g: Group, ghost rest: seq<u8>)
    returns (outcome: Outcome, size: u64, flags: u64)
    requires decoder.Valid()
    requires good ==> |g.relocs| < 0x1_0000_0000_0000_0000 && decoder.Rest() == EncodeGroup(g, prev) + rest
    modifies decoder
    ensures decoder.Valid() && outcome != Stopped
    ensures outcome == Done ==> decoder.current > old(decoder.current)
    ensures var f := FlagsOf(g.flags);
            good ==>
              && outcome == Done && size == |g.relocs| && flags == g.flags
              && decoder.Rest() == EncodeShared(f, g, prev) + (EncodeBody(f, Shared(f, g, prev), g.relocs) + rest)
  {
    ghost var f := FlagsOf(g.flags);
    ghost var shared := EncodeShared(f, g, prev) + (EncodeBody(f, Shared(f, g, prev), g.relocs) + rest);
    ghost var count := 0;
    if good {
      count := |g.relocs|;
      assert EncodeGroup(g, prev) + rest == EncodeWord(count) + (EncodeWord(g.flags) + shared);
    }
    flags := 0;
    outcome, size := PopField(decoder, true, 0, count, EncodeWord(g.flags) + shared);
    if outcome != Done { return; }
    outcome, flags := PopField(decoder, true, 0, g.flags, shared);
  }

  lemma HonouredEnd(callback: Callback, calls: seq<Record>)
    requires Honoured(callback, calls, Done)
    ensures Honoured(callback, calls, Fatal) && Honoured(callback, calls, Undefined)
  {
  }

  /** Without the offset flag the shared delta does not matter. */
  lemma {:induction false} DeltaUnused(f: Flags, delta: u64, other: u64, prev: Record, rs: seq<Record>)
    requires !f.byOffsetDelta && BodyFits(f, delta, prev, rs)
    ensures BodyFits(f, other, prev, rs)
    decreases |rs|
  {
    if rs != [] {
      DeltaUnused(f, delta, other, rs[0], rs[1..]);
    }
  }

  /** Every relocation list has a grouping: one group in which each relocation carries all its fields. */
  lemma EveryListEncodes(start: u64, rs: seq<Record>)
    requires |rs| < 0x1_0000_0000_0000_0000
    ensures var groups := [Group(8, 0, 0, 0, rs)];
            GroupsFit(groups, Record(start, 0, 0)) && Flatten(groups) == rs
  {
    var groups := [Group(8, 0, 0, 0, rs)];
    UngroupedFits(Flags(false, false, false, true), 0, Record(start, 0, 0), rs);
    assert groups[1..] == [];
    assert FlagsOf(8) == Flags(false, false, false, true);
    assert Flatten(groups) == rs + Flatten([]);
  }

  lemma {:induction false} UngroupedFits(f: Flags, delta: u64, prev: Record, rs: seq<Record>)
    requires f == Flags(false, false, false, true)
    ensures BodyFits(f, delta, prev, rs)
    decreases |rs|
  {
    if rs != [] {
      UngroupedFits(f, delta, rs[0], rs[1..]);
    }
  }
}
