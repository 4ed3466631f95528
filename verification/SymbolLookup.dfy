/**
 Symbol lookup: the Bloom filter, buckets and chains of a GNU hash table, the chains of a SysV
 table, symbol versions, and the search through a list of libraries with its slow and fast path.
 */
module SymbolLookup {
  import opened Powers
  import opened Bitwise
  import opened Options
  import opened Words
  import opened Relocations
  import ElfHash
  import GnuHash

  /** The bytes of a name, without its NUL. */
  type Name = seq<u8>

  datatype Symbol = Symbol(name: nat, bind: Bind, defined: bool)

  datatype Verdef = Verdef(version: nat, isBase: bool, cnt: nat, hash: u32, name: Name, ndx: nat)

  datatype VersionInfo = VersionInfo(elfHash: u32, name: Name)

  /** maskwords is the number of Bloom words less one; chain is indexed by symbol. */
  datatype GnuTable = GnuTable(symOffset: nat, maskwords: nat, shift2: nat, bloom: seq<u64>,
                               bucket: seq<nat>, chain: seq<u32>)

  datatype SysvTable = SysvTable(bucket: seq<nat>, chain: seq<nat>)

  datatype Library = Library(strtab: seq<u8>, symtab: seq<Symbol>, versym: Option<seq<u16>>,
                             verdefs: seq<Verdef>, gnu: Option<GnuTable>, sysv: SysvTable)

  // ---------------------------------------------------------------- symbols and versions

  const VERSYM_NOT_NEEDED: nat := 0
  const VERSYM_GLOBAL: nat := 1

  predicate GlobalAndDefined(s: Symbol) {
    (s.bind.GLOBAL? || s.bind.WEAK?) && s.defined
  }

  predicate VersionMatches(lib: Library, i: nat, verneed: nat)
    requires lib.versym.Some? ==> i < |lib.versym.value|
  {
    lib.versym.Some? ==>
      var verdef := lib.versym.value[i];
      if verneed == VERSYM_NOT_NEEDED then verdef / 0x8000 % 2 == 0
      else verneed == verdef - (verdef / 0x8000 % 2) * 0x8000
  }

  /** The index of the first definition of the version, or the global index when there is none. */
  function VersionIndexFrom(verdefs: seq<Verdef>, vi: VersionInfo): nat {
    if verdefs == [] then VERSYM_GLOBAL
    else if !verdefs[0].isBase && verdefs[0].hash == vi.elfHash && verdefs[0].name == vi.name then verdefs[0].ndx
    else VersionIndexFrom(verdefs[1..], vi)
  }

  function VersionIndex(lib: Library, vi: Option<VersionInfo>): nat {
    if vi.None? then VERSYM_NOT_NEEDED else VersionIndexFrom(lib.verdefs, vi.value)
  }

  ghost predicate VerdefsFit(lib: Library) {
    forall i :: 0 <= i < |lib.verdefs| ==>
      lib.verdefs[i].version == 1 && (lib.verdefs[i].isBase || lib.verdefs[i].cnt > 0)
  }

  /** The walk over the version definitions; a malformed one is a fatal error, which VerdefsFit excludes. */
  method FindVerdefVersionIndex(lib: Library, vi: Option<VersionInfo>) returns (index: nat)
    requires VerdefsFit(lib)
    ensures index == VersionIndex(lib, vi)
  {
    if vi.None? {
      return VERSYM_NOT_NEEDED;
    }
    var i := 0;
    assert lib.verdefs[0..] == lib.verdefs;
    while i < |lib.verdefs|
      invariant i <= |lib.verdefs|
      invariant VersionIndexFrom(lib.verdefs[i..], vi.value) == VersionIndexFrom(lib.verdefs, vi.value)
    {
      var d := lib.verdefs[i];
      assert lib.verdefs[i..][1..] == lib.verdefs[i + 1..];
      assert d.version == 1 && (d.isBase || d.cnt != 0);
      if !d.isBase && d.hash == vi.value.elfHash && d.name == vi.value.name {
        return d.ndx;
      }
      i := i + 1;
    }
    return VERSYM_GLOBAL;
  }

  // ---------------------------------------------------------------- well-formed libraries

  ghost predicate NamesFit(lib: Library) {
    forall i :: 0 <= i < |lib.symtab| ==> GnuHash.Terminated(lib.strtab, lib.symtab[i].name)
  }

  function NameOf(lib: Library, i: nat): Name
    requires NamesFit(lib) && i < |lib.symtab|
  {
    GnuHash.CString(lib.strtab, lib.symtab[i].name)
  }

  /** Bit i of a word: 1 & (w >> i). */
  predicate Bit(w: u64, i: nat) {
    w / Power2(i) % 2 == 1
  }

  /** Both bits of the hash are set in its Bloom word. */
  predicate InBloom(t: GnuTable, h: u32)
    requires |t.bloom| == t.maskwords + 1
  {
    var w := t.bloom[And(h / 64, t.maskwords)];
    Bit(w, h % 64) && Bit(w, h / Power2(t.shift2) % 64)
  }

  /** The same, as a table has to be made. */
  ghost predicate Filtered(t: GnuTable, h: u32)
    requires |t.bloom| == t.maskwords + 1
  {
    var w := t.bloom[And(h / 64, t.maskwords)];
    w / Power2(h % 64) % 2 == 1 && w / Power2(h / Power2(t.shift2) % 64) % 2 == 1
  }

  ghost function GnuHashOf(lib: Library, i: nat): u32
    requires NamesFit(lib) && i < |lib.symtab|
  {
    GnuHash.Hash(NameOf(lib, i))
  }

  ghost function BucketOf(lib: Library, t: GnuTable, i: nat): nat
    requires NamesFit(lib) && i < |lib.symtab| && t.bucket != []
  {
    GnuHashOf(lib, i) % |t.bucket|
  }

  /** The shape of a GNU hash table over the symbols from symOffset on. */
  ghost predicate GnuShape(lib: Library, t: GnuTable) {
    && NamesFit(lib) && t.bucket != [] && |t.bloom| == t.maskwords + 1
    && t.shift2 < 32
    && |t.chain| == |lib.symtab| && 0 < t.symOffset
  }

  ghost predicate GnuFit(lib: Library, t: GnuTable) {
    && GnuShape(lib, t)
    // every hashed symbol is in the Bloom filter, and its chain word carries its hash
    && (forall i :: t.symOffset <= i < |lib.symtab| ==> Filtered(t, GnuHashOf(lib, i)))
    && (forall i :: t.symOffset <= i < |lib.symtab| ==> t.chain[i] / 2 == GnuHashOf(lib, i) / 2)
    // a bucket starts at its first symbol
    && (forall b :: 0 <= b < |t.bucket| ==> BucketStarts(lib, t, b))
    // the symbols of a bucket are consecutive, and the low bit marks the last one
    && (forall i :: t.symOffset <= i < |lib.symtab| ==> EndsRight(lib, t, i))
  }

  ghost predicate BucketStarts(lib: Library, t: GnuTable, b: nat)
    requires GnuShape(lib, t) && b < |t.bucket|
  {
    var n := t.bucket[b];
    && (n == 0 ==> forall i :: t.symOffset <= i < |lib.symtab| ==> BucketOf(lib, t, i) != b)
    && (n != 0 ==> t.symOffset <= n < |lib.symtab| && BucketOf(lib, t, n) == b
                   && forall i :: t.symOffset <= i < n ==> BucketOf(lib, t, i) != b)
  }

  ghost predicate EndsRight(lib: Library, t: GnuTable, i: nat)
    requires GnuShape(lib, t) && t.symOffset <= i < |lib.symtab|
  {
    if t.chain[i] % 2 == 1 then forall j :: i < j < |lib.symtab| ==> BucketOf(lib, t, j) != BucketOf(lib, t, i)
    else i + 1 < |lib.symtab| && BucketOf(lib, t, i + 1) == BucketOf(lib, t, i)
  }

  /** The SysV chain that starts at n visits exactly `list` and ends. */
  ghost predicate IsChain(chain: seq<nat>, n: nat, list: seq<nat>)
    decreases |list|
  {
    if list == [] then n == 0
    else n == list[0] && 0 < n < |chain| && IsChain(chain, chain[n], list[1..])
  }

  ghost predicate SysvFit(lib: Library) {
    var t := lib.sysv;
    && NamesFit(lib) && t.bucket != [] && |t.chain| == |lib.symtab|
    && exists lists: seq<seq<nat>> :: SysvLists(lib, lists)
  }

  ghost predicate SysvLists(lib: Library, lists: seq<seq<nat>>)
    requires NamesFit(lib) && lib.sysv.bucket != []
  {
    && |lists| == |lib.sysv.bucket|
    && (forall b :: 0 <= b < |lists| ==> IsChain(lib.sysv.chain, lib.sysv.bucket[b], lists[b]))
    && (forall i :: 0 < i < |lib.symtab| ==> i in lists[ElfHash.Hash(NameOf(lib, i)) % |lists|])
  }

  // ---------------------------------------------------------------- what a symbol has to be, field by field

  /** Others can see the symbol: it is bound globally or weakly, and not merely referred to. */
  ghost predicate Exported(s: Symbol) {
    (s.bind == GLOBAL || s.bind == WEAK) && s.defined
  }

  /** n is the index of the first definition of that version that is not the file's own, 1 if there is none. */
  ghost predicate IndexOf(verdefs: seq<Verdef>, vi: VersionInfo, n: nat) {
    || (n == 1 && forall d :: 0 <= d < |verdefs| ==> !Defines(verdefs[d], vi))
    || exists d :: && 0 <= d < |verdefs| && Defines(verdefs[d], vi) && verdefs[d].ndx == n
                   && forall c :: 0 <= c < d ==> !Defines(verdefs[c], vi)
  }

  ghost predicate Defines(d: Verdef, vi: VersionInfo) {
    !d.isBase && d.hash == vi.elfHash && d.name == vi.name
  }

  /**
   * The version word fits: not hidden if no version is asked for, and of the index of that version otherwise. An
   * index of 0 is taken for none. Without version words everything fits.
   */
  ghost predicate RightVersion(lib: Library, i: nat, vi: Option<VersionInfo>)
    requires lib.versym.Some? ==> i < |lib.versym.value|
  {
    lib.versym.Some? ==>
      var word := lib.versym.value[i];
      match vi
      case None => word < 0x8000
      case Some(info) =>
        if IndexOf(lib.verdefs, info, 0) then word < 0x8000 else IndexOf(lib.verdefs, info, word % 0x8000)
  }

  /** The NUL-terminated string at p is the name. */
  ghost predicate Spells(strtab: seq<u8>, p: nat, name: Name) {
    p + |name| < |strtab| && strtab[p..p + |name|] == name && strtab[p + |name|] == 0
  }

  /** The library offers symbol i under that name and version. */
  ghost predicate Offers(lib: Library, i: nat, name: Name, vi: Option<VersionInfo>)
    requires VersymFits(lib)
  {
    && i < |lib.symtab| && Exported(lib.symtab[i])
    && Spells(lib.strtab, lib.symtab[i].name, name) && RightVersion(lib, i, vi)
  }

  lemma {:induction false} IndexIs(verdefs: seq<Verdef>, vi: VersionInfo, n: nat)
    ensures IndexOf(verdefs, vi, n) <==> n == VersionIndexFrom(verdefs, vi)
  {
    if verdefs != [] && !Defines(verdefs[0], vi) {
      IndexIs(verdefs[1..], vi, n);
      assert forall d :: 0 < d < |verdefs| ==> verdefs[d] == verdefs[1..][d - 1];
      assert forall d :: 0 <= d < |verdefs| - 1 ==> verdefs[1..][d] == verdefs[d + 1];
    }
  }

  lemma VersionIs(lib: Library, i: nat, vi: Option<VersionInfo>)
    requires lib.versym.Some? ==> i < |lib.versym.value|
    ensures RightVersion(lib, i, vi) <==> VersionMatches(lib, i, VersionIndex(lib, vi))
  {
    if lib.versym.Some? && vi.Some? {
      IndexIs(lib.verdefs, vi.value, 0);
      IndexIs(lib.verdefs, vi.value, lib.versym.value[i] % 0x8000);
    }
  }

  /** What a plain scan accepts is what the library offers. */
  lemma MatchesIsOffers(lib: Library, i: nat, name: Name, vi: Option<VersionInfo>)
    requires WellFormed(lib) && NoNul(name)
    ensures Matches(lib, i, name, vi) <==> Offers(lib, i, name, vi)
  {
    if i < |lib.symtab| {
      CompareName(lib.strtab, lib.symtab[i].name, name);
      SpelledOut(lib.strtab, lib.symtab[i].name, name);
    }
  }

  lemma SpelledOut(strtab: seq<u8>, p: nat, name: Name)
    ensures Spells(strtab, p, name) <==> p + |name| + 1 <= |strtab| && strtab[p..p + |name| + 1] == name + [0]
  {
    if p + |name| + 1 <= |strtab| {
      var s := strtab[p..p + |name| + 1];
      assert s == strtab[p..p + |name|] + [strtab[p + |name|]];
      assert s[..|name|] == strtab[p..p + |name|] && (name + [0])[..|name|] == name;
      assert s[|name|] == strtab[p + |name|] && (name + [0])[|name|] == 0;
    }
  }

  ghost predicate VersymFits(lib: Library) {
    lib.versym.Some? ==> |lib.versym.value| >= |lib.symtab|
  }

  /** A library that the lookup can search: names, versions, and its hash table, GNU if it has one. */
  ghost predicate WellFormed(lib: Library) {
    && NamesFit(lib) && VerdefsFit(lib) && VersymFits(lib)
    && (|lib.symtab| > 0 ==> !Exported(lib.symtab[0]))
    && (match lib.gnu
        case Some(t) =>
          GnuFit(lib, t) && forall i :: 0 <= i < |lib.symtab| && i < t.symOffset ==> !Exported(lib.symtab[i])
        case None => SysvFit(lib))
  }

  // ---------------------------------------------------------------- meaning

  /** A plain scan would accept symbol i: global, defined, of that name and of a matching version. */
  ghost predicate Matches(lib: Library, i: nat, name: Name, vi: Option<VersionInfo>)
    requires WellFormed(lib)
  {
    && i < |lib.symtab|
    && Exported(lib.symtab[i])
    && NameOf(lib, i) == name
    && RightVersion(lib, i, vi)
  }

  ghost predicate NoneMatches(lib: Library, name: Name, vi: Option<VersionInfo>)
    requires WellFormed(lib)
  {
    forall i :: 0 <= i < |lib.symtab| ==> !Matches(lib, i, name, vi)
  }

  ghost predicate NoNul(name: Name) {
    forall i :: 0 <= i < |name| ==> name[i] != 0
  }

  // ---------------------------------------------------------------- names

  /** The bounded comparison of the name and its NUL is equality of names. */
  lemma CompareName(strtab: seq<u8>, p: nat, name: Name)
    requires GnuHash.Terminated(strtab, p) && NoNul(name)
    ensures p + |name| + 1 <= |strtab| && strtab[p..p + |name| + 1] == name + [0] <==>
            GnuHash.CString(strtab, p) == name
  {
    var n := GnuHash.StrLen(strtab, p);
    if p + |name| + 1 <= |strtab| && strtab[p..p + |name| + 1] == name + [0] {
      var s := strtab[p..p + |name| + 1];
      assert forall i :: 0 <= i < |s| ==> s[i] == strtab[p + i] == (name + [0])[i];
      assert strtab[p + |name|] == 0;
      assert n == |name|;
      assert strtab[p..p + n] == s[..n] == (name + [0])[..n] == name;
    }
  }

  // ---------------------------------------------------------------- GNU tables

  ghost predicate InHashed(lib: Library, t: GnuTable, i: nat) {
    t.symOffset <= i < |lib.symtab|
  }

  /** Symbol i is hashed, has this hash and is accepted. */
  ghost predicate Wanted(lib: Library, t: GnuTable, hash: u32, accept: nat -> bool, i: nat)
    requires NamesFit(lib)
  {
    InHashed(lib, t, i) && GnuHashOf(lib, i) == hash && accept(i)
  }

  ghost predicate NoneBelow(n: nat, wanted: nat -> bool) {
    forall i :: 0 <= i < n ==> !wanted(i)
  }

  lemma SameBucket(lib: Library, t: GnuTable, hash: u32, b: nat, i: nat)
    requires GnuShape(lib, t) && b == hash % |t.bucket| && InHashed(lib, t, i) && GnuHashOf(lib, i) == hash
    ensures BucketOf(lib, t, i) == b
  {
  }

  lemma BeforeBucket(lib: Library, t: GnuTable, hash: u32, b: nat, wanted: nat -> bool)
    requires GnuShape(lib, t) && b == hash % |t.bucket| && BucketStarts(lib, t, b)
    requires forall i: nat :: wanted(i) ==> InHashed(lib, t, i) && GnuHashOf(lib, i) == hash
    ensures var n := t.bucket[b];
            && (n == 0 ==> NoneBelow(|lib.symtab|, wanted))
            && (n != 0 ==> InHashed(lib, t, n) && BucketOf(lib, t, n) == b && NoneBelow(n, wanted))
  {
    forall i: nat | wanted(i)
      ensures InHashed(lib, t, i) && BucketOf(lib, t, i) == b
    {
      SameBucket(lib, t, hash, b, i);
    }
  }

  /** The parts of a fitting table that one symbol and one bucket need. */
  lemma FitAt(lib: Library, t: GnuTable, n: nat, b: nat)
    requires GnuFit(lib, t)
    ensures GnuShape(lib, t) && (b < |t.bucket| ==> BucketStarts(lib, t, b))
    ensures InHashed(lib, t, n) ==> EndsRight(lib, t, n) && InBloom(t, GnuHashOf(lib, n))
  {
  }

  lemma SameHashTaken(lib: Library, t: GnuTable, hash: u32, n: nat)
    requires GnuFit(lib, t) && InHashed(lib, t, n) && GnuHashOf(lib, n) == hash
    ensures t.chain[n] / 2 == hash / 2
  {
  }

  ghost predicate InBucket(lib: Library, t: GnuTable, b: nat, i: nat)
    requires GnuShape(lib, t)
  {
    InHashed(lib, t, i) && BucketOf(lib, t, i) == b
  }

  /** Symbol i of the chain is not taken, and nothing wanted is missed by going on or by stopping. */
  ghost predicate StepRight(chain: seq<u32>, hash: u32, accept: nat -> bool, mine: nat -> bool, wanted: nat -> bool,
                            i: nat)
    requires i < |chain|
  {
    && (!(chain[i] / 2 == hash / 2 && accept(i)) ==> !wanted(i))
    && (chain[i] % 2 == 1 ==> forall j: nat :: i < j < |chain| ==> !wanted(j))
    && (chain[i] % 2 != 1 ==> i + 1 < |chain| && mine(i + 1))
  }

  ghost predicate Walkable(chain: seq<u32>, hash: u32, accept: nat -> bool, mine: nat -> bool, wanted: nat -> bool) {
    forall i: nat {:trigger chain[i]} :: i < |chain| && mine(i) ==> StepRight(chain, hash, accept, mine, wanted, i)
  }

  /** In a fitting table the chain of a bucket can be walked. */
  lemma BucketWalkable(lib: Library, t: GnuTable, hash: u32, b: nat, accept: nat -> bool, mine: nat -> bool,
                       wanted: nat -> bool)
    requires GnuFit(lib, t) && b == hash % |t.bucket|
    requires forall i: nat :: wanted(i) == Wanted(lib, t, hash, accept, i)
    requires forall i: nat :: mine(i) == InBucket(lib, t, b, i)
    ensures Walkable(t.chain, hash, accept, mine, wanted)
  {
    forall i: nat | i < |t.chain| && mine(i)
      ensures StepRight(t.chain, hash, accept, mine, wanted, i)
    {
      FitAt(lib, t, i, b);
      if wanted(i) {
        SameHashTaken(lib, t, hash, i);
      }
      forall j: nat | wanted(j)
        ensures BucketOf(lib, t, j) == b
      {
        SameBucket(lib, t, hash, b, j);
      }
    }
  }

  /**
   The walk shared by the GNU lookups: the first symbol of the chain whose hash agrees and that is accepted.
   It ends at the end bit.
   */
  method WalkChain(chain: seq<u32>, hash: u32, start: nat, accept: nat -> bool,
                   ghost mine: nat -> bool, ghost wanted: nat -> bool)
    returns (found: Option<nat>)
    requires start < |chain| && mine(start) && NoneBelow(start, wanted)
    requires Walkable(chain, hash, accept, mine, wanted)
    ensures found.Some? ==> found.value < |chain| && mine(found.value) && accept(found.value)
                            && NoneBelow(found.value, wanted)
    ensures found.None? ==> NoneBelow(|chain|, wanted)
  {
    var n := start;
    while true
      invariant n < |chain| && mine(n) && NoneBelow(n, wanted)
      decreases |chain| - n
    {
      assert StepRight(chain, hash, accept, mine, wanted, n);
      if chain[n] / 2 == hash / 2 && accept(n) {
        return Some(n);
      }
      if chain[n] % 2 == 1 {
        return None;
      }
      n := n + 1;
    }
  }

  /** The walk in the table of a library: the first accepted symbol with this hash. */
  method SearchTable(lib: Library, t: GnuTable, hash: u32, start: nat, accept: nat -> bool) returns (found: Option<nat>)
    requires GnuFit(lib, t) && start == t.bucket[hash % |t.bucket|] && start != 0
    ensures found.Some? ==> InHashed(lib, t, found.value) && accept(found.value)
    ensures forall i: nat :: (found.Some? ==> i < found.value) ==> !Wanted(lib, t, hash, accept, i)
  {
    ghost var b := hash % |t.bucket|;
    ghost var wanted := (i: nat) => Wanted(lib, t, hash, accept, i);
    ghost var mine := (i: nat) => InBucket(lib, t, b, i);
    FitAt(lib, t, start, b);
    BeforeBucket(lib, t, hash, b, wanted);
    BucketWalkable(lib, t, hash, b, accept, mine, wanted);
    found := WalkChain(t.chain, hash, start, accept, mine, wanted);
    assert forall i: nat :: (found.Some? ==> i < found.value) ==> !wanted(i);
  }

  /** What the Bloom filter and the bucket say: no candidate, or where the chain starts. */
  method ChainStart(lib: Library, t: GnuTable, hash: u32) returns (start: nat)
    requires GnuFit(lib, t)
    ensures start != 0 ==> start == t.bucket[hash % |t.bucket|]
    ensures start == 0 ==> forall i: nat :: InHashed(lib, t, i) ==> GnuHashOf(lib, i) != hash
  {
    if !InBloom(t, hash) {
      forall i: nat | InHashed(lib, t, i)
        ensures GnuHashOf(lib, i) != hash
      {
        FitAt(lib, t, i, 0);
      }
      return 0;
    }
    ghost var b := hash % |t.bucket|;
    start := t.bucket[hash % |t.bucket|];
    FitAt(lib, t, start, b);
    ghost var wanted := (i: nat) => InHashed(lib, t, i) && GnuHashOf(lib, i) == hash;
    BeforeBucket(lib, t, hash, b, wanted);
    assert start == 0 ==> forall i: nat :: InHashed(lib, t, i) ==> !wanted(i);
  }

  /** The first hashed symbol with this name and version. */
  ghost predicate FirstHashed(
    lib: Library, t: GnuTable, name: Name, vi: Option<VersionInfo>, found: Option<nat>)
    requires NamesFit(lib) && VersymFits(lib)
  {
    && (found.Some? ==> InHashed(lib, t, found.value) && Named(lib, name, vi, found.value))
    && (forall i: nat :: InHashed(lib, t, i) && (found.Some? ==> i < found.value) ==> !Named(lib, name, vi, i))
  }

  ghost predicate Named(lib: Library, name: Name, vi: Option<VersionInfo>, i: nat)
    requires NamesFit(lib) && VersymFits(lib) && i < |lib.symtab|
  {
    NameOf(lib, i) == name && RightVersion(lib, i, vi)
  }

  /** soinfo::gnu_lookup: the lowest hashed symbol of that name and version, global or not. */
  method GnuLookup(lib: Library, t: GnuTable, name: Name, vi: Option<VersionInfo>) returns (found: Option<nat>)
    requires GnuFit(lib, t) && VerdefsFit(lib) && VersymFits(lib)
    ensures FirstHashed(lib, t, name, vi, found)
  {
    forall i | 0 <= i < |lib.symtab|
      ensures RightVersion(lib, i, vi) <==> VersionMatches(lib, i, VersionIndex(lib, vi))
    {
      VersionIs(lib, i, vi);
    }
    var hash := GnuHash.Hash(name);
    var n := ChainStart(lib, t, hash);
    if n == 0 {
      return None;
    }
    var verneed := FindVerdefVersionIndex(lib, vi);
    var accept := (i: nat) => i < |lib.symtab| && VersionMatches(lib, i, verneed) && NameOf(lib, i) == name;
    found := SearchTable(lib, t, hash, n, accept);
    assert forall i: nat :: InHashed(lib, t, i) && Named(lib, name, vi, i) ==> Wanted(lib, t, hash, accept, i);
  }

  /** ElfReader::GnuHashLookupSymbol: the lowest hashed symbol of that name, whatever its version. */
  method GnuHashLookupSymbol(lib: Library, t: GnuTable, name: Name) returns (found: Option<nat>)
    requires GnuFit(lib, t)
    ensures name == [] ==> found.None?
    ensures found.Some? ==> InHashed(lib, t, found.value) && NameOf(lib, found.value) == name
    ensures name != [] ==>
              forall i: nat :: InHashed(lib, t, i) && (found.Some? ==> i < found.value) ==> NameOf(lib, i) != name
  {
    if name == [] {
      return None;
    }
    var hash := GnuHash.Hash(name);
    var n := ChainStart(lib, t, hash);
    if n == 0 {
      return None;
    }
    var accept := (i: nat) => i < |lib.symtab| && NameOf(lib, i) == name;
    found := SearchTable(lib, t, hash, n, accept);
    assert forall i: nat :: InHashed(lib, t, i) && NameOf(lib, i) == name ==> Wanted(lib, t, hash, accept, i);
  }

  // ---------------------------------------------------------------- SysV tables

  /** The walk shared by the SysV lookups: some accepted symbol of the chain of this name, if there is one. */
  method WalkSysv(lib: Library, name: Name, accept: nat -> bool) returns (found: Option<nat>)
    requires SysvFit(lib)
    ensures found.Some? ==> 0 < found.value < |lib.symtab| && accept(found.value)
    ensures found.None? ==> forall i: nat :: 0 < i < |lib.symtab| && NameOf(lib, i) == name ==> !accept(i)
  {
    ghost var lists :| SysvLists(lib, lists);
    var t := lib.sysv;
    ghost var b := ElfHash.Hash(name) % |t.bucket|;
    var n := t.bucket[ElfHash.Hash(name) % |t.bucket|];
    ghost var rest := lists[b];
    while n != 0
      invariant IsChain(t.chain, n, rest)
      invariant forall i :: i in lists[b] && i !in rest ==> !accept(i)
      decreases |rest|
    {
      if accept(n) {
        return Some(n);
      }
      n := t.chain[n];
      assert forall i :: i in rest ==> i == rest[0] || i in rest[1..];
      rest := rest[1..];
    }
    assert rest == [];
    return None;
  }

  /** soinfo::elf_lookup: a symbol that a plain scan would accept, unless there is none. */
  method ElfLookup(lib: Library, name: Name, vi: Option<VersionInfo>) returns (found: Option<nat>)
    requires WellFormed(lib) && lib.gnu.None?
    ensures found.Some? ==> Matches(lib, found.value, name, vi)
    ensures found.None? ==> NoneMatches(lib, name, vi)
  {
    var verneed := FindVerdefVersionIndex(lib, vi);
    var accept := (i: nat) => i < |lib.symtab| && VersionMatches(lib, i, verneed) && NameOf(lib, i) == name
                              && GlobalAndDefined(lib.symtab[i]);
    found := WalkSysv(lib, name, accept);
    if found.Some? {
      VersionIs(lib, found.value, vi);
    } else {
      forall i | 0 <= i < |lib.symtab|
        ensures !Matches(lib, i, name, vi)
      {
        VersionIs(lib, i, vi);
        assert i > 0 && NameOf(lib, i) == name ==> !accept(i);
      }
    }
  }

  /** ElfReader::ElfHashLookupSymbol: a symbol of that name, unless there is none. */
  method ElfHashLookupSymbol(lib: Library, name: Name) returns (found: Option<nat>)
    requires SysvFit(lib)
    ensures name == [] ==> found.None?
    ensures found.Some? ==> 0 < found.value < |lib.symtab| && NameOf(lib, found.value) == name
    ensures name != [] && found.None? ==> forall i: nat :: 0 < i < |lib.symtab| ==> NameOf(lib, i) != name
  {
    if name == [] {
      return None;
    }
    found := WalkSysv(lib, name, (i: nat) => i < |lib.symtab| && NameOf(lib, i) == name);
  }

  // ---------------------------------------------------------------- the search through a list of libraries

  /** The result of the search: a library of the list and a symbol in it. */
  datatype Hit = Hit(lib: nat, sym: nat)

  ghost predicate AllWellFormed(libs: seq<Library>) {
    forall l :: 0 <= l < |libs| ==> WellFormed(libs[l])
  }

  /** No library before n has a match. */
  ghost predicate NoneBefore(libs: seq<Library>, n: nat, name: Name, vi: Option<VersionInfo>)
    requires AllWellFormed(libs) && n <= |libs|
  {
    forall l :: 0 <= l < n ==> NoneMatches(libs[l], name, vi)
  }

  /**
   The naive scan: the first library in list order that has a match, and none iff no library has one. In a
   library with a GNU table the symbol is the first match.
   */
  ghost predicate ScanResult(libs: seq<Library>, name: Name, vi: Option<VersionInfo>, r: Option<Hit>)
    requires AllWellFormed(libs)
  {
    match r
    case None => NoneBefore(libs, |libs|, name, vi)
    case Some(hit) =>
      && hit.lib < |libs| && NoneBefore(libs, hit.lib, name, vi)
      && Matches(libs[hit.lib], hit.sym, name, vi)
      && (libs[hit.lib].gnu.Some? ==> forall i: nat :: i < hit.sym ==> !Matches(libs[hit.lib], i, name, vi))
  }

  /** The first library that offers the symbol, with the lowest such symbol of a GNU table; none if no library does. */
  ghost predicate FirstOffer(libs: seq<Library>, name: Name, vi: Option<VersionInfo>, r: Option<Hit>)
    requires forall l :: 0 <= l < |libs| ==> VersymFits(libs[l])
  {
    && (r.None? <==> forall l, i: nat :: 0 <= l < |libs| ==> !Offers(libs[l], i, name, vi))
    && (r.Some? ==> && r.value.lib < |libs| && Offers(libs[r.value.lib], r.value.sym, name, vi)
                    && (forall l, i: nat :: 0 <= l < r.value.lib ==> !Offers(libs[l], i, name, vi))
                    && (libs[r.value.lib].gnu.Some? ==>
                          forall i: nat :: i < r.value.sym ==> !Offers(libs[r.value.lib], i, name, vi)))
  }

  /** The comparison of the chain search: version, bounded name comparison, binding. */
  predicate Accepts(lib: Library, i: nat, name: Name, verneed: nat)
    requires lib.versym.Some? ==> i < |lib.versym.value|
    requires i < |lib.symtab|
  {
    var p := lib.symtab[i].name;
    && VersionMatches(lib, i, verneed)
    && p + |name| + 1 <= |lib.strtab|
    && lib.strtab[p..p + |name| + 1] == name + [0]
    && GlobalAndDefined(lib.symtab[i])
  }

  lemma {:induction false} AcceptsIsMatches(lib: Library, i: nat, name: Name, vi: Option<VersionInfo>)
    requires WellFormed(lib) && NoNul(name) && i < |lib.symtab|
    ensures Accepts(lib, i, name, VersionIndex(lib, vi)) <==> Matches(lib, i, name, vi)
  {
    VersionIs(lib, i, vi);
    CompareName(lib.strtab, lib.symtab[i].name, name);
  }

  /** The chain search; the version index is computed at the first symbol whose hash agrees. */
  method SearchChain(lib: Library, chain: seq<u32>, hash: u32, start: nat, name: Name, vi: Option<VersionInfo>,
                     ghost mine: nat -> bool, ghost wanted: nat -> bool)
    returns (found: Option<nat>)
    requires WellFormed(lib) && |chain| == |lib.symtab|
    requires start < |chain| && mine(start) && NoneBelow(start, wanted)
    requires Walkable(chain, hash,
                      (i: nat) => i < |lib.symtab| && Accepts(lib, i, name, VersionIndex(lib, vi)), mine, wanted)
    ensures found.Some? ==> found.value < |chain| && Accepts(lib, found.value, name, VersionIndex(lib, vi))
                            && NoneBelow(found.value, wanted)
    ensures found.None? ==> NoneBelow(|chain|, wanted)
  {
    ghost var accept := (i: nat) => i < |lib.symtab| && Accepts(lib, i, name, VersionIndex(lib, vi));
    var verneed, calculatedVerneed := VERSYM_NOT_NEEDED, false;
    var symIdx := start;
    while true
      invariant symIdx < |chain| && mine(symIdx) && NoneBelow(symIdx, wanted)
      invariant vi.None? || calculatedVerneed ==> verneed == VersionIndex(lib, vi)
      decreases |chain| - symIdx
    {
      var chainValue := chain[symIdx];
      assert StepRight(chain, hash, accept, mine, wanted, symIdx);
      if chainValue / 2 == hash / 2 {
        if vi.Some? && !calculatedVerneed {
          calculatedVerneed := true;
          verneed := FindVerdefVersionIndex(lib, vi);
        }
        if Accepts(lib, symIdx, name, verneed) {
          return Some(symIdx);
        }
      }
      if chainValue % 2 == 1 {
        return None;
      }
      symIdx := symIdx + 1;
    }
  }

  /** One library with a GNU table. */
  method SearchGnu(
    lib: Library, t: GnuTable, hash: u32, name: Name, vi: Option<VersionInfo>)
    returns (found: Option<nat>)
    requires WellFormed(lib) && lib.gnu == Some(t) && NoNul(name) && hash == GnuHash.Hash(name)
    ensures found.Some? ==> Matches(lib, found.value, name, vi)
    ensures forall i: nat :: (found.Some? ==> i < found.value) ==> !Matches(lib, i, name, vi)
  {
    ghost var accept := (i: nat) => i < |lib.symtab| && Accepts(lib, i, name, VersionIndex(lib, vi));
    var start := ChainStart(lib, t, hash);
    if start == 0 {
      forall i: nat
        ensures !Matches(lib, i, name, vi)
      {
        HashedMatch(lib, t, name, vi, i);
      }
      return None;
    }
    ghost var b := hash % |t.bucket|;
    ghost var wanted := (i: nat) => Wanted(lib, t, hash, accept, i);
    ghost var mine := (i: nat) => InBucket(lib, t, b, i);
    FitAt(lib, t, start, b);
    BeforeBucket(lib, t, hash, b, wanted);
    BucketWalkable(lib, t, hash, b, accept, mine, wanted);
    found := SearchChain(lib, t.chain, hash, start, name, vi, mine, wanted);
    forall i: nat
      ensures Matches(lib, i, name, vi) ==> i < |lib.symtab| && wanted(i)
    {
      HashedMatch(lib, t, name, vi, i);
    }
    if found.Some? {
      AcceptsIsMatches(lib, found.value, name, vi);
    }
  }

  /** Whatever a plain scan accepts is hashed, under the hash of the name. */
  lemma HashedMatch(lib: Library, t: GnuTable, name: Name, vi: Option<VersionInfo>, i: nat)
    requires WellFormed(lib) && lib.gnu == Some(t) && NoNul(name)
    ensures Matches(lib, i, name, vi) ==>
              && InHashed(lib, t, i) && GnuHashOf(lib, i) == GnuHash.Hash(name)
              && Accepts(lib, i, name, VersionIndex(lib, vi))
  {
    if Matches(lib, i, name, vi) {
      AcceptsIsMatches(lib, i, name, vi);
    }
  }

  /**
   soinfo_do_lookup_impl. The general form also searches libraries that have no GNU table; the other form
   must not meet one.
   */
  method DoLookupImpl(isGeneral: bool, name: Name, vi: Option<VersionInfo>, libs: seq<Library>) returns (r: Option<Hit>)
    requires AllWellFormed(libs) && NoNul(name)
    requires !isGeneral ==> forall l :: 0 <= l < |libs| ==> libs[l].gnu.Some?
    ensures ScanResult(libs, name, vi, r)
    ensures FirstOffer(libs, name, vi, r)
  {
    forall l, i: nat | 0 <= l < |libs|
      ensures Matches(libs[l], i, name, vi) <==> Offers(libs[l], i, name, vi)
    {
      MatchesIsOffers(libs[l], i, name, vi);
    }
    var hash := GnuHash.Hash(name);
    var it := 0;
    while it < |libs|
      invariant it <= |libs| && NoneBefore(libs, it, name, vi)
    {
      var lib := libs[it];
      var found;
      if isGeneral && lib.gnu.None? {
        found := ElfLookup(lib, name, vi);
      } else {
        found := SearchGnu(lib, lib.gnu.value, hash, name, vi);
      }
      if found.Some? {
        return Some(Hit(it, found.value));
      }
      it := it + 1;
    }
    return None;
  }

  // ---------------------------------------------------------------- the lookup list

  /** An entry of the list: a library, or the empty entry kept in front for a DT_SYMBOLIC library. */
  datatype LookupLib = NoLib | LookupLib(lib: Library)

  predicate NeedsSysvLookup(l: LookupLib) {
    l.LookupLib? && l.lib.gnu.None?
  }

  function Count(b: bool): nat {
    if b then 1 else 0
  }

  function SysvCount(libs: seq<LookupLib>): nat {
    if libs == [] then 0 else SysvCount(libs[..|libs| - 1]) + Count(NeedsSysvLookup(libs[|libs| - 1]))
  }

  lemma {:induction false} SysvCountZero(libs: seq<LookupLib>)
    ensures SysvCount(libs) == 0 <==> forall i :: 0 <= i < |libs| ==> !NeedsSysvLookup(libs[i])
  {
    if libs != [] {
      SysvCountZero(libs[..|libs| - 1]);
    }
  }

  lemma {:induction false} SysvCountFirst(libs: seq<LookupLib>, l: LookupLib)
    requires libs != []
    ensures SysvCount(libs[0 := l]) == SysvCount(libs) - Count(NeedsSysvLookup(libs[0])) + Count(NeedsSysvLookup(l))
    ensures SysvCount(libs) >= Count(NeedsSysvLookup(libs[0]))
  {
    var n := |libs| - 1;
    if n == 0 {
      assert libs[..0] == [] && libs[0 := l][..0] == [];
    } else {
      assert libs[0 := l][..n] == libs[..n][0 := l];
      SysvCountFirst(libs[..n], l);
    }
  }

  /** The libraries from an index on. */
  function LibrariesFrom(libs: seq<LookupLib>, begin: nat): (range: seq<Library>)
    requires begin <= |libs| && forall i :: begin <= i < |libs| ==> libs[i].LookupLib?
    ensures |range| == |libs| - begin && forall i :: 0 <= i < |range| ==> range[i] == libs[begin + i].lib
  {
    seq(|libs| - begin, i requires 0 <= i < |libs| - begin => libs[begin + i].lib)
  }

  /** The vector of a list: an entry kept in front, libraries behind it, and the count of what needs the slow path. */
  ghost predicate VectorFits(libs: seq<LookupLib>, begin: nat, count: nat, tracing: bool) {
    && libs != [] && begin <= 1
    && (begin == 1 <==> libs[0].NoLib?) && (forall i :: 0 < i < |libs| ==> libs[i].LookupLib?)
    && count == Count(tracing) + SysvCount(libs)
  }

  ghost function Front(lib: Option<Library>): seq<Library> {
    if lib.Some? then [lib.value] else []
  }

  /** Replacing the front entry keeps the libraries behind it, and the count follows. */
  lemma ReplaceFront(libs: seq<LookupLib>, begin: nat, count: nat, tracing: bool, lib: Option<Library>,
                     front: LookupLib)
    requires VectorFits(libs, begin, count, tracing)
    requires front == if lib.Some? then LookupLib(lib.value) else NoLib
    ensures count >= Count(NeedsSysvLookup(libs[0]))
    ensures VectorFits(libs[0 := front], Count(front.NoLib?),
                       count - Count(NeedsSysvLookup(libs[0])) + Count(NeedsSysvLookup(front)), tracing)
    ensures LibrariesFrom(libs[0 := front], 1) == LibrariesFrom(libs, 1)
    ensures LibrariesFrom(libs[0 := front], Count(front.NoLib?)) == Front(lib) + LibrariesFrom(libs, 1)
  {
    SysvCountFirst(libs, front);
  }

  class SymbolLookupList {
    var libs: seq<LookupLib>
    var soleLib: Option<Library>
    var begin: nat
    var slowPathCount: nat
    const tracing: bool

    /** slowPathCount counts what makes the slow path necessary, over the whole vector. */
    ghost predicate Valid()
      reads this
    {
      if soleLib.Some? then
        libs == [] && begin == 0 && slowPathCount == Count(tracing) + Count(soleLib.value.gnu.None?)
      else
        VectorFits(libs, begin, slowPathCount, tracing)
    }

    /** The libraries from begin to end. */
    ghost function Searched(): seq<Library>
      requires Valid()
      reads this
    {
      if soleLib.Some? then [soleLib.value]
      else LibrariesFrom(libs, begin)
    }

    /** The libraries behind the place for a DT_SYMBOLIC library. */
    ghost function Behind(): seq<Library>
      requires Valid() && soleLib.None?
      reads this
    {
      LibrariesFrom(libs, 1)
    }

    constructor Sole(si: Library, isTracing: bool)
      ensures Valid() && Searched() == [si]
    {
      libs, soleLib, begin, tracing := [], Some(si), 0, isTracing;
      slowPathCount := Count(isTracing) + Count(si.gnu.None?);
    }

    constructor FromGroups(globalGroup: seq<Library>, localGroup: seq<Library>, isTracing: bool)
      ensures Valid() && soleLib.None? && Searched() == Behind() == globalGroup + localGroup
    {
      tracing := isTracing;
      soleLib, begin := None, 1;
      var vec := [NoLib];
      var count := Count(isTracing);
      for i := 0 to |globalGroup|
        invariant |vec| == i + 1 && vec[0] == NoLib && count == Count(isTracing) + SysvCount(vec)
        invariant forall k :: 1 <= k < |vec| ==> vec[k] == LookupLib(globalGroup[k - 1])
      {
        var l := LookupLib(globalGroup[i]);
        assert (vec + [l])[..|vec|] == vec;
        vec := vec + [l];
        count := count + Count(NeedsSysvLookup(l));
      }
      for i := 0 to |localGroup|
        invariant |vec| == |globalGroup| + i + 1 && vec[0] == NoLib && count == Count(isTracing) + SysvCount(vec)
        invariant forall k :: 1 <= k < |vec| ==> vec[k] == LookupLib((globalGroup + localGroup)[k - 1])
      {
        var l := LookupLib(localGroup[i]);
        assert (vec + [l])[..|vec|] == vec;
        vec := vec + [l];
        count := count + Count(NeedsSysvLookup(l));
      }
      assert LibrariesFrom(vec, 1) == globalGroup + localGroup;
      libs, slowPathCount := vec, count;
    }

    /** Puts a library in front of the others, or takes it away; a list made for one library has no such place. */
    method SetDtSymbolicLib(lib: Option<Library>)
      requires Valid() && soleLib.None?
      modifies this
      ensures Valid() && soleLib.None?
      ensures Behind() == old(Behind()) && Searched() == Front(lib) + Behind()
    {
      var front := if lib.Some? then LookupLib(lib.value) else NoLib;
      ReplaceFront(libs, begin, slowPathCount, tracing, lib, front);
      slowPathCount := slowPathCount - Count(NeedsSysvLookup(libs[0]));
      libs := libs[0 := front];
      slowPathCount := slowPathCount + Count(NeedsSysvLookup(front));
      begin := if lib.Some? then 0 else 1;
      assert VectorFits(libs, begin, slowPathCount, tracing);
    }

    predicate NeedsSlowPath()
      reads this
    {
      slowPathCount > 0
    }

    /** The slow path is taken exactly when tracing asks for it or a searched library has no GNU table. */
    lemma SlowPathExact()
      requires Valid()
      ensures NeedsSlowPath() <==> tracing || exists i :: 0 <= i < |Searched()| && Searched()[i].gnu.None?
    {
      if soleLib.Some? {
        assert Searched()[0] == soleLib.value;
      } else {
        SysvCountZero(libs);
        if exists i :: 0 <= i < |libs| && NeedsSysvLookup(libs[i]) {
          var i :| 0 <= i < |libs| && NeedsSysvLookup(libs[i]);
          assert Searched()[i - begin].gnu.None?;
        }
        forall i | 0 <= i < |Searched()| && Searched()[i].gnu.None?
          ensures NeedsSysvLookup(libs[begin + i])
        {
        }
      }
    }

    /** The libraries as the search sees them. */
    method Range() returns (range: seq<Library>)
      requires Valid()
      ensures range == Searched()
    {
      if soleLib.Some? {
        range := [soleLib.value];
      } else {
        range := LibrariesFrom(libs, begin);
      }
    }

    /** soinfo_do_lookup: on either path the result of the naive scan. */
    method DoLookup(name: Name, vi: Option<VersionInfo>) returns (r: Option<Hit>)
      requires Valid() && AllWellFormed(Searched()) && NoNul(name)
      ensures ScanResult(Searched(), name, vi, r)
      ensures FirstOffer(Searched(), name, vi, r)
    {
      SlowPathExact();
      var range := Range();
      r := DoLookupImpl(NeedsSlowPath(), name, vi, range);
    }
  }
}
