/**
 The GNU symbol hash: the scalar loop, and the vectorised form that reads whole
 aligned 8-byte chunks and must return the same word for every name.
 */
module GnuHash {
  import opened Powers
  import opened Words

  // ---------------------------------------------------------------- meaning

  /** h = 33 * h + c over the name, starting from 5381, in 32-bit words. */
  function Hash(name: seq<u8>): u32 {
    if name == [] then 5381
    else Wrap32(33 * Hash(name[..|name| - 1]) + name[|name| - 1])
  }

  /** A NUL byte occurs at or after p, so that p points to a C string. */
  ghost predicate Terminated(mem: seq<u8>, p: nat) {
    exists e: nat :: p <= e < |mem| && mem[e] == 0
  }

  /** One byte more. */
  lemma HashLonger(s: seq<u8>, c: u8)
    ensures Hash(s + [c]) == Wrap32(33 * Hash(s) + c)
  {
    assert (s + [c])[..|s|] == s;
  }

  /** The hash of "printf", a well-known one. */
  lemma OfPrintf()
    ensures Hash([0x70, 0x72, 0x69, 0x6e, 0x74, 0x66]) == 0x156b2bb8
  {
    HashLonger([], 0x70);
    assert [] + [0x70] == [0x70];
    assert Hash([0x70]) == 0x2b615;
    HashLonger([0x70], 0x72);
    assert [0x70] + [0x72] == [0x70, 0x72];
    assert Hash([0x70, 0x72]) == 0x597927;
    HashLonger([0x70, 0x72], 0x69);
    assert [0x70, 0x72] + [0x69] == [0x70, 0x72, 0x69];
    assert Hash([0x70, 0x72, 0x69]) == 0xb889e70;
    HashLonger([0x70, 0x72, 0x69], 0x6e);
    assert [0x70, 0x72, 0x69] + [0x6e] == [0x70, 0x72, 0x69, 0x6e];
    assert Hash([0x70, 0x72, 0x69, 0x6e]) == 0x7c9c6cde;
    HashLonger([0x70, 0x72, 0x69, 0x6e], 0x74);
    assert [0x70, 0x72, 0x69, 0x6e] + [0x74] == [0x70, 0x72, 0x69, 0x6e, 0x74];
    assert Hash([0x70, 0x72, 0x69, 0x6e, 0x74]) == 0x102a0912;
    HashLonger([0x70, 0x72, 0x69, 0x6e, 0x74], 0x66);
    assert [0x70, 0x72, 0x69, 0x6e, 0x74] + [0x66] == [0x70, 0x72, 0x69, 0x6e, 0x74, 0x66];
    assert Hash([0x70, 0x72, 0x69, 0x6e, 0x74, 0x66]) == 0x156b2bb8;
  }

  /** Number of bytes before the first NUL at or after p. */
  function StrLen(mem: seq<u8>, p: nat): (n: nat)
    requires Terminated(mem, p)
    ensures p + n < |mem| && mem[p + n] == 0
    ensures forall i :: p <= i < p + n ==> mem[i] != 0
    decreases |mem| - p
  {
    assert p < |mem|;
    if mem[p] == 0 then 0 else 1 + StrLen(mem, p + 1)
  }

  function CString(mem: seq<u8>, p: nat): seq<u8>
    requires Terminated(mem, p)
  {
    mem[p..p + StrLen(mem, p)]
  }

  // ---------------------------------------------------------------- scalar

  /** The shift and the two additions are one multiplication by 33. */
  lemma ScalarStep(h: u32, c: u8)
    ensures Wrap32(h + (Wrap32(h * 32) + c)) == Wrap32(33 * h + c)
  {
  }

  method CalculateGnuHash(mem: seq<u8>, name: nat) returns (h: u32)
    requires Terminated(mem, name)
    ensures h == Hash(CString(mem, name))
  {
    h := 5381;
    var p := name;
    ghost var n := StrLen(mem, name);
    while mem[p] != 0
      invariant name <= p <= name + n
      invariant h == Hash(mem[name..p])
      decreases |mem| - p
    {
      ScalarStep(h, mem[p]);
      assert mem[name..p + 1][..p - name] == mem[name..p];
      h := Wrap32(h + (Wrap32(h * 32) + mem[p]));
      p := p + 1;
    }
  }

  // ---------------------------------------------------------------- vectors

  datatype U32x4 = U32x4(l0: u32, l1: u32, l2: u32, l3: u32) {
    ghost function Sum(): int {
      l0 + l1 + l2 + l3
    }
  }

  type Chunk = c: seq<u8> | |c| == 8 witness [0, 0, 0, 0, 0, 0, 0, 0]

  function Load(mem: seq<u8>, p: nat): Chunk
    requires p + 8 <= |mem|
  {
    mem[p..p + 8]
  }

  function OrByte(a: u8, b: u8): u8 {
    ((a as bv8) | (b as bv8)) as int
  }

  function OrChunk(a: Chunk, b: Chunk): Chunk {
    seq(8, i requires 0 <= i < 8 => OrByte(a[i], b[i]))
  }

  /** Lane by lane product with one word, as vmulq_u32. */
  function MulQ(a: U32x4, k: u32): U32x4 {
    U32x4(Wrap32(a.l0 * k), Wrap32(a.l1 * k), Wrap32(a.l2 * k), Wrap32(a.l3 * k))
  }

  /** a + b * k lane by lane, as vmlaq_u32 with a broadcast operand. */
  function MlaQ(a: U32x4, b: U32x4, k: u32): U32x4 {
    U32x4(Wrap32(a.l0 + b.l0 * k), Wrap32(a.l1 + b.l1 * k), Wrap32(a.l2 + b.l2 * k), Wrap32(a.l3 + b.l3 * k))
  }

  /** a + c[p..p + 4] * w lane by lane: widening multiply and accumulate of four bytes. */
  function MlaBytes(a: U32x4, c: Chunk, p: nat, w: U32x4): U32x4
    requires p + 4 <= 8
  {
    U32x4(Wrap32(a.l0 + c[p] * w.l0), Wrap32(a.l1 + c[p + 1] * w.l1),
          Wrap32(a.l2 + c[p + 2] * w.l2), Wrap32(a.l3 + c[p + 3] * w.l3))
  }

  /** Lane i is 0xff when byte i is NUL and 0 otherwise, as vceq_u8 against zero. */
  function IsNul(c: Chunk): Chunk {
    seq(8, i requires 0 <= i < 8 => if c[i] == 0 then 0xff else 0)
  }

  /** The bytes in the opposite order, as vrev64_u8. */
  function Rev64(c: Chunk): Chunk {
    [c[7], c[6], c[5], c[4], c[3], c[2], c[1], c[0]]
  }

  /** The little-endian 64-bit integer with these bytes. */
  function ToU64(c: Chunk): u64 {
    (c[0] as int) + 0x100 * (c[1] as int) + 0x1_0000 * (c[2] as int) + 0x100_0000 * (c[3] as int)
    + 0x1_0000_0000 * (c[4] as int) + 0x100_0000_0000 * (c[5] as int)
    + 0x1_0000_0000_0000 * (c[6] as int) + 0x100_0000_0000_0000 * (c[7] as int)
  }

  /** Count of leading zero bits among the low `bits` bits. */
  function Clz(x: nat, bits: nat, top: nat): nat
    decreases bits
  {
    if bits == 0 || x >= top then 0 else 1 + Clz(x, bits - 1, top / 2)
  }

  function Clz64(x: u64): nat {
    Clz(x, 64, 0x8000_0000_0000_0000)
  }

  // ---------------------------------------------------------------- constants

  const STEP_0: u32 := 1
  const STEP_1: u32 := Wrap32(STEP_0 * 33)
  const STEP_2: u32 := Wrap32(STEP_1 * 33)
  const STEP_3: u32 := Wrap32(STEP_2 * 33)
  const STEP_4: u32 := Wrap32(STEP_3 * 33)
  const STEP_5: u32 := Wrap32(STEP_4 * 33)
  const STEP_6: u32 := Wrap32(STEP_5 * 33)
  const STEP_7: u32 := Wrap32(STEP_6 * 33)
  const STEP_8: u32 := Wrap32(STEP_7 * 33)
  const STEP_9: u32 := Wrap32(STEP_8 * 33)
  const STEP_10: u32 := Wrap32(STEP_9 * 33)
  const STEP_11: u32 := Wrap32(STEP_10 * 33)

  const INVERSE_33: u32 := 0x3e0f83e1
  const STEP_N1: u32 := Wrap32(STEP_0 * INVERSE_33)
  const STEP_N2: u32 := Wrap32(STEP_N1 * INVERSE_33)
  const STEP_N3: u32 := Wrap32(STEP_N2 * INVERSE_33)
  const STEP_N4: u32 := Wrap32(STEP_N3 * INVERSE_33)
  const STEP_N5: u32 := Wrap32(STEP_N4 * INVERSE_33)
  const STEP_N6: u32 := Wrap32(STEP_N5 * INVERSE_33)
  const STEP_N7: u32 := Wrap32(STEP_N6 * INVERSE_33)

  const INCLINE: U32x4 := U32x4(STEP_3, STEP_2, STEP_1, STEP_0)

  /** kInitTable, accumulator column: entry k is 5381 * 33^-k less 0xff * 33^-i for i = 1..k. */
  const INIT_0: u32 := Wrap32(5381 * STEP_0)
  const INIT_1: u32 := Wrap32(5381 * STEP_N1 - 0xff * STEP_N1)
  const INIT_2: u32 := Wrap32(5381 * STEP_N2 - 0xff * STEP_N1 - 0xff * STEP_N2)
  const INIT_3: u32 := Wrap32(5381 * STEP_N3 - 0xff * STEP_N1 - 0xff * STEP_N2 - 0xff * STEP_N3)
  const INIT_4: u32 := Wrap32(5381 * STEP_N4 - 0xff * STEP_N1 - 0xff * STEP_N2 - 0xff * STEP_N3 - 0xff * STEP_N4)
  const INIT_5: u32 := Wrap32(5381 * STEP_N5 - 0xff * STEP_N1 - 0xff * STEP_N2 - 0xff * STEP_N3 - 0xff * STEP_N4
                              - 0xff * STEP_N5)
  const INIT_6: u32 := Wrap32(5381 * STEP_N6 - 0xff * STEP_N1 - 0xff * STEP_N2 - 0xff * STEP_N3 - 0xff * STEP_N4
                              - 0xff * STEP_N5 - 0xff * STEP_N6)
  const INIT_7: u32 := Wrap32(5381 * STEP_N7 - 0xff * STEP_N1 - 0xff * STEP_N2 - 0xff * STEP_N3 - 0xff * STEP_N4
                              - 0xff * STEP_N5 - 0xff * STEP_N6 - 0xff * STEP_N7)
  const INIT_ACCUM: seq<u32> := [INIT_0, INIT_1, INIT_2, INIT_3, INIT_4, INIT_5, INIT_6, INIT_7]

  /** kInitTable, mask column: the bytes in front of the name become 0xff. */
  const IGNORE_MASK: seq<Chunk> := [
    [0, 0, 0, 0, 0, 0, 0, 0],
    [0xff, 0, 0, 0, 0, 0, 0, 0],
    [0xff, 0xff, 0, 0, 0, 0, 0, 0],
    [0xff, 0xff, 0xff, 0, 0, 0, 0, 0],
    [0xff, 0xff, 0xff, 0xff, 0, 0, 0, 0],
    [0xff, 0xff, 0xff, 0xff, 0xff, 0, 0, 0],
    [0xff, 0xff, 0xff, 0xff, 0xff, 0xff, 0, 0],
    [0xff, 0xff, 0xff, 0xff, 0xff, 0xff, 0xff, 0]
  ]

  const FINAL_STEP: seq<u32> := [
    STEP_4, STEP_0, STEP_5, STEP_1, STEP_6, STEP_2, STEP_7, STEP_3,
    STEP_8, STEP_4, STEP_9, STEP_5, STEP_10, STEP_6, STEP_11, STEP_7
  ]

  const FINAL_INCLINE: seq<u32> := [
    0, STEP_6, STEP_5, STEP_4, STEP_3, STEP_2, STEP_1, STEP_0, 0, 0, 0, 0, 0, 0, 0, 0
  ]

  function LoadWords(t: seq<u32>, p: nat): U32x4
    requires p + 4 <= |t|
  {
    U32x4(t[p], t[p + 1], t[p + 2], t[p + 3])
  }

  // ---------------------------------------------------------------- polynomials

  /** The hash without reduction: 33^|s| * h + 33^(|s|-1) * s[0] + ... + s[|s|-1]. */
  ghost function Poly(h: int, s: seq<u8>): int {
    if s == [] then h else 33 * Poly(h, s[..|s| - 1]) + s[|s| - 1]
  }

  lemma {:induction false} HashIsPoly(s: seq<u8>)
    ensures Cong(Hash(s), Poly(5381, s))
  {
    if s == [] {
      CongRefl(5381);
    } else {
      var t, c := s[..|s| - 1], s[|s| - 1] as int;
      HashIsPoly(t);
      CongScale(Hash(t), Poly(5381, t), 33);
      CongRefl(c);
      CongAdd(33 * Hash(t), 33 * Poly(5381, t), c, c);
      CongWrap(33 * Hash(t) + c);
      CongTrans(Hash(s), 33 * Hash(t) + c, Poly(5381, s));
    }
  }

  lemma {:induction false} PolyConcat(h: int, s: seq<u8>, t: seq<u8>)
    ensures Poly(h, s + t) == Poly(Poly(h, s), t)
    decreases |t|
  {
    if t == [] {
      assert s + t == s;
    } else {
      assert (s + t)[..|s + t| - 1] == s + t[..|t| - 1];
      PolyConcat(h, s, t[..|t| - 1]);
    }
  }

  lemma {:induction false} PolyCong(a: int, b: int, s: seq<u8>)
    requires Cong(a, b)
    ensures Cong(Poly(a, s), Poly(b, s))
  {
    if s != [] {
      var t, c := s[..|s| - 1], s[|s| - 1] as int;
      PolyCong(a, b, t);
      CongScale(Poly(a, t), Poly(b, t), 33);
      CongRefl(c);
      CongAdd(33 * Poly(a, t), 33 * Poly(b, t), c, c);
    }
  }

  /** One Horner step: the last byte split off. */
  lemma PolySnoc(h: int, s: seq<u8>, n: nat)
    requires n < |s|
    ensures Poly(h, s[..n + 1]) == 33 * Poly(h, s[..n]) + s[n]
  {
    assert s[..n + 1][..n] == s[..n];
  }

  /** The 0xff bytes written over what precedes the name, then the name and all that follows it. */
  ghost function Padded(mem: seq<u8>, name: nat): seq<u8>
    requires name <= |mem|
  {
    seq(name % 8, _ => 0xff) + mem[name..]
  }

  // ---------------------------------------------------------------- lane sums

  lemma CongAdd4(a0: int, b0: int, a1: int, b1: int, a2: int, b2: int, a3: int, b3: int)
    requires Cong(a0, b0) && Cong(a1, b1) && Cong(a2, b2) && Cong(a3, b3)
    ensures Cong(a0 + a1 + a2 + a3, b0 + b1 + b2 + b3)
  {
    CongAdd(a0, b0, a1, b1);
    CongAdd(a0 + a1, b0 + b1, a2, b2);
    CongAdd(a0 + a1 + a2, b0 + b1 + b2, a3, b3);
  }

  lemma SumWrapped(w: U32x4, a0: int, a1: int, a2: int, a3: int, total: int)
    requires w == U32x4(Wrap32(a0), Wrap32(a1), Wrap32(a2), Wrap32(a3))
    requires total == a0 + a1 + a2 + a3
    ensures Cong(w.Sum(), total)
  {
    CongWrap(a0);
    CongWrap(a1);
    CongWrap(a2);
    CongWrap(a3);
    CongAdd4(w.l0, a0, w.l1, a1, w.l2, a2, w.l3, a3);
  }

  lemma Distribute(k: int, a: int, b: int, c: int, d: int)
    ensures a * k + b * k + c * k + d * k == k * (a + b + c + d)
  {
  }

  lemma SumMulQ(a: U32x4, k: u32)
    ensures Cong(MulQ(a, k).Sum(), k * a.Sum())
  {
    Distribute(k, a.l0, a.l1, a.l2, a.l3);
    SumWrapped(MulQ(a, k), a.l0 * k, a.l1 * k, a.l2 * k, a.l3 * k, k * a.Sum());
  }

  lemma SumMlaQ(a: U32x4, b: U32x4, k: u32)
    ensures Cong(MlaQ(a, b, k).Sum(), a.Sum() + k * b.Sum())
  {
    Distribute(k, b.l0, b.l1, b.l2, b.l3);
    SumWrapped(MlaQ(a, b, k), a.l0 + b.l0 * k, a.l1 + b.l1 * k, a.l2 + b.l2 * k, a.l3 + b.l3 * k,
               a.Sum() + k * b.Sum());
  }

  ghost function Dot(c: Chunk, p: nat, w: U32x4): int
    requires p + 4 <= 8
  {
    c[p] * w.l0 + c[p + 1] * w.l1 + c[p + 2] * w.l2 + c[p + 3] * w.l3
  }

  lemma SumMlaBytes(a: U32x4, c: Chunk, p: nat, w: U32x4)
    requires p + 4 <= 8
    ensures Cong(MlaBytes(a, c, p, w).Sum(), a.Sum() + Dot(c, p, w))
  {
    SumWrapped(MlaBytes(a, c, p, w), a.l0 + c[p] * w.l0, a.l1 + c[p + 1] * w.l1, a.l2 + c[p + 2] * w.l2,
               a.l3 + c[p + 3] * w.l3, a.Sum() + Dot(c, p, w));
  }

  // ---------------------------------------------------------------- powers of 33

  ghost function Power33(n: nat): int {
    if n == 0 then 1 else 33 * Power33(n - 1)
  }

  /** The word for 33^n that the tables hold, n <= 11. */
  ghost function Step(n: nat): u32
    requires n <= 11
  {
    if n == 0 then STEP_0 else Wrap32(Step(n - 1) * 33)
  }

  lemma StepTable()
    ensures [Step(0), Step(1), Step(2), Step(3)] == [STEP_0, STEP_1, STEP_2, STEP_3]
    ensures [Step(4), Step(5), Step(6), Step(7)] == [STEP_4, STEP_5, STEP_6, STEP_7]
    ensures [Step(8), Step(9), Step(10), Step(11)] == [STEP_8, STEP_9, STEP_10, STEP_11]
  {
    assert Step(3) == STEP_3 && Step(6) == STEP_6 && Step(9) == STEP_9;
  }

  lemma {:induction false} StepIsPower(n: nat)
    requires n <= 11
    ensures Cong(Step(n), Power33(n))
  {
    if n == 0 {
      CongRefl(1);
    } else {
      StepIsPower(n - 1);
      CongScale(Step(n - 1), Power33(n - 1), 33);
      CongWrap(Step(n - 1) * 33);
      CongTrans(Step(n), 33 * Step(n - 1), Power33(n));
    }
  }

  lemma {:induction false} PowerAdd(m: nat, n: nat)
    ensures Power33(m + n) == Power33(m) * Power33(n)
  {
    if m > 0 {
      PowerAdd(m - 1, n);
    }
  }

  /** Scaling by the table word is scaling by the power. */
  lemma StepScale(n: nat, x: int)
    requires n <= 11
    ensures Cong(Step(n) * x, Power33(n) * x)
  {
    StepIsPower(n);
    CongScale(Step(n), Power33(n), x);
  }

  /** Value of the two accumulators: the low one is 33^4 = 1185921 behind. */
  ghost function Total(lo: int, hi: int): int {
    1185921 * lo + hi
  }

  lemma {:induction false} PolyExpand(h: int, s: seq<u8>, n: nat)
    requires n <= |s|
    ensures Poly(h, s[..n]) == Power33(n) * h + Poly(0, s[..n])
  {
    if n > 0 {
      PolySnoc(h, s, n - 1);
      PolySnoc(0, s, n - 1);
      PolyExpand(h, s, n - 1);
      assert 33 * (Power33(n - 1) * h) == Power33(n) * h;
    }
  }

  lemma PolyQuarter(h: int, c: Chunk, p: nat)
    requires p + 4 <= 8
    ensures Poly(h, c[..p + 4]) == 1185921 * Poly(h, c[..p]) + Dot(c, p, INCLINE)
  {
    PolySnoc(h, c, p);
    PolySnoc(h, c, p + 1);
    PolySnoc(h, c, p + 2);
    PolySnoc(h, c, p + 3);
    assert INCLINE == U32x4(35937, 1089, 33, 1);
  }

  /** Both accumulators scaled by 33^8 and fed d0 and d1. */
  lemma Combine(lo: int, hi: int, lo': int, hi': int, d0: int, d1: int, h: int)
    requires Cong(Total(lo, hi), h)
    requires Cong(lo', 1406408618241 * lo + d0) && Cong(hi', 1406408618241 * hi + d1)
    ensures Cong(Total(lo', hi'), 1406408618241 * h + Total(d0, d1))
  {
    CongScale(lo', 1406408618241 * lo + d0, 1185921);
    CongAdd(1185921 * lo', 1185921 * (1406408618241 * lo + d0), hi', 1406408618241 * hi + d1);
    CongScale(Total(lo, hi), h, 1406408618241);
    CongRefl(Total(d0, d1));
    CongAdd(1406408618241 * Total(lo, hi), 1406408618241 * h, Total(d0, d1), Total(d0, d1));
    CongTrans(Total(lo', hi'), 1406408618241 * Total(lo, hi) + Total(d0, d1), 1406408618241 * h + Total(d0, d1));
  }

  /** One turn of the loop consumes one chunk: m0 and m1 are the lane sums after the multiplication. */
  lemma ChunkStep(lo: int, m0: int, lo': int, hi: int, m1: int, hi': int, c: Chunk, h: int)
    requires Cong(Total(lo, hi), h)
    requires Cong(m0, 1406408618241 * lo) && Cong(lo', m0 + Dot(c, 0, INCLINE))
    requires Cong(m1, 1406408618241 * hi) && Cong(hi', m1 + Dot(c, 4, INCLINE))
    ensures Cong(Total(lo', hi'), Poly(h, c))
  {
    var d0, d1 := Dot(c, 0, INCLINE), Dot(c, 4, INCLINE);
    ScaledThenAdded(lo, m0, lo', d0);
    ScaledThenAdded(hi, m1, hi', d1);
    Combine(lo, hi, lo', hi', d0, d1, h);
    PolyOfChunk(h, c);
  }

  lemma PolyOfChunk(h: int, c: Chunk)
    ensures Poly(h, c) == 1406408618241 * h + Total(Dot(c, 0, INCLINE), Dot(c, 4, INCLINE))
  {
    assert c[..0] == [] && c[..8] == c;
    PolyQuarter(h, c, 0);
    PolyQuarter(h, c, 4);
  }

  lemma ScaledThenAdded(a: int, m: int, a': int, d: int)
    requires Cong(m, 1406408618241 * a) && Cong(a', m + d)
    ensures Cong(a', 1406408618241 * a + d)
  {
    CongRefl(d);
    CongAdd(m, 1406408618241 * a, d, d);
    CongTrans(a', m + d, 1406408618241 * a + d);
  }

  lemma SumScaled(a: U32x4)
    ensures Cong(MulQ(a, STEP_8).Sum(), 1406408618241 * a.Sum())
  {
    SumMulQ(a, STEP_8);
    ScaleByStep8(a.Sum());
    CongTrans(MulQ(a, STEP_8).Sum(), STEP_8 * a.Sum(), 1406408618241 * a.Sum());
  }

  lemma ScaleByStep8(x: int)
    ensures Cong(STEP_8 * x, 1406408618241 * x)
  {
    StepTable();
    StepScale(8, x);
    assert Power33(8) == 1406408618241;
  }

  // ---------------------------------------------------------------- chunks

  lemma FirstChunk(mem: seq<u8>, name: nat, k: nat)
    requires Terminated(mem, name) && |mem| % 8 == 0 && k == name % 8
    ensures name - k + 8 <= |mem| && 8 <= |Padded(mem, name)|
    ensures OrChunk(Load(mem, name - k), IGNORE_MASK[k]) == Padded(mem, name)[..8]
  {
    RoomForChunk(mem, name, k);
    var c, padded := OrChunk(Load(mem, name - k), IGNORE_MASK[k]), Padded(mem, name);
    forall i | 0 <= i < 8
      ensures c[i] == padded[i]
    {
      MaskedByte(mem, name, k, i);
    }
  }

  lemma RoomForChunk(mem: seq<u8>, name: nat, k: nat)
    requires Terminated(mem, name) && |mem| % 8 == 0 && k == name % 8
    ensures name - k + 8 <= |mem| && |Padded(mem, name)| == k + |mem| - name
  {
  }

  lemma MaskedByte(mem: seq<u8>, name: nat, k: nat, i: nat)
    requires k == name % 8 && name - k + 8 <= |mem| && name <= |mem| && i < 8
    ensures OrChunk(Load(mem, name - k), IGNORE_MASK[k])[i] == Padded(mem, name)[i]
  {
    IgnoreMask(k, i);
    OrMask(mem[name - k + i]);
  }

  lemma IgnoreMask(k: nat, i: nat)
    requires k < 8 && i < 8
    ensures IGNORE_MASK[k][i] == if i < k then 0xff else 0
  {
  }

  lemma OrMask(a: u8)
    ensures OrByte(a, 0xff) == 0xff && OrByte(a, 0) == a
  {
    assert (a as bv8) | 0xff == 0xff;
    assert (a as bv8) | 0 == a as bv8;
  }

  lemma NoNul(c: Chunk)
    ensures ToU64(IsNul(c)) == 0 <==> forall i :: 0 <= i < 8 ==> c[i] != 0
  {
    var z := IsNul(c);
    assert forall i :: 0 <= i < 8 ==> (z[i] == 0 <==> c[i] != 0);
  }

  lemma AlignedRoom(chunks: nat, chunk: nat, e: nat)
    requires 8 * chunk <= e < 8 * chunks
    ensures 8 * chunk + 8 <= 8 * chunks
  {
  }

  /** While no NUL has been met, the next aligned chunk still lies in memory. */
  lemma NulAhead(mem: seq<u8>, name: nat, done: nat)
    requires Terminated(mem, name) && |mem| % 8 == 0 && done % 8 == 0 && 8 <= done <= |Padded(mem, name)|
    requires forall i :: 0 <= i < done ==> Padded(mem, name)[i] != 0
    ensures name - name % 8 + done + 8 <= |mem|
    ensures Load(mem, name - name % 8 + done) == Padded(mem, name)[done..done + 8]
  {
    var e := name + StrLen(mem, name);
    assert Padded(mem, name)[e - name + name % 8] == 0;
    assert name - name % 8 == 8 * (name / 8) && done == 8 * (done / 8) && |mem| == 8 * (|mem| / 8);
    AlignedRoom(|mem| / 8, name / 8 + done / 8, e);
  }

  /** Eight zero bits more at the top. */
  lemma ClzByte(x: nat, bits: nat, top: nat)
    requires 8 <= bits && top % 256 == 0 && x < top / 128
    ensures Clz(x, bits, top) == 8 + Clz(x, bits - 8, top / 256)
  {
    assert Clz(x, bits, top) == 2 + Clz(x, bits - 2, top / 4);
    assert Clz(x, bits - 2, top / 4) == 2 + Clz(x, bits - 4, top / 16);
    assert Clz(x, bits - 4, top / 16) == 2 + Clz(x, bits - 6, top / 64);
    assert Clz(x, bits - 6, top / 64) == 2 + Clz(x, bits - 8, top / 256);
  }

  lemma {:induction false} Power256Grows(j: nat, k: nat)
    requires j <= k
    ensures Power256(j) <= Power256(k)
  {
    if j < k {
      Power256Grows(j, k - 1);
    }
  }

  lemma SkipByte(x: nat, bits: nat, q: nat)
    requires 8 <= bits && x < 256 * q
    ensures Clz(x, bits, 0x80 * (256 * q)) == 8 + Clz(x, bits - 8, 0x80 * q)
  {
    ClzByte(x, bits, 0x80 * (256 * q));
  }

  lemma {:induction false} LeadingZeroBytes(x: nat, n: nat, width: nat)
    requires n < width && 0xff * Power256(width - 1 - n) <= x < Power256(width - n)
    ensures Clz(x, 8 * width, 0x80 * Power256(width - 1)) == 8 * n
  {
    if n > 0 {
      Power256Grows(width - n, width - 1);
      SkipByte(x, 8 * width, Power256(width - 2));
      LeadingZeroBytes(x, n - 1, width - 1);
    } else {
      TopBitSet(x, 8 * width, Power256(width - 1));
    }
  }

  lemma TopBitSet(x: nat, bits: nat, p: nat)
    requires bits > 0 && x >= 0xff * p
    ensures Clz(x, bits, 0x80 * p) == 0
  {
  }

  /** The integer read from the reversed comparison result, when byte n is the first NUL. */
  lemma NulWordBounds(c: Chunk, n: nat)
    requires n < 8 && c[n] == 0 && forall i :: 0 <= i < n ==> c[i] != 0
    ensures 0xff * Power256(7 - n) <= ToU64(Rev64(IsNul(c))) < Power256(8 - n)
  {
    var z := IsNul(c);
    assert forall i :: 0 <= i < n ==> z[i] == 0;
    assert z[n] == 0xff;
    assert [Power256(0), Power256(1), Power256(2), Power256(3), Power256(4)]
        == [1, 0x100, 0x1_0000, 0x100_0000, 0x1_0000_0000];
    assert [Power256(5), Power256(6), Power256(7), Power256(8)]
        == [0x100_0000_0000, 0x1_0000_0000_0000, 0x100_0000_0000_0000, 0x1_0000_0000_0000_0000];
  }

  /** The count of leading zeros finds the first NUL. */
  lemma LeadingBytes(c: Chunk)
    requires Terminated(c, 0)
    ensures Clz64(ToU64(Rev64(IsNul(c)))) == 8 * StrLen(c, 0)
  {
    var n := StrLen(c, 0);
    NulWordBounds(c, n);
    assert Power256(7) == 0x100_0000_0000_0000;
    LeadingZeroBytes(ToU64(Rev64(IsNul(c))), n, 8);
  }

  // ---------------------------------------------------------------- tail

  /** The first k bytes under the incline window for n remaining bytes. */
  ghost function Weighed(c: Chunk, n: nat, k: nat): int
    requires n <= 7 && k <= 8
  {
    if k == 0 then 0 else Weighed(c, n, k - 1) + FINAL_INCLINE[8 - n + (k - 1)] * c[k - 1]
  }

  lemma InclineIsPower(n: nat, i: nat)
    requires n <= 7 && i < 8
    ensures FINAL_INCLINE[8 - n + i] == if i < n then Power33(n - 1 - i) else 0
  {
    InclineAt(8 - n + i);
  }

  lemma InclineAt(j: nat)
    requires j < 16
    ensures FINAL_INCLINE[j] == if 1 <= j <= 7 then Power33(7 - j) else 0
  {
    assert [Power33(6), Power33(5), Power33(4), Power33(3)] == [STEP_6, STEP_5, STEP_4, STEP_3];
    assert [Power33(2), Power33(1), Power33(0)] == [STEP_2, STEP_1, STEP_0];
  }

  lemma {:induction false} WeighedIsPoly(c: Chunk, n: nat, k: nat)
    requires n <= 7 && k <= 8
    ensures Weighed(c, n, k) == if k <= n then Power33(n - k) * Poly(0, c[..k]) else Poly(0, c[..n])
  {
    if k > 0 {
      WeighedIsPoly(c, n, k - 1);
      InclineIsPower(n, k - 1);
      if k <= n {
        PolySnoc(0, c, k - 1);
        WeighByte(Power33(n - k), Poly(0, c[..k - 1]), c[k - 1]);
      }
    }
  }

  lemma WeighByte(p: int, poly: int, b: int)
    ensures (33 * p) * poly + p * b == p * (33 * poly + b)
  {
  }

  /** The incline window for n remaining bytes weighs byte i < n with 33^(n-1-i) and the others with 0. */
  lemma TailDot(c: Chunk, n: nat)
    requires n <= 7
    ensures Dot(c, 0, LoadWords(FINAL_INCLINE, 8 - n)) + Dot(c, 4, LoadWords(FINAL_INCLINE, 12 - n))
         == Poly(0, c[..n])
  {
    WeighedIsPoly(c, n, 8);
    assert Weighed(c, n, 1) == c[0] * FINAL_INCLINE[8 - n];
    assert Weighed(c, n, 2) == c[0] * FINAL_INCLINE[8 - n] + c[1] * FINAL_INCLINE[9 - n];
    assert Weighed(c, n, 4) == Dot(c, 0, LoadWords(FINAL_INCLINE, 8 - n));
    assert Weighed(c, n, 6) == Weighed(c, n, 4) + c[4] * FINAL_INCLINE[12 - n] + c[5] * FINAL_INCLINE[13 - n];
    assert Weighed(c, n, 8) == Weighed(c, n, 4) + Dot(c, 4, LoadWords(FINAL_INCLINE, 12 - n));
  }

  lemma FinalSteps(n: nat)
    requires n <= 7
    ensures FINAL_STEP[2 * n] == Step(4 + n) && FINAL_STEP[2 * n + 1] == Step(n)
  {
    StepTable();
    FirstFinalSteps();
    LastFinalSteps();
  }

  lemma FirstFinalSteps()
    ensures FINAL_STEP[0] == STEP_4 && FINAL_STEP[1] == STEP_0 && FINAL_STEP[2] == STEP_5 && FINAL_STEP[3] == STEP_1
    ensures FINAL_STEP[4] == STEP_6 && FINAL_STEP[5] == STEP_2 && FINAL_STEP[6] == STEP_7 && FINAL_STEP[7] == STEP_3
  {
  }

  lemma LastFinalSteps()
    ensures FINAL_STEP[8] == STEP_8 && FINAL_STEP[9] == STEP_4 && FINAL_STEP[10] == STEP_9 && FINAL_STEP[11] == STEP_5
    ensures FINAL_STEP[12] == STEP_10 && FINAL_STEP[13] == STEP_6 && FINAL_STEP[14] == STEP_11
    ensures FINAL_STEP[15] == STEP_7
  {
  }

  /** After the final steps the low accumulator holds 33^n * h. */
  lemma AccumulatorsMeet(lo: U32x4, hi: U32x4, n: nat, h: int)
    requires n <= 7 && Cong(Total(lo.Sum(), hi.Sum()), h)
    ensures Cong(MlaQ(MulQ(lo, FINAL_STEP[2 * n]), hi, FINAL_STEP[2 * n + 1]).Sum(), Power33(n) * h)
  {
    FinalSum(lo, hi, n);
    assert Power33(4 + n) == 1185921 * Power33(n) by {
      PowerAdd(4, n);
      assert Power33(4) == 1185921;
    }
    CatchUp(Power33(n), lo.Sum(), hi.Sum(), MlaQ(MulQ(lo, FINAL_STEP[2 * n]), hi, FINAL_STEP[2 * n + 1]).Sum(), h);
  }

  lemma FinalSum(lo: U32x4, hi: U32x4, n: nat)
    requires n <= 7
    ensures Cong(MlaQ(MulQ(lo, FINAL_STEP[2 * n]), hi, FINAL_STEP[2 * n + 1]).Sum(),
                 Power33(4 + n) * lo.Sum() + Power33(n) * hi.Sum())
  {
    var a, b := lo.Sum(), hi.Sum();
    var s1 := MulQ(lo, Step(4 + n));
    FinalSteps(n);
    SumMulQ(lo, Step(4 + n));
    SumMlaQ(s1, hi, Step(n));
    StepScale(4 + n, a);
    StepScale(n, b);
    CongSums(s1.Sum(), MlaQ(s1, hi, Step(n)).Sum(), Step(4 + n) * a, Power33(4 + n) * a, Step(n) * b,
             Power33(n) * b);
  }

  lemma CongSums(s1: int, s2: int, x: int, x': int, y: int, y': int)
    requires Cong(s1, x) && Cong(x, x') && Cong(s2, s1 + y) && Cong(y, y')
    ensures Cong(s2, x' + y')
  {
    CongTrans(s1, x, x');
    CongAdd(s1, x', y, y');
    CongTrans(s2, s1 + y, x' + y');
  }

  lemma CatchUp(p: int, lo: int, hi: int, s: int, h: int)
    requires Cong(Total(lo, hi), h) && Cong(s, (1185921 * p) * lo + p * hi)
    ensures Cong(s, p * h)
  {
    assert (1185921 * p) * lo + p * hi == p * Total(lo, hi);
    CongScale(Total(lo, hi), h, p);
    CongTrans(s, p * Total(lo, hi), p * h);
  }

  lemma TailBytes(s: U32x4, c: Chunk, n: nat, h: int)
    requires n <= 7 && Cong(s.Sum(), h)
    ensures Cong(MlaBytes(MlaBytes(s, c, 0, LoadWords(FINAL_INCLINE, 8 - n)), c, 4,
                          LoadWords(FINAL_INCLINE, 12 - n)).Sum(), h + Poly(0, c[..n]))
  {
    var w0, w1 := LoadWords(FINAL_INCLINE, 8 - n), LoadWords(FINAL_INCLINE, 12 - n);
    var s3 := MlaBytes(s, c, 0, w0);
    var d0, d1 := Dot(c, 0, w0), Dot(c, 4, w1);
    CongRefl(d0);
    CongAdd(s.Sum(), h, d0, d0);
    SumMlaBytes(s, c, 0, w0);
    CongTrans(s3.Sum(), s.Sum() + d0, h + d0);
    CongRefl(d1);
    CongAdd(s3.Sum(), h + d0, d1, d1);
    SumMlaBytes(s3, c, 4, w1);
    CongTrans(MlaBytes(s3, c, 4, w1).Sum(), s3.Sum() + d1, h + d0 + d1);
    TailDot(c, n);
  }

  lemma InverseSteps()
    ensures [STEP_N1, STEP_N2, STEP_N3, STEP_N4] == [1041204193, 3025013697, 3605731233, 2451974017]
    ensures [STEP_N5, STEP_N6, STEP_N7] == [2286861153, 2412008257, 1895198497]
  {
    assert STEP_N1 == 1041204193;
    assert STEP_N2 == 3025013697;
    assert STEP_N3 == 3605731233;
    assert STEP_N4 == 2451974017;
    assert STEP_N5 == 2286861153;
    assert STEP_N6 == 2412008257;
    assert STEP_N7 == 1895198497;
  }

  lemma LowInitValues()
    ensures INIT_0 == 5381 && INIT_1 == 2863311686 && INIT_2 == 2169175399 && INIT_3 == 4230549352
  {
    InverseSteps();
  }

  lemma HighInitValues()
    ensures INIT_4 == 3902563657 && INIT_5 == 1159463690
  {
    InverseSteps();
  }

  lemma TopInitValues()
    ensures INIT_6 == 3679349931 && INIT_7 == 3625559596
  {
    InverseSteps();
  }

  lemma InitValues()
    ensures INIT_ACCUM == [5381, 2863311686, 2169175399, 4230549352, 3902563657, 1159463690, 3679349931, 3625559596]
  {
    LowInitValues();
    HighInitValues();
    TopInitValues();
  }

  /** One 0xff byte fed to an initial accumulator gives the one for the next lower misalignment. */
  lemma PaddingStep(k: nat)
    requires 1 <= k <= 7
    ensures Cong(33 * (INIT_ACCUM[k] as int) + 0xff, INIT_ACCUM[k - 1])
  {
    InitValues();
    var quotients := [22, 16, 32, 29, 8, 28, 27];
    assert DiffersBy(quotients[k - 1], 33 * (INIT_ACCUM[k] as int) + 0xff, INIT_ACCUM[k - 1]);
  }

  /** The initial accumulator cancels the 0xff bytes: 33 * INVERSE_33 is 1 in 32-bit words. */
  lemma {:induction false} PaddingCancels(k: nat)
    requires k <= 7
    ensures Cong(Poly(INIT_ACCUM[k], seq(k, _ => 0xff)), 5381)
  {
    if k == 0 {
      CongRefl(5381);
    } else {
      var rest: seq<u8> := seq(k - 1, _ => 0xff);
      assert seq(k, _ => 0xff) == [0xff] + rest;
      PolyConcat(INIT_ACCUM[k], [0xff], rest);
      assert Poly(INIT_ACCUM[k], [0xff]) == 33 * (INIT_ACCUM[k] as int) + 0xff;
      PaddingStep(k);
      PolyCong(33 * (INIT_ACCUM[k] as int) + 0xff, INIT_ACCUM[k - 1], rest);
      PaddingCancels(k - 1);
      CongTrans(Poly(INIT_ACCUM[k], seq(k, _ => 0xff)), Poly(INIT_ACCUM[k - 1], rest), 5381);
    }
  }

  lemma HashOfPadded(h0: u32, k: nat, name: seq<u8>)
    requires Cong(Poly(h0, seq(k, _ => 0xff)), 5381)
    ensures Cong(Poly(h0, seq(k, _ => 0xff) + name), Hash(name))
  {
    var pad := seq(k, _ => 0xff);
    PolyConcat(h0, pad, name);
    PolyCong(Poly(h0, pad), 5381, name);
    HashIsPoly(name);
    CongSym(Hash(name), Poly(5381, name));
    CongTrans(Poly(h0, pad + name), Poly(5381, name), Hash(name));
  }

  // ---------------------------------------------------------------- vectorised

  method CalculateGnuHashNeon(mem: seq<u8>, name: nat) returns (hash: u32, nameLen: u32)
    requires Terminated(mem, name)
    requires |mem| % 8 == 0
    ensures hash == Hash(CString(mem, name))
    ensures nameLen == Wrap32(|CString(mem, name)|)
  {
    var chunk, accum := FirstLoad(mem, name, name % 8);
    ghost var padded := Padded(mem, name);
    var chunkPtr, last, lo, hi, done :=
      AbsorbChunks(mem, name, name - name % 8, chunk, U32x4(0, 0, 0, 0), U32x4(accum, 0, 0, 0), padded, accum);
    hash, nameLen := Finish(mem, name, chunkPtr, last, lo, hi, padded, done, accum);
  }

  /** The loop: chunk after chunk is absorbed until one holds a NUL. */
  method AbsorbChunks(
    mem: seq<u8>, name: nat, start: nat, first: Chunk, lo0: U32x4, hi0: U32x4, ghost padded: seq<u8>, ghost h0: u32)
    returns (chunkPtr: nat, chunk: Chunk, lo: U32x4, hi: U32x4, ghost done: nat)
    requires Terminated(mem, name) && |mem| % 8 == 0 && padded == Padded(mem, name)
    requires start == name - name % 8 && start + 8 <= |mem| && Window(padded, 0, first)
    requires Cong(Total(lo0.Sum(), hi0.Sum()), Poly(h0, padded[..0]))
    ensures chunkPtr == start + done && Window(padded, done, chunk)
    ensures Cong(Total(lo.Sum(), hi.Sum()), Poly(h0, padded[..done]))
    ensures exists i :: 0 <= i < 8 && chunk[i] == 0
  {
    chunkPtr, chunk, done := start, first, 0;
    lo, hi := lo0, hi0;
    var anyNul := TestNul(chunk);
    while !anyNul
      invariant chunkPtr == start + done && chunkPtr + 8 <= |mem|
      invariant Absorbed(padded, h0, done, chunk, lo.Sum(), hi.Sum())
      invariant anyNul <==> exists i :: 0 <= i < 8 && chunk[i] == 0
      decreases |mem| - chunkPtr
    {
      chunk, lo, hi := Turn(mem, name, chunkPtr, chunk, lo, hi, padded, done, h0);
      chunkPtr, done := chunkPtr + 8, done + 8;
      anyNul := TestNul(chunk);
    }
  }

  /** The sums stand for everything in front of this chunk. */
  ghost predicate Absorbed(padded: seq<u8>, h0: u32, done: nat, chunk: Chunk, lo: int, hi: int) {
    Window(padded, done, chunk) && Cong(Total(lo, hi), Poly(h0, padded[..done]))
  }

  /** One turn: the chunk is absorbed and the next one loaded. */
  method Turn(mem: seq<u8>, name: nat, chunkPtr: nat, chunk: Chunk, lo: U32x4, hi: U32x4,
              ghost padded: seq<u8>, ghost done: nat, ghost h0: u32)
    returns (next: Chunk, lo': U32x4, hi': U32x4)
    requires Terminated(mem, name) && |mem| % 8 == 0 && padded == Padded(mem, name)
    requires chunkPtr == name - name % 8 + done && Window(padded, done, chunk)
    requires forall i :: 0 <= i < 8 ==> chunk[i] != 0
    requires Cong(Total(lo.Sum(), hi.Sum()), Poly(h0, padded[..done]))
    ensures chunkPtr + 16 <= |mem| && Window(padded, done + 8, next)
    ensures Cong(Total(lo'.Sum(), hi'.Sum()), Poly(h0, padded[..done + 8]))
  {
    ConsumeChunk(mem, name, padded, done, chunk, h0);
    lo', hi' := AbsorbChunk(lo, hi, chunk, Poly(h0, padded[..done]));
    next := Load(mem, chunkPtr + 8);
  }

  /** What follows the loop: the bytes in front of the NUL are counted and absorbed. */
  method Finish(mem: seq<u8>, name: nat, chunkPtr: nat, chunk: Chunk, lo: U32x4, hi: U32x4,
                ghost padded: seq<u8>, ghost done: nat, ghost h0: u32)
    returns (hash: u32, nameLen: u32)
    requires Terminated(mem, name) && |mem| % 8 == 0 && padded == Padded(mem, name)
    requires chunkPtr == name - name % 8 + done && Window(padded, done, chunk)
    requires Cong(Poly(h0, seq(name % 8, _ => 0xff)), 5381)
    requires Cong(Total(lo.Sum(), hi.Sum()), Poly(h0, padded[..done]))
    requires exists i :: 0 <= i < 8 && chunk[i] == 0
    ensures hash == Hash(CString(mem, name)) && nameLen == Wrap32(|CString(mem, name)|)
  {
    var numValidBits := CountValidBits(chunk);
    ghost var n := StrLen(chunk, 0);
    assert numValidBits / 8 == n;
    nameLen := Wrap32(chunkPtr - name + numValidBits / 8);
    hash := AbsorbTail(lo, hi, chunk, numValidBits, n, Poly(h0, padded[..done]));
    Conclude(mem, name, padded, done, chunk, h0, hash);
  }

  /** The first aligned chunk, the bytes in front of the name set to 0xff, and the accumulator that cancels them. */
  method FirstLoad(mem: seq<u8>, name: nat, offset: nat) returns (chunk: Chunk, accum: u32)
    requires Terminated(mem, name) && |mem| % 8 == 0 && offset == name % 8
    ensures name - offset + 8 <= |mem| && Window(Padded(mem, name), 0, chunk)
    ensures Cong(Total(U32x4(0, 0, 0, 0).Sum(), U32x4(accum, 0, 0, 0).Sum()), Poly(accum, Padded(mem, name)[..0]))
    ensures Cong(Poly(accum, seq(offset, _ => 0xff)), 5381)
  {
    FirstChunk(mem, name, offset);
    chunk := OrChunk(Load(mem, name - offset), IGNORE_MASK[offset]);
    accum := INIT_ACCUM[offset];
    PaddingCancels(offset);
    OneLane(accum);
  }

  lemma OneLane(accum: u32)
    ensures Cong(Total(U32x4(0, 0, 0, 0).Sum(), U32x4(accum, 0, 0, 0).Sum()), accum)
  {
    assert DiffersBy(0, Total(U32x4(0, 0, 0, 0).Sum(), U32x4(accum, 0, 0, 0).Sum()), accum);
  }

  method TestNul(chunk: Chunk) returns (any: bool)
    ensures any <==> exists i :: 0 <= i < 8 && chunk[i] == 0
  {
    any := ToU64(IsNul(chunk)) != 0;
    NoNul(chunk);
  }

  /** Leading zeros of the reversed comparison result: eight for every byte before the NUL. */
  method CountValidBits(chunk: Chunk) returns (numValidBits: nat)
    requires exists i :: 0 <= i < 8 && chunk[i] == 0
    ensures Terminated(chunk, 0) && numValidBits == 8 * StrLen(chunk, 0)
  {
    LeadingBytes(chunk);
    numValidBits := Clz64(ToU64(Rev64(IsNul(chunk))));
  }

  /** The body of the loop: both accumulators advance by 33^8 and take four bytes each. */
  method AbsorbChunk(lo: U32x4, hi: U32x4, chunk: Chunk, ghost h: int) returns (lo': U32x4, hi': U32x4)
    requires Cong(Total(lo.Sum(), hi.Sum()), h)
    ensures Cong(Total(lo'.Sum(), hi'.Sum()), Poly(h, chunk))
  {
    lo' := MulStep8(lo);
    hi' := MulStep8(hi);
    ghost var m0, m1 := lo'.Sum(), hi'.Sum();
    lo' := AddBytes(lo', chunk, 0);
    hi' := AddBytes(hi', chunk, 4);
    ChunkStep(lo.Sum(), m0, lo'.Sum(), hi.Sum(), m1, hi'.Sum(), chunk, h);
  }

  /** An accumulator advances by 33^8. */
  method MulStep8(a: U32x4) returns (r: U32x4)
    ensures Cong(r.Sum(), 1406408618241 * a.Sum())
  {
    r := MulQ(a, STEP_8);
    SumScaled(a);
  }

  /** An accumulator takes four bytes. */
  method AddBytes(a: U32x4, c: Chunk, p: nat) returns (r: U32x4)
    requires p + 4 <= 8
    ensures Cong(r.Sum(), a.Sum() + Dot(c, p, INCLINE))
  {
    r := MlaBytes(a, c, p, INCLINE);
    SumMlaBytes(a, c, p, INCLINE);
  }

  /** What follows the loop: the accumulators meet, and the bytes before the NUL are weighed in. */
  method AbsorbTail(lo: U32x4, hi: U32x4, chunk: Chunk, numValidBits: nat, ghost n: nat, ghost h: int)
    returns (hash: u32)
    requires Cong(Total(lo.Sum(), hi.Sum()), h)
    requires numValidBits == 8 * n && n <= 7
    ensures Cong(hash, Poly(h, chunk[..n]))
  {
    var acc := MeetAccumulators(lo, hi, numValidBits, n, h);
    acc := WeighTail(acc, chunk, 8 - numValidBits / 8, n, Power33(n) * h);
    hash := Wrap32(Wrap32(acc.l0 + acc.l2) + Wrap32(acc.l1 + acc.l3));
    HorizontalAdd(acc, hash);
    PolyExpand(h, chunk, n);
    CongTrans(hash, acc.Sum(), Poly(h, chunk[..n]));
  }

  method MeetAccumulators(lo: U32x4, hi: U32x4, numValidBits: nat, ghost n: nat, ghost h: int) returns (acc: U32x4)
    requires Cong(Total(lo.Sum(), hi.Sum()), h)
    requires numValidBits == 8 * n && n <= 7
    ensures Cong(acc.Sum(), Power33(n) * h)
  {
    acc := MulQ(lo, FINAL_STEP[numValidBits / 4]);
    acc := MlaQ(acc, hi, FINAL_STEP[numValidBits / 4 + 1]);
    AccumulatorsMeet(lo, hi, n, h);
  }

  method WeighTail(met: U32x4, chunk: Chunk, incline: nat, ghost n: nat, ghost x: int) returns (acc: U32x4)
    requires n <= 7 && incline == 8 - n && Cong(met.Sum(), x)
    ensures Cong(acc.Sum(), x + Poly(0, chunk[..n]))
  {
    acc := MlaBytes(met, chunk, 0, LoadWords(FINAL_INCLINE, incline));
    acc := MlaBytes(acc, chunk, 4, LoadWords(FINAL_INCLINE, incline + 4));
    TailBytes(met, chunk, n, x);
  }

  /** `done` NUL-free bytes of the padded text lie behind, and `chunk` holds the next eight. */
  ghost predicate Window(padded: seq<u8>, done: nat, chunk: Chunk) {
    && done % 8 == 0 && done + 8 <= |padded| && chunk == padded[done..done + 8]
    && forall i :: 0 <= i < done ==> padded[i] != 0
  }

  lemma ConsumeChunk(mem: seq<u8>, name: nat, padded: seq<u8>, done: nat, chunk: Chunk, h0: int)
    requires Terminated(mem, name) && |mem| % 8 == 0 && padded == Padded(mem, name)
    requires Window(padded, done, chunk) && forall i :: 0 <= i < 8 ==> chunk[i] != 0
    ensures name - name % 8 + done + 16 <= |mem|
    ensures Window(padded, done + 8, Load(mem, name - name % 8 + done + 8))
    ensures Poly(h0, padded[..done + 8]) == Poly(Poly(h0, padded[..done]), chunk)
  {
    assert forall i :: done <= i < done + 8 ==> padded[i] == chunk[i - done];
    NulAhead(mem, name, done + 8);
    PolyConcat(h0, padded[..done], chunk);
    assert padded[..done] + chunk == padded[..done + 8];
  }

  /** What the loop has consumed plus the tail bytes is the padding followed by the whole name. */
  lemma Conclude(mem: seq<u8>, name: nat, padded: seq<u8>, done: nat, chunk: Chunk, h0: u32, hash: u32)
    requires Terminated(mem, name) && |mem| % 8 == 0 && padded == Padded(mem, name)
    requires Cong(Poly(h0, seq(name % 8, _ => 0xff)), 5381)
    requires Window(padded, done, chunk) && Terminated(chunk, 0)
    requires Cong(hash, Poly(Poly(h0, padded[..done]), chunk[..StrLen(chunk, 0)]))
    ensures hash == Hash(CString(mem, name)) && done + StrLen(chunk, 0) == name % 8 + |CString(mem, name)|
  {
    var k, text, n := name % 8, CString(mem, name), StrLen(chunk, 0);
    PolyConcat(h0, padded[..done], chunk[..n]);
    TextFound(mem, name, done, chunk, n);
    HashOfPadded(h0, k, text);
    CongTrans(hash, Poly(h0, seq(k, _ => 0xff) + text), Hash(text));
    CongWords(hash, Hash(text));
  }

  lemma TextFound(mem: seq<u8>, name: nat, done: nat, chunk: Chunk, n: nat)
    requires Terminated(mem, name) && n < 8
    requires Window(Padded(mem, name), done, chunk) && chunk[n] == 0 && forall i :: 0 <= i < n ==> chunk[i] != 0
    ensures done + n == name % 8 + |CString(mem, name)|
    ensures Padded(mem, name)[..done] + chunk[..n] == seq(name % 8, _ => 0xff) + CString(mem, name)
  {
    var k, padded, text := name % 8, Padded(mem, name), CString(mem, name);
    assert padded[k + |text|] == 0;
    assert forall i :: 0 <= i < k ==> padded[i] == 0xff;
    assert forall i :: k <= i < k + |text| ==> padded[i] == text[i - k];
    assert forall i :: done <= i < done + n ==> padded[i] == chunk[i - done];
    assert !(done + n < k + |text|) && !(k + |text| < done + n);
    assert padded[..done + n] == seq(k, _ => 0xff) + text;
    assert padded[..done] + chunk[..n] == padded[..done + n];
  }

  lemma HorizontalAdd(sum: U32x4, hash: u32)
    requires hash == Wrap32(Wrap32(sum.l0 + sum.l2) + Wrap32(sum.l1 + sum.l3))
    ensures Cong(hash, sum.Sum())
  {
    var a, b := sum.l0 + sum.l2, sum.l1 + sum.l3;
    AddWrapped(a, b, Wrap32(a), Wrap32(b), hash);
  }

  lemma AddWrapped(a: int, b: int, x: u32, y: u32, z: u32)
    requires x == Wrap32(a) && y == Wrap32(b) && z == Wrap32(x + y)
    ensures Cong(z, a + b)
  {
    CongWrap(a);
    CongWrap(b);
    CongAdd(x, a, y, b);
    CongWrap(x + y);
    CongTrans(z, x + y, a + b);
  }
}
