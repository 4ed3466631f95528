/** Byte-addressed memory of the process, with little-endian words. */
module Memory {
  import opened Powers
  import opened Words
  import opened Pages

  /** Size of a 64-bit word. */
  const WORD: nat := 8

  /** The mapped addresses and the byte at each of them. */
  type Bytes = map<int, u8>

  /** The n bytes at a are mapped. */
  ghost predicate Mapped(m: Bytes, a: int, n: nat) {
    forall k :: a <= k < a + n ==> k in m
  }

  function ReadBytes(m: Bytes, a: int, n: nat): (bs: seq<u8>)
    requires Mapped(m, a, n)
    ensures |bs| == n
  {
    seq(n, i requires 0 <= i < n => m[a + i])
  }

  function WriteBytes(m: Bytes, a: int, bs: seq<u8>): (m': Bytes)
    ensures m'.Keys == m.Keys
  {
    map k | k in m :: if a <= k < a + |bs| then bs[k - a] else m[k]
  }

  function ByteAt(v: nat, i: nat): u8
    decreases i
  {
    if i == 0 then v % 256 else ByteAt(v / 256, i - 1)
  }

  /** The low n bytes of v, least significant first. */
  function ToBytes(v: nat, n: nat): (bs: seq<u8>)
    ensures |bs| == n
  {
    seq(n, i requires 0 <= i < n => ByteAt(v, i))
  }

  function FromBytes(bs: seq<u8>): nat {
    if bs == [] then 0 else bs[0] + 256 * FromBytes(bs[1..])
  }

  lemma {:induction false} BytesRoundTrip(v: nat, n: nat)
    requires v < Power256(n)
    ensures FromBytes(ToBytes(v, n)) == v
    decreases n
  {
    if n > 0 {
      assert ToBytes(v, n)[1..] == ToBytes(v / 256, n - 1);
      BytesRoundTrip(v / 256, n - 1);
    }
  }

  lemma {:induction false} FromBytesBound(bs: seq<u8>)
    ensures FromBytes(bs) < Power256(|bs|)
  {
    if bs != [] {
      FromBytesBound(bs[1..]);
    }
  }

  lemma Power256OfWord()
    ensures Power256(WORD) == 0x1_0000_0000_0000_0000
  {
    assert Power256(WORD) == Power256(8);
    assert Power256(4) == 0x1_0000_0000;
  }

  function Read64(m: Bytes, a: int): u64
    requires Mapped(m, a, WORD)
  {
    FromBytesBound(ReadBytes(m, a, WORD));
    Power256OfWord();
    FromBytes(ReadBytes(m, a, WORD))
  }

  /** The four bytes at a. */
  function Read32(m: Bytes, a: int): nat
    requires Mapped(m, a, 4)
  {
    FromBytes(ReadBytes(m, a, 4))
  }

  /** Of a word of which four bytes were written the lower half is there. */
  lemma ReadBackHalf(m: Bytes, a: int, v: u64)
    requires Mapped(m, a, 4)
    ensures Read32(WriteBytes(m, a, ToBytes(v, 4)), a) == v % 0x1_0000_0000
  {
    var bs := ToBytes(v, 4);
    assert ReadBytes(WriteBytes(m, a, bs), a, 4) == bs;
    LowHalf(v);
  }

  lemma LowHalf(v: nat)
    ensures FromBytes(ToBytes(v, 4)) == v % 0x1_0000_0000
  {
    var v1, v2, v3 := v / 256, v / 256 / 256, v / 256 / 256 / 256;
    LowByte(v, 4);
    LowByte(v1, 3);
    LowByte(v2, 2);
    LowByte(v3, 1);
    assert FromBytes(ToBytes(v3 / 256, 0)) == 0;
    FourDigits(v, v1, v2, v3, v3 / 256, v % 256, v1 % 256, v2 % 256, v3 % 256);
  }

  lemma LowByte(v: nat, n: nat)
    requires n > 0
    ensures FromBytes(ToBytes(v, n)) == v % 256 + 256 * FromBytes(ToBytes(v / 256, n - 1))
  {
    assert ToBytes(v, n)[1..] == ToBytes(v / 256, n - 1);
  }

  lemma FourDigits(v: nat, v1: nat, v2: nat, v3: nat, v4: nat, a: u8, b: u8, c: u8, d: u8)
    requires v == 256 * v1 + a && v1 == 256 * v2 + b && v2 == 256 * v3 + c && v3 == 256 * v4 + d
    ensures a + 256 * (b + 256 * (c + 256 * d)) == v % 0x1_0000_0000
  {
    var low: int := a + 256 * (b + 256 * (c + 256 * d));
    assert v == v4 * 0x1_0000_0000 + low;
  }

  /** Memory that agrees on four bytes agrees on the half word. */
  lemma SameHalfWord(m: Bytes, m': Bytes, a: int)
    requires Mapped(m, a, 4) && Mapped(m', a, 4) && forall k :: a <= k < a + 4 ==> m[k] == m'[k]
    ensures Read32(m, a) == Read32(m', a)
  {
    assert ReadBytes(m, a, 4) == ReadBytes(m', a, 4);
  }

  /** The least significant byte comes first. */
  lemma {:induction false} LittleEndian(v: nat, n: nat, i: nat)
    requires i < n
    ensures ToBytes(v, n)[i] == v / Power256(i) % 256
  {
    if i > 0 {
      LittleEndian(v / 256, n, i - 1);
      Nested(v, Power256(i - 1));
    }
  }

  lemma Nested(v: nat, p: nat)
    requires p > 0
    ensures v / 256 / p == v / (256 * p)
  {
    var q := v / (256 * p);
    var r := v % (256 * p);
    assert v == 256 * (p * q) + r;
    assert v / 256 == p * q + r / 256;
    assert r / 256 < p;
    Quotient(v / 256, p, q, r / 256);
  }

  function Write64(m: Bytes, a: int, v: u64): (m': Bytes)
    ensures m'.Keys == m.Keys
  {
    WriteBytes(m, a, ToBytes(v, WORD))
  }

  lemma ReadBack(m: Bytes, a: int, v: u64)
    requires Mapped(m, a, WORD)
    ensures Read64(Write64(m, a, v), a) == v
  {
    Power256OfWord();
    BytesRoundTrip(v, WORD);
    assert ReadBytes(Write64(m, a, v), a, WORD) == ToBytes(v, WORD);
  }

  /** A word whose eight bytes all agree reads the same. */
  lemma SameWord(m: Bytes, m': Bytes, a: int)
    requires Mapped(m, a, WORD) && Mapped(m', a, WORD) && forall k :: a <= k < a + WORD ==> m[k] == m'[k]
    ensures Read64(m, a) == Read64(m', a)
  {
    assert ReadBytes(m, a, WORD) == ReadBytes(m', a, WORD);
  }
}
