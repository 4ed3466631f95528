/**
 The table-driven CRC of the XZ decoder, for any register width: CRC32 with the IEEE 802.3
 polynomial and CRC64 with the ECMA-182 polynomial are its two instances. A register is the
 sequence of its bits, least significant first.
 */
module Crc {
  import opened Powers
  import opened Words
  import Bitwise

  type Register = seq<bool>

  // ---------------------------------------------------------------- registers

  function Zero(n: nat): (r: Register)
    ensures |r| == n
  {
    seq(n, _ => false)
  }

  function Xor(a: Register, b: Register): (r: Register)
    requires |a| == |b|
    ensures |r| == |a|
  {
    seq(|a|, i requires 0 <= i < |a| => a[i] != b[i])
  }

  function And(a: Register, b: Register): (r: Register)
    requires |a| == |b|
    ensures |r| == |a|
  {
    seq(|a|, i requires 0 <= i < |a| => a[i] && b[i])
  }

  function Not(a: Register): (r: Register)
    ensures |r| == |a|
  {
    seq(|a|, i requires 0 <= i < |a| => !a[i])
  }

  function ShiftRight(a: Register, n: nat): (r: Register)
    requires n <= |a|
    ensures |r| == |a|
  {
    a[n..] + Zero(n)
  }

  /** Subtraction of one, the borrow running up from the low end. */
  function MinusOne(a: Register): (r: Register)
    ensures |r| == |a|
  {
    if a == [] then [] else if a[0] then [false] + a[1..] else [true] + MinusOne(a[1..])
  }

  function FromNat(x: nat, width: nat): (r: Register)
    ensures |r| == width
    decreases width
  {
    if width == 0 then [] else [x % 2 == 1] + FromNat(x / 2, width - 1)
  }

  function ToNat(a: Register): nat {
    if a == [] then 0 else (if a[0] then 1 else 0) + 2 * ToNat(a[1..])
  }

  /** Zero extension to a register of the given width. */
  function Extend(a: Register, width: nat): (r: Register)
    requires |a| <= width
    ensures |r| == width
  {
    a + Zero(width - |a|)
  }

  // ---------------------------------------------------------------- meaning

  /** A reflected generator polynomial: its constant term is the top bit of the register. */
  ghost predicate Generator(poly: Register) {
    |poly| >= 8 && poly[|poly| - 1]
  }

  /** Serial division: one message bit enters, and poly is subtracted when the outgoing bit is 1. */
  function FeedBit(poly: Register, r: Register, bit: bool): (r': Register)
    requires |r| == |poly| > 0
    ensures |r'| == |poly|
  {
    if r[0] != bit then Xor(ShiftRight(r, 1), poly) else ShiftRight(r, 1)
  }

  function FeedBits(poly: Register, r: Register, bits: seq<bool>): (r': Register)
    requires |r| == |poly| > 0
    ensures |r'| == |poly|
    decreases |bits|
  {
    if bits == [] then r else FeedBits(poly, FeedBit(poly, r, bits[0]), bits[1..])
  }

  /** The bits of the message, every byte least significant bit first. */
  function Bits(buf: seq<u8>): (bits: seq<bool>)
    ensures |bits| == 8 * |buf|
  {
    if buf == [] then [] else FromNat(buf[0], 8) + Bits(buf[1..])
  }

  /** The check value: the register is inverted before and after. */
  function Crc(poly: Register, buf: seq<u8>, crc: Register): (r: Register)
    requires |crc| == |poly| > 0
    ensures |r| == |poly|
  {
    Not(FeedBits(poly, Not(crc), Bits(buf)))
  }

  // ---------------------------------------------------------------- table

  /** The bit step of a register that no message bit enters. */
  function Step(poly: Register, r: Register): (r': Register)
    requires |r| == |poly| > 0
    ensures |r'| == |poly|
  {
    FeedBit(poly, r, false)
  }

  function Steps(poly: Register, r: Register, n: nat): (r': Register)
    requires |r| == |poly| > 0
    ensures |r'| == |poly|
    decreases n
  {
    if n == 0 then r else Step(poly, Steps(poly, r, n - 1))
  }

  ghost predicate IsTable(poly: Register, table: array<Register>)
    requires |poly| >= 8
    reads table
  {
    && table.Length == 256
    && forall i {:trigger table[i]} :: 0 <= i < 256 ==> table[i] == Steps(poly, FromNat(i, |poly|), 8)
  }

  method Init(poly: Register, table: array<Register>)
    requires |poly| >= 8 && table.Length == 256
    modifies table
    ensures IsTable(poly, table)
  {
    var width := |poly|;
    for i := 0 to 256
      invariant forall k {:trigger table[k]} :: 0 <= k < i ==> table[k] == Steps(poly, FromNat(k, width), 8)
    {
      var r := FromNat(i, width);
      for j := 0 to 8
        invariant |r| == width && r == Steps(poly, FromNat(i, width), j)
        modifies {}
      {
        MaskIsBranch(poly, r);
        var mask := Not(MinusOne(And(r, FromNat(1, width))));
        r := Xor(ShiftRight(r, 1), And(poly, mask));
      }
      table[i] := r;
    }
  }

  method Calculate(poly: Register, table: array<Register>, buf: seq<u8>, init: Register) returns (crc: Register)
    requires |poly| >= 8 && IsTable(poly, table) && |init| == |poly|
    ensures crc == Crc(poly, buf, init)
  {
    crc := Not(init);
    var p := 0;
    assert buf[0..] == buf;
    while p < |buf|
      invariant p <= |buf| && |crc| == |poly|
      invariant FeedBits(poly, crc, Bits(buf[p..])) == FeedBits(poly, Not(init), Bits(buf))
    {
      FeedConcat(poly, crc, FromNat(buf[p], 8), Bits(buf[p + 1..]));
      assert buf[p..][1..] == buf[p + 1..];
      crc := Lookup(poly, table, crc, buf[p]);
      p := p + 1;
    }
    crc := Not(crc);
  }

  /** The body of the loop: one lookup feeds the eight bits of one byte. */
  method Lookup(poly: Register, table: array<Register>, crc: Register, b: u8) returns (next: Register)
    requires |poly| >= 8 && IsTable(poly, table) && |crc| == |poly|
    ensures next == FeedBits(poly, crc, FromNat(b, 8))
  {
    var index := Xor(FromNat(b, 8), crc[..8]);
    IndexInRange(index);
    next := Xor(table[ToNat(index)], ShiftRight(crc, 8));
    TableByte(poly, crc, FromNat(b, 8));
    IndexRoundTrip(index, |poly|);
  }

  // ---------------------------------------------------------------- numbers and registers

  lemma {:induction false} IndexInRange(a: Register)
    requires |a| <= 8
    ensures ToNat(a) < [1, 2, 4, 8, 16, 32, 64, 128, 256][|a|]
  {
    if a != [] {
      IndexInRange(a[1..]);
    }
  }

  lemma {:induction false} FromZero(width: nat)
    ensures FromNat(0, width) == Zero(width)
  {
    if width > 0 {
      FromZero(width - 1);
    }
  }

  /** A register read as a number and written back is extended by zeros. */
  lemma {:induction false} IndexRoundTrip(a: Register, width: nat)
    requires |a| <= width
    ensures FromNat(ToNat(a), width) == Extend(a, width)
    decreases |a|
  {
    if a == [] {
      FromZero(width);
    } else {
      IndexRoundTrip(a[1..], width - 1);
    }
  }

  lemma {:induction false} MinusOneOfZero(n: nat)
    ensures MinusOne(Zero(n)) == seq(n, _ => true)
  {
    if n > 0 {
      assert Zero(n)[1..] == Zero(n - 1);
      MinusOneOfZero(n - 1);
    }
  }

  /** Decrementing the isolated low bit: all zeros when it is set, all ones when it is clear. */
  lemma MaskValue(r: Register)
    requires r != []
    ensures Not(MinusOne(And(r, FromNat(1, |r|)))) == seq(|r|, _ => r[0])
  {
    var n := |r|;
    FromOne(1, n);
    AndBit(r);
    MinusOneOfBit(r[0], n - 1);
  }

  lemma FromOne(x: nat, n: nat)
    requires x == 1 && n > 0
    ensures FromNat(x, n) == [true] + Zero(n - 1)
  {
    FromZero(n - 1);
  }

  lemma AndBit(r: Register)
    requires r != []
    ensures And(r, [true] + Zero(|r| - 1)) == [r[0]] + Zero(|r| - 1)
  {
  }

  lemma MinusOneOfBit(bit: bool, n: nat)
    ensures Not(MinusOne([bit] + Zero(n))) == seq(n + 1, _ => bit)
  {
    var low := [bit] + Zero(n);
    assert low[1..] == Zero(n);
    MinusOneOfZero(n);
    assert MinusOne(low) == [!bit] + seq(n, _ => !bit);
  }

  /** The arithmetic mask of the generator loop selects poly exactly when the low bit is set. */
  lemma MaskIsBranch(poly: Register, r: Register)
    requires |r| == |poly| > 0
    ensures Xor(ShiftRight(r, 1), And(poly, Not(MinusOne(And(r, FromNat(1, |poly|)))))) == Step(poly, r)
  {
    MaskValue(r);
    assert And(poly, seq(|r|, _ => r[0])) == if r[0] then poly else Zero(|r|);
    assert Xor(ShiftRight(r, 1), Zero(|r|)) == ShiftRight(r, 1);
  }

  // ---------------------------------------------------------------- the bit step is linear and invertible

  lemma StepLinear(poly: Register, x: Register, y: Register)
    requires |x| == |y| == |poly| > 0
    ensures Step(poly, Xor(x, y)) == Xor(Step(poly, x), Step(poly, y))
  {
  }

  lemma {:induction false} StepsLinear(poly: Register, x: Register, y: Register, n: nat)
    requires |x| == |y| == |poly| > 0
    ensures Steps(poly, Xor(x, y), n) == Xor(Steps(poly, x, n), Steps(poly, y, n))
    decreases n
  {
    if n > 0 {
      StepsLinear(poly, x, y, n - 1);
      StepLinear(poly, Steps(poly, x, n - 1), Steps(poly, y, n - 1));
    }
  }

  lemma FeedBitInjective(poly: Register, x: Register, y: Register, bit: bool)
    requires Generator(poly) && |x| == |y| == |poly|
    requires FeedBit(poly, x, bit) == FeedBit(poly, y, bit)
    ensures x == y
  {
    var n := |poly|;
    var x', y' := FeedBit(poly, x, bit), FeedBit(poly, y, bit);
    assert x'[n - 1] == (x[0] != bit) && y'[n - 1] == (y[0] != bit);
    forall i | 1 <= i < n
      ensures x[i] == y[i]
    {
      assert x'[i - 1] == (x[i] != ((x[0] != bit) && poly[i - 1]));
      assert y'[i - 1] == (y[i] != ((y[0] != bit) && poly[i - 1]));
    }
  }

  lemma {:induction false} FeedInjective(poly: Register, x: Register, y: Register, bits: seq<bool>)
    requires Generator(poly) && |x| == |y| == |poly|
    requires FeedBits(poly, x, bits) == FeedBits(poly, y, bits)
    ensures x == y
    decreases |bits|
  {
    if bits != [] {
      FeedInjective(poly, FeedBit(poly, x, bits[0]), FeedBit(poly, y, bits[0]), bits[1..]);
      FeedBitInjective(poly, x, y, bits[0]);
    }
  }

  lemma {:induction false} StepsInjective(poly: Register, x: Register, y: Register, n: nat)
    requires Generator(poly) && |x| == |y| == |poly|
    requires Steps(poly, x, n) == Steps(poly, y, n)
    ensures x == y
    decreases n
  {
    if n > 0 {
      FeedBitInjective(poly, Steps(poly, x, n - 1), Steps(poly, y, n - 1), false);
      StepsInjective(poly, x, y, n - 1);
    }
  }

  lemma {:induction false} StepsFront(poly: Register, r: Register, n: nat)
    requires |r| == |poly| > 0
    ensures Steps(poly, Step(poly, r), n) == Steps(poly, r, n + 1)
    decreases n
  {
    if n > 0 {
      StepsFront(poly, r, n - 1);
    }
  }

  // ---------------------------------------------------------------- feeding several bits at once

  lemma {:induction false} FeedConcat(poly: Register, r: Register, s: seq<bool>, t: seq<bool>)
    requires |r| == |poly| > 0
    ensures FeedBits(poly, r, s + t) == FeedBits(poly, FeedBits(poly, r, s), t)
    decreases |s|
  {
    if s == [] {
      assert s + t == t;
    } else {
      assert (s + t)[1..] == s[1..] + t;
      FeedConcat(poly, FeedBit(poly, r, s[0]), s[1..], t);
    }
  }

  /** The first bit and the others as two registers. */
  lemma SplitWindow(r: Register, bits: seq<bool>, n: nat)
    requires 0 < |bits| <= n == |r|
    ensures Xor(r, Extend(bits, n)) == Xor(Xor(r, Extend(bits[..1], n)), Extend([false] + bits[1..], n))
  {
  }

  lemma StepWindow(poly: Register, r: Register, bits: seq<bool>)
    requires 0 < |bits| <= |poly| == |r|
    ensures Step(poly, Xor(r, Extend(bits, |poly|)))
         == Xor(FeedBit(poly, r, bits[0]), Extend(bits[1..], |poly|))
  {
    var n := |poly|;
    var first, rest := Extend(bits[..1], n), Extend([false] + bits[1..], n);
    assert bits[..1] == [bits[0]];
    SplitWindow(r, bits, n);
    StepLinear(poly, Xor(r, first), rest);
    MixedFirst(r, bits[0], first);
    assert Step(poly, rest) == Extend(bits[1..], n);
  }

  /** A bit mixed into the low end is gone after one shift. */
  lemma MixedFirst(r: Register, bit: bool, first: Register)
    requires r != [] && first == Extend([bit], |r|)
    ensures ShiftRight(Xor(r, first), 1) == ShiftRight(r, 1) && Xor(r, first)[0] == (r[0] != bit)
  {
    forall i | 0 < i < |r|
      ensures Xor(r, first)[i] == r[i]
    {
      assert !first[i];
    }
  }

  /** Up to a register's width of message bits act as if added to the register before all their steps. */
  lemma {:induction false} FeedWindow(poly: Register, r: Register, bits: seq<bool>)
    requires |bits| <= |poly| == |r| && |poly| > 0
    ensures FeedBits(poly, r, bits) == Steps(poly, Xor(r, Extend(bits, |poly|)), |bits|)
    decreases |bits|
  {
    var n := |poly|;
    if bits == [] {
      assert Xor(r, Zero(n)) == r;
    } else {
      FeedWindow(poly, FeedBit(poly, r, bits[0]), bits[1..]);
      StepWindow(poly, r, bits);
      StepsFront(poly, Xor(r, Extend(bits, n)), |bits| - 1);
    }
  }

  /** While only zeros leave the register, stepping is shifting. */
  lemma {:induction false} StepsShift(poly: Register, r: Register, n: nat)
    requires n <= |r| == |poly| && |poly| > 0 && forall i :: 0 <= i < n ==> !r[i]
    ensures Steps(poly, r, n) == ShiftRight(r, n)
    decreases n
  {
    if n > 0 {
      StepsShift(poly, r, n - 1);
      assert !ShiftRight(r, n - 1)[0];
    }
  }

  /** The low byte through the table, the rest shifted, is eight steps of serial division. */
  lemma TableByte(poly: Register, r: Register, b: Register)
    requires |r| == |poly| >= 8 && |b| == 8
    ensures Xor(Steps(poly, Extend(Xor(b, r[..8]), |poly|), 8), ShiftRight(r, 8)) == FeedBits(poly, r, b)
  {
    var n := |poly|;
    var low, high := Extend(Xor(b, r[..8]), n), Zero(8) + r[8..];
    FeedWindow(poly, r, b);
    LowAndHigh(r, b);
    StepsLinear(poly, low, high, 8);
    StepsShift(poly, high, 8);
  }

  /** The register with a byte mixed in is its low byte, mixed, and the rest. */
  lemma LowAndHigh(r: Register, b: Register)
    requires |r| >= 8 && |b| == 8
    ensures Xor(r, Extend(b, |r|)) == Xor(Extend(Xor(b, r[..8]), |r|), Zero(8) + r[8..])
    ensures ShiftRight(Zero(8) + r[8..], 8) == ShiftRight(r, 8)
  {
  }

  // ---------------------------------------------------------------- continuing

  lemma {:induction false} BitsConcat(a: seq<u8>, b: seq<u8>)
    ensures Bits(a + b) == Bits(a) + Bits(b)
  {
    if a == [] {
      assert a + b == b;
    } else {
      assert (a + b)[1..] == a[1..] + b;
      BitsConcat(a[1..], b);
    }
  }

  lemma NotNot(a: Register)
    ensures Not(Not(a)) == a
  {
  }

  /** A check value continues: the second buffer starts from the value of the first. */
  lemma Continues(poly: Register, a: seq<u8>, b: seq<u8>, crc: Register)
    requires |crc| == |poly| > 0
    ensures Crc(poly, a + b, crc) == Crc(poly, b, Crc(poly, a, crc))
  {
    BitsConcat(a, b);
    FeedConcat(poly, Not(crc), Bits(a), Bits(b));
    NotNot(FeedBits(poly, Not(crc), Bits(a)));
  }

  // ---------------------------------------------------------------- error detection

  /** A burst of at most |poly| bits, wherever it starts, changes the register that the message leaves. */
  lemma FeedDetectsBurst(poly: Register, r: Register, head: seq<bool>, w: seq<bool>, v: seq<bool>, tail: seq<bool>)
    requires Generator(poly) && |r| == |poly| && |w| == |v| <= |poly| && w != v
    ensures FeedBits(poly, r, head + w + tail) != FeedBits(poly, r, head + v + tail)
  {
    var s := FeedBits(poly, r, head);
    FeedThree(poly, r, head, w, tail);
    FeedThree(poly, r, head, v, tail);
    FeedDistinct(poly, s, w, v);
    if FeedBits(poly, FeedBits(poly, s, w), tail) == FeedBits(poly, FeedBits(poly, s, v), tail) {
      FeedInjective(poly, FeedBits(poly, s, w), FeedBits(poly, s, v), tail);
    }
  }

  lemma FeedDistinct(poly: Register, r: Register, w: seq<bool>, v: seq<bool>)
    requires Generator(poly) && |r| == |poly| && |w| == |v| <= |poly| && w != v
    ensures FeedBits(poly, r, w) != FeedBits(poly, r, v)
  {
    if FeedBits(poly, r, w) == FeedBits(poly, r, v) {
      FeedWindow(poly, r, w);
      FeedWindow(poly, r, v);
      StepsInjective(poly, Xor(r, Extend(w, |r|)), Xor(r, Extend(v, |r|)), |w|);
      WindowInjective(r, w, v);
    }
  }

  lemma WindowInjective(s: Register, w: seq<bool>, v: seq<bool>)
    requires |w| == |v| <= |s| && Xor(s, Extend(w, |s|)) == Xor(s, Extend(v, |s|))
    ensures w == v
  {
    var x, y := Xor(s, Extend(w, |s|)), Xor(s, Extend(v, |s|));
    forall i | 0 <= i < |w|
      ensures w[i] == v[i]
    {
      assert x[i] == (s[i] != w[i]) && y[i] == (s[i] != v[i]);
    }
  }

  lemma FeedThree(poly: Register, r: Register, head: seq<bool>, w: seq<bool>, tail: seq<bool>)
    requires |r| == |poly| > 0
    ensures FeedBits(poly, r, head + w + tail)
         == FeedBits(poly, FeedBits(poly, FeedBits(poly, r, head), w), tail)
  {
    FeedConcat(poly, r, head + w, tail);
    FeedConcat(poly, r, head, w);
  }

  lemma {:induction false} ValueFromBits(x: nat, y: nat, width: nat)
    requires x < Power2(width) && y < Power2(width) && x != y
    ensures FromNat(x, width) != FromNat(y, width)
    decreases width
  {
    var a, b := FromNat(x, width), FromNat(y, width);
    assert width > 0 && a[0] == (x % 2 == 1) && b[0] == (y % 2 == 1);
    if x / 2 != y / 2 {
      ValueFromBits(x / 2, y / 2, width - 1);
      assert a[1..] == FromNat(x / 2, width - 1) && b[1..] == FromNat(y / 2, width - 1);
    }
  }

  lemma FirstByte(a: seq<u8>)
    requires a != []
    ensures Bits(a)[..8] == FromNat(a[0], 8) && Bits(a)[8..] == Bits(a[1..])
  {
  }

  lemma {:induction false} BitsInjective(a: seq<u8>, b: seq<u8>)
    requires |a| == |b| && a != b
    ensures Bits(a) != Bits(b)
  {
    FirstByte(a);
    FirstByte(b);
    if a[0] != b[0] {
      assert Power2(8) == 256;
      ValueFromBits(a[0], b[0], 8);
    } else {
      assert a == [a[0]] + a[1..] && b == [b[0]] + b[1..];
      BitsInjective(a[1..], b[1..]);
    }
  }

  /** Two messages that differ only inside a window of at most |poly| / 8 bytes have different check values. */
  lemma DetectsBurst(poly: Register, head: seq<u8>, w: seq<u8>, v: seq<u8>, tail: seq<u8>, crc: Register)
    requires Generator(poly) && |crc| == |poly|
    requires |w| == |v| && 8 * |w| <= |poly| && w != v
    ensures Crc(poly, head + w + tail, crc) != Crc(poly, head + v + tail, crc)
  {
    BitsConcat(head + w, tail);
    BitsConcat(head, w);
    BitsConcat(head + v, tail);
    BitsConcat(head, v);
    BitsInjective(w, v);
    FeedDetectsBurst(poly, Not(crc), Bits(head), Bits(w), Bits(v), Bits(tail));
    NotNot(FeedBits(poly, Not(crc), Bits(head + w + tail)));
    NotNot(FeedBits(poly, Not(crc), Bits(head + v + tail)));
  }

  // ---------------------------------------------------------------- the two instances

  const POLY_32: Register := FromNat(0xEDB88320, 32)
  const POLY_64: Register := FromNat(0xC96C5795D7870F42, 64)

  lemma {:induction false} TopBit(x: nat, width: nat)
    requires width > 0 && Power2(width - 1) <= x < Power2(width)
    ensures FromNat(x, width)[width - 1]
    decreases width
  {
    if width > 1 {
      TopBit(x / 2, width - 1);
      assert FromNat(x, width)[1..] == FromNat(x / 2, width - 1);
    }
  }

  /** Both polynomials are generators, so every result above holds of CRC32 and of CRC64. */
  lemma Instances()
    ensures Generator(POLY_32) && |POLY_32| == 32 && Generator(POLY_64) && |POLY_64| == 64
    ensures POLY_32 == FromNat(0xEDB8_8320, 32) && POLY_64 == FromNat(0xC96C_5795_D787_0F42, 64)
  {
    assert Power2(15) == 0x8000;
    assert Power2(31) == 0x8000_0000 by { Power2Add(15, 16); }
    assert Power2(63) == 0x8000_0000_0000_0000 by { Power2Add(31, 32); Power2Add(31, 1); }
    TopBit(0xEDB88320, 32);
    TopBit(0xC96C5795D7870F42, 64);
  }

  // ---------------------------------------------------------------- polynomials modulo 2

  /**
   The product of two polynomials modulo 2, coefficients of higher powers first: the sum of the multiples of p by the
   powers of x that q has.
   */
  ghost function Product(q: seq<bool>, p: seq<bool>): (r: seq<bool>)
    requires p != []
    ensures |r| == |q| + |p| - 1
  {
    if q == [] then Zero(|p| - 1)
    else Sum((if q[0] then p else Zero(|p|)) + Zero(|q| - 1), [false] + Product(q[1..], p))
  }

  ghost function Sum(a: seq<bool>, b: seq<bool>): (r: seq<bool>)
    requires |a| == |b|
    ensures |r| == |a| && forall i :: 0 <= i < |a| ==> r[i] == (a[i] != b[i])
  {
    seq(|a|, i requires 0 <= i < |a| => a[i] != b[i])
  }

  /** The generator: x to the power of the width, and what poly holds of lower powers. */
  ghost function Divisor(poly: Register): (p: seq<bool>)
    ensures |p| == |poly| + 1
  {
    [true] + poly
  }

  /**
   r is what is left of the message when it is followed by a register's width of zeros, has `init` added in front,
   and multiples of the generator are subtracted: q says which.
   */
  ghost predicate Remainder(poly: Register, init: Register, bits: seq<bool>, q: seq<bool>, r: Register)
    requires |poly| == |init| == |r|
  {
    && |q| == |bits|
    && Sum(bits + Zero(|poly|), init + Zero(|bits|)) == Sum(Product(q, Divisor(poly)), Zero(|bits|) + r)
  }

  /** Feeding a message is dividing it. */
  lemma {:induction false} FeedDivides(poly: Register, init: Register, bits: seq<bool>) returns (q: seq<bool>)
    requires |init| == |poly| > 0
    ensures Remainder(poly, init, bits, q, FeedBits(poly, init, bits))
    decreases |bits|
  {
    if bits == [] {
      q := [];
      assert bits + Zero(|poly|) == Zero(|poly|) && init + Zero(0) == init && Zero(0) + init == init;
    } else {
      var rest := FeedDivides(poly, FeedBit(poly, init, bits[0]), bits[1..]);
      q := [init[0] != bits[0]] + rest;
      OneBitDivided(poly, init, bits, q, FeedBits(poly, init, bits));
    }
  }

  lemma OneBitDivided(poly: Register, init: Register, bits: seq<bool>, q: seq<bool>, r: Register)
    requires |init| == |poly| == |r| > 0 && bits != [] && q != [] && q[0] == (init[0] != bits[0])
    requires Remainder(poly, FeedBit(poly, init, bits[0]), bits[1..], q[1..], r)
    ensures Remainder(poly, init, bits, q, r)
  {
    var w, n := |poly|, |bits|;
    var left, right := Sum(bits + Zero(w), init + Zero(n)), Sum(Product(q, Divisor(poly)), Zero(n) + r);
    var next := FeedBit(poly, init, bits[0]);
    var left', right' := Sum(bits[1..] + Zero(w), next + Zero(n - 1)),
      Sum(Product(q[1..], Divisor(poly)), Zero(n - 1) + r);
    forall i | 0 <= i < n + w
      ensures left[i] == right[i]
    {
      if i > 0 {
        assert left'[i - 1] == right'[i - 1];
        OneCoefficient(poly, init, bits, i);
        var multiple := (if q[0] then Divisor(poly) else Zero(w + 1)) + Zero(n - 1);
        assert Product(q, Divisor(poly))[i] == (multiple[i] != Product(q[1..], Divisor(poly))[i - 1]);
      }
    }
  }

  /** What one bit step subtracts, seen from one coefficient. */
  lemma OneCoefficient(poly: Register, init: Register, bits: seq<bool>, i: nat)
    requires |init| == |poly| > 0 && bits != [] && 0 < i < |bits| + |poly|
    ensures var w, n, next := |poly|, |bits|, FeedBit(poly, init, bits[0]);
            var multiple := (if init[0] != bits[0] then Divisor(poly) else Zero(w + 1)) + Zero(n - 1);
            (init + Zero(n))[i] == ((next + Zero(n - 1))[i - 1] != multiple[i])
  {
    var next := FeedBit(poly, init, bits[0]);
    if i < |poly| {
      assert ShiftRight(init, 1)[i - 1] == init[i];
    }
  }

  /** There is only one remainder, as the generator has its highest power. */
  lemma OneRemainder(poly: Register, init: Register, bits: seq<bool>, q: seq<bool>, r: Register, q': seq<bool>,
                     r': Register)
    requires |poly| == |init| == |r| == |r'|
    requires Remainder(poly, init, bits, q, r) && Remainder(poly, init, bits, q', r')
    ensures q == q' && r == r'
  {
    var s, n := Sum(bits + Zero(|poly|), init + Zero(|bits|)), |bits|;
    forall i | 0 <= i < n
      ensures Product(q, Divisor(poly))[i] == Product(q', Divisor(poly))[i]
    {
      assert s[i] == (Product(q, Divisor(poly))[i] != (Zero(n) + r)[i]);
      assert s[i] == (Product(q', Divisor(poly))[i] != (Zero(n) + r')[i]);
    }
    Determined(q, q', Divisor(poly));
    forall i | 0 <= i < |r|
      ensures r[i] == r'[i]
    {
      assert s[n + i] == (Product(q, Divisor(poly))[n + i] != (Zero(n) + r)[n + i]);
      assert s[n + i] == (Product(q', Divisor(poly))[n + i] != (Zero(n) + r')[n + i]);
    }
  }

  lemma {:induction false} Determined(q: seq<bool>, q': seq<bool>, p: seq<bool>)
    requires |q| == |q'| && p != [] && p[0]
    requires forall i :: 0 <= i < |q| ==> Product(q, p)[i] == Product(q', p)[i]
    ensures q == q'
  {
    if q != [] {
      assert Product(q, p)[0] == q[0] && Product(q', p)[0] == q'[0];
      forall i | 0 <= i < |q| - 1
        ensures Product(q[1..], p)[i] == Product(q'[1..], p)[i]
      {
        assert Product(q, p)[i + 1] == Product(q', p)[i + 1];
      }
      Determined(q[1..], q'[1..], p);
      assert q == [q[0]] + q[1..] && q' == [q'[0]] + q'[1..];
    }
  }

  /** Bit j of byte i of the message. */
  lemma {:induction false} BitOfByte(buf: seq<u8>, i: nat, j: nat)
    requires i < |buf| && j < 8
    ensures Bits(buf)[8 * i + j] == (buf[i] / Power2(j) % 2 == 1)
  {
    FirstByte(buf);
    if i == 0 {
      BitOf(buf[0], 8, j);
      assert Bits(buf)[j] == Bits(buf)[..8][j];
    } else {
      BitOfByte(buf[1..], i - 1, j);
      assert Bits(buf)[8 * i + j] == Bits(buf)[8..][8 * (i - 1) + j];
    }
  }

  lemma {:induction false} BitOf(x: nat, width: nat, j: nat)
    requires j < width
    ensures FromNat(x, width)[j] == (x / Power2(j) % 2 == 1)
    decreases width
  {
    if j > 0 {
      BitOf(x / 2, width - 1, j - 1);
      Bitwise.ShiftedOnce(x, j - 1);
    }
  }

  ghost function Flipped(a: Register): (r: Register)
    ensures |r| == |a| && forall i :: 0 <= i < |a| ==> r[i] == !a[i]
  {
    seq(|a|, i requires 0 <= i < |a| => !a[i])
  }

  /**
   The check value is the remainder of the message, inverted, when the register starts from the inverted initial
   value.
   */
  lemma CheckIsRemainder(poly: Register, buf: seq<u8>, init: Register) returns (q: seq<bool>)
    requires |init| == |poly| > 0
    ensures Remainder(poly, Flipped(init), Bits(buf), q, Flipped(Crc(poly, buf, init)))
  {
    q := FeedDivides(poly, Not(init), Bits(buf));
    assert Flipped(Crc(poly, buf, init)) == FeedBits(poly, Not(init), Bits(buf));
    assert Flipped(init) == Not(init);
  }
}
