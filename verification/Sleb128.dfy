/** Signed LEB128 (section 7.6 of DWARF 4): the decoder of packed relocation data, and the encoding it inverts. */
module Sleb128 {
  import opened Powers
  import opened Bitwise
  import opened Words

  // ---------------------------------------------------------------- meaning

  /** The number a complete encoding stands for: seven bits a byte, the last byte signed. */
  function Value(s: seq<u8>): int
    requires s != []
  {
    if |s| == 1 then (if s[0] % 128 < 64 then s[0] % 128 else s[0] % 128 - 128)
    else s[0] % 128 + 128 * Value(s[1..])
  }

  /** How many bytes at the front have their continuation bit set. */
  function Continued(s: seq<u8>): (n: nat)
    ensures n <= |s|
    ensures forall i :: 0 <= i < n ==> s[i] >= 128
    ensures n < |s| ==> s[n] < 128
  {
    if s != [] && s[0] >= 128 then 1 + Continued(s[1..]) else 0
  }

  /** The encoding: low seven bits first, stopping when the sign bit of the byte is the sign of the number. */
  function Encode(v: int): (s: seq<u8>)
    ensures s != []
    decreases if v < 0 then -v else v
  {
    var low, high := v % 128, v / 128;
    if (high == 0 && low < 64) || (high == -1 && low >= 64) then [low]
    else [128 + low] + Encode(high)
  }

  /** The signed number whose two's complement word is w. */
  function Signed(w: u64): int {
    if w < 0x8000_0000_0000_0000 then w else w - 0x1_0000_0000_0000_0000
  }

  function EncodeWord(w: u64): (s: seq<u8>)
    ensures s != []
  {
    Encode(Signed(w))
  }

  // ---------------------------------------------------------------- encodings are well formed

  lemma {:induction false} EncodeShape(v: int)
    ensures var s := Encode(v);
            && Value(s) == v
            && Continued(s) == |s| - 1
    decreases if v < 0 then -v else v
  {
    var low, high := v % 128, v / 128;
    var s := Encode(v);
    if (high == 0 && low < 64) || (high == -1 && low >= 64) {
      assert s == [low];
    } else {
      EncodeShape(high);
      assert s[1..] == Encode(high);
      LowBits(low);
    }
  }

  /** The examples of the standard. */
  lemma Examples()
    ensures Encode(2) == [2] && Encode(-2) == [0x7e]
    ensures Encode(127) == [127 + 0x80, 0] && Encode(-127) == [1 + 0x80, 0x7f]
    ensures Encode(128) == [0 + 0x80, 1] && Encode(-128) == [0 + 0x80, 0x7f]
    ensures Encode(129) == [1 + 0x80, 1] && Encode(-129) == [0x7f + 0x80, 0x7e]
  {
  }

  lemma LowBits(low: nat)
    requires low < 128
    ensures (128 + low) % 128 == low
  {
  }

  ghost function Power128(n: nat): nat {
    if n == 0 then 1 else 128 * Power128(n - 1)
  }

  /** n bytes hold every number of 7 * n bits. */
  lemma {:induction false} EncodeLength(v: int, n: nat)
    requires n > 0 && -64 * Power128(n - 1) <= v < 64 * Power128(n - 1)
    ensures |Encode(v)| <= n
    decreases n
  {
    var low, high := v % 128, v / 128;
    if !((high == 0 && low < 64) || (high == -1 && low >= 64)) {
      assert n > 1;
      EncodeLength(high, n - 1);
    }
  }

  // ---------------------------------------------------------------- decoding

  datatype Pop = Popped(value: u64) | OutOfBounds | Overlong

  /**
   What the decoder makes of the bytes that follow: the word of the number at their front, a fatal
   error when the data ends first, or a shift beyond the word when it takes more than ten bytes.
   */
  ghost function Popping(s: seq<u8>): Pop {
    var n := Continued(s);
    if n >= 10 && |s| > 10 then Overlong
    else if n == |s| then OutOfBounds
    else Popped(Wrap64(Value(s[..n + 1])))
  }

  /** x << shift in a word. */
  function ShiftLeft(x: nat, shift: nat): u64 {
    Wrap64(x * Power2(shift))
  }

  /** A value below the bits that are or-ed in: they are appended, and what does not fit the word is dropped. */
  lemma OrAppends(value: u64, x: nat, shift: nat)
    requires shift < 64 && value < Power2(shift)
    ensures Or(value, ShiftLeft(x, shift)) == Wrap64(value + x * Power2(shift))
  {
    var rest := WordInParts(shift);
    var r := Fitting(x, rest, Power2(shift), value);
    OrAbove(value, r, shift);
  }

  lemma WordInParts(shift: nat) returns (rest: nat)
    requires shift < 64
    ensures rest > 1 && Power2(shift) * rest == 0x1_0000_0000_0000_0000
  {
    Power2Add(shift, 64 - shift);
    Power2Of64();
    rest := Power2(64 - shift);
  }

  /** The part of x that fits the word. */
  lemma Fitting(x: nat, rest: nat, p: nat, value: nat) returns (r: nat)
    requires rest > 0 && p > 0 && p * rest == 0x1_0000_0000_0000_0000 && value < p
    ensures Wrap64(x * p) == r * p && Wrap64(value + x * p) == value + r * p
  {
    var q := x / rest;
    r := x % rest;
    Multiplied(x, q, r, rest, p);
    WrapMultiple(r * p, x * p, q);
    WrapMultiple(value + r * p, value + x * p, q);
    SmallWrap(r * p);
    SmallWrap(value + r * p);
  }

  lemma Multiplied(x: nat, q: nat, r: nat, rest: nat, p: nat)
    requires x == q * rest + r && r < rest
    ensures x * p == q * (p * rest) + r * p && r * p + p <= p * rest
  {
    assert x * p == q * rest * p + r * p;
    assert (r + 1) * p <= rest * p;
  }

  /** All ones above the value: it is what the two's complement of a negative number has there. */
  lemma OrExtends(value: u64, shift: nat)
    requires shift < 64 && value < Power2(shift)
    ensures Or(value, Sub64(0, ShiftLeft(1, shift))) == value + (0x1_0000_0000_0000_0000 - Power2(shift))
  {
    var rest := WordInParts(shift);
    LessOne(rest, Power2(shift));
    OrAbove(value, rest - 1, shift);
  }

  lemma LessOne(rest: nat, p: nat)
    requires rest > 1 && p > 0 && p * rest == 0x1_0000_0000_0000_0000
    ensures Sub64(0, Wrap64(1 * p)) == (rest - 1) * p == 0x1_0000_0000_0000_0000 - p
  {
    assert (rest - 1) * p == p * rest - p;
    assert p * rest >= 2 * p;
  }

  class Decoder {
    const buffer: seq<u8>
    var current: nat

    ghost predicate Valid()
      reads this
    {
      current <= |buffer|
    }

    constructor (data: seq<u8>)
      ensures Valid() && buffer == data && current == 0
    {
      buffer := data;
      current := 0;
    }

    ghost function Rest(): seq<u8>
      requires Valid()
      reads this
    {
      buffer[current..]
    }

    method PopFront() returns (r: Pop)
      requires Valid()
      modifies this
      ensures Valid() && r == Popping(old(Rest()))
      ensures current >= old(current) && (r.Popped? ==> current > old(current))
      ensures r.Popped? ==> Rest() == old(Rest())[Continued(old(Rest())) + 1..]
    {
      ghost var s, i := Rest(), 0;
      var value: u64, shift, byte: u8, more := 0, 0, 128, true;
      while more
        invariant Valid() && i <= 10 && i <= |s| && shift == 7 * i && Rest() == s[i..]
        invariant value == Wrap64(Unsigned(s[..i]))
        invariant i > 0 ==> byte == s[i - 1]
        invariant i == 0 ==> byte == 128
        invariant more <==> byte >= 128
        invariant forall k :: 0 <= k < i - 1 ==> s[k] >= 128
        decreases |buffer| - current, more
      {
        ContinuedIs(s, i);
        if current >= |buffer| {
          return OutOfBounds;
        }
        if shift >= 64 {
          return Overlong;
        }
        byte := buffer[current];
        value := AppendDigit(value, byte, shift, s, i);
        shift := shift + 7;
        current := current + 1;
        i := i + 1;
        more := MoreFollow(byte);
      }
      Finished(s, i);
      value := ExtendSign(value, byte, shift, s[..i]);
      r := Popped(value);
    }
  }

  /** value |= (byte & 127) << shift. */
  method AppendDigit(value: u64, byte: u8, shift: nat, ghost s: seq<u8>, ghost i: nat) returns (r: u64)
    requires i < |s| && i <= 9 && byte == s[i] && shift == 7 * i && value == Wrap64(Unsigned(s[..i]))
    ensures r == Wrap64(Unsigned(s[..i + 1]))
  {
    LowBitsOf(byte);
    AppendByte(s, i, value);
    r := Or(value, ShiftLeft(And(byte, 127), shift));
  }

  /** byte & 128. */
  method MoreFollow(byte: u8) returns (more: bool)
    ensures more <==> byte >= 128
  {
    LowBitsOf(byte);
    more := And(byte, 128) != 0;
  }

  /** A negative number's sign fills the word. */
  method ExtendSign(value: u64, byte: u8, shift: nat, ghost s: seq<u8>) returns (r: u64)
    requires 0 < |s| <= 10 && byte == s[|s| - 1] < 128 && shift == 7 * |s| && value == Wrap64(Unsigned(s))
    ensures r == Wrap64(Value(s))
  {
    var negative := IsNegative(byte);
    SignExtend(s, value);
    if shift < 64 && negative {
      r := ExtendOnes(value, shift);
    } else {
      r := value;
    }
  }

  /** value |= -(1 << shift). */
  method ExtendOnes(value: u64, shift: nat) returns (r: u64)
    requires shift < 64 && value < Power2(shift)
    ensures r == value + (0x1_0000_0000_0000_0000 - Power2(shift))
  {
    OrExtends(value, shift);
    Power2Bound(shift);
    r := Or(value, Sub64(0, ShiftLeft(1, shift)));
  }

  /** byte & 64. */
  method IsNegative(byte: u8) returns (negative: bool)
    ensures negative <==> byte % 128 >= 64
  {
    LowBitsOf(byte);
    negative := And(byte, 64) != 0;
  }

  // ---------------------------------------------------------------- the accumulated bits

  ghost function Unsigned(s: seq<u8>): nat {
    if s == [] then 0 else s[0] % 128 + 128 * Unsigned(s[1..])
  }

  lemma {:induction false} UnsignedBound(s: seq<u8>)
    ensures Unsigned(s) < Power128(|s|)
  {
    if s != [] {
      UnsignedBound(s[1..]);
    }
  }

  lemma {:induction false} UnsignedSnoc(s: seq<u8>, i: nat)
    requires i < |s|
    ensures Unsigned(s[..i + 1]) == Unsigned(s[..i]) + (s[i] % 128) * Power128(i)
    decreases i
  {
    if i == 0 {
      assert s[..1] == [s[0]] && s[..0] == [];
    } else {
      assert s[..i + 1][1..] == s[1..][..i] && s[..i][1..] == s[1..][..i - 1];
      UnsignedSnoc(s[1..], i - 1);
      Regroup(s[i] % 128, Power128(i - 1));
    }
  }

  lemma Regroup(x: int, p: int)
    ensures 128 * (x * p) == x * (128 * p)
  {
  }

  lemma {:induction false} ValueFromBits(s: seq<u8>)
    requires s != []
    ensures Value(s) == Unsigned(s) - if s[|s| - 1] % 128 >= 64 then Power128(|s|) else 0
  {
    if |s| == 1 {
      assert s[1..] == [];
    } else {
      ValueFromBits(s[1..]);
    }
  }

  lemma {:induction false} Power2Is128(i: nat)
    ensures Power2(7 * i) == Power128(i)
  {
    if i > 0 {
      var n := 7 * (i - 1);
      Power2Is128(i - 1);
      assert Power2(n + 2) == 4 * Power2(n);
      assert Power2(n + 4) == 4 * Power2(n + 2);
      assert Power2(n + 6) == 4 * Power2(n + 4);
      assert Power2(n + 7) == 2 * Power2(n + 6);
    }
  }

  lemma {:induction false} Power128Grows(i: nat, j: nat)
    requires i <= j
    ensures Power128(i) <= Power128(j)
  {
    if i < j {
      Power128Grows(i, j - 1);
    }
  }

  lemma Power128Values()
    ensures Power128(9) == 0x8000_0000_0000_0000 && Power128(10) == 64 * 0x1_0000_0000_0000_0000
  {
    assert Power128(3) == 0x20_0000;
    assert Power128(6) == 0x400_0000_0000;
  }

  lemma {:induction false} Power2Bound(shift: nat)
    requires shift <= 64
    ensures 0 < Power2(shift) <= 0x1_0000_0000_0000_0000
  {
    Power2Grows(shift, 64);
    Power2Of64();
  }

  lemma {:induction false} Power2Grows(i: nat, j: nat)
    requires i <= j
    ensures 0 < Power2(i) <= Power2(j)
  {
    if i < j {
      Power2Grows(i, j - 1);
    } else if i > 0 {
      Power2Grows(i - 1, j - 1);
    }
  }

  lemma Power2Of64()
    ensures Power2(64) == 0x1_0000_0000_0000_0000
  {
    Power2Is128(9);
    Power128Values();
    assert Power2(64) == 2 * Power2(63);
  }

  lemma SmallWrap(x: int)
    requires 0 <= x < 0x1_0000_0000_0000_0000
    ensures Wrap64(x) == x
  {
  }

  lemma WrapMultiple(x: int, y: int, k: int)
    requires y == x + k * 0x1_0000_0000_0000_0000
    ensures Wrap64(x) == Wrap64(y)
  {
  }

  /** The accumulator is exact through nine bytes. */
  lemma Exact(s: seq<u8>)
    requires |s| <= 9
    ensures Wrap64(Unsigned(s)) == Unsigned(s) < Power2(7 * |s|)
  {
    UnsignedBound(s);
    Power128Grows(|s|, 9);
    Power128Values();
    Power2Is128(|s|);
    SmallWrap(Unsigned(s));
  }

  lemma AppendByte(s: seq<u8>, i: nat, value: u64)
    requires i < |s| && i <= 9 && value == Wrap64(Unsigned(s[..i]))
    ensures value < Power2(7 * i)
    ensures Or(value, ShiftLeft(s[i] % 128, 7 * i)) == Wrap64(Unsigned(s[..i + 1]))
  {
    Exact(s[..i]);
    UnsignedSnoc(s, i);
    Power2Is128(i);
    OrAppends(value, s[i] % 128, 7 * i);
  }

  /** A byte has seven bits of the number, the highest of them the sign in the end, and a bit for another byte. */
  lemma LowBitsOf(byte: u8)
    ensures And(byte, 127) == byte % 128
    ensures And(byte, 128) != 0 <==> byte >= 128
    ensures And(byte, 64) != 0 <==> byte % 128 >= 64
  {
    assert Power2(6) == 64 && Power2(7) == 128;
    AndOnes(byte, byte / 128, byte % 128, 7);
    AndBit(byte, byte / 128, byte % 128, 7);
    AndBit(byte, byte / 64, byte % 64, 6);
  }

  /** The bytes before position i all continue, so i is not beyond the end of the encoding. */
  lemma ContinuedIs(s: seq<u8>, i: nat)
    requires i <= |s| && forall k :: 0 <= k < i - 1 ==> s[k] >= 128
    requires i > 0 ==> s[i - 1] >= 128
    ensures i <= Continued(s)
  {
  }

  lemma Terminated(s: seq<u8>, i: nat)
    requires i < |s| && s[i] < 128 && forall k :: 0 <= k < i ==> s[k] >= 128
    ensures Continued(s) == i
  {
  }

  lemma Finished(s: seq<u8>, i: nat)
    requires 0 < i <= |s| && i <= 10 && s[i - 1] < 128 && forall k :: 0 <= k < i - 1 ==> s[k] >= 128
    ensures Continued(s) + 1 == i && Popping(s) == Popped(Wrap64(Value(s[..i])))
  {
    Terminated(s, i - 1);
  }

  lemma {:induction false} SignExtend(s: seq<u8>, value: u64)
    requires 0 < |s| <= 10 && value == Wrap64(Unsigned(s)) && s[|s| - 1] < 128
    ensures |s| <= 9 ==> value < Power2(7 * |s|)
    ensures Wrap64(Value(s)) ==
              if |s| <= 9 && s[|s| - 1] >= 64 then value + (0x1_0000_0000_0000_0000 - Power2(7 * |s|)) else value
  {
    ValueFromBits(s);
    Power128Values();
    if |s| <= 9 {
      Exact(s);
      Power2Is128(|s|);
      if s[|s| - 1] >= 64 {
        Power2Bound(7 * |s|);
        var extended := value + (0x1_0000_0000_0000_0000 - Power2(7 * |s|));
        WrapMultiple(Value(s), extended, 1);
        SmallWrap(extended);
      }
    } else {
      WrapMultiple(Value(s), Unsigned(s), if s[|s| - 1] >= 64 then 64 else 0);
    }
  }

  // ---------------------------------------------------------------- round trip

  /** Every 64-bit word comes back from its encoding, which takes at most ten bytes. */
  lemma PopEncoded(w: u64, rest: seq<u8>)
    ensures |EncodeWord(w)| <= 10
    ensures Popping(EncodeWord(w) + rest) == Popped(w)
    ensures Continued(EncodeWord(w) + rest) + 1 == |EncodeWord(w)|
    ensures (EncodeWord(w) + rest)[|EncodeWord(w)|..] == rest
  {
    var v, e := Signed(w), EncodeWord(w);
    var s := e + rest;
    AtMostTenBytes(w);
    EncodeShape(v);
    Terminated(s, |e| - 1);
    assert s[..|e|] == e;
    WordOfSigned(w);
  }

  lemma AtMostTenBytes(w: u64)
    ensures |EncodeWord(w)| <= 10
  {
    Power128Values();
    EncodeLength(Signed(w), 10);
  }

  lemma WordOfSigned(w: u64)
    ensures Wrap64(Signed(w)) == w
  {
    WrapMultiple(Signed(w), w, if w < 0x8000_0000_0000_0000 then 0 else 1);
    SmallWrap(w);
  }
}
