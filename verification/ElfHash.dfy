/** The SysV (ELF) symbol hash. */
module ElfHash {
  import opened Words
  import opened Powers
  import opened Bitwise
  import GnuHash

  /**
   * One step: h := 16 * h + c in a 32-bit word, then the top four bits are cleared and folded, by exclusive or,
   * into bits 4 to 7.
   */
  function Step(h: u32, c: u8): u32 {
    var t := Wrap32(16 * h + c);
    Folded(t % 0x1000_0000, t / 0x1000_0000)
  }

  function Folded(low: nat, g: nat): (f: nat)
    requires low < 0x1000_0000 && g < 16
    ensures f < 0x1000_0000
  {
    NibbleXor(low / 16 % 16, g);
    low / 0x100 * 0x100 + 16 * Xor(low / 16 % 16, g) + low % 16
  }

  function Hash(name: seq<u8>): u32 {
    if name == [] then 0 else Step(Hash(name[..|name| - 1]), name[|name| - 1])
  }

  lemma NibbleXor(a: nat, b: nat)
    requires a < 16 && b < 16
    ensures Xor(a, b) < 16
  {
    assert Power2(4) == 16;
    Bound(Exclusive, a, b, 4);
  }

  // ---------------------------------------------------------------- the loop

  /** The source's two exclusive ors: the first clears the top four bits g, the second folds them in. */
  lemma TwoXors(t: u32, g: u32)
    requires g == t / 0x1000_0000 * 0x1000_0000
    ensures Xor(t, g) == t % 0x1000_0000
    ensures Xor(t % 0x1000_0000, g / 0x100_0000) == Folded(t % 0x1000_0000, t / 0x1000_0000)
  {
    var top, low := t / 0x1000_0000, t % 0x1000_0000;
    Powers2();
    Parts(Exclusive, t, g, top, low, top, 0, 28);
    WithSelf(Exclusive, top);
    WithZero(Exclusive, low);
    FoldedByXor(low, top, g / 0x100_0000);
  }

  lemma Powers2()
    ensures Power2(4) == 16 && Power2(8) == 0x100 && Power2(28) == 0x1000_0000
  {
    assert Power2(4) == 16;
    Power2Add(4, 4);
    Power2Add(8, 8);
    Power2Add(16, 8);
    Power2Add(24, 4);
  }

  lemma FoldedByXor(low: nat, top: nat, f: nat)
    requires low < 0x1000_0000 && top < 16 && f == 16 * top
    ensures Xor(low, f) == Folded(low, top)
  {
    var high, x, last := low / 0x100, low / 16 % 16, low % 16;
    Powers2();
    InParts(low, high, x * 16 + last, f, f, 0, 8, 0x100);
    WithZero(Exclusive, high);
    InParts(x * 16 + last, x, last, f, 0, top, 4, 16);
    WithZero(Exclusive, last);
  }

  lemma InParts(x: nat, a: nat, b: nat, y: nat, d: nat, c: nat, k: nat, p: nat)
    requires p == Power2(k) && b < p && d < p && x == a * p + b && y == c * p + d
    ensures Xor(x, y) == Xor(a, c) * p + Xor(b, d)
  {
    Parts(Exclusive, x, y, a, b, c, d, k);
  }

  /** The bytes of the name as digits of weight 16. */
  ghost function Digits(name: seq<u8>): nat {
    if name == [] then 0 else 16 * Digits(name[..|name| - 1]) + name[|name| - 1]
  }

  /** As long as 28 bits hold that number it is the hash: nothing is folded. */
  lemma {:induction false} ShortHash(name: seq<u8>)
    requires Digits(name) < 0x1000_0000
    ensures Hash(name) == Digits(name)
  {
    if name != [] {
      ShortHash(name[..|name| - 1]);
      NothingFolded(Hash(name[..|name| - 1]), name[|name| - 1]);
    }
  }

  lemma NothingFolded(h: u32, c: u8)
    requires 16 * h + c < 0x1000_0000
    ensures Step(h, c) == 16 * h + c
  {
    var t: nat := 16 * h + c;
    TopIsZero(t);
    FoldedZero(t);
  }

  lemma TopIsZero(t: nat)
    requires t < 0x1000_0000
    ensures Wrap32(t) == t && t % 0x1000_0000 == t && t / 0x1000_0000 == 0
  {
  }

  lemma FoldedZero(low: nat)
    requires low < 0x1000_0000
    ensures Folded(low, 0) == low
  {
    WithZero(Exclusive, low / 16 % 16);
    FirstDigits(low);
  }

  lemma FirstDigits(low: nat)
    ensures low / 0x100 * 0x100 + 16 * (low / 16 % 16) + low % 16 == low
  {
  }

  /** Never more than 28 bits. */
  lemma Fits(name: seq<u8>)
    ensures Hash(name) < 0x1000_0000
  {
  }

  lemma OneMoreByte(mem: seq<u8>, name: nat, p: nat)
    requires name <= p < |mem|
    ensures Hash(mem[name..p + 1]) == Step(Hash(mem[name..p]), mem[p])
  {
    assert mem[name..p + 1][..p - name] == mem[name..p];
  }

  /** One more byte. */
  method Feed(mem: seq<u8>, ghost name: nat, p: nat, h: u32) returns (next: u32)
    requires name <= p < |mem| && h == Hash(mem[name..p])
    ensures next == Hash(mem[name..p + 1])
  {
    OneMoreByte(mem, name, p);
    next := Advance(h, mem[p]);
  }

  /** The loop's body. */
  method Advance(h: u32, c: u8) returns (next: u32)
    ensures next == Step(h, c)
  {
    next := Wrap32(16 * h + c);
    var g: u32 := next / 0x1000_0000 * 0x1000_0000;
    TwoXors(next, g);
    next := Xor(next, g);
    next := Xor(next, g / 0x100_0000);
  }

  method CalculateElfHash(mem: seq<u8>, name: nat) returns (h: u32)
    requires GnuHash.Terminated(mem, name)
    ensures h == Hash(GnuHash.CString(mem, name)) < 0x1000_0000
  {
    h := 0;
    var p := name;
    ghost var n := GnuHash.StrLen(mem, name);
    while mem[p] != 0
      invariant name <= p <= name + n
      invariant h == Hash(mem[name..p])
      decreases |mem| - p
    {
      h := Feed(mem, name, p, h);
      p := p + 1;
    }
    Fits(mem[name..p]);
  }
}
