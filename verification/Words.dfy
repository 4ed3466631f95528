/** Machine words of the 64-bit build as bounded integers, and congruence modulo 2^32. */
module Words {

  type u8 = x: int | 0 <= x < 0x100
  type u16 = x: int | 0 <= x < 0x1_0000
  type u32 = x: int | 0 <= x < 0x1_0000_0000
  type u64 = x: int | 0 <= x < 0x1_0000_0000_0000_0000

  /** Reduction of an unsigned 32-bit operation. */
  function Wrap32(x: int): u32 {
    x % 0x1_0000_0000
  }

  /** Reduction of an unsigned 64-bit operation. */
  function Wrap64(x: int): u64 {
    x % 0x1_0000_0000_0000_0000
  }

  /** Sum of two unsigned 64-bit words, with wrap-around. */
  function Add64(a: u64, b: u64): u64 {
    if a + b < 0x1_0000_0000_0000_0000 then a + b else a + b - 0x1_0000_0000_0000_0000
  }

  /** The sum of the words, modulo 2^64. */
  lemma Sum64(a: u64, b: u64)
    ensures Add64(a, b) == (a + b) % 0x1_0000_0000_0000_0000
  {
  }

  /** Difference of two unsigned 64-bit words, with wrap-around. */
  function Sub64(a: u64, b: u64): (d: u64)
    ensures Add64(b, d) == a
  {
    if a >= b then a - b else a - b + 0x1_0000_0000_0000_0000
  }

  /** a and b are the same 32-bit word. */
  ghost predicate Cong(a: int, b: int) {
    exists k: int :: DiffersBy(k, a, b)
  }

  ghost predicate DiffersBy(k: int, a: int, b: int) {
    a - b == k * 0x1_0000_0000
  }

  lemma CongRefl(a: int)
    ensures Cong(a, a)
  {
    assert DiffersBy(0, a, a);
  }

  lemma CongSym(a: int, b: int)
    requires Cong(a, b)
    ensures Cong(b, a)
  {
    var k :| DiffersBy(k, a, b);
    assert DiffersBy(-k, b, a);
  }

  lemma CongTrans(a: int, b: int, c: int)
    requires Cong(a, b) && Cong(b, c)
    ensures Cong(a, c)
  {
    var k :| DiffersBy(k, a, b);
    var j :| DiffersBy(j, b, c);
    assert DiffersBy(k + j, a, c);
  }

  lemma CongAdd(a: int, b: int, c: int, d: int)
    requires Cong(a, b) && Cong(c, d)
    ensures Cong(a + c, b + d)
  {
    var k :| DiffersBy(k, a, b);
    var j :| DiffersBy(j, c, d);
    assert DiffersBy(k + j, a + c, b + d);
  }

  lemma CongScale(a: int, b: int, m: int)
    requires Cong(a, b)
    ensures Cong(m * a, m * b)
  {
    var k :| DiffersBy(k, a, b);
    assert m * a - m * b == m * (a - b) == m * (k * 0x1_0000_0000) == (m * k) * 0x1_0000_0000;
    assert DiffersBy(m * k, m * a, m * b);
  }

  lemma CongWrap(a: int)
    ensures Cong(Wrap32(a), a)
  {
    assert DiffersBy(-(a / 0x1_0000_0000), Wrap32(a), a);
  }

  lemma CongWords(a: u32, b: u32)
    requires Cong(a, b)
    ensures a == b
  {
    var k :| DiffersBy(k, a, b);
  }
}
