/** Bitwise operations on natural numbers, and what they are on numbers in two parts. */
module Bitwise {
  import opened Powers
  import opened Pages

  datatype Operation = Exclusive | Either | Both

  function OfBits(op: Operation, x: bool, y: bool): bool {
    match op
    case Exclusive => x != y
    case Either => x || y
    case Both => x && y
  }

  /** The operation bit by bit. */
  function Combine(op: Operation, a: nat, b: nat): nat
    decreases a + b
  {
    if a == 0 && b == 0 then 0
    else (if OfBits(op, a % 2 == 1, b % 2 == 1) then 1 else 0) + 2 * Combine(op, a / 2, b / 2)
  }

  function Xor(a: nat, b: nat): nat { Combine(Exclusive, a, b) }

  function Or(a: nat, b: nat): nat { Combine(Either, a, b) }

  function And(a: nat, b: nat): (r: nat)
    ensures r <= b
  {
    AndBelow(a, b);
    Combine(Both, a, b)
  }

  lemma {:induction false} Bound(op: Operation, a: nat, b: nat, n: nat)
    requires a < Power2(n) && b < Power2(n)
    ensures Combine(op, a, b) < Power2(n)
    decreases n
  {
    if n > 0 {
      Bound(op, a / 2, b / 2, n - 1);
    }
  }

  lemma {:induction false} AndBelow(a: nat, b: nat)
    ensures Combine(Both, a, b) <= b
    decreases a + b
  {
    if a > 0 || b > 0 {
      AndBelow(a / 2, b / 2);
    }
  }

  /** Shifted by one place and by j more. */
  lemma ShiftedOnce(v: nat, j: nat)
    ensures v / 2 / Power2(j) == v / Power2(j + 1)
  {
    var p := Power2(j);
    var q, r := v / (2 * p), v % (2 * p);
    assert v == 2 * (q * p) + r;
    assert v / 2 == q * p + r / 2;
    Quotient(v / 2, p, q, r / 2);
  }

  /** With zero: an or leaves the number, an and leaves nothing. */
  lemma {:induction false} WithZero(op: Operation, a: nat)
    ensures Combine(op, a, 0) == Combine(op, 0, a) == if op.Both? then 0 else a
  {
    if a > 0 {
      WithZero(op, a / 2);
    }
  }

  lemma {:induction false} WithSelf(op: Operation, a: nat)
    ensures Combine(op, a, a) == if op.Exclusive? then 0 else a
  {
    if a > 0 {
      WithSelf(op, a / 2);
    }
  }

  /** Numbers in two parts are combined part by part. */
  lemma {:induction false} Parts(op: Operation, x: nat, y: nat, a: nat, b: nat, c: nat, d: nat, k: nat)
    requires b < Power2(k) && d < Power2(k) && x == a * Power2(k) + b && y == c * Power2(k) + d
    ensures Combine(op, x, y) == Combine(op, a, c) * Power2(k) + Combine(op, b, d)
    decreases k
  {
    if k > 0 {
      HalvedParts(x, a, b, k);
      HalvedParts(y, c, d, k);
      Parts(op, x / 2, y / 2, a, b / 2, c, d / 2, k - 1);
      OneBitPrepended(op, x, y, b, d, Combine(op, a, c), Power2(k - 1));
    } else {
      assert b == 0 && d == 0 && Combine(op, 0, 0) == 0;
    }
  }

  lemma HalvedParts(x: nat, a: nat, b: nat, k: nat)
    requires k > 0 && b < Power2(k) && x == a * Power2(k) + b
    ensures x / 2 == a * Power2(k - 1) + b / 2 && b / 2 < Power2(k - 1) && x % 2 == b % 2
  {
    OneBitMore(a * Power2(k - 1) + b / 2, b, x, a, Power2(k - 1));
  }

  lemma OneBitPrepended(op: Operation, x: nat, y: nat, b: nat, d: nat, high: nat, p: nat)
    requires x % 2 == b % 2 && y % 2 == d % 2
    requires Combine(op, x / 2, y / 2) == high * p + Combine(op, b / 2, d / 2)
    ensures Combine(op, x, y) == high * (2 * p) + Combine(op, b, d)
  {
    Unfold(op, x, y, x / 2, y / 2);
    Unfold(op, b, d, b / 2, d / 2);
    Regrouped(Combine(op, x, y), if OfBits(op, x % 2 == 1, y % 2 == 1) then 1 else 0, high, p,
      Combine(op, b / 2, d / 2));
  }

  lemma OneBitMore(half: nat, b: nat, x: nat, a: nat, p: nat)
    requires half == a * p + b / 2 && x == a * (2 * p) + b
    ensures x / 2 == half && x % 2 == b % 2
  {
    Doubled(a, p);
  }

  lemma Regrouped(whole: nat, bit: nat, high: nat, p: nat, half: nat)
    requires whole == bit + 2 * (high * p + half)
    ensures whole == high * (2 * p) + (bit + 2 * half)
  {
    Doubled(high, p);
  }

  lemma Doubled(x: nat, p: nat)
    ensures 2 * (x * p) == x * (2 * p)
  {
  }

  lemma Unfold(op: Operation, x: nat, y: nat, x2: nat, y2: nat)
    requires x2 == x / 2 && y2 == y / 2
    ensures Combine(op, x, y) == (if OfBits(op, x % 2 == 1, y % 2 == 1) then 1 else 0) + 2 * Combine(op, x2, y2)
  {
  }

  /** Or-ing in a number above bit k adds it. */
  lemma OrAbove(value: nat, high: nat, k: nat)
    requires value < Power2(k)
    ensures Or(value, high * Power2(k)) == value + high * Power2(k)
  {
    Parts(Either, value, high * Power2(k), 0, value, high, 0, k);
    WithZero(Either, high);
    WithZero(Either, value);
  }

  /** And-ing with k ones takes the remainder. */
  lemma AndOnes(x: nat, q: nat, r: nat, k: nat)
    requires x == q * Power2(k) + r && r < Power2(k)
    ensures And(x, Power2(k) - 1) == r
  {
    Parts(Both, x, Power2(k) - 1, q, r, 0, Power2(k) - 1, k);
    WithZero(Both, q);
    AllOnes(r, k);
  }

  lemma {:induction false} AllOnes(x: nat, k: nat)
    requires x < Power2(k)
    ensures Combine(Both, x, Power2(k) - 1) == x
    decreases k
  {
    if k > 0 {
      assert (Power2(k) - 1) / 2 == Power2(k - 1) - 1 && (Power2(k) - 1) % 2 == 1;
      AllOnes(x / 2, k - 1);
      Unfold(Both, x, Power2(k) - 1, x / 2, Power2(k - 1) - 1);
    }
  }

  /** And-ing with bit k tests it. */
  lemma AndBit(x: nat, q: nat, r: nat, k: nat)
    requires x == q * Power2(k) + r && r < Power2(k)
    ensures And(x, Power2(k)) == if q % 2 == 1 then Power2(k) else 0
  {
    Parts(Both, x, Power2(k), q, r, 1, 0, k);
    WithZero(Both, r);
    Unfold(Both, q, 1, q / 2, 0);
    WithZero(Both, q / 2);
  }
}
