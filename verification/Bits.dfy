/** The bitwise operators of C on unsigned values, digit by digit, and the facts the codec needs
    about masks and about packing fields side by side. */
module Bits {

  function And(a: nat, b: nat): nat
  {
    if a == 0 || b == 0 then 0 else a % 2 * (b % 2) + 2 * And(a / 2, b / 2)
  }

  function Or(a: nat, b: nat): nat
    decreases a + b
  {
    if a == 0 && b == 0 then 0
    else (if a % 2 == 1 || b % 2 == 1 then 1 else 0) + 2 * Or(a / 2, b / 2)
  }

  function Pow2(k: nat): (p: nat)
    ensures p > 0
  {
    if k == 0 then 1 else 2 * Pow2(k - 1)
  }

  lemma {:induction false} AndEven(a: nat, b: nat)
    ensures And(a, 2 * b) == 2 * And(a / 2, b)
  {
  }

  lemma {:induction false} AndOdd(a: nat, b: nat)
    ensures And(a, 2 * b + 1) == a % 2 + 2 * And(a / 2, b)
  {
  }

  lemma {:induction false} OrEven(a: nat, b: nat)
    ensures Or(a, 2 * b) == a % 2 + 2 * Or(a / 2, b)
  {
  }

  lemma {:induction false} OrCommutes(a: nat, b: nat)
    ensures Or(a, b) == Or(b, a)
    decreases a + b
  {
    if a != 0 || b != 0 {
      OrCommutes(a / 2, b / 2);
    }
  }

  lemma {:induction false} OrZero(a: nat)
    ensures Or(a, 0) == a
  {
    if a != 0 {
      OrZero(a / 2);
    }
  }

  /** Two fields packed side by side: the OR carries nothing, so it is a sum. */
  lemma {:induction false} OrPacks(a: nat, b: nat, k: nat)
    requires a < Pow2(k)
    ensures Or(a, b * Pow2(k)) == a + b * Pow2(k)
    ensures Or(b * Pow2(k), a) == a + b * Pow2(k)
  {
    if k == 0 {
      OrZero(b);
      OrCommutes(0, b);
    } else {
      assert b * Pow2(k) == 2 * (b * Pow2(k - 1));
      OrPacks(a / 2, b, k - 1);
      OrEven(a, b * Pow2(k - 1));
      OrCommutes(a, b * Pow2(k));
    }
  }

  lemma {:induction false} Pow2Values()
    ensures Pow2(8) == 0x100 && Pow2(16) == 0x1_0000 && Pow2(24) == 0x100_0000
  {
    assert Pow2(4) == 16;
    assert Pow2(8) == 0x100;
    assert Pow2(12) == 0x1000;
    assert Pow2(16) == 0x1_0000;
    assert Pow2(20) == 0x10_0000;
  }

  lemma {:induction false} And64(a: nat, b: nat)
    ensures And(a, 64 * b) == 64 * And(a / 64, b)
    ensures And(a, 64 * b + 63) == a % 64 + 64 * And(a / 64, b)
  {
    hide *;
    AndTimes8(a, 8 * b);
    AndTimes8(a / 8, b);
    AndTimes8(a, 8 * b + 7);
  }

  /** A high byte and a low byte. */
  lemma OrShort(hi: nat, lo: nat)
    requires lo < 256
    ensures Or(hi * 0x100, lo) == hi * 0x100 + lo
  {
    Pow2Values();
    OrPacks(lo, hi, 8);
  }

  lemma Octal(a: nat)
    ensures a / 2 / 2 == a / 4 && a / 4 / 2 == a / 8
    ensures a % 8 == a % 2 + 2 * (a / 2 % 2) + 4 * (a / 4 % 2)
  {
  }

  lemma {:induction false} AndTimes8(a: nat, b: nat)
    ensures And(a, 8 * b) == 8 * And(a / 8, b)
    ensures And(a, 8 * b + 7) == a % 8 + 8 * And(a / 8, b)
  {
    hide *;
    Octal(a);
    AndEven(a, 4 * b);
    AndEven(a / 2, 2 * b);
    AndEven(a / 4, b);
    AndOdd(a, 4 * b + 3);
    AndOdd(a / 2, 2 * b + 1);
    AndOdd(a / 4, b);
  }

  lemma {:induction false} Or64(a: nat, b: nat)
    ensures Or(a, 64 * b) == a % 64 + 64 * Or(a / 64, b)
  {
    hide *;
    OrTimes8(a, 8 * b);
    OrTimes8(a / 8, b);
  }

  lemma {:induction false} OrTimes8(a: nat, b: nat)
    ensures Or(a, 8 * b) == a % 8 + 8 * Or(a / 8, b)
  {
    hide *;
    Octal(a);
    OrEven(a, 4 * b);
    OrEven(a / 2, 2 * b);
    OrEven(a / 4, b);
  }

  lemma {:induction false} AndThree(q: nat)
    ensures And(q, 3) == q % 4
  {
    hide *;
    AndOdd(q, 1);
    AndOdd(q / 2, 0);
    AndZero(q / 4);
  }

  lemma {:induction false} AndZero(a: nat)
    ensures And(a, 0) == 0
  {
  }

  /** `n & 0xc0` keeps the two top bits of a byte. */
  lemma {:induction false} MaskTop(n: nat)
    requires n < 256
    ensures And(n, 0xc0) == 64 * (n / 64)
  {
    hide *;
    And64(n, 3);
    AndThree(n / 64);
  }

  /** `n & 0x3f` keeps the six low bits. */
  lemma {:induction false} MaskLow(n: nat)
    ensures And(n, 0x3f) == n % 64
  {
    hide *;
    And64(n, 0);
    AndZero(n / 64);
  }

  /** `n & 0xff` keeps the low byte. */
  lemma {:induction false} MaskByte(n: nat)
    ensures And(n, 0xff) == n % 256
  {
    hide *;
    And64(n, 3);
    AndThree(n / 64);
  }

  lemma {:induction false} OrOdd(a: nat, b: nat)
    ensures Or(a, 2 * b + 1) == 1 + 2 * Or(a / 2, b)
  {
    var c := 2 * b + 1;
    assert c % 2 == 1 && c / 2 == b;
  }

  lemma {:induction false} OrThree(q: nat)
    ensures Or(q, 3) == 3 + 4 * (q / 4)
  {
    hide *;
    OrOdd(q, 1);
    OrOdd(q / 2, 0);
    OrZero(q / 4);
  }

  /** `h | 0xc0`, stored in one byte, keeps only the six low bits of `h`. */
  lemma {:induction false} OrTag(h: nat)
    ensures Or(h, 0xc0) % 256 == 192 + h % 64
  {
    hide *;
    Or64(h, 3);
    OrThree(h / 64);
  }
}
