/** Option, powers of two and the unsigned bitwise OR used by the IPv4 accumulator. */
module Basics {

  datatype Option<+T> = None | Some(value: T)

  /** 2^n */
  function Pow2(n: nat): (r: nat)
    ensures r >= 1
  {
    if n == 0 then 1 else 2 * Pow2(n - 1)
  }

  lemma {:induction false} Pow2Add(a: nat, b: nat)
    ensures Pow2(a + b) == Pow2(a) * Pow2(b)
  {
    if a > 0 {
      Pow2Add(a - 1, b);
      assert Pow2(a + b) == 2 * Pow2(a - 1 + b);
    }
  }

  lemma {:induction false} Pow2Monotone(a: nat, b: nat)
    requires a <= b
    ensures Pow2(a) <= Pow2(b)
  {
    if a < b {
      Pow2Monotone(a, b - 1);
    }
  }

  /** a << n on an unsigned integer wide enough not to overflow. */
  function ShiftLeft(a: nat, n: nat): nat
  {
    a * Pow2(n)
  }

  /**
   * The bitwise OR of two unsigned integers (the `|` of C++ on uint64_t values,
   * all of which stay below 2^33 here), computed bit by bit from the lowest bit.
   */
  function BitOr(a: nat, b: nat): nat
    decreases a + b
  {
    if a == 0 then b
    else if b == 0 then a
    else 2 * BitOr(a / 2, b / 2) + (if a % 2 == 1 || b % 2 == 1 then 1 else 0)
  }

  /** OR-ing a value into the cleared low n bits of another is addition. */
  lemma {:induction false} BitOrDisjoint(a: nat, b: nat, n: nat)
    requires b < Pow2(n)
    ensures BitOr(a * Pow2(n), b) == a * Pow2(n) + b
  {
    var x := a * Pow2(n);
    if n == 0 {
      assert b == 0;
    } else if a == 0 || b == 0 {
      assert x == 0 || b == 0;
    } else {
      var p := Pow2(n - 1);
      assert x == 2 * (a * p);
      assert x / 2 == a * p && x % 2 == 0;
      assert b / 2 < p;
      BitOrDisjoint(a, b / 2, n - 1);
      assert x > 0;
    }
  }

  /**
   * OR-ing exactly 2^n into a value whose low n bits are clear sets bit n,
   * which adds 2^n unless that bit was already set.
   */
  lemma {:induction false} BitOrPower(a: nat, n: nat)
    ensures BitOr(a * Pow2(n), Pow2(n)) == a * Pow2(n) + (if a % 2 == 0 then Pow2(n) else 0)
  {
    var x := a * Pow2(n);
    if a == 0 {
      assert x == 0;
    } else if n == 0 {
      assert x == a && Pow2(0) == 1;
      assert BitOr(a, 1) == 2 * BitOr(a / 2, 0) + 1;
    } else {
      var p := Pow2(n - 1);
      assert x == 2 * (a * p);
      assert x / 2 == a * p && x % 2 == 0;
      assert Pow2(n) / 2 == p && Pow2(n) % 2 == 0;
      BitOrPower(a, n - 1);
      assert x > 0;
    }
  }

  /** OR never needs more bits than its widest operand. */
  lemma {:induction false} BitOrBound(a: nat, b: nat, m: nat)
    requires a < Pow2(m) && b < Pow2(m)
    ensures BitOr(a, b) < Pow2(m)
  {
    if a != 0 && b != 0 {
      assert m > 0;
      BitOrBound(a / 2, b / 2, m - 1);
    }
  }
}
