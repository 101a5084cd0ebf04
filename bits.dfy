/** Power-of-two capacities and the bit mask that turns a hash into a bucket index. */
module Bits {

  /** n is 2^e for some e >= 0. */
  predicate IsPow2(n: nat)
  {
    n == 1 || (n > 1 && n % 2 == 0 && IsPow2(n / 2))
  }

  /** Bitwise AND of two non-negative integers, bit by bit from the least significant end. */
  function BitAnd(a: nat, b: nat): nat
    decreases a
  {
    if a == 0 || b == 0 then 0
    else 2 * BitAnd(a / 2, b / 2) + (if a % 2 == 1 && b % 2 == 1 then 1 else 0)
  }

  /** Division by m is determined by any decomposition h == m * x + y with 0 <= y < m. */
  lemma {:induction false} DivModUnique(h: nat, m: nat, x: int, y: int)
    requires m >= 1 && 0 <= y < m && h == m * x + y
    ensures h % m == y
  {
    var d := x - h / m;
    assert m * d == h % m - y;
  }

  lemma {:induction false} ModOfDouble(h: nat, c: nat)
    requires c >= 1
    ensures h % (2 * c) == 2 * ((h / 2) % c) + h % 2
  {
    var q, r := h / 2, h % 2;
    var a, b := q / c, q % c;
    assert q == c * a + b;
    assert h == (2 * c) * a + (2 * b + r);
    DivModUnique(h, 2 * c, a, 2 * b + r);
  }

  /** Masking with capacity - 1 picks the residue modulo a power-of-two capacity. */
  lemma {:induction false} MaskIsMod(h: nat, c: nat)
    requires IsPow2(c)
    ensures BitAnd(h, c - 1) == h % c
    decreases c
  {
    if c == 1 {
    } else if h == 0 {
    } else {
      var half := c / 2;
      assert (c - 1) / 2 == half - 1 && (c - 1) % 2 == 1;
      MaskIsMod(h / 2, half);
      ModOfDouble(h, half);
    }
  }

  /** Doubling keeps a capacity a power of two. */
  lemma {:induction false} DoublePow2(c: nat)
    requires IsPow2(c)
    ensures IsPow2(2 * c)
  {
    assert (2 * c) / 2 == c;
  }
}
