/**
 * A counter that advances by one modulo a fixed period. The hero text
 * rotation (`textIndex`) and the per-element hue rotation (`hue`) are both
 * counters of this kind.
 */
module Cyclic {

  /** One step of a counter with period `m`: the next value, wrapping to 0. */
  function Next(i: nat, m: nat): (r: nat)
    requires 0 < m
    ensures r < m
    ensures i + 1 < m ==> r == i + 1
    ensures i + 1 == m ==> r == 0
  {
    (i + 1) % m
  }

  /** The counter's value after `n` steps starting from `i`. */
  function Iterate(i: nat, n: nat, m: nat): (r: nat)
    requires 0 < m
    ensures n > 0 ==> r < m
    decreases n
  {
    if n == 0 then i else Next(Iterate(i, n - 1, m), m)
  }

  /** A value written as `d * m + r` with `0 <= r < m` leaves remainder `r`. */
  lemma ModUnique(a: int, d: int, r: int, m: int)
    requires 0 < m && 0 <= r < m && a == d * m + r
    ensures a % m == r
  {
    var d', r' := a / m, a % m;
    assert a == d' * m + r';
    var k := d' - d;
    assert k * m == r - r' by {
      assert d' * m - d * m == (d' - d) * m;
    }
    if k != 0 {
      assert false;
    }
  }

  /** Adding one before or after reducing modulo `m` agrees. */
  lemma ModSucc(x: nat, m: nat)
    requires 0 < m
    ensures (x % m + 1) % m == (x + 1) % m
  {
    var q, r := x / m, x % m;
    assert x == q * m + r;
    if r + 1 < m {
      ModUnique(x + 1, q, r + 1, m);
      ModUnique(r + 1, 0, r + 1, m);
    } else {
      assert x + 1 == (q + 1) * m + 0;
      ModUnique(x + 1, q + 1, 0, m);
      ModUnique(r + 1, 1, 0, m);
    }
  }

  /** After `n` steps from a value in range, the counter holds `(i + n) % m`. */
  lemma {:induction false} IterateClosedForm(i: nat, n: nat, m: nat)
    requires 0 < m && i < m
    ensures Iterate(i, n, m) == (i + n) % m
    decreases n
  {
    if n > 0 {
      IterateClosedForm(i, n - 1, m);
      ModSucc(i + n - 1, m);
    }
  }

  /** Adding a whole period does not change the remainder. */
  lemma ModShift(a: nat, m: nat)
    requires 0 < m
    ensures (a + m) % m == a % m
  {
    var q, r := a / m, a % m;
    assert a == q * m + r;
    assert (q + 1) * m == q * m + m;
    ModUnique(a + m, q + 1, r, m);
  }

  /** The counter is periodic: `m` further steps bring it back to the same value. */
  lemma IteratePeriodic(i: nat, n: nat, m: nat)
    requires 0 < m && i < m
    ensures Iterate(i, n + m, m) == Iterate(i, n, m)
  {
    IterateClosedForm(i, n, m);
    IterateClosedForm(i, n + m, m);
    ModShift(i + n, m);
  }
}
