/** Fixed-width numbers of the modelled program, and the two stock result types. */
module Base {

  type uint8 = x: int | 0 <= x < 0x100
  type uint16 = x: int | 0 <= x < 0x1_0000
  type uint32 = x: int | 0 <= x < 0x1_0000_0000

  const TWO32: int := 0x1_0000_0000

  datatype Option<+T> = None | Some(value: T)

  /** The two digits of a number in base `unit`. */
  lemma Digits(hi: nat, lo: nat, unit: int)
    requires lo < unit
    ensures (hi * unit + lo) / unit == hi
    ensures (hi * unit + lo) % unit == lo
  {
    var x := hi * unit + lo;
    var d: int := hi - x / unit;
    assert d * unit == x % unit - lo;
    assert d >= 1 ==> d * unit >= unit;
    assert d <= -1 ==> d * unit <= -unit;
  }

  /** A sum may be reduced before or after adding. */
  lemma SumModulo(a: nat, b: nat, unit: int)
    requires unit > 0
    ensures (a % unit + b) % unit == (a + b) % unit
  {
    var q, x := a / unit, a % unit + b;
    assert a + b == q * unit + x;
    assert q * unit + x == (q + x / unit) * unit + x % unit;
    Digits(q + x / unit, x % unit, unit);
  }

  /** How often `d` goes into `x`; division, in a form that keeps proofs linear. */
  function Quotient(x: nat, d: nat): nat
    requires d > 0
  {
    if x < d then 0 else 1 + Quotient(x - d, d)
  }

  lemma {:induction false} QuotientIsDivision(x: nat, d: nat)
    requires d > 0
    ensures Quotient(x, d) == x / d
  {
    if x < d {
      Digits(0, x, d);
    } else {
      QuotientIsDivision(x - d, d);
      Digits((x - d) / d + 1, (x - d) % d, d);
      assert ((x - d) / d + 1) * d + (x - d) % d == x;
    }
  }

  /** The index `i` places after `start` in a ring of `n`. */
  function RingAt(start: nat, i: nat, n: nat): (p: nat)
    requires start < n && i <= n
    ensures p < n
  {
    if start + i < n then start + i else start + i - n
  }

  lemma RingStep(start: nat, i: nat, n: nat)
    requires start < n && i < n
    ensures (RingAt(start, i, n) + 1) % n == RingAt(start, i + 1, n)
  {
    if RingAt(start, i, n) + 1 < n {
      Digits(0, RingAt(start, i, n) + 1, n);
    } else {
      Digits(1, 0, n);
    }
  }

  /** The first `n` numbers. */
  ghost function Below(n: nat): (r: set<nat>)
    ensures |r| == n
    ensures forall x: nat :: x in r <==> x < n
  {
    if n == 0 then {} else Below(n - 1) + {n - 1}
  }

  /** A set of numbers below `n` has fewer than `n` elements exactly when one is missing. */
  lemma MissingMember(s: set<nat>, n: nat)
    requires forall x <- s :: x < n
    ensures |s| <= n
    ensures |s| < n <==> exists x: nat :: x < n && x !in s
  {
    var missing := Below(n) - s;
    assert s == Below(n) - missing;
    if missing == {} {
      assert forall x: nat :: x < n ==> x in Below(n);
    } else {
      var x :| x in missing;
      assert x < n && x !in s;
    }
  }
}
