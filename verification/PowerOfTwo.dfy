/** Rounding up to a power of two by smearing bits, as the store sizes its table. */
module PowerOfTwo {
  import opened Base

  function Pow2(k: nat): (p: nat)
    ensures p > 0
  {
    if k == 0 then 1 else 2 * Pow2(k - 1)
  }

  /** Bitwise or of two non-negative numbers. */
  function Or(a: nat, b: nat): nat {
    if a == 0 && b == 0 then 0
    else 2 * Or(a / 2, b / 2) + if a % 2 == 1 || b % 2 == 1 then 1 else 0
  }

  /** A right shift. */
  function Shift(n: nat, k: nat): nat {
    if k == 0 then n else Shift(n / 2, k - 1)
  }

  /** `n` has `m` bits, of which the `w` highest are all ones; written over the bits so that the
      proofs follow them. */
  ghost predicate TopOnes(n: nat, m: nat, w: nat) {
    w <= m && Shift(n, m) == 0 && Shift(n, m - w) == Pow2(w) - 1
  }

  lemma {:induction false} ShiftTwice(n: nat, j: nat, k: nat)
    ensures Shift(Shift(n, j), k) == Shift(n, j + k)
  {
    if j > 0 {
      ShiftTwice(n / 2, j - 1, k);
    }
  }

  lemma {:induction false} ShiftOr(a: nat, b: nat, k: nat)
    ensures Shift(Or(a, b), k) == Or(Shift(a, k), Shift(b, k))
  {
    if k > 0 {
      assert Or(a, b) / 2 == Or(a / 2, b / 2);
      ShiftOr(a / 2, b / 2, k - 1);
    }
  }

  /** Shifting all ones. */
  lemma {:induction false} ShiftOnes(w: nat, k: nat)
    requires k <= w
    ensures Shift(Pow2(w) - 1, k) == Pow2(w - k) - 1
  {
    if k > 0 {
      assert (Pow2(w) - 1) / 2 == Pow2(w - 1) - 1;
      ShiftOnes(w - 1, k - 1);
    }
  }

  /** Or-ing in `w` ones below keeps what is above. */
  lemma {:induction false} OrOnes(x: nat, w: nat, v: nat)
    requires Shift(x, w) == Pow2(v) - 1
    ensures Or(x, Pow2(w) - 1) == Pow2(v + w) - 1
  {
    if w == 0 {
      OrZero(x);
    } else {
      assert (Pow2(w) - 1) / 2 == Pow2(w - 1) - 1 && (Pow2(w) - 1) % 2 == 1;
      OrOnes(x / 2, w - 1, v);
      assert Pow2(v + w) == 2 * Pow2(v + w - 1);
    }
  }

  lemma {:induction false} OrZero(x: nat)
    ensures Or(x, 0) == x
  {
    if x > 0 {
      OrZero(x / 2);
    }
  }

  function Min(a: nat, b: nat): nat {
    if a < b then a else b
  }

  /** One smearing step doubles the run of ones at the top, until it covers all bits. */
  lemma SmearDoubles(n: nat, m: nat, w: nat, v: nat)
    requires TopOnes(n, m, w) && v <= w && w + v <= m
    ensures TopOnes(Or(n, Shift(n, w)), m, w + v)
  {
    var low := m - w - v;
    SmearStaysInside(n, m, w);
    SmearedOnes(n, m, w, v);
    ShiftTwice(n, low, v);
    OrOnes(Shift(n, low), v, w);
    ShiftOr(n, Shift(n, w), low);
  }

  lemma SmearStaysInside(n: nat, m: nat, w: nat)
    requires Shift(n, m) == 0
    ensures Shift(Or(n, Shift(n, w)), m) == 0
  {
    ShiftOr(n, Shift(n, w), m);
    ShiftTwice(n, w, m);
    ShiftTwice(n, m, w);
    ShiftOfZero(w);
  }

  lemma SmearedOnes(n: nat, m: nat, w: nat, v: nat)
    requires TopOnes(n, m, w) && v <= w && w + v <= m
    ensures Shift(Shift(n, w), m - w - v) == Pow2(v) - 1
  {
    ShiftTwice(n, w, m - w - v);
    ShiftTwice(n, m - w, w - v);
    ShiftOnes(w, w - v);
  }

  lemma {:induction false} ShiftOfZero(k: nat)
    ensures Shift(0, k) == 0
  {
    if k > 0 {
      ShiftOfZero(k - 1);
    }
  }

  /** The number of bits of a positive number, with its leading one. */
  lemma {:induction false} BitLength(n: nat) returns (m: nat)
    requires n > 0
    ensures m > 0 && TopOnes(n, m, 1) && Pow2(m - 1) <= n < Pow2(m)
  {
    if n == 1 {
      m := 1;
      assert Shift(1, 1) == Shift(0, 0);
    } else {
      var k := BitLength(n / 2);
      m := k + 1;
      assert Shift(n, m) == Shift(n / 2, k) && Shift(n, m - 1) == Shift(n / 2, k - 1);
    }
  }

  lemma {:induction false} Pow2Monotone(a: nat, b: nat)
    requires a < b
    ensures 2 * Pow2(a) <= Pow2(b)
  {
    if a < b - 1 {
      Pow2Monotone(a, b - 1);
    }
  }

  lemma Pow2Of63()
    ensures Pow2(63) == 0x8000_0000_0000_0000 && Pow2(64) == 0x1_0000_0000_0000_0000
  {
    assert Pow2(16) == 0x1_0000;
    Pow2Sum(16, 16);
    Pow2Sum(32, 16);
    Pow2Sum(48, 15);
    assert Pow2(15) == 0x8000;
  }

  lemma {:induction false} Pow2Sum(a: nat, b: nat)
    ensures Pow2(a + b) == Pow2(a) * Pow2(b)
  {
    if b > 0 {
      Pow2Sum(a, b - 1);
      assert Pow2(a + b) == 2 * Pow2(a + b - 1);
    }
  }

  const TWO64: nat := 0x1_0000_0000_0000_0000

  /** The `k` highest of the `m` bits of x are ones, or all of them are. */
  ghost predicate Smeared(x: nat, m: nat, k: nat) {
    if m == 0 then x == 0 else TopOnes(x, m, Min(k, m))
  }

  /** x |= x >> k. */
  method Smear(x: nat, k: nat, ghost m: nat) returns (r: nat)
    requires k > 0 && Smeared(x, m, k)
    ensures Smeared(r, m, 2 * k)
  {
    r := Or(x, Shift(x, k));
    SmearStep(x, m, k);
  }

  /** The least power of two that is at least `n`, for every n up to 2^63; above that the result
      wraps to 0. */
  method NextPowerOfTwo(n: nat) returns (r: nat)
    requires n < TWO64
    ensures n > 0x8000_0000_0000_0000 ==> r == 0
    ensures n <= 0x8000_0000_0000_0000 ==> IsLeastPower(r, n)
  {
    if n == 0 {
      assert Pow2(0) == 1;
      return 1;
    }
    var x: nat := n - 1;
    ghost var m := 0;
    if x > 0 {
      m := BitLength(x);
    }
    x := Smear(x, 1, m);
    x := Smear(x, 2, m);
    x := Smear(x, 4, m);
    x := Smear(x, 8, m);
    x := Smear(x, 16, m);
    x := Smear(x, 32, m);
    r := (x + 1) % TWO64;
    if n > 1 {
      AllOnesNext(n, m, x);
    } else {
      assert Pow2(0) == 1;
    }
  }

  ghost predicate IsLeastPower(r: nat, n: nat) {
    (exists k: nat :: k <= 63 && r == Pow2(k)) && n <= r && forall k: nat :: n <= Pow2(k) ==> r <= Pow2(k)
  }

  /** One step doubles the ones, until they cover all bits. */
  lemma SmearStep(x: nat, m: nat, k: nat)
    requires k > 0 && Smeared(x, m, k)
    ensures Smeared(Or(x, Shift(x, k)), m, 2 * k)
  {
    if m == 0 {
      ShiftOfZero(k);
    } else if k <= m {
      SmearDoubles(x, m, k, Min(2 * k, m) - k);
    } else {
      SmearedPastEnd(x, m, k);
    }
  }

  lemma SmearedPastEnd(x: nat, m: nat, k: nat)
    requires Shift(x, m) == 0 && m <= k
    ensures Or(x, Shift(x, k)) == x
  {
    ShiftTwice(x, m, k - m);
    ShiftOfZero(k - m);
    OrZero(x);
  }

  /** When the smearing is over the number is all ones, and one more is the power looked for. */
  lemma AllOnesNext(n: nat, m: nat, x: nat)
    requires 1 < n < TWO64 && m > 0 && Pow2(m - 1) <= n - 1 < Pow2(m) && TopOnes(x, m, Min(64, m))
    ensures n > 0x8000_0000_0000_0000 ==> (x + 1) % TWO64 == 0
    ensures n <= 0x8000_0000_0000_0000 ==> IsLeastPower((x + 1) % TWO64, n)
  {
    Pow2Of63();
    FitsInWord(n, m);
    assert x + 1 == Pow2(m);
    if m <= 63 {
      PowerBelow(m, 63);
      PowerIsLeast(n, m);
    }
  }

  lemma PowerBelow(a: nat, b: nat)
    requires a <= b
    ensures Pow2(a) <= Pow2(b)
  {
    if a < b {
      Pow2Monotone(a, b);
    }
  }

  lemma FitsInWord(n: nat, m: nat)
    requires 1 < n < TWO64 && m > 0 && Pow2(m - 1) <= n - 1 < Pow2(m)
    ensures m <= 64 && (m == 64 <==> n > 0x8000_0000_0000_0000)
  {
    Pow2Of63();
    if m > 64 {
      PowerBelow(64, m - 1);
    } else if m < 64 {
      PowerBelow(m, 63);
    }
  }

  lemma PowerIsLeast(n: nat, m: nat)
    requires 1 < n && 0 < m <= 63 && Pow2(m - 1) <= n - 1 < Pow2(m)
    ensures IsLeastPower(Pow2(m), n)
  {
    forall k: nat | n <= Pow2(k)
      ensures Pow2(m) <= Pow2(k)
    {
      if k < m {
        PowerBelow(k, m - 1);
      } else {
        PowerBelow(m, k);
      }
    }
  }
}
