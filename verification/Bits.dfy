/** The bit tricks the runtime uses on powers of two, on natural numbers of any width. */
module Bits {

  function Pow2(k: nat): (r: nat)
    ensures r >= 1
  {
    if k == 0 then 1 else 2 * Pow2(k - 1)
  }

  ghost predicate IsPow2(x: nat) { exists k: nat :: x == Pow2(k) }

  /** x & y */
  function And(x: nat, y: nat): nat
    decreases x
  {
    if x == 0 then 0 else 2 * And(x / 2, y / 2) + (if x % 2 == 1 && y % 2 == 1 then 1 else 0)
  }

  /** x & ~y */
  function AndNot(x: nat, y: nat): nat
    decreases x
  {
    if x == 0 then 0 else 2 * AndNot(x / 2, y / 2) + (if x % 2 == 1 && y % 2 == 0 then 1 else 0)
  }

  lemma {:induction false} ModDouble(x: nat, m: nat)
    requires m > 0
    ensures x % (2 * m) == 2 * ((x / 2) % m) + x % 2
  {
    var q, r := (x / 2) / m, (x / 2) % m;
    assert x / 2 == q * m + r;
    assert x == (2 * m) * q + (2 * r + x % 2) by { assert 2 * (q * m) == (2 * m) * q; }
    RemainderUnique(x, 2 * m, q, 2 * r + x % 2);
  }

  lemma RemainderUnique(x: nat, n: nat, q: int, r: nat)
    requires r < n && x == n * q + r
    ensures x % n == r && x / n == q
  {
    var q', r' := x / n, x % n;
    assert x == n * q' + r';
    assert n * (q - q') == r' - r by { assert n * (q - q') == n * q - n * q'; }
    MulLe(n, 1, q - q');
    MulLe(n, q - q', -1);
  }

  lemma MulLe(n: nat, p: int, q: int)
    ensures p <= q ==> n * p <= n * q
  {
    if p <= q { assert n * q == n * p + n * (q - p); }
  }

  /** Masking with capacity - 1 is the remainder when the capacity is a power of two. */
  lemma {:induction false} MaskIsMod(x: nat, k: nat)
    ensures And(x, Pow2(k) - 1) == x % Pow2(k)
    decreases k
  {
    if k == 0 {
      AndZero(x);
    } else {
      MaskIsMod(x / 2, k - 1);
      ModDouble(x, Pow2(k - 1));
      assert (Pow2(k) - 1) / 2 == Pow2(k - 1) - 1;
    }
  }

  lemma {:induction false} AndZero(x: nat)
    ensures And(x, 0) == 0
  {
    if x > 0 { AndZero(x / 2); }
  }

  lemma {:induction false} AndSplits(x: nat, y: nat)
    ensures And(x, y) + AndNot(x, y) == x
  {
    if x > 0 { AndSplits(x / 2, y / 2); }
  }

  /** (v + a - 1) & ~(a - 1), the runtime's round-up. */
  function AlignUp(v: nat, a: nat): nat
    requires a >= 1
  {
    AndNot(v + a - 1, a - 1)
  }

  /** Clearing the low bits of x rounds it down. */
  lemma AndNotIsRoundDown(x: nat, a: nat)
    requires IsPow2(a)
    ensures AndNot(x, a - 1) == x - x % a
  {
    var k: nat :| a == Pow2(k);
    MaskIsMod(x, k);
    AndSplits(x, a - 1);
  }

  /** For a power of two the round-up is the least multiple of a that is not below v. */
  lemma AlignUpIsLeastMultiple(v: nat, a: nat)
    requires IsPow2(a)
    ensures v <= AlignUp(v, a) < v + a && AlignUp(v, a) % a == 0
    ensures forall w: nat :: v <= w && w % a == 0 ==> AlignUp(v, a) <= w
  {
    AndNotIsRoundDown(v + a - 1, a);
    RoundedDown(v, a, v + a - 1, AlignUp(v, a));
  }

  lemma RoundedDown(v: nat, a: nat, x: nat, up: nat)
    requires a >= 1 && x == v + a - 1 && up == x - x % a
    ensures v <= up < v + a && up % a == 0
    ensures forall w: nat :: v <= w && w % a == 0 ==> up <= w
  {
    var q, r := x / a, x % a;
    DivMod(x, a);
    RemainderUnique(a * q, a, q, 0);
    forall w: nat | v <= w && w % a == 0 ensures a * q <= w { LeastMultiple(v, a, q, w); }
  }

  lemma DivMod(x: nat, a: nat)
    requires a >= 1
    ensures x == a * (x / a) + x % a
  {
  }

  lemma LeastMultiple(v: nat, a: nat, q: int, w: nat)
    requires a >= 1 && a * q < v + a && v <= w && w % a == 0
    ensures a * q <= w
  {
    var p := w / a;
    assert w == a * p;
    MulLe(a, p, q - 1);
    assert a * (q - 1) == a * q - a;
    MulLe(a, q, p);
  }

  lemma {:induction false} Pow2Monotone(a: nat, b: nat)
    requires a <= b
    ensures Pow2(a) <= Pow2(b)
    ensures Pow2(b) % Pow2(a) == 0
    decreases b
  {
    if a < b {
      Pow2Monotone(a, b - 1);
      var q := Pow2(b - 1) / Pow2(a);
      assert Pow2(b) == Pow2(a) * (2 * q) + 0;
      RemainderUnique(Pow2(b), Pow2(a), 2 * q, 0);
    } else {
      RemainderUnique(Pow2(a), Pow2(a), 1, 0);
    }
  }

  lemma {:induction false} Pow2Strict(a: nat, b: nat)
    ensures a < b ==> Pow2(a) < Pow2(b)
  {
    if a < b { Pow2Strict(a, b - 1); }
  }

  /** The test (x & (x - 1)) == 0 accepts exactly the powers of two. */
  lemma {:induction false} PowerTest(x: nat)
    requires x >= 1
    ensures And(x, x - 1) == 0 <==> IsPow2(x)
  {
    if x == 1 {
      assert x == Pow2(0);
      AndZero(0);
      assert And(1, 0) == 2 * And(0, 0) + 0;
    } else if x % 2 == 1 {
      assert And(x, x - 1) == 2 * And(x / 2, (x - 1) / 2);
      AndSelf(x / 2);
      forall k: nat ensures x != Pow2(k) { assert k > 0 ==> Pow2(k) % 2 == 0; }
    } else {
      PowerTest(x / 2);
      assert (x - 1) / 2 == x / 2 - 1;
      if IsPow2(x / 2) {
        var k: nat :| x / 2 == Pow2(k);
        assert x == Pow2(k + 1);
      }
      if IsPow2(x) {
        var k: nat :| x == Pow2(k);
        assert x / 2 == Pow2(k - 1);
      }
    }
  }

  lemma {:induction false} AndSelf(x: nat)
    ensures And(x, x) == x
  {
    if x > 0 { AndSelf(x / 2); }
  }

  // ---------- Doubling loops ----------

  /** The value at which `while (r < a) r *= 2` stops. */
  function DoubleUpTo(r: nat, a: nat): (d: nat)
    requires r >= 1
    ensures d >= 1
    decreases if r < a then a - r else 0
  {
    if r < a then DoubleUpTo(2 * r, a) else r
  }

  /** Started at a power of two it stops at the least power of two from there on that reaches a. */
  lemma {:induction false} DoubleUpToIs(k: nat, a: nat)
    ensures var r := DoubleUpTo(Pow2(k), a);
      IsPow2(r) && r >= a && r >= Pow2(k) && forall j: nat :: j >= k && Pow2(j) >= a ==> r <= Pow2(j)
    decreases if Pow2(k) < a then a - Pow2(k) else 0
  {
    if Pow2(k) < a {
      DoubleUpToIs(k + 1, a);
      assert DoubleUpTo(Pow2(k), a) == DoubleUpTo(Pow2(k + 1), a);
    } else {
      forall j: nat | j >= k ensures Pow2(k) <= Pow2(j) { Pow2Monotone(k, j); }
    }
  }

  lemma {:induction false} Pow2Sum(a: nat, b: nat)
    ensures Pow2(a + b) == Pow2(a) * Pow2(b)
  {
    if b > 0 {
      Pow2Sum(a, b - 1);
      assert Pow2(a) * (2 * Pow2(b - 1)) == 2 * (Pow2(a) * Pow2(b - 1));
    }
  }

  lemma WordIsPow2()
    ensures Pow2(64) == 0x1_0000_0000_0000_0000
  {
    assert Pow2(4) == 16;
    Pow2Sum(4, 4);
    Pow2Sum(8, 8);
    Pow2Sum(16, 16);
    Pow2Sum(32, 32);
  }
}
