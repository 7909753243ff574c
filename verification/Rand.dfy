/**
  The pseudo-random generator of lab5/libs/rand.c: a linear congruential generator on
  48-bit states.  The main result is that its period is full: starting anywhere, all
  2^48 states occur before one comes back.
 */
module Rand {
  import opened Powers

  const MULTIPLIER: nat := 0x5_DEEC_E66D
  const INCREMENT: nat := 0xB
  const STATES: nat := 0x1_0000_0000_0000
  const WORD: nat := 0x1_0000_0000_0000_0000
  const RAND_MAX: nat := 2147483647

  /** The state update, computed as C does: a 64-bit product and sum, then a 48-bit mask. */
  function Next(x: nat): nat {
    (x * MULTIPLIER + INCREMENT) % WORD % STATES
  }

  /** The state after n draws. */
  function Iterate(n: nat, x: nat): nat {
    if n == 0 then x else Next(Iterate(n - 1, x))
  }

  class Generator {
    var next: nat

    constructor ()
      ensures next == 1
    {
      next := 1;
    }

    /** The macro do_div does not parenthesise its base, so RAND_MAX + 1 divides as
        "% RAND_MAX" and then adds 1: the result is never 0, whatever the comment says. */
    method Rand() returns (r: nat)
      modifies this
      ensures next == Next(old(next)) && next < STATES
      ensures next == (old(next) * 0x5_DEEC_E66D + 0xB) % 0x1_0000_0000_0000
      ensures 1 <= r <= 0x7FFF_FFFF && (r - 1 - next / 4096) % 0x7FFF_FFFF == 0
    {
      NextIs(next);
      next := (next * MULTIPLIER + INCREMENT) % WORD % STATES;
      var result := next / 4096;
      r := result % RAND_MAX + 1;
      assert r - 1 - result == RAND_MAX * -(result / RAND_MAX);
      MultipleMod(-(result / RAND_MAX), RAND_MAX);
    }

    method Srand(seed: nat)
      requires seed < 0x1_0000_0000
      modifies this
      ensures next == seed < STATES
    {
      next := seed;
    }
  }

  lemma MultipleMod(k: int, m: nat)
    requires m > 0
    ensures (m * k) % m == 0
  {
    Scale(m, (m * k) / m - k);
  }

  /** A multiple of m strictly between -m and m is 0. */
  lemma Scale(m: int, d: int)
    requires m >= 0
    ensures d >= 1 ==> m * d >= m
    ensures d <= -1 ==> m * d <= -m
  {
    if d >= 1 {
      assert m * d == m + m * (d - 1);
    } else if d <= -1 {
      assert m * d == -m - m * (-d - 1);
    }
  }

  lemma StatesIsPow2()
    ensures STATES == Pow2(48)
  {
    assert Pow2(8) == 256;
    Pow2Add(8, 8); Pow2Add(16, 16); Pow2Add(32, 16);
  }

  /** The 64-bit wrap-around does not disturb the low 48 bits. */
  lemma NextIsAffine(x: nat) returns (q: int)
    ensures Next(x) == MULTIPLIER * x + INCREMENT - STATES * q
    ensures Next(x) < STATES
  {
    var y := x * MULTIPLIER + INCREMENT;
    q := 0x10000 * (y / WORD) + (y % WORD) / STATES;
  }

  /** The 64-bit wrap-around in between makes no difference. */
  lemma NextIs(x: nat)
    ensures Next(x) == (x * 0x5_DEEC_E66D + 0xB) % 0x1_0000_0000_0000
  {
    var y := x * MULTIPLIER + INCREMENT;
    var q := NextIsAffine(x);
    assert y == STATES * q + Next(x);
    RemainderIs(y, q, Next(x));
  }

  lemma RemainderIs(y: int, q: int, r: int)
    requires y == STATES * q + r && 0 <= r < STATES
    ensures y % STATES == r
  {
  }

  lemma {:induction false} IterateAdd(m: nat, n: nat, x: nat)
    ensures Iterate(m + n, x) == Iterate(m, Iterate(n, x))
  {
    if m > 0 { IterateAdd(m - 1, n, x); }
  }

  /** Coefficients of the 2^j-fold iterate, as an affine map over the integers. */
  function Slope(j: nat): nat {
    if j == 0 then MULTIPLIER else Slope(j - 1) * Slope(j - 1)
  }

  function Offset(j: nat): nat {
    if j == 0 then INCREMENT else Offset(j - 1) * (Slope(j - 1) + 1)
  }

  lemma {:induction false} Jump(j: nat, x: nat) returns (q: int)
    ensures Iterate(Pow2(j), x) == Slope(j) * x + Offset(j) - STATES * q
  {
    if j == 0 {
      assert Iterate(1, x) == Next(Iterate(0, x));
      q := NextIsAffine(x);
    } else {
      IterateAdd(Pow2(j - 1), Pow2(j - 1), x);
      var q0 := Jump(j - 1, x);
      var q1 := Jump(j - 1, Iterate(Pow2(j - 1), x));
      q := Slope(j - 1) * q0 + q1;
      ComposeAffine(Slope(j - 1), x, Offset(j - 1), STATES, q0, q1);
    }
  }

  lemma ComposeAffine(s: int, x: int, o: int, m: int, q0: int, q1: int)
    ensures s * (s * x + o - m * q0) + o - m * q1 == (s * s) * x + o * (s + 1) - m * (s * q0 + q1)
  {
    assert s * (s * x + o - m * q0) == (s * s) * x + s * o - m * (s * q0);
  }

  /** The slope is 1 modulo 2^(j+2), and the offset is an odd multiple of 2^j. */
  lemma {:induction false} Shape(j: nat) returns (u: nat, w: nat)
    ensures Slope(j) == 1 + 4 * (Pow2(j) * u)
    ensures Offset(j) == Pow2(j) * (2 * w + 1)
  {
    if j == 0 {
      u, w := MULTIPLIER / 4, INCREMENT / 2;
    } else {
      var u0, w0 := Shape(j - 1);
      u, w := DoubleShape(Pow2(j - 1), u0, w0);
    }
  }

  lemma DoubleShape(p: nat, u0: nat, w0: nat) returns (u: nat, w: nat)
    ensures (1 + 4 * (p * u0)) * (1 + 4 * (p * u0)) == 1 + 4 * ((2 * p) * u)
    ensures (p * (2 * w0 + 1)) * ((1 + 4 * (p * u0)) + 1) == (2 * p) * (2 * w + 1)
  {
    var z := p * u0;
    u, w := u0 + 2 * (z * u0), w0 + (2 * w0 + 1) * z;
    assert p * (z * u0) == z * z;
    assert p * u == z + 2 * (z * z);
    assert (2 * w0 + 1) * (1 + 2 * z) == 2 * w + 1;
    assert (p * (2 * w0 + 1)) * (2 * (1 + 2 * z)) == (2 * p) * ((2 * w0 + 1) * (1 + 2 * z));
  }

  /** 2^j draws move the state by an odd multiple of 2^j, up to multiples of 2^48. */
  lemma JumpShift(j: nat, x: nat) returns (t: int, q: int)
    ensures Iterate(Pow2(j), x) == x + Pow2(j) * (2 * t + 1) - STATES * q
  {
    var u, w := Shape(j);
    q := Jump(j, x);
    t := 2 * (u * x) + w;
    ShiftAlgebra(Pow2(j), u, w, x);
  }

  lemma ShiftAlgebra(p: nat, u: nat, w: nat, x: nat)
    ensures (1 + 4 * (p * u)) * x + p * (2 * w + 1) == x + p * (2 * (2 * (u * x) + w) + 1)
  {
    assert (p * u) * x == p * (u * x);
  }

  /** k steps of 2^j draws each move the state by k * 2^j, up to a multiple of 2^(j+1). */
  lemma {:induction false} ManyJumps(j: nat, k: nat, x: nat) returns (t: int)
    requires j < 48
    ensures Iterate(k * Pow2(j), x) == x + Pow2(j) * (k + 2 * t)
  {
    if k == 0 {
      t := 0;
      assert 0 * Pow2(j) == 0;
    } else {
      var t0 := ManyJumps(j, k - 1, x);
      assert k * Pow2(j) == Pow2(j) + (k - 1) * Pow2(j);
      IterateAdd(Pow2(j), (k - 1) * Pow2(j), x);
      var t1, q := JumpShift(j, Iterate((k - 1) * Pow2(j), x));
      StatesIsPow2();
      Pow2Add(j + 1, 47 - j);
      t := AddJump(Pow2(j), Pow2(47 - j), STATES, x, k, t0, t1, q);
    }
  }

  lemma AddJump(p: int, r: int, m: int, x: int, k: int, t0: int, t1: int, q: int) returns (t: int)
    requires m == (2 * p) * r
    ensures x + p * (k - 1 + 2 * t0) + p * (2 * t1 + 1) - m * q == x + p * (k + 2 * t)
  {
    t := t0 + t1 - r * q;
    assert m * q == p * (2 * (r * q));
  }

  /** Every positive number is an odd multiple of a power of two. */
  lemma {:induction false} OddPart(d: nat) returns (j: nat, k: nat)
    requires d > 0
    ensures d == (2 * k + 1) * Pow2(j)
  {
    if d % 2 == 1 {
      j, k := 0, d / 2;
    } else {
      j, k := OddPart(d / 2);
      assert d == 2 * ((2 * k + 1) * Pow2(j)) == (2 * k + 1) * (2 * Pow2(j));
      j := j + 1;
    }
  }

  lemma IterateBelow(n: nat, x: nat)
    requires x < STATES
    ensures Iterate(n, x) < STATES
  {
  }

  lemma OddPartBelow(n: nat, d: nat) returns (j: nat, k: nat)
    requires n == STATES && 0 < d < n
    ensures d == (2 * k + 1) * Pow2(j) && j < 48
  {
    j, k := OddPart(d);
    Scale(Pow2(j), 2 * k + 1);
    StatesIsPow2();
    if j >= 48 { Pow2Monotone(48, j); }
  }

  /** No state comes back early. */
  lemma NoShortCycle(n: nat, d: nat, x: nat)
    requires n == STATES && 0 < d < n
    ensures Iterate(d, x) != x
  {
    var j, k := OddPartBelow(n, d);
    var odd := 2 * k + 1;
    var t := ManyJumps(j, odd, x);
    assert odd + 2 * t != 0;
    NonzeroProduct(Pow2(j), odd + 2 * t);
  }

  lemma NonzeroProduct(p: int, d: int)
    requires p > 0 && d != 0
    ensures p * d != 0
  {
    Scale(p, d);
  }

  lemma CycleCloses(n: nat, x: nat)
    requires n == STATES && x < n
    ensures Iterate(n, x) == x
  {
    StatesIsPow2();
    var t, q := JumpShift(48, x);
    assert n * (2 * t + 1) - n * q == n * (2 * t + 1 - q);
    Scale(n, 2 * t + 1 - q);
    IterateBelow(n, x);
  }

  ghost predicate Distinct(n: nat, x: nat) {
    forall i, j :: 0 <= i < j < n ==> Iterate(i, x) != Iterate(j, x)
  }

  /** The states seen in the first n draws from x. */
  ghost function Seen(n: nat, x: nat): set<nat> {
    set i | 0 <= i < n :: Iterate(i, x)
  }

  /** Main result: from every state, the next 2^48 states are pairwise distinct, they
      are all the 48-bit states there are, and then the cycle closes. */
  lemma FullPeriod(n: nat, x: nat)
    requires n == STATES && x < n
    ensures Distinct(n, x)
    ensures Iterate(n, x) == x
    ensures forall y: nat :: y in Seen(n, x) <==> y < n
  {
    forall i, j | 0 <= i < j < n
      ensures Iterate(i, x) != Iterate(j, x)
    {
      IterateAdd(j - i, i, x);
      NoShortCycle(n, j - i, Iterate(i, x));
    }
    CycleCloses(n, x);
    forall y: nat | y in Seen(n, x) ensures y < n {
      var i :| 0 <= i < n && Iterate(i, x) == y;
      IterateBelow(i, x);
    }
    SeenSize(n, x);
    FullRange(Seen(n, x), n);
  }

  lemma {:induction false} SeenSize(n: nat, x: nat)
    requires Distinct(n, x)
    ensures |Seen(n, x)| == n
  {
    hide Iterate;
    if n > 0 {
      SeenSize(n - 1, x);
      assert Seen(n, x) == Seen(n - 1, x) + {Iterate(n - 1, x)};
    }
  }

  /** n different numbers below n are all of them. */
  lemma {:induction false} FullRange(s: set<nat>, n: nat)
    requires forall y :: y in s ==> y < n
    ensures |s| <= n
    ensures |s| == n ==> forall y: nat :: y < n ==> y in s
  {
    if n > 0 {
      FullRange(s - {n - 1}, n - 1);
    } else {
      assert s == {};
    }
  }
}
