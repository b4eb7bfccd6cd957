/** Bitwise operations on natural numbers, and what masks and powers of two make of them. */
module Bits {

  function And(x: nat, y: nat): nat {
    if x == 0 || y == 0 then 0
    else 2 * And(x / 2, y / 2) + if x % 2 == 1 && y % 2 == 1 then 1 else 0
  }

  function Xor(x: nat, y: nat): nat
    decreases x + y
  {
    if x == 0 then y else if y == 0 then x
    else 2 * Xor(x / 2, y / 2) + if x % 2 != y % 2 then 1 else 0
  }

  function Or(x: nat, y: nat): nat
    decreases x + y
  {
    if x == 0 then y else if y == 0 then x
    else 2 * Or(x / 2, y / 2) + if x % 2 == 1 || y % 2 == 1 then 1 else 0
  }

  /** x shifted left by k. */
  function Shl(x: nat, k: nat): nat {
    if k == 0 then x else 2 * Shl(x, k - 1)
  }

  /** uint32_t arithmetic wraps around. */
  const U32: nat := 0x1_0000_0000

  function Pow2(k: nat): (p: nat)
    ensures 0 < p
  {
    if k == 0 then 1 else 2 * Pow2(k - 1)
  }

  lemma AndBound(x: nat, y: nat)
    ensures And(x, y) <= x && And(x, y) <= y
  {
  }

  lemma {:induction false} HalfMod(x: nat, m: nat)
    requires 0 < m
    ensures x % (2 * m) == 2 * ((x / 2) % m) + x % 2
  {
    var q, r := (x / 2) / m, (x / 2) % m;
    assert x == (2 * m) * q + (2 * r + x % 2) by {
      assert x / 2 == m * q + r;
      assert (2 * m) * q == 2 * (m * q);
    }
    ModUnique(x, 2 * m, q, 2 * r + x % 2);
  }

  lemma {:induction false} ModUnique(x: nat, m: nat, q: nat, r: nat)
    requires x == m * q + r && r < m
    ensures x % m == r
  {
    var d := x / m - q;
    assert m * d == r - x % m by {
      assert m * (x / m) + x % m == x;
      assert m * (x / m) - m * q == m * d;
    }
    if d >= 1 {
      MulAtLeast(m, d);
    } else if d <= -1 {
      MulNegate(m, d);
      MulAtLeast(m, -d);
    }
  }

  lemma MulNegate(m: nat, d: int)
    ensures m * -d == -(m * d)
  {
  }

  lemma MulAtLeast(m: nat, d: nat)
    requires 1 <= d
    ensures m <= m * d
  {
    assert m * d == m + m * (d - 1);
  }

  lemma ModNext(x: nat, m: nat)
    requires 0 < m
    ensures (x % m + 1) % m == (x + 1) % m
  {
    var q, r := x / m, x % m;
    assert m * q + r == x;
    if r + 1 < m {
      ModUnique(x + 1, m, q, r + 1);
      ModUnique(r + 1, m, 0, r + 1);
    } else {
      assert m * (q + 1) == m * q + m;
      ModUnique(x + 1, m, q + 1, 0);
      ModUnique(r + 1, m, 1, 0);
    }
  }

  lemma ModHalf(x: nat, n: nat)
    requires 0 < n
    ensures (x % (2 * n)) % n == x % n
  {
    var q, s := x / (2 * n), x % (2 * n);
    assert (2 * n) * q + s == x;
    var t, u := if s < n then 0 else 1, if s < n then s else s - n;
    assert n * (2 * q + t) == (2 * n) * q + n * t;
    ModUnique(x, n, 2 * q + t, u);
    ModUnique(s, n, t, u);
  }

  lemma ModShift(x: nat, n: nat)
    requires 0 < n
    ensures (x + n) % (2 * n) == if x % (2 * n) < n then x % (2 * n) + n else x % (2 * n) - n
  {
    var q, s := x / (2 * n), x % (2 * n);
    assert (2 * n) * q + s == x;
    if s < n {
      ModUnique(x + n, 2 * n, q, s + n);
    } else {
      assert (2 * n) * (q + 1) == (2 * n) * q + 2 * n;
      ModUnique(x + n, 2 * n, q + 1, s - n);
    }
  }

  /** Two numbers less than m apart with the same remainder are the same. */
  lemma ModSame(a: nat, b: nat, m: nat)
    requires a <= b < a + m && a % m == b % m
    ensures a == b
  {
    var q, r := a / m, a % m;
    assert m * q + r == a && m * (b / m) + r == b;
    assert m * (b / m - q) == b - a by {
      assert m * (b / m - q) == m * (b / m) - m * q;
    }
    if b / m - q >= 1 {
      MulAtLeast(m, b / m - q);
    } else if b / m - q <= -1 {
      MulNegate(m, b / m - q);
      MulAtLeast(m, -(b / m - q));
    }
  }

  /** Masking with 2^k - 1 is taking the remainder by 2^k. */
  lemma {:induction false} MaskIsMod(x: nat, k: nat)
    ensures And(x, Pow2(k) - 1) == x % Pow2(k)
    decreases k
  {
    hide And;
    if k == 0 || x == 0 {
      AndNothing(x, Pow2(k) - 1);
      ModNothing(x, Pow2(k));
    } else {
      MaskIsMod(x / 2, k - 1);
      MaskDoubles(x, Pow2(k - 1), Pow2(k));
    }
  }

  lemma ModNothing(x: nat, p: nat)
    requires p == 1 || (x == 0 && 0 < p)
    ensures x % p == 0
  {
  }

  lemma AndNothing(x: nat, y: nat)
    requires x == 0 || y == 0
    ensures And(x, y) == 0
  {
  }

  lemma MaskDoubles(x: nat, m: nat, p: nat)
    requires 0 < x && 0 < m && p == 2 * m && And(x / 2, m - 1) == (x / 2) % m
    ensures And(x, p - 1) == x % p
  {
    AndHalf(x, m);
    HalfMod(x, m);
  }

  lemma AndHalf(x: nat, m: nat)
    requires 0 < x && 0 < m
    ensures And(x, 2 * m - 1) == 2 * And(x / 2, m - 1) + x % 2
  {
    var y := 2 * m - 1;
    assert y / 2 == m - 1 && y % 2 == 1;
  }

  /** Flipping bit k adds or subtracts 2^k. */
  lemma {:induction false} XorFlips(x: nat, k: nat)
    requires x < 2 * Pow2(k)
    ensures Xor(x, Pow2(k)) == if x < Pow2(k) then x + Pow2(k) else x - Pow2(k)
    decreases k
  {
    if 0 < k && 0 < x {
      XorFlips(x / 2, k - 1);
    }
  }

  /** `n & (n - 1)` is zero for exactly the powers of two (and zero). */
  lemma {:induction false} PowerTest(n: nat)
    requires 0 < n
    ensures And(n, n - 1) == 0 <==> exists k: nat :: n == Pow2(k)
    decreases n
  {
    if n == 1 {
      assert n == Pow2(0);
    } else if n % 2 == 1 {
      OddIsNoPower(n);
      assert n / 2 == (n - 1) / 2;
      AndSame(n / 2);
      assert And(n, n - 1) == 2 * (n / 2);
    } else {
      PowerTest(n / 2);
      assert (n - 1) / 2 == n / 2 - 1;
      assert And(n, n - 1) == 2 * And(n / 2, n / 2 - 1);
      PowerHalf(n);
    }
  }

  lemma OddIsNoPower(n: nat)
    requires 1 < n && n % 2 == 1
    ensures !exists k: nat :: n == Pow2(k)
  {
    forall k: nat ensures n != Pow2(k) {
      PowerParity(k);
    }
  }

  lemma {:induction false} PowerParity(k: nat)
    ensures Pow2(k) == 1 || Pow2(k) % 2 == 0
  {
    if k != 0 {
      TwiceIsEven(Pow2(k - 1));
    }
  }

  lemma TwiceIsEven(p: nat)
    ensures 2 * p % 2 == 0
  {
  }

  lemma PowerHalf(n: nat)
    requires 1 < n && n % 2 == 0
    ensures (exists k: nat :: n == Pow2(k)) <==> (exists k: nat :: n / 2 == Pow2(k))
  {
    if k: nat :| n / 2 == Pow2(k) {
      assert n == Pow2(k + 1);
    }
    if k: nat :| n == Pow2(k) {
      assert n / 2 == Pow2(k - 1);
    }
  }

  lemma {:induction false} AndSame(x: nat)
    ensures And(x, x) == x
  {
    if 0 < x {
      AndSame(x / 2);
    }
  }

  lemma Pow2Grows(j: nat, k: nat)
    requires j <= k
    ensures Pow2(j) <= Pow2(k)
  {
  }

  // ---------------------------------------------------------------- laws of Xor, Or and Shl

  lemma XorHalf(x: nat, y: nat)
    ensures Xor(x, y) / 2 == Xor(x / 2, y / 2)
    ensures Xor(x, y) % 2 == if x % 2 != y % 2 then 1 else 0
  {
  }

  lemma {:induction false} XorComm(x: nat, y: nat)
    ensures Xor(x, y) == Xor(y, x)
    decreases x + y
  {
    if x != 0 && y != 0 {
      XorComm(x / 2, y / 2);
    }
  }

  lemma {:induction false} XorAssoc(x: nat, y: nat, z: nat)
    ensures Xor(Xor(x, y), z) == Xor(x, Xor(y, z))
    decreases x + y + z
  {
    if x != 0 && y != 0 && z != 0 {
      XorHalf(x, y);
      XorHalf(y, z);
      XorAssoc(x / 2, y / 2, z / 2);
      XorHalf(Xor(x, y), z);
      XorHalf(x, Xor(y, z));
    }
  }

  /** Exclusive or acts on the bits from k up and on those below k separately. */
  lemma {:induction false} XorSplit(a: nat, b: nat, u: nat, v: nat, k: nat)
    requires u < Pow2(k) && v < Pow2(k)
    ensures Xor(Shl(a, k) + u, Shl(b, k) + v) == Shl(Xor(a, b), k) + Xor(u, v)
    ensures Xor(u, v) < Pow2(k)
    decreases k
  {
    hide Xor;
    if k == 0 {
      XorNothing();
    } else {
      XorSplit(a, b, u / 2, v / 2, k - 1);
      XorSplitStep(Shl(a, k - 1), Shl(b, k - 1), u, v, Shl(Xor(a, b), k - 1), Pow2(k - 1));
    }
  }

  lemma XorNothing()
    ensures Xor(0, 0) == 0
  {
  }

  lemma XorSplitStep(i: nat, j: nat, u: nat, v: nat, h: nat, p: nat)
    requires Xor(i + u / 2, j + v / 2) == h + Xor(u / 2, v / 2) && Xor(u / 2, v / 2) < p
    ensures Xor(2 * i + u, 2 * j + v) == 2 * h + Xor(u, v) && Xor(u, v) < 2 * p
  {
    XorHalf(2 * i + u, 2 * j + v);
    XorHalf(u, v);
    assert (2 * i + u) / 2 == i + u / 2 && (2 * j + v) / 2 == j + v / 2;
  }

  /** Setting a bit below all those that are set. */
  lemma {:induction false} OrBelow(h: nat, k: nat)
    ensures Or(Shl(h, k + 1), Pow2(k)) == Shl(2 * h + 1, k) == Shl(h, k + 1) + Pow2(k)
    ensures Shl(2 * h, k) == Shl(h, k + 1)
    decreases k
  {
    if 0 < k {
      OrBelow(h, k - 1);
    }
  }
}
