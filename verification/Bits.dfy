/** Bytes, 16-bit words, and the bit operators of C on natural numbers.

    The ring buffer reduces its pointers with `&` and `^`. Both operators are defined here
    bit by bit, so that what the masks compute is a theorem and not an assumption. */
module Bits {

  type byte = b: int | 0 <= b < 256

  type word16 = w: int | 0 <= w < 0x1_0000

  function Min(a: int, b: int): int {
    if a <= b then a else b
  }

  function Max(a: int, b: int): int {
    if a >= b then a else b
  }

  function Pow2(k: nat): (p: nat)
    ensures 1 <= p
  {
    if k == 0 then 1 else 2 * Pow2(k - 1)
  }

  ghost predicate IsPow2(n: nat) {
    exists k: nat :: n == Pow2(k)
  }

  /** Bitwise `&`. */
  function And(a: nat, b: nat): nat
    decreases a
  {
    if a == 0 then 0 else (a % 2) * (b % 2) + 2 * And(a / 2, b / 2)
  }

  /** Bitwise `^`. */
  function Xor(a: nat, b: nat): nat
    decreases a + b
  {
    if a == 0 && b == 0 then 0 else (if a % 2 == b % 2 then 0 else 1) + 2 * Xor(a / 2, b / 2)
  }

  /** Bitwise `|`. */
  function Or(a: nat, b: nat): nat
    decreases a + b
  {
    if a == 0 && b == 0 then 0 else Max(a % 2, b % 2) + 2 * Or(a / 2, b / 2)
  }

  lemma HalveMod(x: nat, m: nat)
    requires 0 < m
    ensures x % (2 * m) == x % 2 + 2 * ((x / 2) % m)
  {
    var q, r := (x / 2) / m, (x / 2) % m;
    assert x == 2 * (q * m + r) + x % 2;
    assert x == q * (2 * m) + (2 * r + x % 2);
    ModUnique(x, 2 * m, q, 2 * r + x % 2);
  }

  lemma ModUnique(x: int, m: nat, q: int, r: int)
    requires 0 < m && 0 <= r < m && x == q * m + r
    ensures x % m == r && x / m == q
  {
    assert x == (x / m) * m + x % m;
    assert (x / m - q) * m == r - x % m;
    SmallMultipleIsZero(x / m - q, m);
  }

  lemma SmallMultipleIsZero(d: int, m: int)
    requires 0 < m
    ensures -m < d * m < m ==> d == 0
  {
    if d >= 1 {
      assert (d - 1) * m >= 0;
    } else if d <= -1 {
      assert (-d - 1) * m >= 0;
    }
  }

  /** Masking with one less than a power of two is reduction modulo that power. */
  lemma {:induction false} MaskIsMod(x: nat, k: nat)
    ensures And(x, Pow2(k) - 1) == x % Pow2(k)
    decreases k
  {
    if k == 0 {
      AndZero(x);
    } else {
      var m := Pow2(k - 1);
      assert Pow2(k) == 2 * m;
      assert (2 * m - 1) % 2 == 1 && (2 * m - 1) / 2 == m - 1;
      MaskIsMod(x / 2, k - 1);
      HalveMod(x, m);
      assert And(x, 2 * m - 1) == x % 2 + 2 * And(x / 2, m - 1) by {
        if x == 0 {
          AndZero(0);
        }
      }
    }
  }

  lemma {:induction false} AndZero(x: nat)
    ensures And(x, 0) == 0
  {
    if x != 0 {
      AndZero(x / 2);
    }
  }

  lemma {:induction false} XorZero(x: nat)
    ensures Xor(x, 0) == x
  {
    if x != 0 {
      XorZero(x / 2);
    }
  }

  /** Flipping the bit of weight `Pow2(k)` moves a pointer below `2 * Pow2(k)` by half the
      pointer range. */
  lemma {:induction false} XorFlipsTopBit(x: nat, k: nat)
    requires x < 2 * Pow2(k)
    ensures Xor(x, Pow2(k)) == if x < Pow2(k) then x + Pow2(k) else x - Pow2(k)
    decreases k
  {
    if k == 0 {
      assert Xor(0, 1) == 1 by { assert Xor(0, 0) == 0; }
      assert Xor(1, 1) == 0 by { assert Xor(0, 0) == 0; }
    } else {
      XorFlipsTopBit(x / 2, k - 1);
      assert Pow2(k) % 2 == 0 && Pow2(k) / 2 == Pow2(k - 1);
    }
  }

  /** Setting a bit above all the others adds its weight. */
  lemma {:induction false} OrSetsTopBit(a: nat, k: nat)
    requires a < Pow2(k)
    ensures Or(a, Pow2(k)) == a + Pow2(k)
    decreases k
  {
    if k == 0 {
      assert Or(0, 1) == 1 by { assert Or(0, 0) == 0; }
    } else {
      OrSetsTopBit(a / 2, k - 1);
      assert Pow2(k) % 2 == 0 && Pow2(k) / 2 == Pow2(k - 1);
    }
  }

  /** The test `n != 0 && !(n & (n - 1))` recognises exactly the powers of two. */
  lemma {:induction false} PowerOfTwoTest(n: nat)
    requires n != 0
    ensures And(n, n - 1) == 0 <==> IsPow2(n)
  {
    if n == 1 {
      AndZero(1);
      assert 1 == Pow2(0);
    } else if n % 2 == 0 {
      PowerOfTwoTest(n / 2);
      assert (n - 1) / 2 == n / 2 - 1;
      if IsPow2(n / 2) {
        var k: nat :| n / 2 == Pow2(k);
        assert n == Pow2(k + 1);
      }
      if IsPow2(n) {
        var k: nat :| n == Pow2(k);
        assert k != 0 && n / 2 == Pow2(k - 1);
      }
    } else {
      assert (n - 1) / 2 == n / 2;
      AndSelf(n / 2);
      if IsPow2(n) {
        OddPowerIsOne(n);
      }
    }
  }

  lemma OddPowerIsOne(n: nat)
    requires IsPow2(n)
    ensures n % 2 == 1 ==> n == 1
  {
    var k: nat :| n == Pow2(k);
  }

  lemma {:induction false} AndSelf(n: nat)
    ensures And(n, n) == n
  {
    if n != 0 {
      AndSelf(n / 2);
      assert (n % 2) * (n % 2) == n % 2;
    }
  }

  // Modular arithmetic used wherever positions wrap.

  lemma ModAddMod(a: int, b: int, m: nat)
    requires 0 < m
    ensures (a % m + b) % m == (a + b) % m
  {
    var q, r := (a + b) / m, (a + b) % m;
    assert a == (a / m) * m + a % m;
    assert a % m + b == (q - a / m) * m + r;
    ModUnique(a % m + b, m, q - a / m, r);
  }

  /** Reducing modulo a multiple first changes nothing. */
  lemma ModOfMod(a: int, m: nat, c: nat)
    requires 0 < m && 0 < c
    ensures 0 < c * m && a % (c * m) % m == a % m
  {
    var n := c * m;
    assert n >= m by { assert (c - 1) * m >= 0; }
    assert a == (a / n) * n + a % n;
    var q, r := a / m, a % m;
    assert a == q * m + r;
    assert (a / n) * n == ((a / n) * c) * m;
    assert a % n == (q - (a / n) * c) * m + r;
    ModUnique(a % n, m, q - (a / n) * c, r);
  }

  // Multiples.

  lemma NextMultiple(i: int, m: int)
    ensures (i + 1) * m == i * m + m
  {
  }

  lemma SignOfMultiple(d: int, m: nat)
    ensures if d < 0 then d * m + m <= 0 else d * m >= 0
  {
    if d < 0 {
      assert (-d - 1) * m >= 0;
    } else {
      assert d * m >= 0;
    }
  }

  lemma MultiplesGrow(i: int, j: int, m: nat)
    requires i <= j
    ensures i * m <= j * m
  {
    SignOfMultiple(j - i, m);
    assert j * m == i * m + (j - i) * m;
  }

  function Pow256(n: nat): (p: nat)
    ensures 1 <= p
  {
    if n == 0 then 1 else 256 * Pow256(n - 1)
  }

  /** Concatenation is associative; the verifier needs to be reminded. */
  lemma Associative<T>(a: seq<T>, b: seq<T>, c: seq<T>)
    ensures a + b + c == a + (b + c)
  {
  }
}
