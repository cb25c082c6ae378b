/**
 Bitwise masking on natural numbers.

 The table and the ring buffer both replace "modulo capacity" by "and with capacity - 1".
 `And` is the bit-by-bit conjunction, and `MaskIsModulo` says when that replacement is right.
 */
module Bits {

  function Pow2(n: nat): (r: nat)
    ensures r >= 1
  {
    if n == 0 then 1 else 2 * Pow2(n - 1)
  }

  /** Bitwise conjunction, least significant bit first. */
  function And(a: nat, b: nat): nat {
    if a == 0 || b == 0 then 0 else (a % 2) * (b % 2) + 2 * And(a / 2, b / 2)
  }

  ghost predicate IsPow2(c: nat) {
    exists n: nat :: c == Pow2(n)
  }

  lemma {:induction false} Pow2Add(a: nat, b: nat)
    ensures Pow2(a + b) == Pow2(a) * Pow2(b)
  {
    if b > 0 {
      Pow2Add(a, b - 1);
      assert Pow2(a + b) == 2 * (Pow2(a) * Pow2(b - 1));
    }
  }

  /** The powers of two that the engine's sizes use. */
  lemma Powers()
    ensures Pow2(16) == 0x1_0000 && Pow2(64) == 0x1_0000_0000_0000_0000
  {
    assert Pow2(8) == 256;
    Pow2Add(8, 8);
    Pow2Add(16, 16);
    Pow2Add(32, 32);
  }

  lemma DoublePow2(c: nat)
    requires IsPow2(c)
    ensures IsPow2(2 * c) && 2 * c % 2 == 0 && 2 * c / 2 == c
  {
    var n: nat :| c == Pow2(n);
    assert 2 * c == Pow2(n + 1);
  }

  /** The remainder modulo 2m, from the low bit and the remainder modulo m of the rest. */
  lemma ModDouble(x: nat, m: nat)
    requires m > 0
    ensures x % (2 * m) == x % 2 + 2 * (x / 2 % m)
  {
    var k, r := x / 2 / m, x / 2 % m;
    var s := x % 2 + 2 * r;
    assert x / 2 == k * m + r;
    assert x == k * (2 * m) + s by {
      assert x == 2 * (k * m + r) + x % 2;
      assert 2 * (k * m) == k * (2 * m);
    }
    RemainderUnique(x, 2 * m, k, s);
  }

  /** A multiple of d below d is not positive. */
  lemma MultipleTooSmall(k: int, d: nat)
    requires k * d < d
    ensures k <= 0
  {
  }

  lemma RemainderUnique(x: int, d: nat, k: int, r: nat)
    requires r < d && x == k * d + r
    ensures x % d == r
  {
    var k', r' := x / d, x % d;
    assert (k - k') * d == r' - r by {
      assert x == k' * d + r';
      assert (k - k') * d == k * d - k' * d;
    }
    MultipleTooSmall(k - k', d);
    MultipleTooSmall(k' - k, d);
    assert (k' - k) * d == -((k - k') * d);
  }

  /** Masking with a power of two minus one is the remainder modulo that power of two. */
  lemma {:induction false} MaskIsModulo(x: nat, n: nat)
    ensures And(x, Pow2(n) - 1) == x % Pow2(n)
  {
    if n > 0 {
      var m := Pow2(n - 1);
      assert (Pow2(n) - 1) / 2 == m - 1 && (Pow2(n) - 1) % 2 == 1;
      ModDouble(x, m);
      MaskIsModulo(x / 2, n - 1);
      if m == 1 {
        assert Pow2(n) == 2;
      }
    } else {
      assert x % 1 == 0;
    }
  }

  /** Any two numbers in a window no longer than the modulus have different remainders. */
  lemma ModuloInjective(a: nat, b: nat, d: nat)
    requires a <= b < a + d
    requires a % d == b % d
    ensures a == b
  {
    var k := b / d - a / d;
    assert b - a == k * d by {
      assert a == a / d * d + a % d && b == b / d * d + b % d;
      assert k * d == b / d * d - a / d * d;
    }
    MultipleTooSmall(k, d);
    MultipleTooSmall(-k, d);
    assert (-k) * d == -(k * d);
  }

  /** Incrementing commutes with taking remainders. */
  lemma ModuloSucc(x: nat, d: nat)
    requires d > 0
    ensures (x % d + 1) % d == (x + 1) % d
  {
    if x % d + 1 < d {
      RemainderUnique(x + 1, d, x / d, x % d + 1);
    } else {
      assert (x / d + 1) * d == x / d * d + d;
      RemainderUnique(x + 1, d, x / d + 1, 0);
    }
  }
}
