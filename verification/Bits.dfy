/** Unsigned machine arithmetic: the bit operators the sources use, given bit by bit,
    and the facts that turn masks, shifts and disjoint ORs into `%`, `/` and `+`. */
module Bits {

  const TWO_64: nat := 0x1_0000_0000_0000_0000
  const TWO_32: nat := 0x1_0000_0000

  type byte = x: int | 0 <= x < 256
  type u16 = x: int | 0 <= x < 0x1_0000
  type u32 = x: int | 0 <= x < 0x1_0000_0000
  type u64 = x: int | 0 <= x < 0x1_0000_0000_0000_0000

  function Pow2(k: nat): (p: nat)
    ensures p >= 1
  {
    if k == 0 then 1 else 2 * Pow2(k - 1)
  }

  /** The `&` of C on unsigned values, one bit at a time. */
  function And(a: nat, b: nat): nat {
    if a == 0 || b == 0 then 0
    else (if a % 2 == 1 && b % 2 == 1 then 1 else 0) + 2 * And(a / 2, b / 2)
  }

  /** The `|` of C on unsigned values, one bit at a time. */
  function Or(a: nat, b: nat): nat {
    if a == 0 then b
    else if b == 0 then a
    else (if a % 2 == 1 || b % 2 == 1 then 1 else 0) + 2 * Or(a / 2, b / 2)
  }

  /** The `<<` of C, one position at a time. */
  function Shl(a: nat, k: nat): nat {
    if k == 0 then a else 2 * Shl(a, k - 1)
  }

  /** The `>>` of C on unsigned values, one position at a time. */
  function Shr(a: nat, k: nat): nat {
    if k == 0 then a else Shr(a / 2, k - 1)
  }

  // ---------------------------------------------------------------- arithmetic

  lemma MultipleInOpenInterval(e: int, d: int)
    requires d > 0
    ensures -d < e * d < d ==> e == 0
  {
    if e >= 1 {
      assert e * d >= d;
    } else if e <= -1 {
      assert e * d <= -d;
    }
  }

  lemma DivModUnique(x: int, d: int, q: int, r: int)
    requires 0 <= r < d && x == q * d + r
    ensures x / d == q && x % d == r
  {
    var e := x / d - q;
    assert e * d == (x / d) * d - q * d == r - x % d;
    MultipleInOpenInterval(e, d);
  }

  lemma ModAddMultiple(x: int, d: int, q: int)
    requires d > 0
    ensures (x + q * d) % d == x % d
  {
    var h := x / d;
    assert (h + q) * d == h * d + q * d;
    DivModUnique(x + q * d, d, h + q, x % d);
  }

  /** Congruent numbers less than d apart are equal. */
  lemma ModEqualClose(x: int, y: int, d: int)
    requires d > 0 && x % d == y % d && -d < x - y < d
    ensures x == y
  {
    var e := x / d - y / d;
    assert e * d == (x / d) * d - (y / d) * d == x - y;
    MultipleInOpenInterval(e, d);
  }

  lemma ModOfMod(n: nat, s: nat, p: nat)
    requires s > 0 && p > 0
    ensures s * p > 0 && (n % (s * p)) % p == n % p
  {
    var d := s * p;
    assert d > 0;
    var q := n / d;
    assert n == n % d + q * d;
    assert q * d == (q * s) * p;
    ModAddMultiple(n % d, p, q * s);
  }

  lemma {:induction false} Pow2Add(a: nat, b: nat)
    ensures Pow2(a + b) == Pow2(a) * Pow2(b)
  {
    if a != 0 {
      Pow2Add(a - 1, b);
      assert Pow2(a + b) == 2 * Pow2(a - 1 + b);
      assert 2 * (Pow2(a - 1) * Pow2(b)) == Pow2(a) * Pow2(b);
    }
  }

  lemma Pow2Values()
    ensures Pow2(8) == 256 && Pow2(16) == 0x1_0000 && Pow2(32) == TWO_32 && Pow2(64) == TWO_64
  {
    assert Pow2(4) == 16;
    Pow2Add(4, 4);
    Pow2Add(8, 8);
    Pow2Add(16, 16);
    Pow2Add(32, 32);
  }

  // ---------------------------------------------------------------- eight bits at a time

  lemma {:induction false} ShlAdd(a: nat, j: nat, k: nat)
    ensures Shl(a, j + k) == Shl(Shl(a, k), j)
  {
    if j != 0 { ShlAdd(a, j - 1, k); }
  }

  lemma {:induction false} ShrAdd(a: nat, j: nat, k: nat)
    ensures Shr(a, j + k) == Shr(Shr(a, j), k)
  {
    if j != 0 { ShrAdd(a / 2, j - 1, k); }
  }

  lemma {:induction false} Pow2IsShl(k: nat)
    ensures Pow2(k) == Shl(1, k)
  {
    if k != 0 { Pow2IsShl(k - 1); }
  }

  lemma ShlByte(a: nat, k: nat)
    ensures Shl(a, k + 8) == 256 * Shl(a, k)
  {
    ShlAdd(a, 8, k);
    var x := Shl(a, k);
    assert Shl(x, 1) == 2 * x;
    assert Shl(x, 2) == 4 * x;
    assert Shl(x, 3) == 8 * x;
    assert Shl(x, 4) == 16 * x;
    assert Shl(x, 6) == 64 * x;
  }

  lemma Pow2Byte(k: nat)
    ensures Pow2(k + 8) == 256 * Pow2(k)
  {
    Pow2IsShl(k);
    Pow2IsShl(k + 8);
    ShlByte(1, k);
  }

  lemma ShrByte(a: nat, k: nat)
    ensures Shr(a, k + 8) == Shr(a / 256, k)
  {
    ShrAdd(a, 8, k);
    ShrAdd(a, 4, 4);
    ShrFour(a);
    ShrFour(a / 16);
  }

  lemma ShrFour(a: nat)
    ensures Shr(a, 4) == a / 16
  {
    assert Shr(a, 4) == Shr(a / 2, 3) == Shr(a / 2 / 2, 2);
    assert Shr(a / 2 / 2, 2) == Shr(a / 2 / 2 / 2, 1);
  }

  // ---------------------------------------------------------------- masks

  lemma {:induction false} ShlIsMul(a: nat, k: nat)
    ensures Shl(a, k) == a * Pow2(k)
  {
    if k != 0 {
      ShlIsMul(a, k - 1);
      assert 2 * (a * Pow2(k - 1)) == a * (2 * Pow2(k - 1));
    }
  }

  /** A value splits into its bits from position k up and the k bits a mask keeps. */
  lemma {:induction false} MaskSplits(x: nat, k: nat)
    ensures And(x, Pow2(k) - 1) < Pow2(k)
    ensures x == Shl(Shr(x, k), k) + And(x, Pow2(k) - 1)
  {
    if k != 0 {
      MaskSplits(x / 2, k - 1);
      AndOdd(x, Pow2(k - 1) - 1, Pow2(k) - 1);
    }
  }

  /** Masking with 2^k - 1 is reduction modulo 2^k. */
  lemma MaskIsMod(x: nat, k: nat)
    ensures And(x, Pow2(k) - 1) == x % Pow2(k)
  {
    MaskSplits(x, k);
    ShlIsMul(Shr(x, k), k);
    DivModUnique(x, Pow2(k), Shr(x, k), And(x, Pow2(k) - 1));
  }

  lemma AndOdd(x: nat, m: nat, n: nat)
    requires n == 2 * m + 1
    ensures And(x, n) == x % 2 + 2 * And(x / 2, m)
  {
    assert n % 2 == 1 && n / 2 == m;
  }

  lemma MaskByte(x: nat)
    ensures And(x, 255) == x % 256
  {
    Pow2Values();
    MaskIsMod(x, 8);
  }

  /** The static assertion on the capacity accepts exactly the powers of two (and zero). */
  lemma {:induction false} PowerOfTwoTest(c: nat)
    requires c >= 1
    ensures And(c, c - 1) == 0 <==> exists k: nat :: c == Pow2(k)
  {
    if c == 1 {
      assert c == Pow2(0);
    } else if c % 2 == 1 {
      AndSelf(c / 2);
      forall k: nat ensures c != Pow2(k) {
        assert k > 0 ==> Pow2(k) % 2 == 0;
      }
    } else {
      var h := c / 2;
      PowerOfTwoTest(h);
      assert (c - 1) / 2 == h - 1 && (c - 1) % 2 == 1;
      assert And(c, c - 1) == 2 * And(h, h - 1);
      if And(c, c - 1) == 0 {
        var k: nat :| h == Pow2(k);
        assert c == Pow2(k + 1);
      } else {
        forall k: nat ensures c != Pow2(k) {
          if k > 0 { assert h != Pow2(k - 1); }
        }
      }
    }
  }

  lemma {:induction false} AndSelf(a: nat)
    ensures And(a, a) == a
  {
    if a != 0 { AndSelf(a / 2); }
  }

  /** A 64-bit counter that wraps still selects slot `n mod 2^k` for every unbounded n. */
  lemma WrappedMask(n: nat, k: nat)
    requires k <= 64
    ensures And(n % TWO_64, Pow2(k) - 1) == n % Pow2(k)
  {
    MaskIsMod(n % TWO_64, k);
    Pow2Values();
    Pow2Add(64 - k, k);
    ModOfMod(n, Pow2(64 - k), Pow2(k));
  }

  // ---------------------------------------------------------------- disjoint or

  /** OR-ing a value below 2^k with one shifted left by k is addition. */
  lemma {:induction false} OrDisjoint(a: nat, b: nat, k: nat)
    requires a < Pow2(k)
    ensures Or(a, Shl(b, k)) == a + Shl(b, k)
  {
    if a != 0 {
      OrDisjoint(a / 2, b, k - 1);
    }
  }
}
