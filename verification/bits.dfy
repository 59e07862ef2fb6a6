/**
 Unsigned-integer helpers for the search drivers: powers of two and the
 bitwise AND / complement that C applies to element counts, stated on
 naturals so that the round-down of a count can be related to `%`.
 */
module Bits {

  /** 2 to the power `k`. */
  function Pow2(k: nat): (p: nat)
    ensures p >= 1
  {
    if k == 0 then 1 else 2 * Pow2(k - 1)
  }

  /** Exponents add when powers of two multiply. */
  lemma {:induction false} Pow2Add(a: nat, b: nat)
    ensures Pow2(a + b) == Pow2(a) * Pow2(b)
  {
    if a > 0 {
      Pow2Add(a - 1, b);
      assert Pow2(a + b) == 2 * Pow2(a - 1 + b);
    }
  }

  /** The widths the drivers use. */
  lemma Pow2Widths()
    ensures Pow2(4) == 16
    ensures Pow2(32) == 0x1_0000_0000
  {
    assert Pow2(4) == 16 by {
      assert Pow2(2) == 4;
    }
    assert Pow2(8) == 0x100 by {
      Pow2Add(4, 4);
    }
    assert Pow2(16) == 0x1_0000 by {
      Pow2Add(8, 8);
    }
    Pow2Add(16, 16);
  }

  /**
   Bitwise AND of two naturals: bit `i` of the result is set exactly when
   bit `i` is set in both `a` and `b`.
   */
  function BitAnd(a: nat, b: nat): (r: nat)
    ensures r <= a && r <= b
  {
    if a == 0 || b == 0 then 0
    else 2 * BitAnd(a / 2, b / 2) + (if a % 2 == 1 && b % 2 == 1 then 1 else 0)
  }

  /** Bitwise complement `~x` of a `width`-bit unsigned integer. */
  function BitNot(x: nat, width: nat): (r: nat)
    requires x < Pow2(width)
    ensures r < Pow2(width)
    ensures x + r == Pow2(width) - 1
  {
    Pow2(width) - 1 - x
  }

  /** AND with an all-ones mask at least as wide as `a` leaves `a` unchanged. */
  lemma {:induction false} BitAndAllOnes(a: nat, width: nat)
    requires a < Pow2(width)
    ensures BitAnd(a, Pow2(width) - 1) == a
  {
    if width > 0 && a > 0 {
      var m := Pow2(width) - 1;
      assert m / 2 == Pow2(width - 1) - 1 && m % 2 == 1;
      BitAndAllOnes(a / 2, width - 1);
    }
  }

  /** Quotient and remainder are unique. */
  lemma ModUnique(n: nat, d: nat, q: nat, r: nat)
    requires d > 0 && 0 <= r < d && n == d * q + r
    ensures n % d == r
  {
    var q', r' := n / d, n % d;
    assert d * q + r == d * q' + r';
    if q' < q {
      assert d * (q - q') == d * q - d * q';
      MulAtLeast(d, q - q');
    } else if q' > q {
      assert d * (q' - q) == d * q' - d * q;
      MulAtLeast(d, q' - q);
    }
  }

  /** A positive multiple of `d` is at least `d`. */
  /** Rounding down to a multiple of `d` gives a multiple of `d`. */
  lemma RoundDownMultiple(n: nat, d: nat)
    requires d > 0
    ensures (n - n % d) % d == 0
  {
    ModUnique(n - n % d, d, n / d, 0);
  }

  lemma MulAtLeast(d: nat, x: nat)
    requires x >= 1
    ensures d * x >= d
  {
    assert d * x == d + d * (x - 1);
  }

  /** One step of the round-down: an even mask ignores the lowest bit of `n`. */
  lemma BitAndEvenMask(n: nat, m: nat, h: nat)
    requires m == 2 * h
    ensures BitAnd(n, m) == 2 * BitAnd(n / 2, h)
  {
    assert m % 2 == 0 && m / 2 == h;
  }

  /** Four steps of `BitAndEvenMask`: a mask that is a multiple of 16 ignores the low four bits of `n`. */
  lemma BitAndTimes16(n: nat, h: nat)
    ensures BitAnd(n, 16 * h) == 16 * BitAnd(n / 16, h)
  {
    var n1, n2, n3, n4 := n / 2, n / 4, n / 8, n / 16;
    assert n / 2 == n1 && n1 / 2 == n2 && n2 / 2 == n3 && n3 / 2 == n4;
    BitAndEvenMask(n, 16 * h, 8 * h);
    BitAndEvenMask(n1, 8 * h, 4 * h);
    BitAndEvenMask(n2, 4 * h, 2 * h);
    BitAndEvenMask(n3, 2 * h, h);
  }

  /**
   Masking with `~15`, the complement of the low four bits in a
   `width`-bit word, rounds `n` down to a multiple of 16.
   */
  lemma RoundDown16(n: nat, width: nat)
    requires 4 <= width && n < Pow2(width)
    ensures 15 < Pow2(width)
    ensures BitAnd(n, BitNot(15, width)) == n - n % 16
  {
    var h := Pow2(width - 4);
    assert Pow2(width) == 16 * h by {
      Pow2Add(4, width - 4);
      Pow2Widths();
    }
    assert BitNot(15, width) == 16 * (h - 1);
    BitAndTimes16(n, h - 1);
    assert n / 16 < h;
    BitAndAllOnes(n / 16, width - 4);
  }
}
