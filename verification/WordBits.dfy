/** The integer words of the address analysis, digit by digit and as numbers. */
module WordBits {
  import opened AddressAnalysis

  /** Binary digit `k`, counted from the lowest. */
  function Digit(x: nat, k: nat): nat { if k == 0 then x % 2 else Digit(x / 2, k - 1) }

  lemma {:induction false} AndDigits(x: nat, y: nat, k: nat)
    ensures Digit(BitAnd(x, y), k) == 1 <==> Digit(x, k) == 1 && Digit(y, k) == 1
  {
    if x == 0 || y == 0 {
      ZeroDigits(k);
    } else if k > 0 {
      AndDigits(x / 2, y / 2, k - 1);
    }
  }

  lemma {:induction false} ZeroDigits(k: nat)
    ensures Digit(0, k) == 0
  {
    if k > 0 { ZeroDigits(k - 1); }
  }

  lemma {:induction false} DigitIsBit(x: nat, k: nat)
    ensures Digit(x, k) == 0 || Digit(x, k) == 1
  {
    if k > 0 { DigitIsBit(x / 2, k - 1); }
  }

  lemma {:induction false} OrDigits(x: nat, y: nat, k: nat)
    ensures Digit(BitOr(x, y), k) == 1 <==> Digit(x, k) == 1 || Digit(y, k) == 1
  {
    if x == 0 || y == 0 {
      ZeroDigits(k);
    } else if k > 0 {
      OrDigits(x / 2, y / 2, k - 1);
    }
  }

  lemma {:induction false} XorDigits(x: nat, y: nat, k: nat)
    ensures Digit(BitXor(x, y), k) == 1 <==> Digit(x, k) != Digit(y, k)
  {
    DigitIsBit(x, k);
    DigitIsBit(y, k);
    if x == 0 || y == 0 {
      ZeroDigits(k);
    } else if k > 0 {
      XorDigits(x / 2, y / 2, k - 1);
    }
  }

  lemma {:induction false} ShiftedLeftDigit(x: nat, n: nat, k: nat)
    ensures Digit(ShiftLeft(x, n), k) == if k < n then 0 else Digit(x, k - n)
  {
    if n > 0 {
      assert ShiftLeft(x, n) == 2 * ShiftLeft(x, n - 1);
      if k > 0 { ShiftedLeftDigit(x, n - 1, k - 1); }
    }
  }

  lemma {:induction false} ShiftedRightDigit(x: nat, n: nat, k: nat)
    ensures Digit(ShiftRight(x, n), k) == Digit(x, n + k)
  {
    if n > 0 {
      HalveFirst(x, n);
      ShiftedRightDigit(x / 2, n - 1, k);
    }
  }

  lemma HalveFirst(x: nat, n: nat)
    requires n > 0
    ensures ShiftRight(x, n) == ShiftRight(x / 2, n - 1)
  {
    var m, q := Pow2(n - 1), x / 2;
    assert x == 2 * q + x % 2 && q == m * (q / m) + q % m;
    QuotientUnique(x, 2 * m, q / m, 2 * (q % m) + x % 2);
  }

  lemma QuotientUnique(x: nat, m: nat, q: nat, r: nat)
    requires m > 0 && x == m * q + r && r < m
    ensures x / m == q && x % m == r
  {
    ModUnique(x, m, q, r);
    var t := x / m - q;
    assert m * t == m * (x / m) - m * q;
    AtLeast(m, t);
  }

  lemma {:induction false} TruncatedDigit(x: nat, width: nat, k: nat)
    ensures Digit(Truncate(x, width), k) == if k < width then Digit(x, k) else 0
  {
    if width == 0 {
      ZeroDigits(k);
    } else {
      TruncateHalves(x, width);
      if k > 0 { TruncatedDigit(x / 2, width - 1, k - 1); }
    }
  }

  lemma TruncateHalves(x: nat, width: nat)
    requires width > 0
    ensures Truncate(x, width) == 2 * Truncate(x / 2, width - 1) + x % 2
  {
    var m, q := Pow2(width - 1), x / 2;
    assert x == 2 * q + x % 2 && q == m * (q / m) + q % m;
    QuotientUnique(x, 2 * m, q / m, 2 * (q % m) + x % 2);
  }

  lemma {:induction false} ComplementDigit(x: nat, width: nat, k: nat)
    requires k < width
    ensures Digit(Complement(x, width), k) == 1 - Digit(x, k)
  {
    TruncateHalves(x, width);
    assert Complement(x, width) == 2 * Complement(x / 2, width - 1) + (1 - x % 2);
    if k > 0 { ComplementDigit(x / 2, width - 1, k - 1); }
  }

  lemma RoundTheEnd(k: nat, n: nat, width: nat)
    requires k < width && n < width
    ensures (k + width - n) % width == if k >= n then k - n else k + width - n
  {
    if k >= n { ModUnique(k + width - n, width, 1, k - n); } else { ModUnique(k + width - n, width, 0, k + width - n); }
  }

  lemma TurnedDigit(x: nat, n: nat, width: nat, k: nat)
    requires k < width <= 64 && 0 < n < width && x < Pow2(width)
    ensures var turned := BitOr(Truncate(ShiftLeft(x, n), 64), ShiftRight(x, width - n));
      Digit(Truncate(turned, width), k) == if k >= n then Digit(x, k - n) else Digit(x, k + width - n)
  {
    hide Pow2, ShiftLeft, ShiftRight, Truncate, Digit, BitOr;
    var up, down := Truncate(ShiftLeft(x, n), 64), ShiftRight(x, width - n);
    TruncatedDigit(BitOr(up, down), width, k);
    OrDigits(up, down, k);
    TruncatedDigit(ShiftLeft(x, n), 64, k);
    ShiftedLeftDigit(x, n, k);
    ShiftedRightDigit(x, width - n, k);
    DigitIsBit(BitOr(up, down), k);
    DigitIsBit(down, k);
    DigitIsBit(up, k);
    if k >= n { NoDigitAbove(x, width, width - n + k); }
  }

  /** Rotating moves every digit up, round the end of the word. */
  lemma RotatedDigit(x: nat, y: nat, width: nat, k: nat)
    requires k < width <= 64 && x < Pow2(width)
    ensures Digit(Rotate(x, y, width), k) == Digit(x, (k + width - y % width) % width)
  {
    hide Pow2, ShiftLeft, ShiftRight, Truncate, Digit, BitOr;
    var n := y % width;
    RoundTheEnd(k, n, width);
    if n == 0 { TruncatedDigit(x, width, k); } else { TurnedDigit(x, n, width, k); }
  }

  lemma {:induction false} NoDigitAbove(x: nat, width: nat, k: nat)
    requires x < Pow2(width) && k >= width
    ensures Digit(x, k) == 0
  {
    if width == 0 {
      ZeroDigits(k);
    } else {
      NoDigitAbove(x / 2, width - 1, k - 1);
    }
  }

  /** The difference, with what was taken away added again. */
  lemma SubtractUndone(x: nat, z: nat, width: nat)
    ensures Subtract(x, z, width) < Pow2(width) && Truncate(Subtract(x, z, width) + z, width) == Truncate(x, width)
  {
    var m, d := Pow2(width), x - z;
    hide Pow2;
    var q, t := d / m, x / m;
    assert d == m * q + d % m && x == m * t + x % m;
    assert m * (t - q) == m * t - m * q;
    ModUnique(d % m + z, m, t - q, x % m);
  }

  /** Leading zeros: the highest digit set is right below them. */
  lemma {:induction false} LeadingZerosMeans(x: nat, width: nat, count: nat)
    requires count <= width && x < Pow2(width - count)
    ensures var zeros := LeadingZeros(x, width, count);
      count <= zeros <= width && x < Pow2(width - zeros) && (zeros < width ==> Pow2(width - zeros - 1) <= x)
    decreases width - count
  {
    if count < width {
      var m := Pow2(width - count - 1);
      assert Pow2(width - count) == 2 * m;
      if x < m {
        QuotientUnique(x, m, 0, x);
        LeadingZerosMeans(x, width, count + 1);
      } else {
        QuotientUnique(x, m, 1, x - m);
      }
    }
  }
}
