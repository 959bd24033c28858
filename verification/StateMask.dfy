/** `moderngekko_state_mask32` (src/backend/native_state.c:37-44): 32 consecutive bits of a mask
    kept in 64-bit words. */
module StateMask {
  import opened AddressAnalysis
  import opened Partition

  predicate Bit(x: nat, i: nat) { (x / Pow2(i)) % 2 == 1 }

  /** The mask bit of a slot, as `moderngekko_state_dirty` reads it. */
  predicate Dirty(words: seq<nat>, slot: nat)
    requires slot / 64 < |words|
  {
    Bit(words[slot / 64], slot % 64)
  }

  /** The two halves never overlap, so that or-ing them is adding them. */
  function Mask32(words: seq<nat>, slot: nat): nat
    requires slot / 64 < |words| && (slot % 64 > 32 ==> slot / 64 + 1 < |words|)
  {
    var word, shift := slot / 64, slot % 64;
    var bits := ShiftRight(words[word], shift);
    (if shift > 32 then bits + Truncate(ShiftLeft(words[word + 1], 64 - shift), 64) else bits) % Pow2(32)
  }

  lemma DivDiv(x: nat, a: nat, b: nat)
    requires a > 0 && b > 0
    ensures (x / a) / b == x / (a * b)
  {
    var q := (x / a) / b;
    DivBounds(x, a);
    DivBounds(x / a, b);
    assert q * b <= x / a < q * b + b;
    Product(q * b, x / a, a);
    Product(x / a + 1, q * b + b, a);
    assert (q * b) * a == q * (a * b) && (q * b + b) * a == q * (a * b) + a * b
      && (x / a + 1) * a == (x / a) * a + a by {
      Distribute(q, a, b, x / a);
    }
    DivUnique(x, a * b, q);
  }

  lemma Distribute(q: nat, a: nat, b: nat, t: nat)
    ensures (q * b) * a == q * (a * b) && (q * b + b) * a == q * (a * b) + a * b && (t + 1) * a == t * a + a
  {
  }

  lemma ShiftedRight(x: nat, k: nat, i: nat)
    ensures Bit(ShiftRight(x, k), i) == Bit(x, k + i)
  {
    DivDiv(x, Pow2(k), Pow2(i));
    Pow2Adds(k, i);
  }

  /** Adding multiples of `2^m` below which `r` lies: the low bits are those of `r`, the rest those
      of the multiple. */
  lemma LowBits(q: nat, m: nat, r: nat, i: nat)
    requires i < m
    ensures Bit(q * Pow2(m) + r, i) == Bit(r, i)
  {
    var half := Pow2(m - i - 1);
    Pow2Adds(i, m - i);
    DivBounds(r, Pow2(i));
    var low := r / Pow2(i);
    assert q * Pow2(m) == (q * (2 * half)) * Pow2(i) by { Reassociate(q, Pow2(i), 2 * half); }
    assert (q * (2 * half) + low) * Pow2(i) == (q * (2 * half)) * Pow2(i) + low * Pow2(i) by {
      Split(q * (2 * half), low, Pow2(i));
    }
    DivUnique(q * Pow2(m) + r, Pow2(i), q * (2 * half) + low);
    EvenPart(q, half, low);
  }

  lemma Reassociate(q: nat, a: nat, b: nat)
    ensures q * (a * b) == (q * b) * a
  {
  }

  lemma Split(a: nat, b: nat, c: nat)
    ensures (a + b) * c == a * c + b * c
  {
  }

  lemma EvenPart(q: nat, half: nat, low: nat)
    ensures (q * (2 * half) + low) % 2 == low % 2
  {
    assert q * (2 * half) == 2 * (q * half) by { Reassociate(q, 2, half); }
  }

  lemma HighBits(q: nat, m: nat, r: nat, i: nat)
    requires r < Pow2(m) && m <= i
    ensures Bit(q * Pow2(m) + r, i) == Bit(q, i - m)
  {
    DivUnique(q * Pow2(m) + r, Pow2(m), q);
    ShiftedRight(q * Pow2(m) + r, m, i - m);
  }

  lemma Truncated(x: nat, m: nat, i: nat)
    requires i < m
    ensures Bit(x % Pow2(m), i) == Bit(x, i)
  {
    hide Pow2, Bit;
    QuotientAndRest(x, Pow2(m));
    LowBits(x / Pow2(m), m, x % Pow2(m), i);
  }

  lemma QuotientAndRest(x: nat, p: nat)
    requires p > 0
    ensures x == (x / p) * p + x % p && x % p < p
  {
  }

  lemma ScaledRest(v: nat, p: nat, c: nat)
    requires p > 0 && c > 0
    ensures (v * c) % (p * c) == (v % p) * c
  {
    var q, r := v / p, v % p;
    QuotientAndRest(v, p);
    Split(q * p, r, c);
    Swap(q, p, c);
    Product(r + 1, p, c);
    Split(r, 1, c);
    ModUnique(v * c, p * c, q, r * c);
  }

  lemma Swap(q: nat, p: nat, c: nat)
    ensures (q * p) * c == (p * c) * q
  {
  }

  /** A word shifted left and cut to 64 bits is a multiple whose bits are those of the word. */
  lemma ShiftedLeft(v: nat, k: nat)
    requires k <= 64
    ensures (v * Pow2(k)) % Pow2(64) == (v % Pow2(64 - k)) * Pow2(k)
  {
    hide Pow2;
    Pow2Adds(64 - k, k);
    ScaledRest(v, Pow2(64 - k), Pow2(k));
  }

  /** Bit `i` of the result is the mask bit of slot `slot + i`. */
  lemma Mask32Bits(words: seq<nat>, slot: nat, i: nat)
    requires slot / 64 < |words| && (slot % 64 > 32 ==> slot / 64 + 1 < |words|) && i < 32
    requires forall w | 0 <= w < |words| :: words[w] < Pow2(64)
    ensures (slot + i) / 64 < |words| && (Bit(Mask32(words, slot), i) <==> Dirty(words, slot + i))
  {
    hide Pow2, Bit;
    var word, shift := slot / 64, slot % 64;
    var low := ShiftRight(words[word], shift);
    if shift <= 32 {
      Truncated(low, 32, i);
      ShiftedRight(words[word], shift, i);
    } else {
      var v, k := words[word + 1], 64 - shift;
      ShiftedLeft(v, k);
      var t := v % Pow2(shift);
      Truncated(low + t * Pow2(k), 32, i);
      LowFits(words[word], shift);
      if shift + i < 64 {
        LowBits(t, k, low, i);
        ShiftedRight(words[word], shift, i);
      } else {
        HighBits(t, k, low, i);
        Truncated(v, shift, i - k);
      }
    }
  }

  lemma LowFits(x: nat, shift: nat)
    requires x < Pow2(64) && shift <= 64
    ensures x / Pow2(shift) < Pow2(64 - shift)
  {
    hide Pow2;
    Pow2Adds(shift, 64 - shift);
    QuotientBelow(x, Pow2(shift), Pow2(64 - shift));
  }

  lemma QuotientBelow(x: nat, p: nat, q: nat)
    requires p > 0 && x < p * q
    ensures x / p < q
  {
    DivBounds(x, p);
    if x / p >= q { Product(q, x / p, p); }
  }
}
