/** The number a machine word holds, and what the word operations do to it. */
module Numbers {
  import opened Wrappers
  import opened SplitMachine

  function Half(n: bv32): (h: bv32)
    ensures n != 0 ==> h < n
  {
    n >> 1
  }

  /** By binary digits. */
  function Number(n: bv32): nat { if n == 0 then 0 else 2 * Number(Half(n)) + if Odd32(n) then 1 else 0 }

  lemma Small()
    ensures !Odd32(0) && Half(0) == 0 && Number(0) == 0
  {
  }

  lemma NextEven(n: bv32)
    requires !Odd32(n)
    ensures Half(Add32(n, 1)) == Half(n) && Odd32(Add32(n, 1)) && Add32(n, 1) != 0
  {
  }

  lemma NextOdd(n: bv32)
    requires Odd32(n) && n != 0xFFFF_FFFF
    ensures Half(Add32(n, 1)) == Add32(Half(n), 1) && !Odd32(Add32(n, 1)) && Half(n) != 0xFFFF_FFFF
    ensures Add32(n, 1) != 0
  {
  }

  lemma {:induction false} Next(n: bv32)
    requires n != 0xFFFF_FFFF
    ensures Number(Add32(n, 1)) == Number(n) + 1
    decreases n
  {
    hide Add32, Odd32, Half;
    Small();
    if Odd32(n) {
      NextOdd(n);
      Next(Half(n));
    } else {
      NextEven(n);
    }
  }

  lemma FourOnes(x: bv32)
    requires x & 0xF == 0xF
    ensures Odd32(x) && Odd32(Half(x)) && Odd32(Half(Half(x))) && Odd32(Half(Half(Half(x))))
    ensures Half(Half(Half(Half(x)))) == x >> 4
    ensures x != 0 && Half(x) != 0 && Half(Half(x)) != 0 && Half(Half(Half(x))) != 0
  {
  }

  lemma HexDigit(x: bv32)
    requires x & 0xF == 0xF
    ensures Number(x) == 16 * Number(x >> 4) + 15
  {
    hide Half, Odd32;
    FourOnes(x);
    var a, b, c := Half(x), Half(Half(x)), Half(Half(Half(x)));
    assert Number(x) == 2 * Number(a) + 1 && Number(a) == 2 * Number(b) + 1;
    assert Number(b) == 2 * Number(c) + 1 && Number(c) == 2 * Number(x >> 4) + 1;
  }

  lemma Greatest()
    ensures Number(0xFFFF_FFFF) == WORD - 1
  {
    hide Number;
    HexDigit(0xFFFF_FFFF);
    HexDigit(0xFFF_FFFF);
    HexDigit(0xFF_FFFF);
    HexDigit(0xF_FFFF);
    HexDigit(0xFFFF);
    HexDigit(0xFFF);
    HexDigit(0xFF);
    HexDigit(0xF);
    Small();
  }

  lemma {:induction false} InWord(n: bv32)
    ensures Number(n) < WORD
    decreases 0xFFFF_FFFF - n
  {
    hide Half, Odd32;
    if n == 0xFFFF_FFFF {
      Greatest();
    } else {
      Next(n);
      InWord(Add32(n, 1));
    }
  }

  lemma OneMore(n: bv32)
    ensures Number(Add32(n, 1)) == (Number(n) + 1) % WORD
  {
    hide Half, Odd32;
    if n == 0xFFFF_FFFF {
      Greatest();
      Small();
    } else {
      hide Add32;
      Next(n);
      InWord(Add32(n, 1));
    }
  }

  lemma Before(n: bv32)
    requires n != 0
    ensures n - 1 < n && Add32(n - 1, 1) == n && n - 1 != 0xFFFF_FFFF
  {
  }

  lemma AddOneMore(a: bv32, c: bv32)
    ensures Add32(a, c) == Add32(Add32(a, c - 1), 1) && Add32(a, 0) == a
  {
  }

  /** Addition, modulo 2^32. */
  lemma {:induction false} AddNumber(a: bv32, c: bv32)
    ensures Number(Add32(a, c)) == (Number(a) + Number(c)) % WORD
    decreases c
  {
    hide Add32, Number;
    InWord(a);
    AddOneMore(a, c);
    if c == 0 {
      Small();
    } else {
      Before(c);
      AddNumber(a, c - 1);
      Next(c - 1);
      OneMore(Add32(a, c - 1));
    }
  }

  lemma SubIsDifference(a: bv32, c: bv32)
    ensures Sub32(a, c) == a - c
  {
    SubtractionByComplement(a, c);
  }

  lemma DifferenceAdded(a: bv32, c: bv32)
    ensures Add32(a - c, c) == a
  {
  }

  /** Subtraction, modulo 2^32. */
  lemma SubNumber(a: bv32, c: bv32)
    ensures Number(Sub32(a, c)) == (Number(a) - Number(c)) % WORD
  {
    hide Sub32, Add32, Number;
    SubIsDifference(a, c);
    DifferenceAdded(a, c);
    AddNumber(Sub32(a, c), c);
    InWord(Sub32(a, c));
    InWord(a);
    InWord(c);
  }

  lemma HalvesLess(a: bv32, c: bv32)
    requires Less32(Half(a), Half(c))
    ensures Less32(a, c)
  {
  }

  lemma HalvesSame(a: bv32, c: bv32)
    requires Less32(a, c) && Half(a) == Half(c)
    ensures !Odd32(a) && Odd32(c)
  {
  }

  lemma LowBitLess(a: bv32, c: bv32)
    requires Half(a) == Half(c) && !Odd32(a) && Odd32(c)
    ensures Less32(a, c)
  {
  }

  lemma SameHalves(a: bv32, c: bv32)
    requires Half(a) == Half(c) && Odd32(a) == Odd32(c)
    ensures a == c
  {
  }

  lemma ZeroLess(c: bv32)
    requires c != 0
    ensures Less32(0, c)
  {
  }

  lemma {:induction false} OneIsLess(a: bv32, c: bv32)
    requires a != c
    ensures Less32(a, c) || Less32(c, a)
    decreases a
  {
    hide Half, Odd32, Less32;
    if a == 0 {
      ZeroLess(c);
    } else if c == 0 {
      ZeroLess(a);
    } else if Half(a) != Half(c) {
      OneIsLess(Half(a), Half(c));
      if Less32(Half(a), Half(c)) { HalvesLess(a, c); } else { HalvesLess(c, a); }
    } else if Odd32(c) {
      if Odd32(a) { SameHalves(a, c); } else { LowBitLess(a, c); }
    } else {
      if Odd32(a) { LowBitLess(c, a); } else { SameHalves(a, c); }
    }
  }

  lemma NotBothLess(a: bv32, c: bv32)
    requires Less32(a, c)
    ensures !Less32(c, a)
  {
  }

  lemma NothingLess(a: bv32)
    ensures !Less32(a, 0)
  {
  }

  lemma {:induction false} LessGrows(a: bv32, c: bv32)
    requires Less32(a, c)
    ensures Number(a) < Number(c)
    decreases c
  {
    hide Half, Odd32, Less32;
    Small();
    NothingLess(a);
    if Less32(Half(a), Half(c)) {
      LessGrows(Half(a), Half(c));
    } else if Half(a) == Half(c) {
      HalvesSame(a, c);
    } else {
      OneIsLess(Half(a), Half(c));
      HalvesLess(c, a);
      NotBothLess(a, c);
    }
  }

  /** The unsigned comparison. */
  lemma LessNumber(a: bv32, c: bv32)
    ensures Less32(a, c) <==> Number(a) < Number(c)
  {
    hide Number, Less32;
    if Less32(a, c) {
      LessGrows(a, c);
    } else if a != c {
      OneIsLess(a, c);
      LessGrows(c, a);
    }
  }

  // Signed words

  /** The signed number a word holds. */
  function Signed(x: bv32): int { if Number(x) < WORD / 2 then Number(x) else Number(x) - WORD }

  lemma TopBit()
    ensures Number(0x8000_0000) == WORD / 2
  {
    hide Number;
    HexDigit(0x7FFF_FFFF);
    HexDigit(0x7FF_FFFF);
    HexDigit(0x7F_FFFF);
    HexDigit(0x7_FFFF);
    HexDigit(0x7FFF);
    HexDigit(0x7FF);
    HexDigit(0x7F);
    Next(6);
    Next(5);
    Next(4);
    Next(3);
    Next(2);
    Next(1);
    Next(0);
    Small();
    Next(0x7FFF_FFFF);
  }

  lemma FlipTop(x: bv32)
    ensures x ^ 0x8000_0000 == Add32(x, 0x8000_0000)
  {
  }

  lemma SignedByFlip(x: bv32)
    ensures Signed(x) == Number(x ^ 0x8000_0000) - WORD / 2
  {
    hide Add32, Number;
    FlipTop(x);
    AddNumber(x, 0x8000_0000);
    TopBit();
    InWord(x);
  }

  /** The signed comparison. */
  lemma SignedLessNumber(a: bv32, c: bv32)
    ensures SignedLess(a, c) <==> Signed(a) < Signed(c)
  {
    hide Number, Signed;
    SignedByFlip(a);
    SignedByFlip(c);
    LessNumber(a ^ 0x8000_0000, c ^ 0x8000_0000);
  }

  lemma TopBitClear(x: bv32)
    ensures Clear(x, 0x8000_0000) <==> Less32(x, 0x8000_0000)
  {
  }

  lemma SignBit(x: bv32)
    ensures Clear(x, 0x8000_0000) <==> Signed(x) >= 0
  {
    hide Clear, Less32, Number;
    TopBitClear(x);
    LessNumber(x, 0x8000_0000);
    TopBit();
    InWord(x);
  }

  lemma NegateIsSub(x: bv32)
    ensures -x == Sub32(0, x)
  {
  }

  /** Negation, modulo 2^32. */
  lemma NegateNumber(x: bv32)
    ensures Number(-x) == (0 - Number(x)) % WORD
  {
    hide Number, Sub32;
    NegateIsSub(x);
    SubNumber(0, x);
    Small();
  }

  function Absolute(n: int): nat { if n < 0 then -n else n }

  lemma MagnitudeNumber(x: bv32)
    ensures Number(Magnitude(x)) == Absolute(Signed(x))
  {
    hide Number;
    SignBit(x);
    NegateNumber(x);
    InWord(x);
  }

  /** The quotient of the absolute values, negative where the signs differ. */
  lemma DivideNumber(a: bv32, b: bv32)
    ensures Number(Magnitude(a)) == Absolute(Signed(a)) && Number(Magnitude(b)) == Absolute(Signed(b))
    ensures var q := Number(UDiv32(Magnitude(a), Magnitude(b)));
      Number(SignedDivide(a, b)) == (if (Signed(a) < 0) == (Signed(b) < 0) then q else 0 - q) % WORD
  {
    hide Number, Magnitude, UDiv32, Clear, Signed;
    MagnitudeNumber(a);
    MagnitudeNumber(b);
    SignBit(a);
    SignBit(b);
    SignsDiffer(a, b);
    var q := UDiv32(Magnitude(a), Magnitude(b));
    NegateNumber(q);
    InWord(q);
    DivideParts(a, b);
  }

  lemma SignsDiffer(a: bv32, b: bv32)
    ensures (a ^ b) & 0x8000_0000 == 0 <==> Clear(a, 0x8000_0000) == Clear(b, 0x8000_0000)
  {
  }

  lemma DivideParts(a: bv32, b: bv32)
    ensures var q := UDiv32(Magnitude(a), Magnitude(b));
      SignedDivide(a, b) == if (a ^ b) & 0x8000_0000 == 0 then q else -q
  {
    hide UDiv32, Magnitude;
  }

  // Widening

  lemma WidenedSigned(x: bv32)
    ensures Low32(SignExtend(x)) == x
    ensures Low32(LShr64(SignExtend(x), 32)) == if Clear(x, 0x8000_0000) then 0 else 0xFFFF_FFFF
  {
  }

  lemma Widened(x: bv32)
    ensures Low32(Zext64(x)) == x && Low32(LShr64(Zext64(x), 32)) == 0
  {
  }
}
