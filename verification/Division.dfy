/** What the checksum is: a remainder of polynomials over the field of two elements, as clause 3.2.9 of
    IEEE 802.3 defines it. A polynomial is the number whose binary digits are its coefficients, so that
    adding is `^` and multiplying by x is doubling. */
module Division {
  import opened Prelude
  import opened LittleEndian
  import opened Crc32

  // ---- Polynomials ----

  /** The generator, by its exponents. */
  function Generator(): nat {
    Pow2(32) + Pow2(26) + Pow2(23) + Pow2(22) + Pow2(16) + Pow2(12) + Pow2(11) + Pow2(10)
    + Pow2(8) + Pow2(7) + Pow2(5) + Pow2(4) + Pow2(2) + Pow2(1) + Pow2(0)
  }

  /** The generator times `q`. */
  function Multiple(q: nat): nat {
    if q == 0 then 0 else Xor(if q % 2 == 1 then Generator() else 0, 2 * Multiple(q / 2))
  }

  ghost predicate Congruent(a: nat, b: nat) {
    exists q: nat :: Xor(a, b) == Multiple(q)
  }

  /** `r` has degree below 32 and differs from `p` by a multiple of the generator. */
  ghost predicate IsRemainder(p: nat, r: nat) {
    r < WORD && Congruent(p, r)
  }

  /** The lowest `n` binary digits of `x` in reverse order. */
  function Reflect(x: nat, n: nat): (r: nat)
    ensures r < Pow2(n)
  {
    if n == 0 then 0 else (if x % 2 == 1 then Pow2(n - 1) else 0) + Reflect(x / 2, n - 1)
  }

  /** The message polynomial: each byte is sent with its lowest bit first, and the first bit sent has the
      highest power. */
  function Sent(data: Bytes): nat {
    if data == [] then 0 else 256 * Sent(data[..|data| - 1]) + Reflect(data[|data| - 1], 8)
  }

  /** The message times x^32, with its first 32 bits inverted. */
  function Dividend(data: Bytes): nat {
    Xor(Shifted(Sent(data), 32), Shifted(WORD - 1, 8 * |data|))
  }

  // ---- Exclusive or, shifts and reflection ----

  lemma {:induction false} XorSelf(a: nat)
    ensures Xor(a, a) == 0
    decreases a
  {
    if a > 0 {
      XorSelf(a / 2);
    }
  }

  /** `a ^ b ^ c` in another order. */
  lemma XorSwaps(a: nat, b: nat, c: nat)
    ensures Xor(Xor(a, b), c) == Xor(Xor(a, c), b)
  {
    hide Xor;
    XorAssociates(a, b, c);
    XorCommutes(b, c);
    XorAssociates(a, c, b);
  }

  lemma XorPairs(a: nat, b: nat, c: nat, d: nat)
    ensures Xor(Xor(a, b), Xor(c, d)) == Xor(Xor(a, c), Xor(b, d))
  {
    hide Xor;
    XorAssociates(Xor(a, b), c, d);
    XorSwaps(a, b, c);
    XorAssociates(Xor(a, c), b, d);
  }

  lemma {:induction false} ShiftedXor(a: nat, b: nat, n: nat)
    ensures Shifted(Xor(a, b), n) == Xor(Shifted(a, n), Shifted(b, n))
  {
    if n > 0 {
      ShiftedXor(a, b, n - 1);
      XorHalves(2 * Shifted(a, n - 1), 2 * Shifted(b, n - 1));
    }
  }

  lemma {:induction false} ShiftedTwice(w: nat, m: nat, n: nat)
    ensures Shifted(Shifted(w, m), n) == Shifted(w, m + n)
  {
    if n > 0 {
      ShiftedTwice(w, m, n - 1);
    }
  }

  lemma {:induction false} ShiftedOne(n: nat)
    ensures Shifted(1, n) == Pow2(n) && Shifted(0, n) == 0
  {
    if n > 0 {
      ShiftedOne(n - 1);
    }
  }

  function Bit(x: nat): nat {
    x % 2
  }

  /** The digit shifted out first comes out on top. */
  lemma ReflectTop(x: nat, n: nat)
    requires n > 0
    ensures Reflect(x, n) == Xor(Reflect(x / 2, n - 1), Shifted(Bit(x), n - 1))
  {
    ShiftedOne(n - 1);
    XorDisjoint(Reflect(x / 2, n - 1), Bit(x), n - 1);
  }

  lemma {:induction false} ReflectXor(a: nat, b: nat, n: nat)
    ensures Reflect(Xor(a, b), n) == Xor(Reflect(a, n), Reflect(b, n))
  {
    hide Xor, Bit, Shifted;
    if n == 0 {
      XorSelf(0);
    } else {
      XorHalves(a, b);
      ReflectXor(a / 2, b / 2, n - 1);
      ReflectXorStep(a, b, n);
    }
  }

  lemma ReflectXorStep(a: nat, b: nat, n: nat)
    requires n > 0 && Reflect(Xor(a, b) / 2, n - 1) == Xor(Reflect(a / 2, n - 1), Reflect(b / 2, n - 1))
    ensures Reflect(Xor(a, b), n) == Xor(Reflect(a, n), Reflect(b, n))
  {
    hide Reflect, Xor, Bit, Shifted;
    BitXor(a, b);
    ShiftedXor(Bit(a), Bit(b), n - 1);
    ReflectTop(a, n);
    ReflectTop(b, n);
    ReflectTop(Xor(a, b), n);
    XorPairs(Reflect(a / 2, n - 1), Shifted(Bit(a), n - 1), Reflect(b / 2, n - 1), Shifted(Bit(b), n - 1));
  }

  lemma BitXor(a: nat, b: nat)
    ensures Bit(Xor(a, b)) == Xor(Bit(a), Bit(b))
  {
    XorHalves(a, b);
    assert Xor(0, 0) == 0 && Xor(1, 1) == 0 && Xor(0, 1) == 1 && Xor(1, 0) == 1;
  }

  lemma {:induction false} ReflectWide(x: nat, n: nat)
    requires x < Pow2(n)
    ensures Reflect(x, n + 1) == 2 * Reflect(x, n)
  {
    if n > 0 {
      ReflectWide(x / 2, n - 1);
    }
  }

  lemma {:induction false} ReflectPad(x: nat, n: nat, k: nat)
    requires x < Pow2(n)
    ensures Reflect(x, n + k) == Shifted(Reflect(x, n), k)
  {
    if k > 0 {
      ReflectPad(x, n, k - 1);
      Pow2Grows(n, k - 1);
      ReflectWide(x, n + k - 1);
    }
  }

  lemma {:induction false} Pow2Grows(n: nat, k: nat)
    ensures Pow2(n) <= Pow2(n + k)
  {
    if k > 0 {
      Pow2Grows(n, k - 1);
    }
  }

  lemma {:induction false} ReflectInjective(x: nat, y: nat, n: nat)
    requires x < Pow2(n) && y < Pow2(n) && Reflect(x, n) == Reflect(y, n)
    ensures x == y
  {
    if n > 0 {
      ReflectInjective(x / 2, y / 2, n - 1);
    }
  }

  lemma {:induction false} ReflectOnes(n: nat)
    ensures Reflect(Pow2(n) - 1, n) == Pow2(n) - 1
  {
    if n > 0 {
      ReflectOnes(n - 1);
      assert (Pow2(n) - 1) / 2 == Pow2(n - 1) - 1;
    }
  }

  // ---- Multiples of the generator ----

  lemma GeneratorValue()
    ensures Generator() == 0x1_04C1_1DB7
  {
    assert Pow2(4) == 16 && Pow2(7) == 128;
    assert Pow2(8) == 256 && Pow2(12) == 0x1000;
    assert Pow2(16) == 0x1_0000;
    assert Pow2(22) == 0x40_0000;
    assert Pow2(26) == 0x400_0000;
    assert Pow2(32) == WORD;
  }

  lemma {:induction false} ShiftedAdds(a: nat, b: nat, n: nat)
    ensures Shifted(a + b, n) == Shifted(a, n) + Shifted(b, n)
  {
    if n > 0 {
      ShiftedAdds(a, b, n - 1);
    }
  }

  /** Reflecting a longer word swaps the places of its low and high parts. */
  lemma {:induction false} ReflectParts(low: nat, k: nat, high: nat, n: nat)
    requires low < Pow2(k)
    ensures Reflect(low + Shifted(high, k), n + k) == Shifted(Reflect(low, k), n) + Reflect(high, n)
    decreases k
  {
    if k == 0 {
      ShiftedOne(n);
    } else {
      var word := low + Shifted(high, k);
      ReflectParts(low / 2, k - 1, high, n);
      assert word / 2 == low / 2 + Shifted(high, k - 1) && word % 2 == low % 2;
      ShiftedAdds(if low % 2 == 1 then Pow2(k - 1) else 0, Reflect(low / 2, k - 1), n);
      ShiftedOne(k - 1);
      ShiftedOne(n);
      ShiftedTwice(1, k - 1, n);
      ShiftedOne(n + k - 1);
    }
  }

  lemma ReflectByte(low: byte, high: nat, n: nat)
    ensures Reflect(low + 256 * high, n + 8) == Shifted(Reflect(low, 8), n) + Reflect(high, n)
  {
    Pow2Values();
    ShiftedByByte(high);
    ReflectParts(low, 8, high, n);
  }

  lemma ReflectPush(bit: nat, rest: nat, n: nat)
    requires bit <= 1
    ensures Reflect(bit + 2 * rest, n + 1) == bit * Pow2(n) + Reflect(rest, n)
  {
    var x := bit + 2 * rest;
    assert x / 2 == rest && x % 2 == bit;
  }

  lemma SmallPowers()
    ensures Pow2(0) == 1 && Pow2(1) == 2 && Pow2(2) == 4 && Pow2(3) == 8
    ensures Pow2(4) == 16 && Pow2(5) == 32 && Pow2(6) == 64 && Pow2(7) == 128
  {
    assert Pow2(3) == 8 && Pow2(5) == 32;
  }

  /** A byte by its binary digits, lowest first. */
  function FromBits(b0: nat, b1: nat, b2: nat, b3: nat, b4: nat, b5: nat, b6: nat, b7: nat): nat {
    b0 + 2 * (b1 + 2 * (b2 + 2 * (b3 + 2 * (b4 + 2 * (b5 + 2 * (b6 + 2 * b7))))))
  }

  lemma ReflectBits(b0: nat, b1: nat, b2: nat, b3: nat, b4: nat, b5: nat, b6: nat, b7: nat)
    requires b0 <= 1 && b1 <= 1 && b2 <= 1 && b3 <= 1 && b4 <= 1 && b5 <= 1 && b6 <= 1 && b7 <= 1
    ensures Reflect(FromBits(b0, b1, b2, b3, b4, b5, b6, b7), 8) == FromBits(b7, b6, b5, b4, b3, b2, b1, b0)
  {
    hide Reflect, Pow2;
    SmallPowers();
    var x6 := b6 + 2 * b7;
    var x5 := b5 + 2 * x6;
    var x4 := b4 + 2 * x5;
    var x3 := b3 + 2 * x4;
    var x2 := b2 + 2 * x3;
    var x1 := b1 + 2 * x2;
    ReflectPush(b7, 0, 0);
    ReflectPush(b6, b7, 1);
    ReflectPush(b5, x6, 2);
    ReflectPush(b4, x5, 3);
    ReflectPush(b3, x4, 4);
    ReflectPush(b2, x3, 5);
    ReflectPush(b1, x2, 6);
    ReflectPush(b0, x1, 7);
    ReflectNothing();
  }

  lemma ReflectNothing()
    ensures Reflect(0, 0) == 0
  {
  }

  /** The constant of the program is the generator without its highest power, reflected. */
  lemma GeneratorReflected()
    ensures Reflect(POLYNOMIAL, 32) == Generator() - WORD
  {
    hide Reflect, Generator, Shifted;
    GeneratorValue();
    ReflectBits(0, 0, 0, 0, 0, 1, 0, 0);
    ReflectBits(1, 1, 0, 0, 0, 0, 0, 1);
    ReflectBits(0, 0, 0, 1, 1, 1, 0, 1);
    ReflectBits(1, 0, 1, 1, 0, 1, 1, 1);
    ReflectByte(0x20, 0xED_B883, 24);
    ReflectByte(0x83, 0xED_B8, 16);
    ReflectByte(0xB8, 0xED, 8);
    ShiftedValues();
  }

  lemma ShiftedValues()
    ensures Shifted(0x04, 24) == 0x0400_0000 && Shifted(0xC1, 16) == 0xC1_0000 && Shifted(0x1D, 8) == 0x1D00
  {
    ShiftedTwice(0x04, 8, 8);
    ShiftedTwice(0x04, 16, 8);
    ShiftedTwice(0xC1, 8, 8);
    ShiftedByByte(0x04);
    ShiftedByByte(0x0400);
    ShiftedByByte(0x04_0000);
    ShiftedByByte(0xC1);
    ShiftedByByte(0xC100);
    ShiftedByByte(0x1D);
  }

  lemma {:induction false} MultipleXor(p: nat, q: nat)
    ensures Xor(Multiple(p), Multiple(q)) == Multiple(Xor(p, q))
    decreases p + q
  {
    hide Generator;
    if p + q == 0 {
      XorSelf(0);
    } else {
      XorHalves(p, q);
      MultipleXor(p / 2, q / 2);
      MultipleUnfolds(p);
      MultipleUnfolds(q);
      MultipleUnfolds(Xor(p, q));
      MultipleXorStep(p, q, Xor(p, q));
    }
  }

  function Once(q: nat): nat {
    if q % 2 == 1 then Generator() else 0
  }

  lemma MultipleUnfolds(q: nat)
    ensures Multiple(q) == Xor(Once(q), 2 * Multiple(q / 2))
  {
    hide Generator;
    if q == 0 {
      XorSelf(0);
    }
  }

  lemma MultipleXorStep(p: nat, q: nat, both: nat)
    requires both / 2 == Xor(p / 2, q / 2) && (both % 2 == 0 <==> p % 2 == q % 2)
    requires Xor(Multiple(p / 2), Multiple(q / 2)) == Multiple(both / 2)
    requires Multiple(p) == Xor(Once(p), 2 * Multiple(p / 2)) && Multiple(q) == Xor(Once(q), 2 * Multiple(q / 2))
    requires Multiple(both) == Xor(Once(both), 2 * Multiple(both / 2))
    ensures Xor(Multiple(p), Multiple(q)) == Multiple(both)
  {
    hide Xor, Multiple, Generator;
    XorPairs(Once(p), 2 * Multiple(p / 2), Once(q), 2 * Multiple(q / 2));
    XorDoubles(Multiple(p / 2), Multiple(q / 2));
    XorSelf(Generator());
    XorSelf(0);
    XorZero(Generator());
    XorCommutes(Generator(), 0);
  }

  lemma XorDoubles(a: nat, b: nat)
    ensures Xor(2 * a, 2 * b) == 2 * Xor(a, b)
  {
    XorHalves(2 * a, 2 * b);
  }

  /** Only the empty multiple has a degree below the generator's. */
  lemma {:induction false} MultiplesAreLarge(q: nat)
    requires q > 0
    ensures Multiple(q) >= WORD
  {
    GeneratorValue();
    Pow2Values();
    hide Generator, Xor;
    MultipleUnfolds(q);
    if q > 1 {
      MultiplesAreLarge(q / 2);
      assert Pow2(33) == 2 * WORD;
      XorKeepsTopBit(Once(q), 2 * Multiple(q / 2), 33);
    } else {
      XorZero(Generator());
      XorCommutes(Generator(), 0);
    }
  }

  lemma NoMultiple()
    ensures Multiple(0) == 0
  {
  }

  /** There is one remainder. */
  lemma RemainderIsUnique(p: nat, r: nat, r': nat)
    requires IsRemainder(p, r) && IsRemainder(p, r')
    ensures r == r'
  {
    hide Multiple, Xor;
    var q: nat :| Xor(p, r) == Multiple(q);
    var q': nat :| Xor(p, r') == Multiple(q');
    MultipleXor(q, q');
    XorCommutes(p, r);
    XorPairs(r, p, r', p);
    XorCommutes(p, r');
    XorSelf(p);
    XorZero(Xor(r, r'));
    XorCommutes(Xor(r, r'), 0);
    Pow2Values();
    XorBound(r, r', 32);
    if Xor(q, q') > 0 {
      MultiplesAreLarge(Xor(q, q'));
    }
    NoMultiple();
    XorSelf(r');
    XorCancels(r, r', r');
  }

  // ---- Congruence ----

  lemma CongruentBy(a: nat, b: nat, q: nat)
    requires Xor(a, b) == Multiple(q)
    ensures Congruent(a, b)
  {
  }

  lemma Reflexive(a: nat)
    ensures Congruent(a, a)
  {
    XorSelf(a);
    CongruentBy(a, a, 0);
  }

  lemma Transitive(a: nat, b: nat, c: nat)
    requires Congruent(a, b) && Congruent(b, c)
    ensures Congruent(a, c)
  {
    hide Multiple, Xor;
    var p: nat :| Xor(a, b) == Multiple(p);
    var q: nat :| Xor(b, c) == Multiple(q);
    MultipleXor(p, q);
    XorCommutes(b, c);
    XorPairs(a, b, c, b);
    XorSelf(b);
    XorZero(Xor(a, c));
    XorCommutes(Xor(a, c), 0);
    CongruentBy(a, c, Xor(p, q));
  }

  lemma CongruentDoubles(a: nat, b: nat)
    requires Congruent(a, b)
    ensures Congruent(2 * a, 2 * b)
  {
    hide Xor;
    var q: nat :| Xor(a, b) == Multiple(q);
    XorDoubles(a, b);
    MultipleUnfolds(2 * q);
    XorZero(2 * Multiple(q));
    CongruentBy(2 * a, 2 * b, 2 * q);
  }

  lemma {:induction false} CongruentShifts(a: nat, b: nat, n: nat)
    requires Congruent(a, b)
    ensures Congruent(Shifted(a, n), Shifted(b, n))
  {
    hide Congruent;
    if n > 0 {
      CongruentShifts(a, b, n - 1);
      CongruentDoubles(Shifted(a, n - 1), Shifted(b, n - 1));
    }
  }

  lemma CongruentMixes(a: nat, b: nat, x: nat)
    requires Congruent(a, b)
    ensures Congruent(Xor(a, x), Xor(b, x))
  {
    hide Xor, Multiple;
    var q: nat :| Xor(a, b) == Multiple(q);
    XorPairs(a, x, b, x);
    XorSelf(x);
    XorZero(Xor(a, b));
    XorCommutes(Xor(a, b), 0);
    CongruentBy(Xor(a, x), Xor(b, x), q);
  }

  // ---- The register is a reflected remainder ----

  /** One turn multiplies by x. */
  lemma TurnReflected(c: nat)
    requires c < WORD
    ensures Congruent(Reflect(Turn(c), 32), 2 * Reflect(c, 32))
  {
    hide Reflect, Xor, Multiple, Generator;
    Pow2Values();
    var u, low := Reflect(c / 2, 32), Reflect(POLYNOMIAL, 32);
    ReflectTwice(c);
    if c % 2 == 1 {
      ReflectXor(c / 2, POLYNOMIAL, 32);
      GeneratorReflected();
      GeneratorValue();
      ShiftedOne(32);
      XorDisjoint(u, 1, 32);
      XorDisjoint(low, 1, 32);
      XorPairs(u, low, u, WORD);
      XorSelf(u);
      XorZero(Xor(low, WORD));
      OnceMultiple();
      CongruentBy(Reflect(Turn(c), 32), 2 * Reflect(c, 32), 1);
    } else {
      XorZero(c / 2);
      XorCommutes(0, c / 2);
      Reflexive(u);
    }
  }

  lemma OnceMultiple()
    ensures Multiple(1) == Generator()
  {
    MultipleUnfolds(1);
    XorZero(Generator());
    XorCommutes(0, Generator());
  }

  lemma ReflectTwice(c: nat)
    requires c < WORD
    ensures 2 * Reflect(c, 32) == (if c % 2 == 1 then WORD else 0) + Reflect(c / 2, 32)
  {
    Pow2Values();
    ReflectWide(c / 2, 31);
  }

  lemma {:induction false} TurnsReflected(c: nat, n: nat)
    requires c < WORD
    ensures Congruent(Reflect(Turns(c, n), 32), Shifted(Reflect(c, 32), n))
  {
    hide Reflect, Congruent, Turn, Turns, Shifted, Pow2, Xor;
    TurnsUnfold(c, Reflect(c, 32), n);
    if n == 0 {
      Reflexive(Reflect(c, 32));
    } else {
      var before, shifted := Turns(c, n - 1), Shifted(Reflect(c, 32), n - 1);
      TurnsBound(c, n - 1);
      TurnsReflected(c, n - 1);
      TurnReflected(before);
      CongruentDoubles(Reflect(before, 32), shifted);
      Transitive(Reflect(Turn(before), 32), 2 * Reflect(before, 32), 2 * shifted);
    }
  }

  lemma TurnsUnfold(c: nat, w: nat, n: nat)
    ensures Turns(c, n) == if n == 0 then c else Turn(Turns(c, n - 1))
    ensures Shifted(w, n) == if n == 0 then w else 2 * Shifted(w, n - 1)
  {
  }

  /** A byte multiplies by x^8 and adds its bits, lowest first, times x^32. */
  lemma AbsorbReflected(c: nat, b: byte)
    requires c < WORD
    ensures Congruent(Reflect(Absorb(c, b), 32), Xor(Shifted(Reflect(c, 32), 8), Shifted(Reflect(b, 8), 32)))
  {
    hide Reflect, Congruent, Turns, Shifted, Xor;
    Pow2Values();
    XorBound(c, b, 32);
    TurnsReflected(Xor(c, b), 8);
    ReflectXor(c, b, 32);
    ReflectPad(b, 8, 24);
    ShiftedXor(Reflect(c, 32), Reflect(b, 32), 8);
    ShiftedTwice(Reflect(b, 8), 24, 8);
  }

  lemma DividendGrows(data: Bytes, b: byte)
    ensures Dividend(data + [b]) == Xor(Shifted(Dividend(data), 8), Shifted(Reflect(b, 8), 32))
  {
    hide Reflect, Shifted, Xor, Pow2;
    var more := data + [b];
    assert more[..|more| - 1] == data;
    var m, r, ones := Sent(data), Reflect(b, 8), Shifted(WORD - 1, 8 * |data|);
    ShiftedByByte(m);
    Pow2Values();
    XorDisjoint(r, m, 8);
    XorCommutes(r, Shifted(m, 8));
    ShiftedXor(Shifted(m, 8), r, 32);
    ShiftedTwice(m, 8, 32);
    ShiftedTwice(m, 32, 8);
    ShiftedTwice(WORD - 1, 8 * |data|, 8);
    ShiftedXor(Shifted(m, 32), ones, 8);
    XorSwaps(Shifted(Shifted(m, 32), 8), Shifted(r, 32), Shifted(ones, 8));
  }

  lemma {:induction false} RunReflected(data: Bytes)
    ensures Congruent(Reflect(Run(WORD - 1, data), 32), Dividend(data))
  {
    hide Reflect, Congruent, Dividend, Absorb, Xor, Shifted;
    if data == [] {
      EmptyDividend();
      Reflexive(WORD - 1);
    } else {
      var init, b := data[..|data| - 1], data[|data| - 1];
      assert data == init + [b];
      var c := Run(WORD - 1, init);
      RunBound(WORD - 1, init);
      RunAppend(WORD - 1, init, [b]);
      assert Run(c, [b]) == Absorb(c, b);
      RunReflected(init);
      AbsorbReflected(c, b);
      var r, d, x := Reflect(c, 32), Dividend(init), Shifted(Reflect(b, 8), 32);
      CongruentShifts(r, d, 8);
      CongruentMixes(Shifted(r, 8), Shifted(d, 8), x);
      DividendGrows(init, b);
      Transitive(Reflect(Absorb(c, b), 32), Xor(Shifted(r, 8), x), Dividend(data));
    }
  }

  lemma EmptyDividend()
    ensures Dividend([]) == WORD - 1 == Reflect(WORD - 1, 32)
  {
    ShiftedOne(32);
    XorZero(WORD - 1);
    Pow2Values();
    hide Reflect;
    ReflectOnes(32);
  }

  /** The checksum is the complemented and reflected remainder of the message, its first 32 bits
      inverted, divided by the generator. Nothing else is. */
  lemma ChecksumIff(data: Bytes, crc: u32)
    ensures crc == Checksum(data) <==> IsRemainder(Dividend(data), Reflect(WORD - 1 - crc, 32))
  {
    hide Reflect, Dividend, Xor, Run, Multiple;
    var register := Run(WORD - 1, data);
    var r, r' := Reflect(register, 32), Reflect(WORD - 1 - crc, 32);
    Pow2Values();
    RunBound(WORD - 1, data);
    RunReflected(data);
    Symmetric(r, Dividend(data));
    assert IsRemainder(Dividend(data), r);
    if IsRemainder(Dividend(data), r') {
      RemainderIsUnique(Dividend(data), r, r');
      ReflectInjective(register, WORD - 1 - crc, 32);
    }
  }

  lemma Symmetric(a: nat, b: nat)
    requires Congruent(a, b)
    ensures Congruent(b, a)
  {
    XorCommutes(a, b);
  }

  // ---- The residue ----

  lemma {:induction false} TurnsTwice(c: nat, m: nat, n: nat)
    ensures Turns(Turns(c, m), n) == Turns(c, m + n)
  {
    hide Turn;
    if n > 0 {
      TurnsTwice(c, m, n - 1);
    }
  }

  /** Up to four bytes act like turning the word they spell, mixed in at once. */
  lemma {:induction false} RunsAsWord(x: nat, a: Bytes)
    requires x < WORD && |a| <= 4
    ensures Run(x, a) == Turns(Xor(x, FromLe(a)), 8 * |a|)
    decreases |a|
  {
    hide Absorb, Xor, Turns, Turn;
    if a == [] {
      XorZero(x);
      XorCommutes(x, 0);
      TurnsUnfold(x, 0, 0);
    } else {
      AbsorbBound(x, a[0]);
      ShortWord(a[1..]);
      RunsAsWord(Absorb(x, a[0]), a[1..]);
      AbsorbThenMix(x, a[0], FromLe(a[1..]));
      TurnsTwice(Xor(x, FromLe(a)), 8, 8 * |a[1..]|);
    }
  }

  lemma {:induction false} XorWithOnes(x: nat, n: nat)
    requires x < Pow2(n)
    ensures Xor(x, Pow2(n) - 1 - x) == Pow2(n) - 1
  {
    if n == 0 {
      XorSelf(0);
    } else {
      var y := Pow2(n) - 1 - x;
      assert y / 2 == Pow2(n - 1) - 1 - x / 2 && (y % 2 == 0 <==> x % 2 == 1);
      XorWithOnes(x / 2, n - 1);
      XorHalves(x, y);
    }
  }

  /** Data followed by its checksum leaves the register the same whatever the data: it is the reflected
      remainder of x^32 times the polynomial with all 32 coefficients, which is what a receiver compares
      with. */
  lemma ResidueIsConstant(data: Bytes)
    ensures var residue := Run(WORD - 1, data + Le(Checksum(data), 4));
            residue == Turns(WORD - 1, 32) && IsRemainder(Shifted(WORD - 1, 32), Reflect(residue, 32))
  {
    var c, crc := Run(WORD - 1, data), Checksum(data);
    assert crc == WORD - 1 - c;
    hide Run, Xor, Turns, Reflect, Checksum, Le, FromLe, Shifted, Multiple;
    RunBound(WORD - 1, data);
    RunAppend(WORD - 1, data, Le(crc, 4));
    Ranges();
    ReadsBack(crc, 4);
    RunsAsWord(c, Le(crc, 4));
    Pow2Values();
    XorWithOnes(c, 32);
    TurnsReflected(WORD - 1, 32);
    ReflectOnes(32);
    Symmetric(Reflect(Turns(WORD - 1, 32), 32), Shifted(WORD - 1, 32));
  }
}
