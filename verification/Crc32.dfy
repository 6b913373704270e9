/** The WAL's checksum: CRC-32 with the reflected polynomial of clause 3.2.9 of IEEE 802.3,
    computed one bit at a time, and the bursts it is guaranteed to detect. The 32-bit register
    is a number below 2^32 and `^` is defined digit by digit. */
module Crc32 {
  import opened Prelude
  import opened LittleEndian

  const POLYNOMIAL: nat := 0xEDB8_8320

  const WORD: nat := 0x1_0000_0000

  const BITS_PER_BYTE: nat := 8

  function Xor(a: nat, b: nat): nat
    decreases a + b
  {
    if a == 0 && b == 0 then 0
    else (if a % 2 == b % 2 then 0 else 1) + 2 * Xor(a / 2, b / 2)
  }

  /** One turn of the register: `(crc >> 1) ^ (POLYNOMIAL & mask)`, where the mask is all ones
      exactly when the bit shifted out is one. */
  function Turn(c: nat): nat {
    Xor(c / 2, if c % 2 == 1 then POLYNOMIAL else 0)
  }

  function Turns(c: nat, n: nat): nat
    decreases n
  {
    if n == 0 then c else Turn(Turns(c, n - 1))
  }

  function Absorb(c: nat, b: byte): nat {
    Turns(Xor(c, b), BITS_PER_BYTE)
  }

  /** The register after `data`, starting from `c`. */
  function Run(c: nat, data: Bytes): nat
    decreases |data|
  {
    if data == [] then c else Run(Absorb(c, data[0]), data[1..])
  }

  /** The checksum stored in a record header: the complement of the final register. */
  function Checksum(data: Bytes): u32 {
    RunBound(WORD - 1, data);
    WORD - 1 - Run(WORD - 1, data)
  }

  method ComputeChecksum(data: Bytes) returns (crc: nat)
    ensures crc == Checksum(data)
  {
    var register: nat := WORD - 1;
    for i := 0 to |data|
      invariant Run(WORD - 1, data) == Run(register, data[i..])
    {
      var mixed := Xor(register, data[i]);
      var turned := mixed;
      for j := 0 to BITS_PER_BYTE
        invariant turned == Turns(mixed, j)
      {
        var mask := if turned % 2 == 1 then POLYNOMIAL else 0;
        turned := Xor(turned / 2, mask);
      }
      assert data[i..][1..] == data[i + 1..];
      register := turned;
    }
    RunBound(WORD - 1, data);
    crc := WORD - 1 - register;
  }

  // ---- Exclusive or ----

  function Pow2(n: nat): (r: nat)
    ensures r > 0
  {
    if n == 0 then 1 else 2 * Pow2(n - 1)
  }

  /** `w` shifted left by `n` bits. */
  function Shifted(w: nat, n: nat): nat {
    if n == 0 then w else 2 * Shifted(w, n - 1)
  }

  lemma ShiftedByByte(w: nat)
    ensures Shifted(w, BITS_PER_BYTE) == 256 * w
  {
    assert Shifted(w, 1) == 2 * w;
    assert Shifted(w, 3) == 8 * w;
    assert Shifted(w, 5) == 32 * w;
    assert Shifted(w, 7) == 128 * w;
  }

  lemma {:induction false} ShiftedInside(w: nat, n: nat)
    ensures Shifted(2 * w, n) == 2 * Shifted(w, n)
  {
    if n > 0 {
      ShiftedInside(w, n - 1);
    }
  }

  lemma Pow2Values()
    ensures Pow2(8) == 256 && Pow2(31) == 0x8000_0000 && Pow2(32) == WORD
  {
    assert Pow2(8) == 256;
    assert Pow2(16) == 0x1_0000;
    assert Pow2(24) == 0x100_0000;
    assert Pow2(31) == 0x8000_0000;
  }

  lemma {:induction false} XorAssociates(a: nat, b: nat, c: nat)
    ensures Xor(Xor(a, b), c) == Xor(a, Xor(b, c))
    decreases a + b + c
  {
    if a + b + c > 0 {
      var x, y := Xor(a, b), Xor(b, c);
      XorHalves(a, b);
      XorHalves(b, c);
      XorHalves(x, c);
      XorHalves(a, y);
      XorAssociates(a / 2, b / 2, c / 2);
      assert Xor(x, c) % 2 == Xor(a, y) % 2;
    }
  }

  lemma XorHalves(a: nat, b: nat)
    ensures Xor(a, b) / 2 == Xor(a / 2, b / 2)
    ensures Xor(a, b) % 2 == 0 <==> a % 2 == b % 2
  {
  }

  lemma {:induction false} XorCommutes(a: nat, b: nat)
    ensures Xor(a, b) == Xor(b, a)
    decreases a + b
  {
    if a + b > 0 {
      XorCommutes(a / 2, b / 2);
    }
  }

  lemma {:induction false} XorCancels(a: nat, b: nat, c: nat)
    requires Xor(a, c) == Xor(b, c)
    ensures a == b
    decreases a + b + c
  {
    if a + b + c > 0 {
      XorHalves(a, c);
      XorHalves(b, c);
      XorCancels(a / 2, b / 2, c / 2);
    }
  }

  lemma {:induction false} XorBound(a: nat, b: nat, n: nat)
    requires a < Pow2(n) && b < Pow2(n)
    ensures Xor(a, b) < Pow2(n)
    decreases n
  {
    if n > 0 {
      XorBound(a / 2, b / 2, n - 1);
    }
  }

  lemma {:induction false} XorKeepsTopBit(a: nat, b: nat, n: nat)
    requires a < Pow2(n) <= b
    ensures Xor(a, b) >= Pow2(n)
    decreases n
  {
    if n > 0 {
      XorKeepsTopBit(a / 2, b / 2, n - 1);
    } else {
      XorZero(b);
    }
  }

  lemma {:induction false} XorZero(a: nat)
    ensures Xor(0, a) == a
    decreases a
  {
    if a > 0 {
      XorZero(a / 2);
    }
  }

  /** Where the digits do not overlap, `^` is addition. */
  lemma {:induction false} XorDisjoint(a: nat, w: nat, n: nat)
    requires a < Pow2(n)
    ensures Xor(a, Shifted(w, n)) == a + Shifted(w, n)
    decreases n
  {
    if n == 0 {
      XorZero(w);
    } else {
      var d := Shifted(w, n - 1);
      XorDisjoint(a / 2, w, n - 1);
      XorHalves(a, 2 * d);
    }
  }

  // ---- The turn is linear and loses nothing ----

  lemma TurnBound(c: nat)
    requires c < WORD
    ensures Turn(c) < WORD
  {
    Pow2Values();
    XorBound(c / 2, POLYNOMIAL, 32);
    XorBound(c / 2, 0, 32);
  }

  lemma {:induction false} TurnsBound(c: nat, n: nat)
    requires c < WORD
    ensures Turns(c, n) < WORD
  {
    if n > 0 {
      TurnsBound(c, n - 1);
      TurnBound(Turns(c, n - 1));
    }
  }

  lemma AbsorbBound(c: nat, b: byte)
    requires c < WORD
    ensures Absorb(c, b) < WORD
  {
    Pow2Values();
    XorBound(c, b, 32);
    TurnsBound(Xor(c, b), BITS_PER_BYTE);
  }

  lemma {:induction false} RunBound(c: nat, data: Bytes)
    requires c < WORD
    ensures Run(c, data) < WORD
    decreases |data|
  {
    if data != [] {
      AbsorbBound(c, data[0]);
      RunBound(Absorb(c, data[0]), data[1..]);
    }
  }

  /** The polynomial's top bit says whether a one was shifted out. */
  lemma TurnInjective(c: nat, d: nat)
    requires c < WORD && d < WORD
    requires Turn(c) == Turn(d)
    ensures c == d
  {
    Pow2Values();
    TopBitTellsParity(c);
    TopBitTellsParity(d);
    XorCancels(c / 2, d / 2, if c % 2 == 1 then POLYNOMIAL else 0);
  }

  lemma TopBitTellsParity(c: nat)
    requires c < WORD
    ensures Turn(c) >= Pow2(31) <==> c % 2 == 1
  {
    Pow2Values();
    XorKeepsTopBit(c / 2, POLYNOMIAL, 31);
    XorBound(c / 2, 0, 31);
  }

  lemma {:induction false} TurnsInjective(c: nat, d: nat, n: nat)
    requires c < WORD && d < WORD
    requires Turns(c, n) == Turns(d, n)
    ensures c == d
    decreases n
  {
    if n > 0 {
      TurnsBound(c, n - 1);
      TurnsBound(d, n - 1);
      TurnInjective(Turns(c, n - 1), Turns(d, n - 1));
      TurnsInjective(c, d, n - 1);
    }
  }

  lemma TurnLinear(c: nat, w: nat)
    ensures Turn(Xor(c, 2 * w)) == Xor(Turn(c), w)
  {
    XorHalves(c, 2 * w);
    var p := if c % 2 == 1 then POLYNOMIAL else 0;
    XorAssociates(c / 2, w, p);
    XorCommutes(w, p);
    XorAssociates(c / 2, p, w);
  }

  lemma {:induction false} TurnsLinear(c: nat, w: nat, n: nat)
    ensures Turns(Xor(c, Shifted(w, n)), n) == Xor(Turns(c, n), w)
    decreases n
  {
    if n > 0 {
      ShiftedInside(w, n - 1);
      TurnsLinear(c, 2 * w, n - 1);
      TurnLinear(Turns(c, n - 1), w);
    }
  }

  // ---- Bursts ----

  lemma {:induction false} RunAppend(c: nat, a: Bytes, b: Bytes)
    ensures Run(c, a + b) == Run(Run(c, a), b)
    decreases |a|
  {
    if a == [] {
      assert a + b == b;
    } else {
      assert (a + b)[1..] == a[1..] + b;
      RunAppend(Absorb(c, a[0]), a[1..], b);
    }
  }

  /** The register never forgets a difference. */
  lemma {:induction false} RunInjective(c: nat, d: nat, data: Bytes)
    requires c < WORD && d < WORD
    requires Run(c, data) == Run(d, data)
    ensures c == d
    decreases |data|
  {
    if data != [] {
      var b := data[0];
      AbsorbBound(c, b);
      AbsorbBound(d, b);
      RunInjective(Absorb(c, b), Absorb(d, b), data[1..]);
      Pow2Values();
      XorBound(c, b, 32);
      XorBound(d, b, 32);
      TurnsInjective(Xor(c, b), Xor(d, b), BITS_PER_BYTE);
      XorCancels(c, d, b);
    }
  }

  /** Absorbing a byte and then mixing in `u` is turning the longer word `u:a`. */
  lemma AbsorbThenMix(x: nat, a: byte, u: nat)
    requires x < WORD && 256 * u < WORD
    ensures Xor(Absorb(x, a), u) == Turns(Xor(x, a + 256 * u), BITS_PER_BYTE)
    ensures Xor(x, a + 256 * u) < WORD
  {
    var w := 256 * u;
    Pow2Values();
    ShiftedByByte(u);
    TurnsLinear(Xor(x, a), u, BITS_PER_BYTE);
    XorAssociates(x, a, w);
    XorDisjoint(a, u, BITS_PER_BYTE);
    XorBound(a, w, 32);
    XorBound(x, a + w, 32);
  }

  /** Registers equal up to `u` and `v` after one byte were equal up to the longer words before it. */
  lemma AbsorbBack(x: nat, a: byte, u: nat, y: nat, b: byte, v: nat)
    requires x < WORD && y < WORD && 256 * u < WORD && 256 * v < WORD
    requires Xor(Absorb(x, a), u) == Xor(Absorb(y, b), v)
    ensures Xor(x, a + 256 * u) == Xor(y, b + 256 * v)
  {
    AbsorbThenMix(x, a, u);
    AbsorbThenMix(y, b, v);
    TurnsInjective(Xor(x, a + 256 * u), Xor(y, b + 256 * v), BITS_PER_BYTE);
  }

  /** Up to four bytes fed one after the other act like the one word they spell. */
  lemma {:induction false} RunBack(x: nat, a: Bytes, y: nat, b: Bytes)
    requires x < WORD && y < WORD
    requires |a| == |b| <= 4
    requires Run(x, a) == Run(y, b)
    ensures Xor(x, FromLe(a)) == Xor(y, FromLe(b))
    decreases |a|
  {
    hide Absorb, Xor;
    if a != [] {
      AbsorbBound(x, a[0]);
      AbsorbBound(y, b[0]);
      RunBack(Absorb(x, a[0]), a[1..], Absorb(y, b[0]), b[1..]);
      ShortWord(a[1..]);
      ShortWord(b[1..]);
      AbsorbBack(x, a[0], FromLe(a[1..]), y, b[0], FromLe(b[1..]));
    }
  }

  lemma ShortWord(s: Bytes)
    requires |s| <= 3
    ensures 256 * FromLe(s) < WORD
  {
    FromLeBound(s);
    assert Range(0) == 1 && Range(1) == 256 && Range(2) == 0x1_0000 && Range(3) == 0x100_0000;
  }

  /** Any change confined to four consecutive bytes changes the checksum, however long the data. */
  lemma DetectsBursts(before: Bytes, a: Bytes, b: Bytes, after: Bytes)
    requires |a| == |b| <= 4
    requires a != b
    ensures Checksum(before + a + after) != Checksum(before + b + after)
  {
    var s := WORD - 1;
    if Run(s, before + a + after) == Run(s, before + b + after) {
      RunAppend(s, before + a, after);
      RunAppend(s, before + b, after);
      RunBound(s, before + a);
      RunBound(s, before + b);
      RunInjective(Run(s, before + a), Run(s, before + b), after);
      RunAppend(s, before, a);
      RunAppend(s, before, b);
      RunBound(s, before);
      var c := Run(s, before);
      RunBack(c, a, c, b);
      XorCommutes(c, FromLe(a));
      XorCommutes(c, FromLe(b));
      XorCancels(FromLe(a), FromLe(b), c);
      WritesBack(a);
      WritesBack(b);
      assert false;
    }
  }
}
