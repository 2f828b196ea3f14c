// The bit rate of a REMB message (receiver estimated maximum bitrate): a 6-bit
// exponent and an 18-bit mantissa in a 24-bit field in network byte order. The
// program reaches the field through a little-endian bit-field and htonl.
module Remb {
  import opened Bytes
  import opened Integers

  type u24 = n: int | 0 <= n < 0x100_0000

  // The 18-bit limit of the mantissa, and the first rate that no exponent fits: the
  // limit shifted any further leaves 64 bits.
  const MAX_MANTISSA: nat := 0x3FFFF
  const RATE_LIMIT: nat := 0xFFFF_C000_0000_0000

  // htonl and ntohl on a little-endian machine. A shift to the right by eight bits is a
  // division by 256.
  function ByteSwap(n: u32): u32 {
    Word(n % 256, n / 256 % 256, n / 256 / 256 % 256, n / 256 / 256 / 256)
  }

  function Word(b3: nat, b2: nat, b1: nat, b0: nat): nat { ((b3 * 256 + b2) * 256 + b1) * 256 + b0 }

  // The least exponent with which a rate fits the mantissa.
  ghost predicate IsExponent(rate: nat, exp: nat) {
    rate < MAX_MANTISSA * Pow2(exp) && (exp > 0 ==> MAX_MANTISSA * Pow2(exp - 1) <= rate)
  }

  // The rate shifted to the right by the exponent.
  function Mantissa(rate: nat, exp: nat): nat {
    var unit := Pow2(exp);
    Quotient(rate, unit)
  }

  function Quotient(rate: nat, unit: nat): (q: nat)
    requires unit >= 1
    ensures q * unit <= rate < q * unit + unit
  {
    DivisionFloors(rate, unit);
    rate / unit
  }

  lemma DivisionFloors(rate: nat, unit: nat)
    requires unit >= 1
    ensures rate / unit >= 0 && rate / unit * unit <= rate < rate / unit * unit + unit
  {
    var q := rate / unit;
    assert rate == q * unit + rate % unit;
    assert q < 0 ==> q * unit <= -1 * unit;
  }

  function Times(q: nat, unit: nat): nat { q * unit }

  // x is the largest multiple of the unit that is not above the rate.
  ghost predicate LargestMultiple(x: nat, unit: nat, rate: nat) {
    (exists q: nat :: x == Times(q, unit)) && x <= rate < x + unit
  }

  // Powers of two.

  lemma {:induction false} Pow2Sum(i: nat, j: nat)
    ensures Pow2(i + j) == Pow2(i) * Pow2(j)
  {
    if i > 0 {
      Pow2Sum(i - 1, j);
    }
  }

  lemma {:induction false} Pow2Grows(i: nat, j: nat)
    requires i <= j
    ensures Pow2(i) <= Pow2(j)
  {
    if i < j {
      Pow2Grows(i, j - 1);
    }
  }

  lemma Pow2Values()
    ensures Pow2(0) == 1 && Pow2(32) == 0x1_0000_0000 && Pow2(46) == 0x4000_0000_0000 && Pow2(64) == 0x1_0000_0000_0000_0000
  {
    assert Pow2(0) == 1 && Pow2(2) == 4;
    hide Pow2;
    Pow2Sum(2, 2);
    Pow2Sum(4, 2);
    Pow2Sum(4, 4);
    assert Pow2(6) == 0x40 && Pow2(8) == 0x100;
    Pow2Sum(8, 8);
    Pow2Sum(16, 16);
    Pow2Sum(8, 6);
    Pow2Sum(32, 14);
    Pow2Sum(32, 32);
  }

  // ---- Arithmetic of the encoding --------------------------------------------------

  lemma ExponentUnique(rate: nat, e: nat, f: nat)
    requires IsExponent(rate, e) && IsExponent(rate, f)
    ensures e == f
  {
    if e < f {
      Pow2Grows(e, f - 1);
    } else if f < e {
      Pow2Grows(f, e - 1);
    }
  }

  lemma QuotientBelow(rate: nat, bound: nat, unit: nat)
    requires unit >= 1 && rate < bound * unit
    ensures Quotient(rate, unit) < bound
  {
    var q := Quotient(rate, unit);
    assert q >= bound ==> q * unit >= bound * unit;
  }

  lemma ShiftIsFloor(rate: nat, unit: nat)
    requires unit >= 1
    ensures LargestMultiple(Times(Quotient(rate, unit), unit), unit, rate)
  {
    hide Quotient;
  }

  lemma NextMultiple(q: nat, p: nat, unit: nat)
    requires q * unit < p * unit
    ensures q * unit + unit <= p * unit
  {
    assert q + 1 <= p ==> (q + 1) * unit <= p * unit;
    assert q >= p ==> q * unit >= p * unit;
  }

  lemma LargestMultipleUnique(x: nat, y: nat, unit: nat, rate: nat)
    requires LargestMultiple(x, unit, rate) && LargestMultiple(y, unit, rate)
    ensures x == y
  {
    var p: nat :| x == Times(p, unit);
    var q: nat :| y == Times(q, unit);
    if x < y {
      NextMultiple(p, q, unit);
    } else if y < x {
      NextMultiple(q, p, unit);
    }
  }

  // The quality of the encoding: the mantissa fits its 18 bits, a rate below the limit
  // is kept exactly, and no rate loses as much as 2 / 0x3FFFF of itself.
  lemma EncodingError(rate: nat, exp: nat)
    requires IsExponent(rate, exp)
    ensures Mantissa(rate, exp) < MAX_MANTISSA
    ensures var kept := Times(Mantissa(rate, exp), Pow2(exp));
      && LargestMultiple(kept, Pow2(exp), rate)
      && (exp == 0 <==> rate < MAX_MANTISSA)
      && (rate < MAX_MANTISSA ==> kept == rate)
      && (rate > 0 ==> (rate - kept) * MAX_MANTISSA < 2 * rate)
  {
    var unit := Pow2(exp);
    QuotientBelow(rate, MAX_MANTISSA, unit);
    ShiftIsFloor(rate, unit);
    if exp > 0 {
      Pow2Grows(0, exp - 1);
      assert MAX_MANTISSA * unit == 2 * (MAX_MANTISSA * Pow2(exp - 1));
      assert (rate - Times(Quotient(rate, unit), unit)) * MAX_MANTISSA < unit * MAX_MANTISSA;
    }
  }

  // ---- The field on the wire ----------------------------------------------------------

  // The field that setREMBBitRate stores, and what getBrExp and getBrMantis read.

  function Field(mantissa: nat, exp: nat): u24
    requires mantissa < 0x4_0000 && exp < 0x40
  {
    FieldOctets(mantissa, exp);
    ByteSwap(mantissa + exp * 0x4_0000) / 256
  }

  function FieldExp(field: u24): nat { ByteSwap(field) / 256 / 256 / 256 / 4 }

  function FieldMantissa(field: u24): nat { ByteSwap(field) / 256 % 0x4_0000 }

  // The octets of the field in the order of the memory of a little-endian machine.
  function Octets(field: u24): seq<nat> { [field % 256, field / 256 % 256, field / 256 / 256] }

  lemma DivMod(q: nat, r: nat)
    requires r < 256
    ensures (q * 256 + r) / 256 == q && (q * 256 + r) % 256 == r
  {
  }

  lemma OctetsOfWord(b3: nat, b2: nat, b1: nat, b0: nat)
    requires b3 < 256 && b2 < 256 && b1 < 256 && b0 < 256
    ensures var n := Word(b3, b2, b1, b0);
      n < 0x1_0000_0000 && n % 256 == b0 && n / 256 % 256 == b1 && n / 256 / 256 % 256 == b2 && n / 256 / 256 / 256 == b3
  {
    DivMod((b3 * 256 + b2) * 256 + b1, b0);
    DivMod(b3 * 256 + b2, b1);
    DivMod(b3, b2);
  }

  lemma SwapOfWord(b3: nat, b2: nat, b1: nat, b0: nat)
    requires b3 < 256 && b2 < 256 && b1 < 256 && b0 < 256
    ensures Word(b3, b2, b1, b0) < 0x1_0000_0000 && ByteSwap(Word(b3, b2, b1, b0)) == Word(b0, b1, b2, b3)
  {
    OctetsOfWord(b3, b2, b1, b0);
    hide Word;
  }

  // The line that the setter builds from mantissa and exponent.
  lemma FieldOctets(mantissa: nat, exp: nat)
    requires mantissa < 0x4_0000 && exp < 0x40
    ensures var m2, m1, m0 := mantissa / 256 / 256, mantissa / 256 % 256, mantissa % 256;
      && m2 < 4 && m1 < 256 && m0 < 256
      && mantissa == Word(0, m2, m1, m0) && mantissa + exp * 0x4_0000 == Word(0, 4 * exp + m2, m1, m0)
      && ByteSwap(mantissa + exp * 0x4_0000) == Word(m0, m1, 4 * exp + m2, 0)
      && ByteSwap(mantissa + exp * 0x4_0000) / 256 == Word(0, m0, m1, 4 * exp + m2)
  {
    var m2, m1, m0 := mantissa / 256 / 256, mantissa / 256 % 256, mantissa % 256;
    assert mantissa / 256 == m2 * 256 + m1 && mantissa == mantissa / 256 * 256 + m0;
    SwapOfWord(0, 4 * exp + m2, m1, m0);
    DivMod(Word(0, m0, m1, 4 * exp + m2), 0);
    hide ByteSwap;
  }

  // On the wire the field is the exponent in the upper six bits of the first octet and
  // the mantissa in the remaining 18, most significant bits first.
  lemma FieldOnTheWire(mantissa: nat, exp: nat)
    requires mantissa < 0x4_0000 && exp < 0x40
    ensures Octets(Field(mantissa, exp)) == [4 * exp + mantissa / 256 / 256, mantissa / 256 % 256, mantissa % 256]
  {
    hide ByteSwap, Word;
    FieldOctets(mantissa, exp);
    OctetsOfWord(0, mantissa % 256, mantissa / 256 % 256, 4 * exp + mantissa / 256 / 256);
  }

  // The getters read back what the setter stored.
  lemma FieldReadBack(mantissa: nat, exp: nat)
    requires mantissa < 0x4_0000 && exp < 0x40
    ensures FieldExp(Field(mantissa, exp)) == exp && FieldMantissa(Field(mantissa, exp)) == mantissa
  {
    hide ByteSwap, Word;
    FieldWord(mantissa, exp);
    LineParts(mantissa, exp);
  }

  lemma FieldWord(mantissa: nat, exp: nat)
    requires mantissa < 0x4_0000 && exp < 0x40
    ensures var swapped := ByteSwap(Field(mantissa, exp));
      swapped / 256 == mantissa + exp * 0x4_0000 && swapped / 256 / 256 / 256 == 4 * exp + mantissa / 256 / 256
  {
    hide ByteSwap, Word;
    FieldOctets(mantissa, exp);
    var m2, m1, m0 := mantissa / 256 / 256, mantissa / 256 % 256, mantissa % 256;
    assert Field(mantissa, exp) == Word(0, m0, m1, 4 * exp + m2);
    hide Field;
    SwappedBack(4 * exp + m2, m1, m0);
  }

  lemma SwappedBack(b2: nat, b1: nat, b0: nat)
    requires b2 < 256 && b1 < 256 && b0 < 256
    ensures var swapped := ByteSwap(Word(0, b0, b1, b2));
      swapped / 256 == Word(0, b2, b1, b0) && swapped / 256 / 256 / 256 == b2
  {
    SwapOfWord(0, b0, b1, b2);
    OctetsOfWord(b2, b1, b0, 0);
    assert Word(b2, b1, b0, 0) == Word(0, b2, b1, b0) * 256;
    hide ByteSwap, Word;
  }

  lemma LineParts(mantissa: nat, exp: nat)
    requires mantissa < 0x4_0000
    ensures (mantissa + exp * 0x4_0000) % 0x4_0000 == mantissa && (4 * exp + mantissa / 256 / 256) / 4 == exp
  {
    assert mantissa / 256 / 256 < 4;
  }

  // The bit rate that analyzeFeedback reads: a shift of 32 bits.
  function Received(field: u24): u32 {
    Times(FieldMantissa(field), Pow2(FieldExp(field))) % 0x1_0000_0000
  }

  // What a sender encodes with the least exponent that fits, a receiver takes for the
  // largest multiple of 2^exp that is not above it, exactly if it has at most 32 bits.
  lemma ReceivedIsFloor(rate: nat, exp: nat)
    requires IsExponent(rate, exp) && exp < 32
    ensures var mantissa := Mantissa(rate, exp);
      mantissa < 0x4_0000 && (LargestMultiple(Received(Field(mantissa, exp)), Pow2(exp), rate) <==> rate < 0x1_0000_0000)
  {
    EncodingError(rate, exp);
    ReceivedValue(Mantissa(rate, exp), exp);
    hide *;
    TruncatedFloor(Mantissa(rate, exp), exp, rate);
  }

  // Every rate of 32 bits, from the setter to the getters at the other end.
  lemma RateSurvives(rate: u32, exp: nat)
    requires IsExponent(rate, exp)
    ensures exp <= 15 && Mantissa(rate, exp) < 0x4_0000
    ensures var got := Received(Field(Mantissa(rate, exp), exp));
      && LargestMultiple(got, Pow2(exp), rate)
      && (rate < MAX_MANTISSA ==> got == rate)
      && (rate > 0 ==> (rate - got) * MAX_MANTISSA < 2 * rate)
  {
    SmallExponent(rate, exp);
    hide *;
    EncodingError(rate, exp);
    ReceivedIsFloor(rate, exp);
    LargestMultipleUnique(Received(Field(Mantissa(rate, exp), exp)), Times(Mantissa(rate, exp), Pow2(exp)), Pow2(exp), rate);
  }

  lemma SmallExponent(rate: u32, exp: nat)
    requires IsExponent(rate, exp)
    ensures exp <= 15
  {
    assert Pow2(5) == 0x20;
    Pow2Sum(5, 5);
    Pow2Sum(10, 5);
    if exp > 15 {
      Pow2Grows(15, exp - 1);
    }
  }

  lemma ReceivedValue(mantissa: nat, exp: nat)
    requires mantissa < 0x4_0000 && exp < 0x40
    ensures Received(Field(mantissa, exp)) == Times(mantissa, Pow2(exp)) % 0x1_0000_0000
  {
    FieldReadBack(mantissa, exp);
    hide Field, FieldExp, FieldMantissa, Times;
  }

  lemma TruncatedFloor(q: nat, exp: nat, rate: nat)
    requires exp <= 32 && LargestMultiple(Times(q, Pow2(exp)), Pow2(exp), rate)
    ensures LargestMultiple(Times(q, Pow2(exp)) % 0x1_0000_0000, Pow2(exp), rate) <==> rate < 0x1_0000_0000
  {
    var kept := Times(q, Pow2(exp));
    MultipleBounds(kept, Pow2(exp), rate);
    if rate >= 0x1_0000_0000 {
      FloorOfWide(q, exp, rate);
      hide *;
      assert kept % 0x1_0000_0000 < kept;
      if LargestMultiple(kept % 0x1_0000_0000, Pow2(exp), rate) {
        LargestMultipleUnique(kept % 0x1_0000_0000, kept, Pow2(exp), rate);
      }
    }
  }

  lemma MultipleBounds(x: nat, unit: nat, rate: nat)
    requires LargestMultiple(x, unit, rate)
    ensures x <= rate < x + unit
  {
  }

  // 2^32 is itself a multiple of the unit.
  lemma FloorOfWide(q: nat, exp: nat, rate: nat)
    requires exp <= 32 && rate >= 0x1_0000_0000 && rate < Times(q, Pow2(exp)) + Pow2(exp)
    ensures Times(q, Pow2(exp)) >= 0x1_0000_0000
  {
    Pow2Values();
    Pow2Sum(32 - exp, exp);
    if q * Pow2(exp) < Pow2(32 - exp) * Pow2(exp) {
      NextMultiple(q, Pow2(32 - exp), Pow2(exp));
    }
  }

  // ---- setREMBBitRate -------------------------------------------------------------------

  // The 64-bit limit after that many shifts.
  function Limit(exp: nat): u64
    requires exp <= 64
  {
    Pow2Values();
    if exp <= 46 then Pow2Grows(exp, 46); MAX_MANTISSA * Pow2(exp) else (Pow2(64) - Pow2(exp)) % Pow2(64)
  }

  lemma LimitShifted(exp: nat)
    requires exp < 64
    ensures Limit(exp) * 2 % 0x1_0000_0000_0000_0000 == Limit(exp + 1)
  {
    assert Pow2(exp + 1) == 2 * Pow2(exp);
    Pow2Values();
    hide Pow2;
    if exp < 46 {
      Pow2Grows(exp + 1, 46);
    } else {
      Pow2Grows(exp + 1, 64);
      assert exp == 46 ==> Limit(exp) == Pow2(64) - Pow2(exp);
      WrapBelow(Pow2(exp));
      WrapDouble(Pow2(exp));
    }
  }

  lemma WrapBelow(p: nat)
    requires 0 < p <= 0x1_0000_0000_0000_0000
    ensures (0x1_0000_0000_0000_0000 - p) % 0x1_0000_0000_0000_0000 == 0x1_0000_0000_0000_0000 - p
  {
  }

  lemma WrapDouble(p: nat)
    requires 0 < 2 * p <= 0x1_0000_0000_0000_0000
    ensures (0x1_0000_0000_0000_0000 - p) * 2 % 0x1_0000_0000_0000_0000 == (0x1_0000_0000_0000_0000 - 2 * p) % 0x1_0000_0000_0000_0000
  {
  }

  lemma LimitBounds(exp: nat)
    requires exp <= 64
    ensures exp <= 46 ==> Limit(exp) == MAX_MANTISSA * Pow2(exp) && Limit(exp) <= RATE_LIMIT
    ensures exp >= 46 ==> Limit(exp) <= RATE_LIMIT
    ensures Limit(46) == RATE_LIMIT
  {
    Pow2Values();
    if exp <= 46 {
      Pow2Grows(exp, 46);
    } else {
      Pow2Grows(46, exp);
      Pow2Grows(exp, 64);
    }
  }

  lemma ExponentFound(rate: u64, exp: nat)
    requires exp <= 64 && (rate < Limit(exp) || exp == 64)
    requires exp > 0 ==> Limit(exp - 1) <= rate
    requires exp > 46 ==> rate >= RATE_LIMIT
    ensures rate < RATE_LIMIT ==> exp <= 46 && IsExponent(rate, exp)
    ensures rate >= RATE_LIMIT ==> exp == 64
  {
    LimitBounds(exp);
    if exp > 0 {
      LimitBounds(exp - 1);
    }
    hide Limit, Pow2;
  }

  class RembPacket {
    var brLength: u24

    // The loop ends for every 64-bit rate; one that no exponent fits runs it up to 64.
    static method FindExponent(bitRate: u64) returns (exp: nat)
      ensures bitRate < RATE_LIMIT ==> exp <= 46 && IsExponent(bitRate, exp)
      ensures bitRate >= RATE_LIMIT ==> exp == 64
    {
      hide Limit, IsExponent;
      var max: u64 := MAX_MANTISSA;
      exp := 0;
      assert max == Limit(0) by { LimitBounds(0); Pow2Values(); }
      while bitRate >= max && exp < 64
        invariant exp <= 64 && max == Limit(exp)
        invariant exp > 0 ==> Limit(exp - 1) <= bitRate
        invariant exp > 46 ==> bitRate >= RATE_LIMIT
        decreases 64 - exp
      {
        LimitShifted(exp);
        LimitBounds(exp);
        exp := exp + 1;
        max := max * 2 % 0x1_0000_0000_0000_0000;
      }
      ExponentFound(bitRate, exp);
    }

    // A rate above the limit would be shifted by 64, which C++ leaves undefined.
    method SetREMBBitRate(bitRate: u64)
      requires bitRate < RATE_LIMIT
      modifies this
      ensures exists exp :: exp <= 46 && IsExponent(bitRate, exp) && Mantissa(bitRate, exp) < 0x4_0000 && brLength == Field(Mantissa(bitRate, exp), exp)
    {
      hide IsExponent, ByteSwap, Pow2;
      var exp := FindExponent(bitRate);
      EncodingError(bitRate, exp);
      var mantissa := Mantissa(bitRate, exp);
      FieldOctets(mantissa, exp);
      assert exp % 0x40 == exp && mantissa % 0x4_0000 == mantissa;
      brLength := ByteSwap(mantissa % 0x4_0000 + exp % 0x40 * 0x4_0000) / 256;
      assert brLength == Field(mantissa, exp);
    }

    method GetBrExp() returns (exp: nat)
      ensures exp == FieldExp(brLength)
    {
      exp := ByteSwap(brLength) / 256 / 256 / 256 / 4;
    }

    method GetBrMantis() returns (mantissa: nat)
      ensures mantissa == FieldMantissa(brLength)
    {
      mantissa := ByteSwap(brLength) / 256 % 0x4_0000;
    }
  }
}
