// Octets, the parity (XOR) operation, single bits, and the two-octet
// network-order integers that the FEC and ULP headers are made of.
module Bytes {

  type byte = bv8

  // a ^ b
  function Xor(a: byte, b: byte): byte { a ^ b }

  lemma XorZero()
    ensures forall b :: Xor(b, 0) == b && Xor(0, b) == b
  {
  }

  lemma XorLowSix(a: byte, b: byte)
    ensures Xor(a, b) & 0x3f == Xor(a & 0x3f, b & 0x3f)
  {
  }

  // Binary numerals: the value of an octet, and the octet of a value below 256.

  function NatOf(b: byte): nat {
    if b == 0 then 0 else 2 * NatOf(b >> 1) + (if b & 1 == 1 then 1 else 0)
  }

  function ByteOf(n: nat): byte {
    if n == 0 then 0 else (ByteOf(n / 2) << 1) | (if n % 2 == 1 then 1 else 0)
  }

  function Pow2(k: nat): (r: nat)
    ensures r >= 1
  {
    if k == 0 then 1 else 2 * Pow2(k - 1)
  }

  ghost predicate FitsIn(b: byte, k: nat) {
    if k == 0 then b == 0 else FitsIn(b >> 1, k - 1)
  }

  lemma {:induction false} SevenBitsLeaveTopClear(b: byte, k: nat)
    requires k <= 7 && FitsIn(b, k)
    ensures b & 0x80 == 0
    decreases 7 - k
  {
    if k < 7 {
      FitsInMore(b, k);
      SevenBitsLeaveTopClear(b, k + 1);
    } else {
      assert FitsIn(b >> 1, 6);
      assert FitsIn(b >> 1 >> 1, 5);
      assert FitsIn(b >> 1 >> 1 >> 1, 4);
      assert FitsIn(b >> 1 >> 1 >> 1 >> 1, 3);
      assert FitsIn(b >> 1 >> 1 >> 1 >> 1 >> 1, 2);
      assert FitsIn(b >> 1 >> 1 >> 1 >> 1 >> 1 >> 1, 1);
      assert FitsIn(b >> 1 >> 1 >> 1 >> 1 >> 1 >> 1 >> 1, 0);
    }
  }

  lemma {:induction false} FitsInMore(b: byte, k: nat)
    requires FitsIn(b, k)
    ensures FitsIn(b, k + 1)
  {
    if k > 0 {
      FitsInMore(b >> 1, k - 1);
    }
  }

  lemma {:induction false} NatOfByteOfBits(n: nat, k: nat)
    requires k <= 8 && n < Pow2(k)
    ensures FitsIn(ByteOf(n), k) && NatOf(ByteOf(n)) == n
  {
    if n == 0 {
      if k > 0 { NatOfByteOfBits(0, k - 1); }
    } else {
      NatOfByteOfBits(n / 2, k - 1);
      SevenBitsLeaveTopClear(ByteOf(n / 2), k - 1);
    }
  }

  lemma {:induction false} NatOfBits(b: byte, k: nat)
    requires FitsIn(b, k)
    ensures NatOf(b) < Pow2(k)
  {
    if k > 0 {
      NatOfBits(b >> 1, k - 1);
    }
  }

  lemma NatOfBound(b: byte)
    ensures NatOf(b) < 256
  {
    assert b >> 1 >> 1 >> 1 >> 1 >> 1 >> 1 >> 1 >> 1 == 0;
    assert FitsIn(b >> 1 >> 1 >> 1 >> 1 >> 1 >> 1, 2);
    assert FitsIn(b >> 1 >> 1 >> 1 >> 1, 4);
    assert FitsIn(b >> 1 >> 1, 6);
    NatOfBits(b, 8);
    assert Pow2(8) == 256;
  }

  lemma NatOfByteOf(n: nat)
    requires n < 256
    ensures NatOf(ByteOf(n)) == n
  {
    assert Pow2(8) == 256;
    NatOfByteOfBits(n, 8);
  }

  lemma {:induction false} ByteOfNatOf(b: byte)
    ensures ByteOf(NatOf(b)) == b
    decreases b
  {
    if b != 0 {
      ByteOfNatOf(b >> 1);
    }
  }

  // Two-octet network-order integers (AssignUWord16ToBuffer, BufferToUWord16).

  type u16 = n: int | 0 <= n < 0x10000

  function Hi(n: u16): byte { ByteOf(n / 256) }

  function Lo(n: u16): byte { ByteOf(n % 256) }

  function U16(hi: byte, lo: byte): u16 {
    NatOfBound(hi);
    NatOfBound(lo);
    256 * NatOf(hi) + NatOf(lo)
  }

  // A 16-bit integer survives being written to and read from a buffer.
  lemma U16RoundTrip(n: u16)
    ensures U16(Hi(n), Lo(n)) == n
  {
    NatOfByteOf(n / 256);
    NatOfByteOf(n % 256);
  }

  lemma DivMod256(a: nat, b: nat)
    requires b < 256
    ensures (256 * a + b) / 256 == a && (256 * a + b) % 256 == b
  {
  }

  lemma U16Bytes(hi: byte, lo: byte)
    ensures Hi(U16(hi, lo)) == hi && Lo(U16(hi, lo)) == lo
  {
    NatOfBound(lo);
    DivMod256(NatOf(hi), NatOf(lo));
    assert Hi(U16(hi, lo)) == ByteOf(NatOf(hi));
    assert Lo(U16(hi, lo)) == ByteOf(NatOf(lo));
    ByteOfNatOf(hi);
    ByteOfNatOf(lo);
  }

  // Reading past the written part of a zero-initialised packet buffer yields 0.
  function At(data: seq<byte>, i: nat): byte {
    if i < |data| then data[i] else 0
  }

  // Bit i of an octet, counted from the most significant one as packet masks are.
  predicate BitAt(b: byte, i: nat)
    requires i < 8
  {
    b & BitMask(i) != 0
  }

  // 1 << (7 - i)
  function BitMask(i: nat): byte
    requires i < 8
  {
    if i == 0 then 0x80
    else if i == 1 then 0x40
    else if i == 2 then 0x20
    else if i == 3 then 0x10
    else if i == 4 then 0x08
    else if i == 5 then 0x04
    else if i == 6 then 0x02
    else 0x01
  }

  // The bits of an octet shifted left by one.
  lemma BitAtShift(b: byte, i: nat)
    requires i < 8
    ensures BitAt(b << 1, i) <==> i < 7 && BitAt(b, i + 1)
  {
  }

  // Setting the last bit from the first bit of another octet.
  lemma BitAtOrLast(b: byte, c: byte, i: nat)
    requires i < 8
    ensures BitAt(b | ((c & 0x80) >> 7), i) <==> BitAt(b, i) || (i == 7 && BitAt(c, 0))
  {
  }
}
