// Copying and XORing octets into a packet buffer in place.
module Buffers {
  import opened Bytes

  // memcpy(&buf[at], data, |data|)
  method MemCpy(buf: array<byte>, at: nat, data: seq<byte>)
    requires at + |data| <= buf.Length
    modifies buf
    ensures forall i :: 0 <= i < buf.Length ==>
      buf[i] == if at <= i < at + |data| then data[i - at] else old(buf[i])
  {
    forall i | at <= i < at + |data| {
      buf[i] := data[i - at];
    }
  }

  // for (j = at; ...; j++) buf[j] ^= data[j - at];
  method XorInto(buf: array<byte>, at: nat, data: seq<byte>)
    requires at + |data| <= buf.Length
    modifies buf
    ensures forall i :: 0 <= i < buf.Length ==>
      buf[i] == if at <= i < at + |data| then Xor(old(buf[i]), data[i - at]) else old(buf[i])
  {
    hide Xor;
    for j := 0 to |data|
      invariant forall i :: 0 <= i < buf.Length ==>
        buf[i] == if at <= i < at + j then Xor(old(buf[i]), data[i - at]) else old(buf[i])
    {
      buf[at + j] := Xor(buf[at + j], data[j]);
    }
  }
}
