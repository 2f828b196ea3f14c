// RTP sequence numbers: 16 bits, compared circularly (RFC 1982 section 3.2).
// Inside a window of 2^15 consecutive unwrapped numbers the circular
// comparisons of the program are the order of the unwrapped numbers.
module SeqNum {
  import opened Bytes

  const WRAP: int := 0x10000
  const HALF: int := 0x8000

  // IsNewerSequenceNumber: static_cast<uint16_t>(a - b) is the difference modulo 2^16.
  predicate IsNewer(a: u16, b: u16) {
    a != b && (a - b) % WRAP < HALF
  }

  // RtpPacketQueue::rtpSequenceLessThan, with its signed int difference.
  predicate RtpSequenceLessThan(x: u16, y: u16) {
    var diff := y - x;
    if diff > 0 then diff < HALF
    else if diff < 0 then diff < -HALF
    else false
  }

  // The unwrapped number of s that lies in [base, base + 2^16).
  function Unwrap(base: int, s: u16): (u: int)
    ensures base <= u < base + WRAP && u % WRAP == s
  {
    base + (s - base) % WRAP
  }

  // s stands for a number of the live half window that starts at base.
  predicate Live(base: int, s: u16) {
    (s - base) % WRAP < HALF
  }

  lemma UnwrapOf(base: int, u: int)
    requires base <= u < base + WRAP
    ensures Unwrap(base, u % WRAP) == u
  {
  }

  // The two circular comparators of the program are the same relation, and in
  // a live window both are the order of the unwrapped numbers.
  lemma ComparatorsAgree(base: int, x: u16, y: u16)
    ensures RtpSequenceLessThan(x, y) <==> IsNewer(y, x)
    ensures Live(base, x) && Live(base, y) ==> (IsNewer(y, x) <==> Unwrap(base, x) < Unwrap(base, y))
  {
  }

  // A list of sequence numbers in strictly ascending circular order.
  ghost predicate Ascending(s: seq<u16>) {
    forall i, j :: 0 <= i < j < |s| ==> IsNewer(s[j], s[i])
  }

  ghost predicate AllLive(base: int, s: seq<u16>) {
    forall x :: x in s ==> Live(base, x)
  }
}
