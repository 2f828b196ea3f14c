// ForwardErrorCorrection: the parity and the headers of one FEC packet, written
// in place into a zeroed packet buffer from one row of the packet mask.
module FecEncoder {
  import opened Bytes
  import opened SeqNum
  import opened Buffers
  import opened ParityCode

  const MAX_MEDIA_PACKETS := 48

  // The mask column of media packet k: how far its sequence number is past the first one.
  function Column(media: seq<Packet>, k: nat): nat
    requires k < |media|
  {
    (ParseSequenceNumber(media[k]) - ParseSequenceNumber(media[0])) % WRAP
  }

  function Columns(media: seq<Packet>): (cols: seq<nat>)
    ensures |cols| == |media| && forall k :: 0 <= k < |media| ==> cols[k] == Column(media, k)
  {
    seq(|media|, k requires 0 <= k < |media| => Column(media, k))
  }

  // Sequence numbers strictly increase and span at most limit numbers.
  ghost predicate InOrder(cols: seq<nat>, limit: nat) {
    && (|cols| > 0 ==> cols[0] == 0)
    && (forall i, j :: 0 <= i < j < |cols| ==> cols[i] < cols[j])
    && (forall i :: 0 <= i < |cols| ==> cols[i] < limit)
  }

  // Where GenerateFecBitStrings looks for the mask bit of media packet k: the
  // byte index moves on only when the bit index becomes exactly 8.
  function Cursor(cols: seq<nat>, k: nat): (nat, nat)
    requires k < |cols|
    requires InOrder(cols, WRAP)
  {
    if k == 0 then (0, 0) else
      var (byteIndex, bitIndex) := Cursor(cols, k - 1);
      var next := bitIndex + (cols[k] - cols[k - 1]);
      if next == 8 then (byteIndex + 1, 0) else (byteIndex, next)
  }

  // No gap between consecutive packets jumps over the first column of a mask byte.
  predicate NoByteJumped(cols: seq<nat>) {
    forall k :: 0 < k < |cols| ==> cols[k] <= 8 * (cols[k - 1] / 8 + 1)
  }

  ghost predicate CursorRight(cols: seq<nat>, k: nat)
    requires k < |cols| && InOrder(cols, WRAP)
  {
    var (byteIndex, bitIndex) := Cursor(cols, k);
    8 * byteIndex + bitIndex == cols[k] && bitIndex < 8
  }

  lemma {:induction false} CursorFollows(cols: seq<nat>, k: nat)
    requires k < |cols| && InOrder(cols, WRAP)
    requires forall i :: 0 < i <= k ==> cols[i] <= 8 * (cols[i - 1] / 8 + 1)
    ensures CursorRight(cols, k)
  {
    if k > 0 {
      CursorFollows(cols, k - 1);
      assert cols[k - 1] / 8 == Cursor(cols, k - 1).0;
    }
  }

  // The encoder reads the right mask bit of every media packet if and only if
  // no gap in the sequence jumps over a byte boundary of the mask.
  lemma CursorExact(cols: seq<nat>)
    requires InOrder(cols, WRAP)
    ensures (forall k :: 0 <= k < |cols| ==> CursorRight(cols, k)) <==> NoByteJumped(cols)
  {
    if NoByteJumped(cols) {
      forall k | 0 <= k < |cols|
        ensures CursorRight(cols, k)
      {
        CursorFollows(cols, k);
      }
    } else {
      var k :| 0 < k < |cols| && cols[k] > 8 * (cols[k - 1] / 8 + 1);
      if CursorRight(cols, k - 1) {
        assert cols[k - 1] / 8 == Cursor(cols, k - 1).0;
        assert !CursorRight(cols, k);
      }
    }
  }

  // Packets 0, 6 and 9: the cursor asks for bit 9 of the first mask byte.
  lemma CursorJumpsOff()
    ensures InOrder([0, 6, 9], WRAP) && Cursor([0, 6, 9], 2) == (0, 9)
  {
    assert Cursor([0, 6, 9], 1) == (0, 6);
  }

  // Whether the mask row selects a column, and the media packets a row selects.

  predicate RowBit(row: seq<byte>, col: nat) {
    BitAt(At(row, col / 8), col % 8)
  }

  function Selected(media: seq<Packet>, cols: seq<nat>, row: seq<byte>): (sel: seq<Packet>)
    requires |media| == |cols|
    ensures AllMediaSized(media) ==> AllMediaSized(sel)
  {
    if media == [] then [] else
      var n := |media| - 1;
      var sel := Selected(media[..n], cols[..n], row);
      if RowBit(row, cols[n]) then sel + [media[n]] else sel
  }

  function MaxPayload(ps: seq<Packet>): (n: nat)
    requires AllMediaSized(ps)
    ensures forall k :: 0 <= k < |ps| ==> |ps[k]| - RTP_HEADER_SIZE <= n
    ensures n == 0 || exists k :: 0 <= k < |ps| && |ps[k]| - RTP_HEADER_SIZE == n
  {
    if ps == [] then 0 else
      var rest := MaxPayload(ps[..|ps| - 1]);
      var last := |ps[|ps| - 1]| - RTP_HEADER_SIZE;
      if last > rest then last else rest
  }

  // Every packet fits into an FEC packet with the given header.
  predicate AllFit(ps: seq<Packet>, l: bool) {
    forall k :: 0 <= k < |ps| ==> |ps[k]| - RTP_HEADER_SIZE + HeaderSize(l) <= IP_PACKET_SIZE
  }

  // What a media packet contributes to octet i of the FEC packet buffer.
  function Contribution(m: Packet, l: bool, i: nat): byte
    requires MediaSized(m)
  {
    if i < 2 || 4 <= i < 8 then m[i]
    else if i == 8 then Hi(|m| - RTP_HEADER_SIZE)
    else if i == 9 then Lo(|m| - RTP_HEADER_SIZE)
    else if i >= HeaderSize(l) then At(m, i - HeaderSize(l) + RTP_HEADER_SIZE)
    else 0
  }

  lemma ContributionIsBitString(before: seq<byte>, after: seq<byte>, m: Packet, l: bool, j: nat)
    requires MediaSized(m) && AllFit([m], l)
    requires |before| == |after| == IP_PACKET_SIZE
    requires forall i :: 0 <= i < IP_PACKET_SIZE ==> after[i] == Xor(before[i], Contribution(m, l, i))
    ensures BufferField(after, l, j) == Xor(BufferField(before, l, j), BitString(m, j))
  {
    hide Xor, Hi, Lo;
    XorZero();
    XorLowSix(before[0], m[0]);
    assert |[m][0]| - RTP_HEADER_SIZE + HeaderSize(l) <= IP_PACKET_SIZE;
  }

  // On the first protected packet there is nothing to XOR with.
  method CopyMedia(m: Packet, l: bool, buf: array<byte>)
    requires MediaSized(m) && AllFit([m], l)
    requires buf.Length == IP_PACKET_SIZE && forall i :: 0 <= i < IP_PACKET_SIZE ==> buf[i] == 0
    modifies buf
    ensures forall i :: 0 <= i < IP_PACKET_SIZE ==> buf[i] == Contribution(m, l, i)
  {
    hide Hi, Lo;
    assert |[m][0]| - RTP_HEADER_SIZE + HeaderSize(l) <= IP_PACKET_SIZE;
    var n := |m| - RTP_HEADER_SIZE;
    MemCpy(buf, 0, m[..2]);
    MemCpy(buf, 4, m[4..8]);
    MemCpy(buf, 8, [Hi(n), Lo(n)]);
    MemCpy(buf, HeaderSize(l), m[RTP_HEADER_SIZE..]);
  }

  method XorMedia(m: Packet, l: bool, buf: array<byte>)
    requires MediaSized(m) && AllFit([m], l)
    requires buf.Length == IP_PACKET_SIZE
    modifies buf
    ensures forall i :: 0 <= i < IP_PACKET_SIZE ==> buf[i] == Xor(old(buf[i]), Contribution(m, l, i))
  {
    hide Xor, Hi, Lo;
    assert |[m][0]| - RTP_HEADER_SIZE + HeaderSize(l) <= IP_PACKET_SIZE;
    XorZero();
    var n := |m| - RTP_HEADER_SIZE;
    XorInto(buf, 0, m[..2]);
    XorInto(buf, 4, m[4..8]);
    XorInto(buf, 8, [Hi(n), Lo(n)]);
    XorInto(buf, HeaderSize(l), m[RTP_HEADER_SIZE..]);
  }

  lemma SelectedGrows(media: seq<Packet>, cols: seq<nat>, row: seq<byte>, k: nat)
    requires k < |media| == |cols|
    ensures var sel := Selected(media[..k], cols[..k], row);
      Selected(media[..k + 1], cols[..k + 1], row) == if RowBit(row, cols[k]) then sel + [media[k]] else sel
  {
    assert media[..k + 1][..k] == media[..k] && cols[..k + 1][..k] == cols[..k];
  }

  // The columns computed by 16-bit differences of consecutive sequence numbers.
  lemma ColumnStep(media: seq<Packet>, k: nat)
    requires 0 < k < |media| && Column(media, k - 1) < Column(media, k)
    ensures (ParseSequenceNumber(media[k]) - ParseSequenceNumber(media[k - 1])) % WRAP
         == Column(media, k) - Column(media, k - 1)
  {
    hide NatOf, U16;
  }

  // The buffer holds the parity of sel; length is the packet length reached so far.
  ghost predicate HoldsParity(b: seq<byte>, l: bool, sel: seq<Packet>, length: nat) {
    && |b| == IP_PACKET_SIZE && AllMediaSized(sel)
    && length == (if sel == [] then 0 else HeaderSize(l) + MaxPayload(sel))
    && (forall j :: 0 <= j ==> BufferField(b, l, j) == Parity(sel, j))
    && (forall i :: length <= i < IP_PACKET_SIZE && HeaderSize(l) <= i ==> b[i] == 0)
    && (length == 0 ==> forall i :: 0 <= i < IP_PACKET_SIZE ==> b[i] == 0)
  }

  lemma HoldsOneMore(before: seq<byte>, after: seq<byte>, l: bool, sel: seq<Packet>, m: Packet, length: nat)
    requires HoldsParity(before, l, sel, length) && MediaSized(m) && AllFit([m], l)
    requires |after| == IP_PACKET_SIZE
    requires forall i :: 0 <= i < IP_PACKET_SIZE ==> after[i] == Xor(before[i], Contribution(m, l, i))
    ensures var size := HeaderSize(l) + |m| - RTP_HEADER_SIZE;
      HoldsParity(after, l, sel + [m], if size > length then size else length)
  {
    hide Xor, Hi, Lo;
    XorZero();
    assert (sel + [m])[..|sel + [m]| - 1] == sel;
    forall j: nat
      ensures BufferField(after, l, j) == Parity(sel + [m], j)
    {
      ContributionIsBitString(before, after, m, l, j);
    }
  }

  // One turn of the loop over the media packets, for a packet that the mask selects.
  method AddMedia(m: Packet, l: bool, buf: array<byte>, ghost sel: seq<Packet>, length: nat) returns (newLength: nat)
    requires MediaSized(m) && AllFit([m], l) && buf.Length == IP_PACKET_SIZE
    requires HoldsParity(buf[..], l, sel, length)
    modifies buf
    ensures HoldsParity(buf[..], l, sel + [m], newLength)
  {
    hide Xor, Hi, Lo;
    ghost var before := buf[..];
    if length == 0 {
      XorZero();
      CopyMedia(m, l, buf);
    } else {
      XorMedia(m, l, buf);
    }
    HoldsOneMore(before, buf[..], l, sel, m, length);
    var fecLength := |m| + HeaderSize(l) - RTP_HEADER_SIZE;
    newLength := if fecLength > length then fecLength else length;
  }

  lemma CursorReadsRow(cols: seq<nat>, k: nat, row: seq<byte>)
    requires k < |cols| && InOrder(cols, 8 * |row|) && |row| <= MASK_SIZE_L_BIT_SET && NoByteJumped(cols)
    ensures Cursor(cols, k).0 < |row| && Cursor(cols, k).1 < 8
    ensures BitAt(row[Cursor(cols, k).0], Cursor(cols, k).1) == RowBit(row, cols[k])
  {
    CursorFollows(cols, k);
    assert cols[k] / 8 == Cursor(cols, k).0 && cols[k] % 8 == Cursor(cols, k).1;
  }

  // The end of each turn: move on by the gap to the next sequence number.
  method MoveCursor(media: seq<Packet>, k: nat, ghost rowStart: nat, maskIndex: nat, mediaIndex: nat, prev: u16)
    returns (newMaskIndex: nat, newMediaIndex: nat, seqNum: u16)
    requires k < |media| && InOrder(Columns(media), WRAP) && maskIndex >= rowStart
    requires (maskIndex - rowStart, mediaIndex) == Cursor(Columns(media), k) && prev == ParseSequenceNumber(media[k])
    ensures k + 1 < |media| ==>
      newMaskIndex >= rowStart && (newMaskIndex - rowStart, newMediaIndex) == Cursor(Columns(media), k + 1)
      && seqNum == ParseSequenceNumber(media[k + 1])
  {
    hide ParseSequenceNumber;
    newMaskIndex, newMediaIndex, seqNum := maskIndex, mediaIndex, prev;
    if k + 1 < |media| {
      seqNum := ParseSequenceNumber(media[k + 1]);
      assert Columns(media)[k] < Columns(media)[k + 1];
      ColumnStep(media, k + 1);
      newMediaIndex := mediaIndex + (seqNum - prev) % WRAP;
    }
    if newMediaIndex == 8 {
      newMediaIndex, newMaskIndex := 0, maskIndex + 1;
    }
  }

  // GenerateFecBitStrings, one row: the parity of the selected packets.
  method GenerateFecBitString(media: seq<Packet>, mask: array<byte>, rowStart: nat, ghost row: seq<byte>, l: bool, buf: array<byte>)
    returns (length: nat)
    requires media != [] && AllMediaSized(media) && AllFit(media, l)
    requires InOrder(Columns(media), 8 * |row|) && |row| <= MASK_SIZE_L_BIT_SET && NoByteJumped(Columns(media))
    requires rowStart + |row| <= mask.Length && mask[rowStart..rowStart + |row|] == row
    requires buf.Length == IP_PACKET_SIZE && buf != mask && forall i :: 0 <= i < IP_PACKET_SIZE ==> buf[i] == 0
    modifies buf
    ensures HoldsParity(buf[..], l, Selected(media, Columns(media), row), length)
  {
    hide HoldsParity, BitAt, Selected, RowBit, ParseSequenceNumber, Cursor, Column;
    ghost var cols := Columns(media);
    length := 0;
    EmptyHoldsNothing(buf[..], l, media, cols, row);
    assert Cursor(cols, 0) == (0, 0) by { CursorStart(cols); }
    ghost var sel: seq<Packet> := [];
    var maskIndex, mediaIndex := rowStart, 0;
    var prev := ParseSequenceNumber(media[0]);
    for k := 0 to |media|
      invariant k < |media| ==> maskIndex >= rowStart && (maskIndex - rowStart, mediaIndex) == Cursor(cols, k)
      invariant k < |media| ==> prev == ParseSequenceNumber(media[k])
      invariant sel == Selected(media[..k], cols[..k], row)
      invariant HoldsParity(buf[..], l, sel, length)
      invariant mask[..] == old(mask[..])
    {
      CursorReadsRow(cols, k, row);
      SelectedGrows(media, cols, row, k);
      if BitAt(mask[maskIndex], mediaIndex) {
        length := AddMedia(media[k], l, buf, sel, length);
        sel := sel + [media[k]];
      }
      maskIndex, mediaIndex, prev := MoveCursor(media, k, rowStart, maskIndex, mediaIndex, prev);
    }
    assert media[..|media|] == media && cols[..|media|] == cols;
  }

  lemma CursorStart(cols: seq<nat>)
    requires cols != [] && InOrder(cols, WRAP)
    ensures Cursor(cols, 0) == (0, 0)
  {
  }

  lemma EmptyHoldsNothing(b: seq<byte>, l: bool, media: seq<Packet>, cols: seq<nat>, row: seq<byte>)
    requires |b| == IP_PACKET_SIZE && forall i :: 0 <= i < IP_PACKET_SIZE ==> b[i] == 0
    requires |media| == |cols|
    ensures HoldsParity(b, l, [], 0) && Selected(media[..0], cols[..0], row) == []
  {
  }

  // The FEC packet f: parity b under a header that names its first sequence
  // number, its protection length and its mask row.
  ghost predicate HeaderWritten(b: seq<byte>, f: Packet, first: Packet, row: seq<byte>, l: bool, length: nat) {
    && |b| == IP_PACKET_SIZE && HeaderSize(l) <= length <= IP_PACKET_SIZE && |f| == length
    && |row| == MaskSize(l)
    && f[0] == (if l then (b[0] & 0x7f) | 0x40 else b[0] & 0x7f & 0xbf)
    && f[2] == At(first, 2) && f[3] == At(first, 3)
    && f[10] == Hi(length - HeaderSize(l)) && f[11] == Lo(length - HeaderSize(l))
    && (forall i :: 0 <= i < |row| ==> f[12 + i] == row[i])
    && (forall i :: i == 1 || 4 <= i < 10 || HeaderSize(l) <= i < length ==> f[i] == b[i])
  }

  lemma LBitIsL(b: byte, l: bool)
    ensures var c := if l then (b & 0x7f) | 0x40 else b & 0x7f & 0xbf;
      (c & 0x40 != 0 <==> l) && c & 0x3f == b & 0x3f
  {
  }

  // The header leaves the parity as it was, although E and L overwrite the version.
  lemma HeaderKeepsParity(b: seq<byte>, f: Packet, first: Packet, row: seq<byte>, l: bool, sel: seq<Packet>, length: nat)
    requires HoldsParity(b, l, sel, length) && HeaderWritten(b, f, first, row, l, length)
    ensures LBit(f) == l && Protects(f, sel)
  {
    hide Hi, Lo, U16;
    LBitIsL(b[0], l);
    U16RoundTrip(length - HeaderSize(l));
    assert ProtectionLength(f) == length - HeaderSize(l);
    forall j: nat
      ensures FecBitString(f, j) == Parity(sel, j)
    {
      assert BufferField(b, l, j) == Parity(sel, j);
    }
  }

  // GenerateFecUlpHeaders, one row.
  method GenerateFecUlpHeader(first: Packet, mask: array<byte>, rowStart: nat, l: bool, buf: array<byte>, length: nat)
    requires HeaderSize(l) <= length <= IP_PACKET_SIZE == buf.Length && buf != mask
    requires rowStart + MaskSize(l) <= mask.Length
    modifies buf
    ensures HeaderWritten(old(buf[..]), buf[..length], first, mask[rowStart..rowStart + MaskSize(l)], l, length)
  {
    hide Hi, Lo;
    buf[0] := buf[0] & 0x7f;
    if !l {
      buf[0] := buf[0] & 0xbf;
    } else {
      buf[0] := buf[0] | 0x40;
    }
    MemCpy(buf, 2, [At(first, 2), At(first, 3)]);
    var protection := length - HeaderSize(l);
    MemCpy(buf, 10, [Hi(protection), Lo(protection)]);
    MemCpy(buf, 12, mask[rowStart..rowStart + MaskSize(l)]);
  }
}
