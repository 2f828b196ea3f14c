// ForwardErrorCorrection::GenerateFEC, and the reading of a packet mask back from
// the wire: which sequence numbers an FEC packet says it protects.
module FecGenerator {
  import opened Bytes
  import opened SeqNum
  import opened ParityCode
  import opened FecEncoder
  import opened MaskExpansion
  import opened MaskTables

  // The mask bits of an FEC packet, and the sequence numbers that its first k
  // mask bits protect. The sum wraps naturally with the sequence number.

  predicate MaskBit(f: Packet, k: nat) { BitAt(At(f, 12 + k / 8), k % 8) }

  function ProtectedOffsets(f: Packet, k: nat): (offsets: seq<nat>)
    ensures forall i, j :: 0 <= i < j < |offsets| ==> offsets[i] < offsets[j]
    ensures forall i :: 0 <= i < |offsets| ==> offsets[i] < k
  {
    if k == 0 then [] else
      var rest := ProtectedOffsets(f, k - 1);
      if MaskBit(f, k - 1) then rest + [k - 1] else rest
  }

  function AtOffsets(base: u16, offsets: seq<nat>): (s: seq<u16>)
    ensures |s| == |offsets| && forall i :: 0 <= i < |s| ==> s[i] == (base + offsets[i]) % WRAP
  {
    seq(|offsets|, i requires 0 <= i < |offsets| => (base + offsets[i]) % WRAP)
  }

  function CoveredSeqs(f: Packet): seq<u16> {
    AtOffsets(ParseSequenceNumber(f), ProtectedOffsets(f, 8 * MaskSize(LBit(f))))
  }

  lemma LaterOffsetIsNewer(base: u16, o1: nat, o2: nat)
    requires o1 < o2 < HALF
    ensures IsNewer((base + o2) % WRAP, (base + o1) % WRAP)
  {
  }

  // The protected list is strictly ascending in circular order, also across 65535.
  lemma CoveredAscends(f: Packet)
    ensures Ascending(CoveredSeqs(f))
  {
    hide IsNewer, ProtectedOffsets;
    var base, offsets := ParseSequenceNumber(f), ProtectedOffsets(f, 8 * MaskSize(LBit(f)));
    forall i, j | 0 <= i < j < |offsets|
      ensures IsNewer(CoveredSeqs(f)[j], CoveredSeqs(f)[i])
    {
      LaterOffsetIsNewer(base, offsets[i], offsets[j]);
    }
  }

  function SeqNums(ps: seq<Packet>): (s: seq<u16>)
    ensures |s| == |ps| && forall i :: 0 <= i < |ps| ==> s[i] == ParseSequenceNumber(ps[i])
  {
    seq(|ps|, i requires 0 <= i < |ps| => ParseSequenceNumber(ps[i]))
  }

  // The columns that a row selects.
  function SelectedCols(cols: seq<nat>, row: seq<byte>): (sel: seq<nat>)
    ensures |sel| <= |cols|
  {
    if cols == [] then [] else
      var n := |cols| - 1;
      var sel := SelectedCols(cols[..n], row);
      if RowBit(row, cols[n]) then sel + [cols[n]] else sel
  }

  lemma ColumnBack(media: seq<Packet>, k: nat)
    requires k < |media|
    ensures (ParseSequenceNumber(media[0]) + Column(media, k)) % WRAP == ParseSequenceNumber(media[k])
  {
    hide ParseSequenceNumber;
  }

  lemma SeqNumsAppend(ps: seq<Packet>, m: Packet, base: u16, offsets: seq<nat>, c: nat)
    requires SeqNums(ps) == AtOffsets(base, offsets) && ParseSequenceNumber(m) == (base + c) % WRAP
    ensures SeqNums(ps + [m]) == AtOffsets(base, offsets + [c])
  {
    hide ParseSequenceNumber;
    assert SeqNums(ps + [m]) == SeqNums(ps) + [ParseSequenceNumber(m)];
  }

  lemma {:induction false} SelectedSeqNums(media: seq<Packet>, row: seq<byte>, k: nat)
    requires k <= |media| && media != []
    ensures SeqNums(Selected(media[..k], Columns(media)[..k], row))
         == AtOffsets(ParseSequenceNumber(media[0]), SelectedCols(Columns(media)[..k], row))
  {
    hide RowBit, ParseSequenceNumber, Column;
    if k > 0 {
      SelectedSeqNums(media, row, k - 1);
      SelectedGrows(media, Columns(media), row, k - 1);
      assert Columns(media)[..k][..k - 1] == Columns(media)[..k - 1];
      ColumnBack(media, k - 1);
      SeqNumsAppend(Selected(media[..k - 1], Columns(media)[..k - 1], row), media[k - 1],
                    ParseSequenceNumber(media[0]), SelectedCols(Columns(media)[..k - 1], row), Columns(media)[k - 1]);
    }
  }

  lemma NotAColumn(cols: seq<nat>, c: nat, p: nat)
    requires InOrder(cols, WRAP) && p <= |cols|
    requires (forall i :: 0 <= i < p ==> cols[i] <= c) && (p < |cols| ==> cols[p] > c)
    requires p > 0 ==> cols[p - 1] != c
    ensures c !in cols
  {
  }

  // The first k mask bits of an FEC packet name the selected ones of the first p
  // media packets, if those are the ones in the first k columns.
  lemma {:induction false} MaskNamesSelected(f: Packet, cols: seq<nat>, row: seq<byte>, k: nat, p: nat)
    requires p <= |cols| && InOrder(cols, WRAP)
    requires forall c: nat :: c < k ==> (MaskBit(f, c) <==> RowBit(row, c))
    requires forall c: nat :: RowBit(row, c) ==> c in cols
    requires (forall i :: 0 <= i < p ==> cols[i] < k) && (p < |cols| ==> cols[p] >= k)
    ensures ProtectedOffsets(f, k) == SelectedCols(cols[..p], row)
    decreases k
  {
    hide MaskBit, RowBit;
    if k == 0 {
      assert p == 0;
    } else if p > 0 && cols[p - 1] == k - 1 {
      MaskNamesSelected(f, cols, row, k - 1, p - 1);
      assert cols[..p][..p - 1] == cols[..p - 1];
    } else {
      NotAColumn(cols, k - 1, p);
      MaskNamesSelected(f, cols, row, k - 1, p);
    }
  }

  // The media packets whose bit is set in a row of the packet mask.
  function Protected(media: seq<Packet>, row: seq<byte>): seq<Packet> {
    Selected(media, seq(|media|, i => i), row)
  }

  // Expanding a row for gaps does not change which media packets it selects.
  lemma {:induction false} ExpansionSelectsSame(media: seq<Packet>, cols: seq<nat>, row: seq<byte>, expanded: seq<byte>, k: nat)
    requires k <= |media| == |cols| && InOrder(cols, WRAP) && RowExpanded(row, expanded, cols)
    ensures Selected(media[..k], cols[..k], expanded) == Selected(media[..k], seq(|media|, i => i)[..k], row)
  {
    hide RowBit;
    if k > 0 {
      ExpansionSelectsSame(media, cols, row, expanded, k - 1);
      SelectedGrows(media, cols, expanded, k - 1);
      SelectedGrows(media, seq(|media|, i => i), row, k - 1);
      assert RowBit(expanded, cols[k - 1]) <==> RowBit(row, k - 1);
    }
  }

  // f is the FEC packet for the media packets that the mask row selects: it carries
  // their parity, and what it says on the wire is exactly their sequence numbers.
  ghost predicate FecFor(f: Packet, media: seq<Packet>, row: seq<byte>)
    requires AllMediaSized(media)
  {
    var sel := Protected(media, row);
    sel != [] && Protects(f, sel) && CoveredSeqs(f) == SeqNums(sel)
  }

  lemma {:induction false} SomethingSelected(media: seq<Packet>, row: seq<byte>, c: nat, k: nat)
    requires c < k <= |media| && RowBit(row, c)
    ensures Selected(media[..k], seq(|media|, i => i)[..k], row) != []
  {
    hide RowBit;
    SelectedGrows(media, seq(|media|, i => i), row, k - 1);
    if c < k - 1 {
      SomethingSelected(media, row, c, k - 1);
    }
  }

  lemma RowSelectsSome(media: seq<Packet>, row: seq<byte>)
    requires Confined(row, |media|) && NonZero(row)
    ensures Protected(media, row) != []
  {
    hide RowBit;
    var c: nat :| RowBit(row, c);
    SomethingSelected(media, row, c, |media|);
    assert media[..|media|] == media && seq(|media|, i => i)[..|media|] == seq(|media|, i => i);
  }

  // Bit strings and headers for one row of the expanded mask.
  method GenerateOne(media: seq<Packet>, packetMask: array<byte>, rowStart: nat, l: bool, ghost row: seq<byte>) returns (f: Packet)
    requires media != [] && AllMediaSized(media) && AllFit(media, l)
    requires |row| == MaskSize(l) && rowStart + |row| <= packetMask.Length && packetMask[rowStart..rowStart + |row|] == row
    requires InOrder(Columns(media), 8 * |row|) && NoByteJumped(Columns(media))
    requires Selected(media, Columns(media), row) != []
    ensures LBit(f) == l && Protects(f, Selected(media, Columns(media), row))
    ensures ParseSequenceNumber(f) == ParseSequenceNumber(media[0])
    ensures forall c: nat :: c < 8 * |row| ==> (MaskBit(f, c) <==> RowBit(row, c))
  {
    hide Xor, NatOf, ByteOf, BitAt, Columns, Column, Selected, Parity, Cursor;
    var buf := new byte[IP_PACKET_SIZE](_ => 0);
    var length := GenerateFecBitString(media, packetMask, rowStart, row, l, buf);
    ghost var sel, parity := Selected(media, Columns(media), row), buf[..];
    assert length != 0;
    SelectedFit(media, Columns(media), row, l);
    MaxPayloadFits(sel, l);
    GenerateFecUlpHeader(media[0], packetMask, rowStart, l, buf, length);
    f := buf[..length];
    HeaderKeepsParity(parity, f, media[0], row, l, sel, length);
  }

  lemma {:induction false} SelectedFit(media: seq<Packet>, cols: seq<nat>, row: seq<byte>, l: bool)
    requires |media| == |cols| && AllMediaSized(media) && AllFit(media, l)
    ensures AllFit(Selected(media, cols, row), l)
  {
    hide RowBit;
    if media != [] {
      SelectedFit(media[..|media| - 1], cols[..|media| - 1], row, l);
    }
  }

  lemma MaxPayloadFits(ps: seq<Packet>, l: bool)
    requires AllMediaSized(ps) && AllFit(ps, l)
    ensures HeaderSize(l) + MaxPayload(ps) <= IP_PACKET_SIZE
  {
    hide MaxPayload;
  }

  // What the encoder needs of the media packets: sizes that leave room for the FEC
  // headers, and sequence numbers in order, spanning at most 48, whose gaps do not
  // jump over a byte boundary of the mask.
  ghost predicate Encodable(media: seq<Packet>) {
    && AllMediaSized(media) && AllFit(media, LargeMask(Span(media)))
    && InOrder(Columns(media), MAX_MEDIA_PACKETS) && NoByteJumped(Columns(media))
  }

  predicate LongEnough(media: seq<Packet>) { forall k :: 0 <= k < |media| ==> |media[k]| >= RTP_HEADER_SIZE }

  // A row of the packet mask protects some packet, and none past the given columns.
  ghost predicate GoodRow(row: seq<byte>, columns: nat) { Confined(row, columns) && NonZero(row) }

  method GenerateRow(media: seq<Packet>, packetMask: array<byte>, rows: nat, r: nat, l: bool, ghost original: seq<byte>) returns (f: Packet)
    requires media != [] && Encodable(media) && l == LargeMask(Span(media)) && r < rows && rows * MaskSize(l) <= packetMask.Length
    requires GoodRow(original, |media|) && RowExpanded(original, RowOf(packetMask[..], MaskSize(l), rows, r), Columns(media))
    ensures FecFor(f, media, original)
  {
    hide RowBit, MaskBit, ParseSequenceNumber, Column, Selected, Protects, NoByteJumped;
    ghost var cols, row := Columns(media), RowOf(packetMask[..], MaskSize(l), rows, r);
    MatrixFits(rows, MaskSize(l), packetMask.Length);
    var rowStart := Cell(r, MaskSize(l), 0);
    assert rowStart + MaskSize(l) - 1 == Cell(r, MaskSize(l), MaskSize(l) - 1) < packetMask.Length;
    assert packetMask[rowStart..rowStart + |row|] == row by {
      assert forall q :: 0 <= q < |row| ==> Cell(r, MaskSize(l), q) == rowStart + q;
    }
    ExpansionSelectsSame(media, cols, original, row, |media|);
    assert media[..|media|] == media && cols[..|media|] == cols && seq(|media|, i => i)[..|media|] == seq(|media|, i => i);
    RowSelectsSome(media, original);
    assert InOrder(cols, 8 * |row|) by {
      forall i | 0 <= i < |cols|
        ensures cols[i] < Span(media)
      {
        if i < |cols| - 1 {
          assert cols[i] < cols[|cols| - 1];
        }
      }
    }
    f := GenerateOne(media, packetMask, rowStart, l, row);
    MaskNamesSelected(f, cols, row, 8 * |row|, |cols|);
    SelectedSeqNums(media, row, |media|);
  }

  // The packet mask, one row for each FEC packet, expanded for gaps in the sequence.
  method MakeMasks(media: seq<Packet>, fec: nat, important: nat, unequal: bool, table: MaskTable)
    returns (packetMask: array<byte>, l: bool, ghost rows: seq<seq<byte>>)
    requires 0 < |media| <= MAX_MEDIA_PACKETS && important <= |media| && 0 < fec <= |media|
    requires InOrder(Columns(media), MAX_MEDIA_PACKETS) && ValidTable(table)
    ensures fresh(packetMask) && l == LargeMask(Span(media)) && fec * MaskSize(l) <= packetMask.Length
    ensures |rows| == fec && forall r :: 0 <= r < fec ==>
      GoodRow(rows[r], |media|) && RowExpanded(rows[r], RowOf(packetMask[..], MaskSize(l), fec, r), Columns(media))
    ensures var t := ImportantRows(|media|, fec, important, unequal);
      && (forall r :: 0 <= r < t ==> GoodRow(rows[r], important))
      && (forall r :: 0 <= r < fec ==> SameBits(rows[r], MaskRow(table, |media|, fec, important, t, r)))
  {
    hide RowBit, ParseSequenceNumber, Columns, RowExpanded, RowOf;
    var bytes := MaskSize(LargeMask(|media|));
    packetMask := new byte[fec * MASK_SIZE_L_BIT_SET](_ => 0);
    assert fec * bytes <= packetMask.Length;
    GeneratePacketMasks(|media|, fec, important, unequal, table, packetMask);
    rows := RowsOf(packetMask[..], bytes, fec);
    assert forall r :: 0 <= r < fec ==> GoodRow(rows[r], |media|);
    assert forall r :: 0 <= r < ImportantRows(|media|, fec, important, unequal) ==> GoodRow(rows[r], important);
    hide MaskRow, SameBits, ImportantRows;
    var bits := InsertZerosInBitMasks(media, packetMask, bytes, fec);
    l := LargeMask(bits);
  }

  method GenerateRows(media: seq<Packet>, packetMask: array<byte>, fec: nat, l: bool, ghost rows: seq<seq<byte>>) returns (fecs: seq<Packet>)
    requires media != [] && Encodable(media) && l == LargeMask(Span(media)) && fec * MaskSize(l) <= packetMask.Length
    requires |rows| == fec && forall r :: 0 <= r < fec ==>
      GoodRow(rows[r], |media|) && RowExpanded(rows[r], RowOf(packetMask[..], MaskSize(l), fec, r), Columns(media))
    ensures |fecs| == fec && forall r :: 0 <= r < fec ==> FecFor(fecs[r], media, rows[r])
  {
    hide FecFor, GoodRow, RowExpanded, RowOf, InOrder, NoByteJumped, AllFit, Column;
    fecs := [];
    ghost var mask := packetMask[..];
    for i := 0 to fec
      invariant |fecs| == i && packetMask[..] == mask
      invariant forall r :: 0 <= r < i ==> FecFor(fecs[r], media, rows[r])
    {
      var f := GenerateRow(media, packetMask, fec, i, l, rows[i]);
      fecs := fecs + [f];
    }
  }

  // Every media packet is among those that some row protects.
  ghost predicate AllProtected(media: seq<Packet>, rows: seq<seq<byte>>) {
    forall k :: 0 <= k < |media| ==> SomeProtects(media, rows, media[k])
  }

  ghost predicate SomeProtects(media: seq<Packet>, rows: seq<seq<byte>>, m: Packet) {
    exists i :: 0 <= i < |rows| && m in Protected(media, rows[i])
  }

  lemma {:induction false} SelectedHas(media: seq<Packet>, row: seq<byte>, k: nat, n: nat)
    requires k < n <= |media| && RowBit(row, k)
    ensures media[k] in Selected(media[..n], seq(|media|, i => i)[..n], row)
  {
    hide RowBit;
    SelectedGrows(media, seq(|media|, i => i), row, n - 1);
    if k < n - 1 {
      SelectedHas(media, row, k, n - 1);
    }
  }

  lemma RowsProtectAll(media: seq<Packet>, rows: seq<seq<byte>>, table: MaskTable, important: nat, t: nat)
    requires ValidTable(table) && |rows| <= |media| <= MAX_MEDIA_PACKETS && t <= important <= |media| && t < |rows|
    requires forall i :: 0 <= i < |rows| ==> SameBits(rows[i], MaskRow(table, |media|, |rows|, important, t, i))
    ensures AllProtected(media, rows)
  {
    hide RowBit, MaskRow, Selected;
    assert media[..|media|] == media && seq(|media|, i => i)[..|media|] == seq(|media|, i => i);
    forall k | 0 <= k < |media|
      ensures SomeProtects(media, rows, media[k])
    {
      EveryColumnProtected(table, |media|, |rows|, important, t, k);
      var i :| 0 <= i < |rows| && RowBit(MaskRow(table, |media|, |rows|, important, t, i), k);
      assert SameBits(rows[i], MaskRow(table, |media|, |rows|, important, t, i)) && RowBit(rows[i], k);
      SelectedHas(media, rows[i], k, |media|);
    }
  }

  method GenerateFEC(media: seq<Packet>, protectionFactor: nat, important: nat, unequal: bool, table: MaskTable)
    returns (code: int, fecs: seq<Packet>, ghost rows: seq<seq<byte>>)
    requires media != [] && important <= |media| && protectionFactor < 256 && ValidTable(table)
    requires |media| <= MAX_MEDIA_PACKETS && LongEnough(media) ==> Encodable(media)
    ensures code == if |media| <= MAX_MEDIA_PACKETS && LongEnough(media) then 0 else -1
    ensures code == -1 ==> fecs == []
    ensures code == 0 ==> |fecs| == |rows| <= |media| && RoundedShare(|fecs|, |media|, protectionFactor)
    ensures code == 0 ==> AllMediaSized(media) && forall i :: 0 <= i < |fecs| ==>
      GoodRow(rows[i], |media|) && FecFor(fecs[i], media, rows[i])
    ensures code == 0 && fecs != [] ==>
      var t := ImportantRows(|media|, |fecs|, important, unequal);
      && (forall i :: 0 <= i < t ==> GoodRow(rows[i], important))
      && (forall i :: 0 <= i < |fecs| ==> SameBits(rows[i], MaskRow(table, |media|, |fecs|, important, t, i)))
    ensures code == 0 && fecs != [] ==> AllProtected(media, rows)
  {
    fecs, rows := [], [];
    if |media| > MAX_MEDIA_PACKETS {
      return -1, fecs, rows;
    }
    for k := 0 to |media|
      invariant forall i :: 0 <= i < k ==> |media[i]| >= RTP_HEADER_SIZE
    {
      if |media[k]| < RTP_HEADER_SIZE {
        return -1, fecs, rows;
      }
    }
    var numFec := NumberOfFecPackets(|media|, protectionFactor);
    FecPacketsAtMostMedia(|media|, protectionFactor);
    FecPacketsRounded(|media|, protectionFactor);
    if numFec == 0 {
      return 0, fecs, rows;
    }
    var packetMask, l;
    packetMask, l, rows := MakeMasks(media, numFec, important, unequal, table);
    hide FecFor, GoodRow, RowExpanded, RowOf, MaskRow, SameBits;
    fecs := GenerateRows(media, packetMask, numFec, l, rows);
    RowsProtectAll(media, rows, table, important, ImportantRows(|media|, numFec, important, unequal));
    code := 0;
  }
}
