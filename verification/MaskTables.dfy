// Building the packet masks from the mask tables: equal protection takes a table
// entry as it is, unequal protection stacks two of them.
module MaskTables {
  import opened Bytes
  import opened ParityCode
  import opened Buffers
  import opened FecEncoder
  import opened MaskExpansion

  // Entry [a - 1][b - 1] is the flat mask of b FEC packets over a media packets.
  // The tables themselves are a parameter.
  type MaskTable = seq<seq<seq<byte>>>

  predicate LargeMask(media: nat) { media > 8 * MASK_SIZE_L_BIT_CLEAR }

  ghost predicate NonZero(row: seq<byte>) { exists c: nat :: RowBit(row, c) }

  // What the tables promise: every row protects some packet, and only existing ones, and
  // every packet is protected by some row.
  ghost predicate ValidEntry(entry: seq<byte>, a: nat, b: nat) {
    && |entry| == b * MaskSize(LargeMask(a))
    && (forall r :: 0 <= r < b ==>
          Confined(RowOf(entry, MaskSize(LargeMask(a)), b, r), a) && NonZero(RowOf(entry, MaskSize(LargeMask(a)), b, r)))
    && (forall c :: 0 <= c < a ==> SomeRowHas(entry, MaskSize(LargeMask(a)), b, c))
  }

  ghost predicate SomeRowHas(entry: seq<byte>, bytes: nat, b: nat, c: nat)
    requires b * bytes <= |entry|
  {
    exists r :: 0 <= r < b && RowBit(RowOf(entry, bytes, b, r), c)
  }

  ghost predicate HasEntry(table: MaskTable, a: nat, b: nat) {
    1 <= b <= a <= |table| && b <= |table[a - 1]| && ValidEntry(table[a - 1][b - 1], a, b)
  }

  ghost predicate ValidTable(table: MaskTable) {
    |table| == MAX_MEDIA_PACKETS && forall a, b :: 1 <= b <= a <= |table| ==> HasEntry(table, a, b)
  }

  // GetNumberOfFecPackets: a rounded fraction, and at least one if protection is asked for.
  function NumberOfFecPackets(media: nat, protectionFactor: nat): nat {
    var n := (media * protectionFactor + 128) / 256;
    if protectionFactor > 0 && n == 0 then 1 else n
  }

  // n is the nearest number to media * protectionFactor / 256, but at least one if any
  // protection is asked for.
  ghost predicate RoundedShare(n: nat, media: nat, protectionFactor: nat) {
    if 0 < media * protectionFactor < 128 then n == 1
    else 256 * n - 128 <= media * protectionFactor < 256 * n + 128
  }

  // With an 8-bit protection factor the number of FEC packets never exceeds the
  // number of media packets, and none are made exactly when none are asked for.
  lemma FecPacketsAtMostMedia(media: nat, protectionFactor: nat)
    requires media > 0 && protectionFactor < 256
    ensures NumberOfFecPackets(media, protectionFactor) <= media
    ensures NumberOfFecPackets(media, protectionFactor) == 0 <==> protectionFactor == 0
  {
    var n := (media * protectionFactor + 128) / 256;
    assert media * protectionFactor <= media * 255;
    assert 256 * n < 256 * (media + 1);
  }

  // SetProtectionAllocation: FEC packets set aside for the important packets. The
  // float 0.5 times the number of FEC packets is truncated to an int.
  function ProtectionAllocation(media: nat, fec: nat, important: nat): nat {
    var most := fec / 2;
    var n := if important < most then important else most;
    if fec == 1 && media > 2 * important then 0 else n
  }

  lemma FecPacketsRounded(media: nat, protectionFactor: nat)
    requires media > 0
    ensures RoundedShare(NumberOfFecPackets(media, protectionFactor), media, protectionFactor)
  {
    var total := media * protectionFactor;
    assert protectionFactor > 0 ==> total > 0;
    assert var n := (total + 128) / 256; 256 * n <= total + 128 < 256 * n + 256;
  }

  // The rows that go to the important packets alone: none without unequal protection, and
  // otherwise as many as there are important packets, but at most half of all rows.
  function ImportantRows(media: nat, fec: nat, important: nat, unequal: bool): (t: nat)
    ensures t <= important && 2 * t <= fec
    ensures if unequal then t == important || 2 * t + 1 >= fec else t == 0
  {
    if unequal && important > 0 then ProtectionAllocation(media, fec, important) else 0
  }

  // Two rows with the same bits, the shorter one continued with zeros.
  ghost predicate SameBits(row: seq<byte>, row': seq<byte>) { forall c: nat :: RowBit(row, c) == RowBit(row', c) }

  function TableRow(table: MaskTable, a: nat, b: nat, r: nat): seq<byte>
    requires HasEntry(table, a, b) && r < b
  {
    RowOf(table[a - 1][b - 1], MaskSize(LargeMask(a)), b, r)
  }

  // The table row that row r of a packet mask is made of: the first t rows are those for
  // the important packets, the others those for all media packets.
  function MaskRow(table: MaskTable, media: nat, fec: nat, important: nat, t: nat, r: nat): seq<byte>
    requires ValidTable(table) && fec <= media <= MAX_MEDIA_PACKETS && t <= important <= media && t < fec && r < fec
  {
    if r < t then assert HasEntry(table, important, t); TableRow(table, important, t, r)
    else assert HasEntry(table, media, fec - t); TableRow(table, media, fec - t, r - t)
  }

  // Every media packet is protected by some row.
  lemma EveryColumnProtected(table: MaskTable, media: nat, fec: nat, important: nat, t: nat, c: nat)
    requires ValidTable(table) && fec <= media <= MAX_MEDIA_PACKETS && t <= important <= media && t < fec && c < media
    ensures exists r :: 0 <= r < fec && RowBit(MaskRow(table, media, fec, important, t, r), c)
  {
    hide RowBit, RowOf;
    assert HasEntry(table, media, fec - t);
    var entry, bytes := table[media - 1][fec - t - 1], MaskSize(LargeMask(media));
    assert SomeRowHas(entry, bytes, fec - t, c);
    var r :| 0 <= r < fec - t && RowBit(RowOf(entry, bytes, fec - t, r), c);
    assert MaskRow(table, media, fec, important, t, t + r) == TableRow(table, media, fec - t, r);
  }

  lemma CellsFrom(first: nat, r: nat, bytes: nat, q: nat)
    ensures Cell(first + r, bytes, q) == first * bytes + Cell(r, bytes, q)
  {
  }

  lemma CellBefore(r: nat, first: nat, bytes: nat, q: nat)
    requires r < first && q < bytes
    ensures Cell(r, bytes, q) < first * bytes
  {
    assert (r + 1) * bytes <= first * bytes;
  }

  lemma CellAfter(r: nat, end: nat, bytes: nat, q: nat)
    requires r >= end
    ensures Cell(r, bytes, q) >= end * bytes
  {
    assert end * bytes <= r * bytes;
  }

  // The matrix after rows of a sub-mask have been fitted in from row first on.
  ghost predicate Fitted(was: seq<byte>, now: seq<byte>, bytes: nat, all: nat, sub: seq<byte>, subBytes: nat, rows: nat, first: nat)
    requires Fits(all, bytes, |was|) && |was| == |now| && Fits(rows, subBytes, |sub|)
  {
    forall r, q :: 0 <= r < all && 0 <= q < bytes ==>
      now[Cell(r, bytes, q)] ==
        if first <= r < first + rows && q < subBytes then sub[Cell(r - first, subBytes, q)] else was[Cell(r, bytes, q)]
  }

  // memcpy of a whole sub-mask with rows of the same size.
  method FitByCopy(bytes: nat, rows: nat, sub: seq<byte>, packetMask: array<byte>, first: nat, ghost all: nat)
    requires |sub| == rows * bytes && first + rows <= all && all * bytes <= packetMask.Length
    requires Fits(all, bytes, packetMask.Length) && Fits(rows, bytes, |sub|)
    modifies packetMask
    ensures Fitted(old(packetMask[..]), packetMask[..], bytes, all, sub, bytes, rows, first)
  {
    assert first * bytes + rows * bytes == (first + rows) * bytes <= all * bytes;
    MemCpy(packetMask, first * bytes, sub);
    ghost var start, end := first * bytes, (first + rows) * bytes;
    assert start + |sub| == end;
    forall r, q | 0 <= r < all && 0 <= q < bytes
      ensures packetMask[Cell(r, bytes, q)] ==
        if first <= r < first + rows && q < bytes then sub[Cell(r - first, bytes, q)] else old(packetMask[Cell(r, bytes, q)])
    {
      hide Cell;
      if r < first {
        CellBefore(r, first, bytes, q);
      } else if r < first + rows {
        CellsFrom(first, r - first, bytes, q);
        assert Cell(r - first, bytes, q) < |sub|;
      } else {
        CellAfter(r, first + rows, bytes, q);
      }
    }
  }

  // FitSubMask, writing from row first of the output mask on.
  method FitSubMask(bytes: nat, subBytes: nat, rows: nat, sub: seq<byte>, packetMask: array<byte>, first: nat, ghost all: nat)
    requires subBytes <= bytes && |sub| == rows * subBytes && first + rows <= all && all * bytes <= packetMask.Length
    requires Fits(all, bytes, packetMask.Length) && Fits(rows, subBytes, |sub|)
    modifies packetMask
    ensures Fitted(old(packetMask[..]), packetMask[..], bytes, all, sub, subBytes, rows, first)
  {
    if bytes == subBytes {
      FitByCopy(bytes, rows, sub, packetMask, first, all);
    } else {
      CellsDistinct(bytes);
      hide Cell;
      for i := 0 to rows
        invariant Fitted(old(packetMask[..]), packetMask[..], bytes, all, sub, subBytes, i, first)
      {
        for j := 0 to subBytes
          invariant forall r, q :: 0 <= r < all && 0 <= q < bytes ==>
            packetMask[Cell(r, bytes, q)] ==
              if first <= r && q < subBytes && (r < first + i || (r == first + i && q < j))
              then sub[Cell(r - first, subBytes, q)] else old(packetMask[Cell(r, bytes, q)])
        {
          packetMask[Cell(first + i, bytes, j)] := sub[Cell(i, subBytes, j)];
        }
      }
    }
  }

  // A fitted row has the bits of the sub-mask row, if the rest of it was clear.
  lemma FittedRow(was: seq<byte>, now: seq<byte>, bytes: nat, all: nat, sub: seq<byte>, subBytes: nat, rows: nat, first: nat, r: nat)
    requires all * bytes <= |was| == |now| && |sub| == rows * subBytes && subBytes <= bytes
    requires Fits(all, bytes, |was|) && Fits(rows, subBytes, |sub|)
    requires Fitted(was, now, bytes, all, sub, subBytes, rows, first)
    requires first <= r < first + rows <= all
    requires forall q :: 0 <= q < bytes ==> was[Cell(r, bytes, q)] == 0
    ensures forall c: nat :: RowBit(RowOf(now, bytes, all, r), c) == RowBit(RowOf(sub, subBytes, rows, r - first), c)
  {
    hide BitAt, Cell;
  }

  // Rows from_ to to of the mask each protect some packet, and none past the given columns.
  ghost predicate GoodRows(mask: seq<byte>, bytes: nat, all: nat, from_: nat, to: nat, columns: nat)
    requires to <= all && all * bytes <= |mask|
  {
    forall r :: from_ <= r < to ==> Confined(RowOf(mask, bytes, all, r), columns) && NonZero(RowOf(mask, bytes, all, r))
  }

  // Rows first to first + rows of the mask are the rows of a table entry.
  ghost predicate TakenFrom(mask: seq<byte>, bytes: nat, all: nat, first: nat, table: MaskTable, a: nat, rows: nat)
    requires HasEntry(table, a, rows) && first + rows <= all && all * bytes <= |mask|
  {
    forall r :: first <= r < first + rows ==> SameBits(RowOf(mask, bytes, all, r), TableRow(table, a, rows, r - first))
  }

  // The rows fitted in from a table entry are good, and the other rows stay as they were.
  lemma FittedRowsGood(was: seq<byte>, now: seq<byte>, bytes: nat, all: nat, entry: seq<byte>, a: nat, rows: nat, first: nat)
    requires all * bytes <= |was| == |now| && MaskSize(LargeMask(a)) <= bytes && ValidEntry(entry, a, rows)
    requires Fits(all, bytes, |was|) && Fits(rows, MaskSize(LargeMask(a)), |entry|) && first + rows <= all
    requires Fitted(was, now, bytes, all, entry, MaskSize(LargeMask(a)), rows, first)
    requires forall r, q :: first <= r < first + rows && 0 <= q < bytes ==> was[Cell(r, bytes, q)] == 0
    ensures GoodRows(now, bytes, all, first, first + rows, a)
    ensures forall r :: 0 <= r < all && !(first <= r < first + rows) ==> RowOf(now, bytes, all, r) == RowOf(was, bytes, all, r)
  {
    hide RowBit, Cell;
    var subBytes := MaskSize(LargeMask(a));
    forall r | first <= r < first + rows
      ensures Confined(RowOf(now, bytes, all, r), a) && NonZero(RowOf(now, bytes, all, r))
    {
      FittedRow(was, now, bytes, all, entry, subBytes, rows, first, r);
      var c: nat :| RowBit(RowOf(entry, subBytes, rows, r - first), c);
      assert RowBit(RowOf(now, bytes, all, r), c);
    }
  }

  // FitSubMask applied to a table entry.
  method FitEntry(table: MaskTable, a: nat, rows: nat, bytes: nat, packetMask: array<byte>, first: nat, ghost all: nat)
    requires HasEntry(table, a, rows) && MaskSize(LargeMask(a)) <= bytes && first + rows <= all && all * bytes <= packetMask.Length
    requires Fits(all, bytes, packetMask.Length)
    requires forall r, q :: first <= r < all && 0 <= q < bytes ==> packetMask[Cell(r, bytes, q)] == 0
    modifies packetMask
    ensures GoodRows(packetMask[..], bytes, all, first, first + rows, a)
    ensures TakenFrom(packetMask[..], bytes, all, first, table, a, rows)
    ensures forall r :: 0 <= r < first ==> RowOf(packetMask[..], bytes, all, r) == RowOf(old(packetMask[..]), bytes, all, r)
    ensures forall r, q :: first + rows <= r < all && 0 <= q < bytes ==> packetMask[Cell(r, bytes, q)] == 0
  {
    MatrixFits(rows, MaskSize(LargeMask(a)), |table[a - 1][rows - 1]|);
    hide RowBit, Cell;
    ghost var was := packetMask[..];
    FitSubMask(bytes, MaskSize(LargeMask(a)), rows, table[a - 1][rows - 1], packetMask, first, all);
    FittedRowsGood(was, packetMask[..], bytes, all, table[a - 1][rows - 1], a, rows, first);
    forall r | first <= r < first + rows
      ensures SameBits(RowOf(packetMask[..], bytes, all, r), TableRow(table, a, rows, r - first))
    {
      FittedRow(was, packetMask[..], bytes, all, table[a - 1][rows - 1], MaskSize(LargeMask(a)), rows, first, r);
    }
  }

  // Every row of the mask has the bits of the table row that it is to be made of.
  ghost predicate MaskTaken(mask: seq<byte>, bytes: nat, table: MaskTable, media: nat, fec: nat, important: nat, t: nat)
    requires ValidTable(table) && fec <= media <= MAX_MEDIA_PACKETS && t <= important <= media && t < fec
    requires fec * bytes <= |mask|
  {
    forall r :: 0 <= r < fec ==> SameBits(RowOf(mask, bytes, fec, r), MaskRow(table, media, fec, important, t, r))
  }

  // The rows for the important packets with the others below them.
  lemma Stacked(mid: seq<byte>, now: seq<byte>, bytes: nat, table: MaskTable, media: nat, fec: nat, important: nat, t: nat)
    requires ValidTable(table) && fec <= media <= MAX_MEDIA_PACKETS && t <= important <= media && t < fec
    requires fec * bytes <= |mid| == |now|
    requires t > 0 ==> HasEntry(table, important, t) && TakenFrom(mid, bytes, fec, 0, table, important, t) && GoodRows(mid, bytes, fec, 0, t, important)
    requires forall r :: 0 <= r < t ==> RowOf(now, bytes, fec, r) == RowOf(mid, bytes, fec, r)
    requires HasEntry(table, media, fec - t) && TakenFrom(now, bytes, fec, t, table, media, fec - t) && GoodRows(now, bytes, fec, t, fec, media)
    ensures MaskTaken(now, bytes, table, media, fec, important, t)
    ensures GoodRows(now, bytes, fec, 0, fec, media) && GoodRows(now, bytes, fec, 0, t, important)
  {
    hide RowBit, SameBits, TableRow, RowOf, NonZero;
  }

  // UnequalProtectionMask, with the protection mode it always selects (overlap).
  method UnequalProtectionMask(media: nat, fec: nat, important: nat, bytes: nat, packetMask: array<byte>, table: MaskTable)
    requires ValidTable(table) && 0 < fec <= media <= MAX_MEDIA_PACKETS && 0 < important <= media
    requires bytes == MaskSize(LargeMask(media)) && fec * bytes <= packetMask.Length
    requires forall i :: 0 <= i < fec * bytes ==> packetMask[i] == 0
    modifies packetMask
    ensures GoodRows(packetMask[..], bytes, fec, 0, fec, media)
    ensures GoodRows(packetMask[..], bytes, fec, 0, ProtectionAllocation(media, fec, important), important)
    ensures MaskTaken(packetMask[..], bytes, table, media, fec, important, ProtectionAllocation(media, fec, important))
  {
    var fecForImportant := ProtectionAllocation(media, fec, important);
    var remaining := fec - fecForImportant;
    MatrixFits(fec, bytes, fec * bytes);
    assert Fits(fec, bytes, packetMask.Length) && forall r, q :: 0 <= r < fec && 0 <= q < bytes ==> packetMask[Cell(r, bytes, q)] == 0;
    assert fecForImportant > 0 ==> HasEntry(table, important, fecForImportant);
    assert HasEntry(table, media, remaining);
    hide *;
    if fecForImportant > 0 {
      FitEntry(table, important, fecForImportant, bytes, packetMask, 0, fec);
    }
    ghost var mid := packetMask[..];
    if remaining > 0 {
      FitEntry(table, media, remaining, bytes, packetMask, fecForImportant, fec);
    }
    Stacked(mid, packetMask[..], bytes, table, media, fec, important, fecForImportant);
  }

  // GeneratePacketMasks: the rows are those of the tables, so every row protects some
  // packet, and only existing ones; the rows set aside for important packets protect only
  // those.
  method GeneratePacketMasks(media: nat, fec: nat, important: nat, unequal: bool, table: MaskTable, packetMask: array<byte>)
    requires ValidTable(table) && 0 < fec <= media <= MAX_MEDIA_PACKETS && important <= media
    requires fec * MaskSize(LargeMask(media)) <= packetMask.Length
    requires forall i :: 0 <= i < fec * MaskSize(LargeMask(media)) ==> packetMask[i] == 0
    modifies packetMask
    ensures GoodRows(packetMask[..], MaskSize(LargeMask(media)), fec, 0, fec, media)
    ensures GoodRows(packetMask[..], MaskSize(LargeMask(media)), fec, 0, ImportantRows(media, fec, important, unequal), important)
    ensures MaskTaken(packetMask[..], MaskSize(LargeMask(media)), table, media, fec, important, ImportantRows(media, fec, important, unequal))
  {
    var bytes := MaskSize(LargeMask(media));
    if !unequal || important == 0 {
      MatrixFits(fec, bytes, fec * bytes);
      assert Fits(fec, bytes, packetMask.Length) && forall r, q :: 0 <= r < fec && 0 <= q < bytes ==> packetMask[Cell(r, bytes, q)] == 0;
      assert HasEntry(table, media, fec);
      hide RowBit, Cell, SameBits, TableRow;
      FitEntry(table, media, fec, bytes, packetMask, 0, fec);
    } else {
      UnequalProtectionMask(media, fec, important, bytes, packetMask, table);
    }
  }
}
