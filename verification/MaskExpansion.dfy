// ForwardErrorCorrection::InsertZerosInBitMasks: the packet mask, a matrix with
// one row of mask bytes per FEC packet, is expanded in place so that sequence
// numbers missing from the media list get zero columns.
module MaskExpansion {
  import opened Bytes
  import opened SeqNum
  import opened ParityCode
  import opened Buffers
  import opened FecEncoder

  // Byte q of row r of a flat matrix with the given number of bytes per row.
  function Cell(r: nat, stride: nat, q: nat): nat { r * stride + q }

  // A matrix with that many rows fits into an array of that size.
  ghost predicate Fits(rows: nat, stride: nat, size: nat) {
    forall r, q :: 0 <= r < rows && 0 <= q < stride ==> Cell(r, stride, q) < size
  }

  lemma MatrixFits(rows: nat, stride: nat, size: nat)
    requires rows * stride <= size
    ensures Fits(rows, stride, size)
  {
    forall r, q | 0 <= r < rows && 0 <= q < stride
      ensures Cell(r, stride, q) < size
    {
      assert (r + 1) * stride <= rows * stride;
    }
  }

  ghost predicate Injective(stride: nat) {
    forall r1: nat, q1: nat, r2: nat, q2: nat :: q1 < stride && q2 < stride && (r1 != r2 || q1 != q2) ==>
      Cell(r1, stride, q1) != Cell(r2, stride, q2)
  }

  lemma CellsDistinct(stride: nat)
    ensures Injective(stride)
  {
    forall r1: nat, q1: nat, r2: nat, q2: nat | q1 < stride && q2 < stride && (r1 != r2 || q1 != q2)
      ensures Cell(r1, stride, q1) != Cell(r2, stride, q2)
    {
      if r1 < r2 {
        assert (r1 + 1) * stride <= r2 * stride;
      } else if r2 < r1 {
        assert (r2 + 1) * stride <= r1 * stride;
      }
    }
  }

  // b << n
  function ShiftLeft(b: byte, n: nat): byte
    decreases n
  {
    if n == 0 then b else ShiftLeft(b << 1, n - 1)
  }

  lemma {:induction false} BitAtShiftLeft(b: byte, n: nat, i: nat)
    requires i < 8
    ensures BitAt(ShiftLeft(b, n), i) <==> i + n < 8 && BitAt(b, i + n)
    decreases n
  {
    hide BitAt;
    if n > 0 {
      BitAtShiftLeft(b << 1, n - 1, i);
      if i + n - 1 < 8 {
        BitAtShift(b, i + n - 1);
      }
    }
  }

  // The cell of a new row after one more column: the first bit of the old byte
  // is appended, and there is room for another one unless the byte is full.
  function PushBit(b: byte, o: byte, position: nat): byte {
    var c := b | ((o & 0x80) >> 7);
    if position != 7 then c << 1 else c
  }

  // How many columns of byte q lie before column k.
  function ColumnsIn(q: nat, k: nat): nat {
    if k <= 8 * q then 0 else if k >= 8 * q + 8 then 8 else k - 8 * q
  }

  // Byte q of a new row when the first k columns of target have been put in. A
  // byte that is not full has its columns shifted up to bit 6, and bit 7 clear.
  ghost predicate Filled(b: byte, target: seq<bool>, q: nat, k: nat)
    requires k <= |target|
  {
    var n := ColumnsIn(q, k);
    var start := if n == 8 then 0 else 7 - n;
    forall i :: 0 <= i < 8 ==> (BitAt(b, i) <==> start <= i < start + n && target[8 * q + i - start])
  }

  // Byte q of an old row whose first j columns have been shifted out.
  ghost predicate ShiftedOut(b: byte, original: byte, q: nat, j: nat) {
    var n := ColumnsIn(q, j);
    forall i :: 0 <= i < 8 ==> (BitAt(b, i) <==> i + n < 8 && BitAt(original, i + n))
  }

  lemma PushBitBits(b: byte, o: byte, position: nat, i: nat)
    requires i < 8
    ensures BitAt(PushBit(b, o, position), i) <==>
      if position == 7 then BitAt(b, i) || (i == 7 && BitAt(o, 0))
      else i < 7 && (BitAt(b, i + 1) || (i == 6 && BitAt(o, 0)))
  {
    hide BitAt;
    var c := b | ((o & 0x80) >> 7);
    BitAtOrLast(b, o, i);
    BitAtShift(c, i);
    if i < 7 {
      BitAtOrLast(b, o, i + 1);
    }
  }

  lemma PushFills(b: byte, o: byte, target: seq<bool>, q: nat, k: nat)
    requires k < |target| && q == k / 8 && Filled(b, target, q, k)
    requires BitAt(o, 0) == target[k]
    ensures Filled(PushBit(b, o, k % 8), target, q, k + 1)
  {
    hide BitAt, PushBit;
    var d, n := PushBit(b, o, k % 8), k % 8;
    assert ColumnsIn(q, k) == n && ColumnsIn(q, k + 1) == n + 1 && k == 8 * q + n;
    forall i | 0 <= i < 8
      ensures BitAt(d, i) <==>
        (if n == 7 then target[8 * q + i] else 6 - n <= i < 7 && target[8 * q + i - (6 - n)])
    {
      PushBitBits(b, o, n, i);
      if i < 7 {
        assert BitAt(b, i + 1) <==> 7 - n <= i + 1 < 7 && target[8 * q + i + 1 - (7 - n)];
      }
    }
  }

  lemma OtherBytesFilled(b: byte, target: seq<bool>, q: nat, k: nat, k': nat)
    requires k <= k' <= |target| && Filled(b, target, q, k)
    requires q != k / 8 && forall c :: k <= c < k' ==> !target[c] || c / 8 == k / 8
    ensures Filled(b, target, q, k')
  {
    hide BitAt;
  }

  lemma ZerosFill(b: byte, target: seq<bool>, q: nat, k: nat, zeros: nat)
    requires k + zeros <= |target| && q == k / 8 && Filled(b, target, q, k)
    requires forall c :: k <= c < k + zeros ==> !target[c]
    ensures Filled(ShiftLeft(b, if zeros < 7 - k % 8 then zeros else 7 - k % 8), target, q, k + zeros)
  {
    hide BitAt;
    var n := if zeros < 7 - k % 8 then zeros else 7 - k % 8;
    forall i | 0 <= i < 8
      ensures BitAt(ShiftLeft(b, n), i) <==> i + n < 8 && BitAt(b, i + n)
    {
      BitAtShiftLeft(b, n, i);
    }
  }

  lemma ShiftsOut(b: byte, original: byte, q: nat, j: nat)
    requires ShiftedOut(b, original, q, j)
    ensures q == j / 8 ==> BitAt(b, 0) == BitAt(original, j % 8) && ShiftedOut(b << 1, original, q, j + 1)
    ensures q != j / 8 ==> ShiftedOut(b, original, q, j + 1)
  {
    hide BitAt;
    var c := b << 1;
    forall i | 0 <= i < 8
      ensures BitAt(c, i) <==> i < 7 && BitAt(b, i + 1)
    {
      BitAtShift(b, i);
    }
  }

  // The effect of CopyColumn on the new and the old matrix: in every row, the first
  // bit of byte oldIndex / 8 is shifted out and appended to byte newIndex / 8.
  ghost predicate ColumnCopied(was: seq<byte>, now: seq<byte>, newBytes: nat, wasOld: seq<byte>, nowOld: seq<byte>, oldBytes: nat,
                               rows: nat, newIndex: nat, oldIndex: nat)
    requires Fits(rows, newBytes, |was|) && |was| == |now| && Fits(rows, oldBytes, |wasOld|) && |wasOld| == |nowOld|
    requires oldIndex / 8 < oldBytes
  {
    && (forall r, q :: 0 <= r < rows && 0 <= q < newBytes ==>
          now[Cell(r, newBytes, q)] ==
            if q == newIndex / 8
            then PushBit(was[Cell(r, newBytes, q)], wasOld[Cell(r, oldBytes, oldIndex / 8)], newIndex % 8)
            else was[Cell(r, newBytes, q)])
    && (forall r, q :: 0 <= r < rows && 0 <= q < oldBytes ==>
          nowOld[Cell(r, oldBytes, q)] ==
            if q == oldIndex / 8 then wasOld[Cell(r, oldBytes, q)] << 1 else wasOld[Cell(r, oldBytes, q)])
  }

  method CopyColumn(newMask: array<byte>, newBytes: nat, oldMask: array<byte>, oldBytes: nat, rows: nat, newIndex: nat, oldIndex: nat)
    requires newMask != oldMask && Fits(rows, newBytes, newMask.Length) && Fits(rows, oldBytes, oldMask.Length)
    requires newIndex / 8 < newBytes && oldIndex / 8 < oldBytes
    modifies newMask, oldMask
    ensures ColumnCopied(old(newMask[..]), newMask[..], newBytes, old(oldMask[..]), oldMask[..], oldBytes, rows, newIndex, oldIndex)
  {
    CellsDistinct(newBytes);
    CellsDistinct(oldBytes);
    hide Cell, PushBit;
    ghost var n, o := newIndex / 8, oldIndex / 8;
    for row := 0 to rows
      invariant forall r, q :: 0 <= r < rows && 0 <= q < newBytes ==>
        newMask[Cell(r, newBytes, q)] ==
          if q == n && r < row
          then PushBit(old(newMask[Cell(r, newBytes, q)]), old(oldMask[Cell(r, oldBytes, o)]), newIndex % 8)
          else old(newMask[Cell(r, newBytes, q)])
      invariant forall r, q :: 0 <= r < rows && 0 <= q < oldBytes ==>
        oldMask[Cell(r, oldBytes, q)] ==
          if q == o && r < row then old(oldMask[Cell(r, oldBytes, q)]) << 1 else old(oldMask[Cell(r, oldBytes, q)])
    {
      var i, j := Cell(row, newBytes, newIndex / 8), Cell(row, oldBytes, oldIndex / 8);
      newMask[i] := PushBit(newMask[i], oldMask[j], newIndex % 8);
      oldMask[j] := oldMask[j] << 1;
    }
  }

  // The effect of a shift of byte index / 8 of every row.
  ghost predicate BytesShifted(was: seq<byte>, now: seq<byte>, bytes: nat, rows: nat, index: nat, shifts: nat)
    requires Fits(rows, bytes, |was|) && |was| == |now|
  {
    forall r, q :: 0 <= r < rows && 0 <= q < bytes ==>
      now[Cell(r, bytes, q)] ==
        if q == index / 8 then ShiftLeft(was[Cell(r, bytes, q)], shifts) else was[Cell(r, bytes, q)]
  }

  method ShiftBytes(newMask: array<byte>, bytes: nat, rows: nat, index: nat, shifts: nat)
    requires Fits(rows, bytes, newMask.Length) && index / 8 < bytes
    modifies newMask
    ensures BytesShifted(old(newMask[..]), newMask[..], bytes, rows, index, shifts)
  {
    CellsDistinct(bytes);
    hide Cell, ShiftLeft;
    ghost var n := index / 8;
    for row := 0 to rows
      invariant forall r, q :: 0 <= r < rows && 0 <= q < bytes ==>
        newMask[Cell(r, bytes, q)] ==
          if q == n && r < row
          then ShiftLeft(old(newMask[Cell(r, bytes, q)]), shifts)
          else old(newMask[Cell(r, bytes, q)])
    {
      var i := Cell(row, bytes, index / 8);
      newMask[i] := ShiftLeft(newMask[i], shifts);
    }
  }

  // InsertZeroColumns: zeros as far as the current byte has room for them.
  method InsertZeroColumns(zeros: nat, newMask: array<byte>, newBytes: nat, rows: nat, newIndex: nat)
    requires Fits(rows, newBytes, newMask.Length) && newIndex / 8 < newBytes
    modifies newMask
    ensures BytesShifted(old(newMask[..]), newMask[..], newBytes, rows, newIndex, if zeros < 7 - newIndex % 8 then zeros else 7 - newIndex % 8)
  {
    var maxShifts := 7 - newIndex % 8;
    ShiftBytes(newMask, newBytes, rows, newIndex, if zeros < maxShifts then zeros else maxShifts);
  }

  // The bits of a row of an expanded mask: column cols[i] holds old bit i.
  ghost function Expansion(row: seq<byte>, cols: seq<nat>, span: nat): (target: seq<bool>)
    ensures |target| == span
  {
    seq(span, c requires 0 <= c => exists i :: 0 <= i < |cols| && cols[i] == c && RowBit(row, i))
  }

  function RowOf(mask: seq<byte>, bytes: nat, rows: nat, r: nat): (row: seq<byte>)
    requires r < rows && rows * bytes <= |mask|
    ensures |row| == bytes && forall q :: 0 <= q < bytes ==> Cell(r, bytes, q) < |mask| && row[q] == mask[Cell(r, bytes, q)]
  {
    MatrixFits(rows, bytes, |mask|);
    seq(bytes, q requires 0 <= q < bytes => mask[Cell(r, bytes, q)])
  }

  ghost predicate AllFilled(m: seq<byte>, bytes: nat, rows: nat, targets: seq<seq<bool>>, k: nat) {
    && Fits(rows, bytes, |m|) && |targets| == rows && (forall r :: 0 <= r < rows ==> k <= |targets[r]|)
    && forall r, q :: 0 <= r < rows && 0 <= q < bytes ==> Filled(m[Cell(r, bytes, q)], targets[r], q, k)
  }

  ghost predicate AllShiftedOut(m: seq<byte>, bytes: nat, rows: nat, originals: seq<seq<byte>>, j: nat) {
    && Fits(rows, bytes, |m|) && |originals| == rows && (forall r :: 0 <= r < rows ==> |originals[r]| == bytes)
    && forall r, q :: 0 <= r < rows && 0 <= q < bytes ==> ShiftedOut(m[Cell(r, bytes, q)], originals[r][q], q, j)
  }

  lemma CopyFills(was: seq<byte>, now: seq<byte>, newBytes: nat, wasOld: seq<byte>, nowOld: seq<byte>, oldBytes: nat,
                  rows: nat, targets: seq<seq<bool>>, originals: seq<seq<byte>>, k: nat, j: nat)
    requires AllFilled(was, newBytes, rows, targets, k) && AllShiftedOut(wasOld, oldBytes, rows, originals, j)
    requires |was| == |now| && |wasOld| == |nowOld| && k / 8 < newBytes && j / 8 < oldBytes
    requires ColumnCopied(was, now, newBytes, wasOld, nowOld, oldBytes, rows, k, j)
    requires forall r :: 0 <= r < rows ==> k < |targets[r]| && targets[r][k] == RowBit(originals[r], j)
    ensures AllFilled(now, newBytes, rows, targets, k + 1) && AllShiftedOut(nowOld, oldBytes, rows, originals, j + 1)
  {
    hide Cell, PushBit, BitAt, Filled, ShiftedOut;
    forall r, q | 0 <= r < rows && 0 <= q < oldBytes
      ensures ShiftedOut(nowOld[Cell(r, oldBytes, q)], originals[r][q], q, j + 1)
    {
      ShiftsOut(wasOld[Cell(r, oldBytes, q)], originals[r][q], q, j);
    }
    forall r, q | 0 <= r < rows && 0 <= q < newBytes
      ensures Filled(now[Cell(r, newBytes, q)], targets[r], q, k + 1)
    {
      if q == k / 8 {
        var o := wasOld[Cell(r, oldBytes, j / 8)];
        ShiftsOut(o, originals[r][j / 8], j / 8, j);
        PushFills(was[Cell(r, newBytes, q)], o, targets[r], q, k);
      } else {
        OtherBytesFilled(was[Cell(r, newBytes, q)], targets[r], q, k, k + 1);
      }
    }
  }

  lemma ShiftFills(was: seq<byte>, now: seq<byte>, bytes: nat, rows: nat, targets: seq<seq<bool>>, k: nat, zeros: nat)
    requires AllFilled(was, bytes, rows, targets, k) && |was| == |now|
    requires BytesShifted(was, now, bytes, rows, k, if zeros < 7 - k % 8 then zeros else 7 - k % 8)
    requires forall r :: 0 <= r < rows ==> k + zeros <= |targets[r]| && forall c :: k <= c < k + zeros ==> !targets[r][c]
    ensures AllFilled(now, bytes, rows, targets, k + zeros)
  {
    hide Cell, Filled, ShiftLeft;
    forall r, q | 0 <= r < rows && 0 <= q < bytes
      ensures Filled(now[Cell(r, bytes, q)], targets[r], q, k + zeros)
    {
      if q == k / 8 {
        ZerosFill(was[Cell(r, bytes, q)], targets[r], q, k, zeros);
      } else {
        OtherBytesFilled(was[Cell(r, bytes, q)], targets[r], q, k, k + zeros);
      }
    }
  }

  // A finished byte: column 8 q + i of the target is bit i, and columns past the end are 0.
  lemma FinishedByte(b: byte, target: seq<bool>, q: nat)
    requires Filled(b, target, q, |target|)
    ensures var k := |target|;
      var c := if q == k / 8 && k % 8 != 0 then ShiftLeft(b, 7 - k % 8) else b;
      forall i :: 0 <= i < 8 ==> (BitAt(c, i) <==> 8 * q + i < k && target[8 * q + i])
  {
    hide BitAt, ShiftLeft;
    var k := |target|;
    if q == k / 8 && k % 8 != 0 {
      var n := 7 - k % 8;
      var c := ShiftLeft(b, n);
      forall i | 0 <= i < 8
        ensures BitAt(c, i) <==> i + n < 8 && BitAt(b, i + n)
      {
        BitAtShiftLeft(b, n, i);
      }
    }
  }

  // How many sequence numbers the media list spans.
  function Span(media: seq<Packet>): nat {
    if media == [] then 0 else Column(media, |media| - 1) + 1
  }

  // Row r of the expanded mask is the sparse expansion of row r of the old one.
  ghost predicate Expanded(oldMask: seq<byte>, oldBytes: nat, newMask: seq<byte>, newBytes: nat, rows: nat, cols: seq<nat>)
    requires rows * oldBytes <= |oldMask| && rows * newBytes <= |newMask|
  {
    forall r :: 0 <= r < rows ==> RowExpanded(RowOf(oldMask, oldBytes, rows, r), RowOf(newMask, newBytes, rows, r), cols)
  }

  ghost predicate RowExpanded(oldRow: seq<byte>, newRow: seq<byte>, cols: seq<nat>) {
    forall c: nat :: RowBit(newRow, c) <==> exists i :: 0 <= i < |cols| && cols[i] == c && RowBit(oldRow, i)
  }

  // No bit of the row lies past the given number of columns.
  ghost predicate Confined(row: seq<byte>, columns: nat) {
    forall c: nat :: c >= columns ==> !RowBit(row, c)
  }

  lemma {:induction false} ColumnsSpread(cols: seq<nat>, i: nat, j: nat)
    requires InOrder(cols, WRAP) && i <= j < |cols|
    ensures j - i <= cols[j] - cols[i]
    decreases j - i
  {
    if i < j {
      ColumnsSpread(cols, i, j - 1);
    }
  }

  lemma GapFree(cols: seq<nat>)
    requires InOrder(cols, WRAP) && cols != [] && cols[|cols| - 1] == |cols| - 1
    ensures forall i :: 0 <= i < |cols| ==> cols[i] == i
  {
    forall i | 0 <= i < |cols|
      ensures cols[i] == i
    {
      ColumnsSpread(cols, 0, i);
      ColumnsSpread(cols, i, |cols| - 1);
    }
  }

  lemma GapFreeExpands(mask: seq<byte>, bytes: nat, rows: nat, cols: seq<nat>)
    requires rows * bytes <= |mask|
    requires forall i :: 0 <= i < |cols| ==> cols[i] == i
    requires forall r :: 0 <= r < rows ==> Confined(RowOf(mask, bytes, rows, r), |cols|)
    ensures Expanded(mask, bytes, mask, bytes, rows, cols)
  {
    hide RowBit;
    forall r | 0 <= r < rows
      ensures RowExpanded(RowOf(mask, bytes, rows, r), RowOf(mask, bytes, rows, r), cols)
    {
      var row := RowOf(mask, bytes, rows, r);
      assert Confined(row, |cols|);
      forall c: nat
        ensures RowBit(row, c) <==> exists i :: 0 <= i < |cols| && cols[i] == c && RowBit(row, i)
      {
        if RowBit(row, c) {
          assert cols[c] == c;
        }
      }
    }
  }

  // The columns of a gap are zero, and the column after it is the next old bit.
  lemma GapIsZero(row: seq<byte>, cols: seq<nat>, p: nat, span: nat)
    requires InOrder(cols, WRAP) && 0 < p < |cols| && cols[p] < span
    ensures forall c :: cols[p - 1] < c < cols[p] ==> !Expansion(row, cols, span)[c]
    ensures Expansion(row, cols, span)[cols[p]] == RowBit(row, p)
  {
    hide RowBit;
    forall i | 0 <= i < |cols|
      ensures !(cols[p - 1] < cols[i] < cols[p])
      ensures cols[i] == cols[p] ==> i == p
    {
      if i < p - 1 {
        assert cols[i] < cols[p - 1];
      }
    }
  }

  // Finishing the last byte of every row completes the expansion.
  lemma Finish(oldRows: seq<seq<byte>>, was: seq<byte>, now: seq<byte>, bytes: nat, rows: nat, cols: seq<nat>, span: nat)
    requires |oldRows| == rows && rows * bytes <= |was| == |now| && span <= 8 * bytes
    requires InOrder(cols, span)
    requires Fits(rows, bytes, |was|)
    requires AllFilled(was, bytes, rows, Targets(oldRows, cols, span), span)
    requires if span % 8 != 0 then BytesShifted(was, now, bytes, rows, span, 7 - span % 8) else was == now
    ensures forall r :: 0 <= r < rows ==> RowExpanded(oldRows[r], RowOf(now, bytes, rows, r), cols)
  {
    hide Cell, Filled, ShiftLeft, BitAt, Expansion;
    forall r | 0 <= r < rows
      ensures RowExpanded(oldRows[r], RowOf(now, bytes, rows, r), cols)
    {
      var target, row := Expansion(oldRows[r], cols, span), RowOf(now, bytes, rows, r);
      forall c: nat
        ensures RowBit(row, c) <==> c < span && target[c]
      {
        if c < 8 * bytes {
          FinishedByte(was[Cell(r, bytes, c / 8)], target, c / 8);
        } else {
          ZeroBit(c % 8);
        }
      }
      ExpansionIs(oldRows[r], row, cols, span);
    }
  }

  lemma ZeroBit(i: nat)
    requires i < 8
    ensures !BitAt(0, i)
  {
  }

  lemma ExpansionIs(oldRow: seq<byte>, newRow: seq<byte>, cols: seq<nat>, span: nat)
    requires InOrder(cols, span)
    requires forall c: nat :: RowBit(newRow, c) <==> c < span && Expansion(oldRow, cols, span)[c]
    ensures RowExpanded(oldRow, newRow, cols)
  {
    hide RowBit;
  }

  ghost function RowsOf(mask: seq<byte>, bytes: nat, rows: nat): (all: seq<seq<byte>>)
    requires rows * bytes <= |mask|
    ensures |all| == rows && forall r :: 0 <= r < rows ==> all[r] == RowOf(mask, bytes, rows, r)
  {
    seq(rows, r requires 0 <= r < rows => RowOf(mask, bytes, rows, r))
  }

  ghost function Targets(originals: seq<seq<byte>>, cols: seq<nat>, span: nat): (all: seq<seq<bool>>)
    ensures |all| == |originals| && forall r :: 0 <= r < |all| ==> all[r] == Expansion(originals[r], cols, span)
  {
    seq(|originals|, r requires 0 <= r < |originals| => Expansion(originals[r], cols, span))
  }

  lemma Begin(oldMask: seq<byte>, oldBytes: nat, newMask: seq<byte>, newBytes: nat, rows: nat, cols: seq<nat>, span: nat)
    requires rows * oldBytes <= |oldMask| && rows * newBytes <= |newMask| && forall i :: 0 <= i < |newMask| ==> newMask[i] == 0
    ensures AllFilled(newMask, newBytes, rows, Targets(RowsOf(oldMask, oldBytes, rows), cols, span), 0)
    ensures AllShiftedOut(oldMask, oldBytes, rows, RowsOf(oldMask, oldBytes, rows), 0)
  {
    MatrixFits(rows, oldBytes, |oldMask|);
    MatrixFits(rows, newBytes, |newMask|);
    hide Cell, BitAt, Expansion;
    forall i | 0 <= i < 8
      ensures !BitAt(0, i)
    {
      ZeroBit(i);
    }
  }

  lemma NextColumn(originals: seq<seq<byte>>, cols: seq<nat>, p: nat, span: nat)
    requires InOrder(cols, span) && span <= WRAP && p < |cols|
    ensures forall r :: 0 <= r < |originals| ==> Expansion(originals[r], cols, span)[cols[p]] == RowBit(originals[r], p)
    ensures p > 0 ==> forall r, c :: 0 <= r < |originals| && cols[p - 1] < c < cols[p] ==> !Expansion(originals[r], cols, span)[c]
  {
    hide RowBit, Expansion;
    forall r | 0 <= r < |originals|
      ensures Expansion(originals[r], cols, span)[cols[p]] == RowBit(originals[r], p)
      ensures p > 0 ==> forall c :: cols[p - 1] < c < cols[p] ==> !Expansion(originals[r], cols, span)[c]
    {
      if p > 0 {
        GapIsZero(originals[r], cols, p, span);
      } else {
        FirstColumn(originals[r], cols, span);
      }
    }
  }

  lemma FirstColumn(row: seq<byte>, cols: seq<nat>, span: nat)
    requires InOrder(cols, span) && cols != []
    ensures Expansion(row, cols, span)[cols[0]] == RowBit(row, 0)
  {
    hide RowBit;
  }

  // One copied column, and one run of zero columns, as steps of the expansion.

  method PutColumn(newMask: array<byte>, newBytes: nat, oldMask: array<byte>, oldBytes: nat, rows: nat,
                   ghost originals: seq<seq<byte>>, ghost cols: seq<nat>, ghost span: nat, newIndex: nat, oldIndex: nat)
    requires newMask != oldMask && InOrder(cols, span) && span <= 8 * newBytes && span <= WRAP
    requires oldIndex < |cols| && oldIndex < 8 * oldBytes && newIndex == cols[oldIndex]
    requires AllFilled(newMask[..], newBytes, rows, Targets(originals, cols, span), newIndex)
    requires AllShiftedOut(oldMask[..], oldBytes, rows, originals, oldIndex)
    modifies newMask, oldMask
    ensures AllFilled(newMask[..], newBytes, rows, Targets(originals, cols, span), newIndex + 1)
    ensures AllShiftedOut(oldMask[..], oldBytes, rows, originals, oldIndex + 1)
  {
    hide RowBit, Cell, Expansion, Filled, ShiftedOut, ColumnCopied;
    ghost var was, wasOld := newMask[..], oldMask[..];
    CopyColumn(newMask, newBytes, oldMask, oldBytes, rows, newIndex, oldIndex);
    NextColumn(originals, cols, oldIndex, span);
    CopyFills(was, newMask[..], newBytes, wasOld, oldMask[..], oldBytes, rows, Targets(originals, cols, span), originals, newIndex, oldIndex);
  }

  method PutZeros(zeros: nat, newMask: array<byte>, newBytes: nat, rows: nat,
                  ghost originals: seq<seq<byte>>, ghost cols: seq<nat>, ghost span: nat, newIndex: nat, ghost p: nat)
    requires InOrder(cols, span) && span <= 8 * newBytes && span <= WRAP
    requires 0 < p < |cols| && newIndex == cols[p - 1] + 1 && newIndex + zeros == cols[p]
    requires AllFilled(newMask[..], newBytes, rows, Targets(originals, cols, span), newIndex)
    modifies newMask
    ensures AllFilled(newMask[..], newBytes, rows, Targets(originals, cols, span), newIndex + zeros)
  {
    hide RowBit, Cell, Expansion, Filled, BytesShifted;
    if zeros > 0 {
      ghost var was := newMask[..];
      InsertZeroColumns(zeros, newMask, newBytes, rows, newIndex);
      NextColumn(originals, cols, p, span);
      ShiftFills(was, newMask[..], newBytes, rows, Targets(originals, cols, span), newIndex, zeros);
    }
  }

  method FinishRows(newMask: array<byte>, newBytes: nat, rows: nat, ghost originals: seq<seq<byte>>, ghost cols: seq<nat>, newIndex: nat)
    requires |originals| == rows && rows * newBytes <= newMask.Length && newIndex <= 8 * newBytes && InOrder(cols, newIndex)
    requires AllFilled(newMask[..], newBytes, rows, Targets(originals, cols, newIndex), newIndex)
    modifies newMask
    ensures forall r :: 0 <= r < rows ==> RowExpanded(originals[r], RowOf(newMask[..], newBytes, rows, r), cols)
  {
    hide RowBit, Cell, Expansion, Filled, BytesShifted;
    ghost var was := newMask[..];
    if newIndex % 8 != 0 {
      ShiftBytes(newMask, newBytes, rows, newIndex, 7 - newIndex % 8);
    }
    Finish(originals, was, newMask[..], newBytes, rows, cols, newIndex);
  }

  lemma GapBefore(media: seq<Packet>, p: nat)
    requires 0 < p < |media| && Column(media, p - 1) < Column(media, p)
    ensures (ParseSequenceNumber(media[p]) - ParseSequenceNumber(media[p - 1]) - 1) % WRAP
         == Column(media, p) - Column(media, p - 1) - 1
  {
    hide ParseSequenceNumber;
  }

  // The loop over the media packets.
  method ExpandColumns(media: seq<Packet>, packetMask: array<byte>, maskBytes: nat, newMask: array<byte>, newBytes: nat, rows: nat)
    returns (newIndex: nat)
    requires |media| > 1 && InOrder(Columns(media), MAX_MEDIA_PACKETS) && packetMask != newMask
    requires |media| <= 8 * maskBytes && Span(media) <= 8 * newBytes
    requires rows * maskBytes <= packetMask.Length && rows * newBytes <= newMask.Length
    requires forall i :: 0 <= i < newMask.Length ==> newMask[i] == 0
    modifies packetMask, newMask
    ensures newIndex == Span(media)
    ensures Expanded(old(packetMask[..]), maskBytes, newMask[..], newBytes, rows, Columns(media))
  {
    hide ParseSequenceNumber, Column, Expansion, AllFilled, AllShiftedOut, RowExpanded;
    ghost var cols, span := Columns(media), Span(media);
    ghost var originals := RowsOf(packetMask[..], maskBytes, rows);
    Begin(packetMask[..], maskBytes, newMask[..], newBytes, rows, cols, span);
    assert InOrder(cols, span);
    PutColumn(newMask, newBytes, packetMask, maskBytes, rows, originals, cols, span, 0, 0);
    newIndex := 1;
    var p, prev := 1, ParseSequenceNumber(media[0]);
    while p < |media|
      invariant 1 <= p <= |media| && newIndex == cols[p - 1] + 1 && prev == ParseSequenceNumber(media[p - 1])
      invariant AllFilled(newMask[..], newBytes, rows, Targets(originals, cols, span), newIndex)
      invariant AllShiftedOut(packetMask[..], maskBytes, rows, originals, p)
    {
      if newIndex == 8 * MASK_SIZE_L_BIT_SET {
        break;
      }
      var seqNum := ParseSequenceNumber(media[p]);
      GapBefore(media, p);
      var zeros := (seqNum - prev - 1) % WRAP;
      PutZeros(zeros, newMask, newBytes, rows, originals, cols, span, newIndex, p);
      newIndex := newIndex + zeros;
      PutColumn(newMask, newBytes, packetMask, maskBytes, rows, originals, cols, span, newIndex, p);
      newIndex := newIndex + 1;
      p := p + 1;
      prev := seqNum;
    }
    FinishRows(newMask, newBytes, rows, originals, cols, newIndex);
  }

  method InsertZerosInBitMasks(media: seq<Packet>, packetMask: array<byte>, maskBytes: nat, rows: nat) returns (bits: nat)
    requires InOrder(Columns(media), MAX_MEDIA_PACKETS)
    requires maskBytes == MaskSize(|media| > 8 * MASK_SIZE_L_BIT_CLEAR)
    requires packetMask.Length == rows * MASK_SIZE_L_BIT_SET && rows * maskBytes <= packetMask.Length
    requires forall r :: 0 <= r < rows ==> Confined(RowOf(packetMask[..], maskBytes, rows, r), |media|)
    modifies packetMask
    ensures bits == Span(media)
    ensures rows * MaskSize(bits > 8 * MASK_SIZE_L_BIT_CLEAR) <= packetMask.Length
    ensures Expanded(old(packetMask[..]), maskBytes, packetMask[..], MaskSize(bits > 8 * MASK_SIZE_L_BIT_CLEAR), rows, Columns(media))
  {
    hide RowBit, Cell, ParseSequenceNumber;
    ghost var cols := Columns(media);
    if |media| <= 1 {
      GapFreeExpands(packetMask[..], maskBytes, rows, cols);
      return |media|;
    }
    var lastSeqNum, firstSeqNum := ParseSequenceNumber(media[|media| - 1]), ParseSequenceNumber(media[0]);
    ColumnsSpread(cols, 0, |media| - 1);
    var totalMissing := (lastSeqNum - firstSeqNum) % WRAP - |media| + 1;
    if totalMissing == 0 {
      GapFree(cols);
      GapFreeExpands(packetMask[..], maskBytes, rows, cols);
      return |media|;
    }
    var newBytes := if |media| + totalMissing > 8 * MASK_SIZE_L_BIT_CLEAR then MASK_SIZE_L_BIT_SET else MASK_SIZE_L_BIT_CLEAR;
    var newMask := new byte[rows * MASK_SIZE_L_BIT_SET](_ => 0);
    bits := ExpandColumns(media, packetMask, maskBytes, newMask, newBytes, rows);
    MemCpy(packetMask, 0, newMask[..]);
    assert packetMask[..] == newMask[..];
  }
}
