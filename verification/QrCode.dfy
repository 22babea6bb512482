/** The QR encoder of app/src/qr.js end to end, and the scanner it must satisfy. */
module QrCode {
  import opened Options
  import opened Galois
  import opened ReedSolomon
  import opened QrLayout
  import opened QrBits
  import opened QrBlocks
  import opened QrMatrix
  import opened QrReader

  // ---------------------------------------------------------------- placement

  /** Bit k of the codeword stream, 0 past its end. */
  function DataBit(codewords: seq<byte>, k: nat): int {
    if k / 8 < |codewords| then Shr(codewords[k / 8], 7 - k % 8) % 2 else 0
  }

  ghost predicate Placed(m: Matrix, seen: seq<Cell>, codewords: seq<byte>)
    reads m
  {
    forall k :: 0 <= k < |seen| ==>
      seen[k].0 < m.Length0 && seen[k].1 < m.Length1 && m[seen[k].0, seen[k].1] == DataBit(codewords, k)
  }

  /** One module of placeData's inner loop. */
  method PlaceModule(m: Matrix, codewords: seq<byte>, reserved: bool, r: nat, c: nat, bitIndex: nat,
      ghost seen: seq<Cell>)
    returns (next: nat, ghost now: seq<Cell>)
    requires r < m.Length0 && c < m.Length1
    requires |seen| == bitIndex && Placed(m, seen, codewords) && (r, c) !in seen
    modifies m
    ensures now == seen + (if reserved then [] else [(r, c)])
    ensures next == |now| && Placed(m, now, codewords)
    ensures forall i, j :: 0 <= i < m.Length0 && 0 <= j < m.Length1 && !(i == r && j == c) ==> m[i, j] == old(m[i, j])
    ensures reserved ==> m[r, c] == old(m[r, c])
  {
    hide DataBit;
    next, now := bitIndex, seen;
    if !reserved {
      m[r, c] := DataBit(codewords, bitIndex);
      next, now := bitIndex + 1, seen + [(r, c)];
      assert forall k :: 0 <= k < |seen| ==> seen[k] in seen;
    }
  }

  /** The walk goes through the cells of the next row. */
  lemma NextRowCells(version: nat, col: nat, upward: bool, i: nat, seen: seq<Cell>, rest: seq<Cell>)
    requires ValidVersion(version) && col > 0 && i < Size(version)
    requires Path(version) == seen + PairWalk(Size(version), ReservedMap(version), col, upward, i) + rest
    ensures var row := if upward then Size(version) - 1 - i else i;
      var cells := RowCells(ReservedMap(version), row, col);
      && cells == (if Reserved(version, row, col) then [] else [(row, col)])
                + (if Reserved(version, row, col - 1) then [] else [(row, col - 1)])
      && Path(version) == seen + cells
           + PairWalk(Size(version), ReservedMap(version), col, upward, i + 1) + rest
  {
    hide Reserved, Path, Size, RowCells, ReservedMap;
    var size := Size(version);
    var res := ReservedMap(version);
    var row := if upward then size - 1 - i else i;
    RowCellsAre(version, row, col);
    var cells := RowCells(res, row, col);
    var later := PairWalk(size, res, col, upward, i + 1);
    assert PairWalk(size, res, col, upward, i) == cells + later;
    assert seen + (cells + later) + rest == seen + cells + later + rest;
  }

  lemma RowCellsAre(version: nat, row: nat, col: nat)
    requires ValidVersion(version) && col > 0
    ensures RowCells(ReservedMap(version), row, col)
         == (if Reserved(version, row, col) then [] else [(row, col)])
          + (if Reserved(version, row, col - 1) then [] else [(row, col - 1)])
  {
    hide Reserved;
  }

  /** The next row of a column pair has not been visited yet. */
  lemma NextRow(version: nat, col: nat, upward: bool, i: nat, seen: seq<Cell>, rest: seq<Cell>)
    requires ValidVersion(version) && col > 0 && i < Size(version)
    requires Path(version) == seen + PairWalk(Size(version), ReservedMap(version), col, upward, i) + rest
    ensures var row := if upward then Size(version) - 1 - i else i;
      var cells := RowCells(ReservedMap(version), row, col);
      && cells == (if Reserved(version, row, col) then [] else [(row, col)])
                + (if Reserved(version, row, col - 1) then [] else [(row, col - 1)])
      && Path(version) == seen + cells
           + PairWalk(Size(version), ReservedMap(version), col, upward, i + 1) + rest
      && (row, col) !in seen && (row, col - 1) !in seen
  {
    hide Reserved, Path, Size, PairWalk, RowCells, NoDuplicates, ReservedMap;
    NextRowCells(version, col, upward, i, seen, rest);
    var row := if upward then Size(version) - 1 - i else i;
    var cells := RowCells(ReservedMap(version), row, col);
    var later := PairWalk(Size(version), ReservedMap(version), col, upward, i + 1);
    assert seen + cells + later + rest == seen + cells + (later + rest);
    PathExact(version);
    Earlier(Path(version), seen, cells, later + rest);
    NotReservedOnPath(version, seen, row, col, cells);
  }

  /** A module not placed now is reserved, and no reserved module is on the path. */
  lemma NotReservedOnPath(version: nat, seen: seq<Cell>, row: nat, col: nat, cells: seq<Cell>)
    requires ValidVersion(version) && col > 0
    requires cells == (if Reserved(version, row, col) then [] else [(row, col)])
                    + (if Reserved(version, row, col - 1) then [] else [(row, col - 1)])
    requires forall x :: x in cells ==> x !in seen
    requires forall x: Cell :: x in seen ==> !Reserved(version, x.0, x.1)
    ensures (row, col) !in seen && (row, col - 1) !in seen
  {
    hide Reserved;
    assert (row, col) in cells || Reserved(version, row, col);
    assert (row, col - 1) in cells || Reserved(version, row, col - 1);
  }

  lemma Earlier(path: seq<Cell>, seen: seq<Cell>, cells: seq<Cell>, later: seq<Cell>)
    requires NoDuplicates(path) && path == seen + cells + later
    ensures forall x :: x in cells ==> x !in seen
    ensures forall x :: x in seen ==> x in path
  {
    forall x | x in cells ensures x !in seen {
      var j :| 0 <= j < |cells| && cells[j] == x;
      assert path[|seen| + j] == x;
      assert forall i :: 0 <= i < |seen| ==> path[i] == seen[i];
    }
  }

  /** isReserved holds what the function patterns left untouched. */
  ghost predicate MarksReserved(isReserved: array2<bool>, version: nat)
    reads isReserved
  {
    && isReserved.Length0 == isReserved.Length1 == Size(version)
    && forall r: nat, c: nat :: r < Size(version) && c < Size(version) ==> isReserved[r, c] == Reserved(version, r, c)
  }

  ghost predicate ReservedKept(version: nat, m: Matrix, before: (nat, nat) -> int)
    reads m
  {
    forall r: nat, c: nat :: r < m.Length0 && c < m.Length1 && Reserved(version, r, c) ==> m[r, c] == before(r, c)
  }

  /** One column pair of placeData. */
  method PlacePair(m: Matrix, codewords: seq<byte>, isReserved: array2<bool>, version: nat, col: nat, upward: bool,
                   bitIndex: nat, ghost seen: seq<Cell>, ghost rest: seq<Cell>, ghost before: (nat, nat) -> int)
    returns (next: nat, ghost now: seq<Cell>)
    requires ValidVersion(version) && m.Length0 == m.Length1 == Size(version) && 0 < col < Size(version)
    requires MarksReserved(isReserved, version)
    requires |seen| == bitIndex && Placed(m, seen, codewords) && ReservedKept(version, m, before)
    requires Path(version) == seen + PairWalk(Size(version), ReservedMap(version), col, upward, 0) + rest
    modifies m
    ensures next == |now| && Placed(m, now, codewords) && ReservedKept(version, m, before)
    ensures Path(version) == now + rest
  {
    hide Reserved, Path, Size, PairWalk, RowCells, DataBit;
    var size := m.Length0;
    next, now := bitIndex, seen;
    for i := 0 to size
      invariant Path(version) == now + PairWalk(size, ReservedMap(version), col, upward, i) + rest
      invariant |now| == next && Placed(m, now, codewords) && ReservedKept(version, m, before)
    {
      var row := if upward then size - 1 - i else i;
      ghost var was := now;
      NextRow(version, col, upward, i, now, rest);
      next, now := PlaceModule(m, codewords, isReserved[row, col], row, col, next, now);
      next, now := PlaceModule(m, codewords, isReserved[row, col - 1], row, col - 1, next, now);
      assert now == was + RowCells(ReservedMap(version), row, col);
    }
    PairWalkEnd(size, ReservedMap(version), col, upward);
    assert now + [] + rest == now + rest;
  }

  lemma PairWalkEnd(size: nat, res: (nat, nat) -> bool, col: nat, upward: bool)
    requires col > 0
    ensures PairWalk(size, res, col, upward, size) == []
  {}

  /** placeData: module k of the walk receives bit k, and nothing reserved changes. */
  method PlaceData(m: Matrix, codewords: seq<byte>, isReserved: array2<bool>, version: nat,
      ghost before: (nat, nat) -> int)
    requires ValidVersion(version) && m.Length0 == m.Length1 == Size(version) && ReservedKept(version, m, before)
    requires MarksReserved(isReserved, version)
    modifies m
    ensures Placed(m, Path(version), codewords) && ReservedKept(version, m, before)
  {
    hide DataBit, Reserved, PairWalk, Size, Walk, ReservedMap, Path, Placed, ReservedKept;
    var size := m.Length0;
    var bitIndex := 0;
    var upward := true;
    ghost var seen: seq<Cell> := [];
    var col: int := size - 1;
    OddSize(version);
    StartWalk(version);
    NothingPlaced(m, codewords);
    while col > 0
      invariant -1 <= col < size
      invariant Path(version) == seen + Walk(size, ReservedMap(version), col, upward)
      invariant |seen| == bitIndex && Placed(m, seen, codewords) && ReservedKept(version, m, before)
      decreases col
    {
      ghost var rest := Walk(size, ReservedMap(version), SkipTiming(col) - 2, !upward);
      WalkStep(size, ReservedMap(version), col, upward, seen);
      if col == 6 {
        col := 5;
      }
      bitIndex, seen := PlacePair(m, codewords, isReserved, version, col, upward, bitIndex, seen, rest, before);
      upward := !upward;
      col := col - 2;
    }
    WalkEnd(size, ReservedMap(version), col, upward, seen);
  }

  lemma StartWalk(version: nat)
    requires ValidVersion(version)
    ensures Path(version) == [] + Walk(Size(version), ReservedMap(version), Size(version) - 1, true)
  {}

  lemma NothingPlaced(m: Matrix, codewords: seq<byte>)
    ensures Placed(m, [], codewords)
  {}

  lemma WalkStep(size: nat, res: (nat, nat) -> bool, col: nat, upward: bool, seen: seq<Cell>)
    requires col > 0
    ensures seen + Walk(size, res, col, upward)
         == seen + PairWalk(size, res, SkipTiming(col), upward, 0) + Walk(size, res, SkipTiming(col) - 2, !upward)
  {
    hide PairWalk;
  }

  lemma WalkEnd(size: nat, res: (nat, nat) -> bool, col: int, upward: bool, seen: seq<Cell>)
    requires col <= 0
    ensures seen + Walk(size, res, col, upward) == seen
  {}

  lemma OddSize(version: nat)
    requires ValidVersion(version)
    ensures Size(version) >= 21 && Size(version) % 2 == 1
  {}

  // ---------------------------------------------------------- mask and format

  function Flip(v: int, mask: bool): int { if mask then 1 - v else v }

  method ApplyMask(m: Matrix, isReserved: array2<bool>, version: nat, mask: nat)
    requires ValidVersion(version) && mask < 8 && m.Length0 == m.Length1 == Size(version)
    requires MarksReserved(isReserved, version)
    modifies m
    ensures forall r, c :: 0 <= r < m.Length0 && 0 <= c < m.Length1 ==>
      m[r, c] == if Reserved(version, r, c) then old(m[r, c]) else Flip(old(m[r, c]), Mask(mask, r, c))
  {
    hide Reserved, Mask;
    var size := m.Length0;
    for r := 0 to size
      invariant forall i, j :: 0 <= i < size && 0 <= j < size ==>
        m[i, j] == if Reserved(version, i, j) || i >= r then old(m[i, j]) else Flip(old(m[i, j]), Mask(mask, i, j))
    {
      for c := 0 to size
        invariant forall i, j :: 0 <= i < size && 0 <= j < size ==>
          m[i, j] == if Reserved(version, i, j) || i > r || (i == r && j >= c) then old(m[i, j])
                     else Flip(old(m[i, j]), Mask(mask, i, j))
      {
        if !isReserved[r, c] && Mask(mask, r, c) {
          m[r, c] := 1 - m[r, c];
        }
      }
    }
  }

  /** Which format bit a module carries; -1 for none. */
  function FormatIndex(size: nat, r: int, c: int): int {
    if r == 8 && c < 6 then c
    else if r == 8 && c == 7 then 6
    else if r == 8 && c == 8 then 7
    else if r == 8 && c >= size - 7 then c - (size - 15)
    else if c == 8 && r == 7 then 8
    else if c == 8 && r < 6 then 14 - r
    else if c == 8 && r >= size - 8 then size - 1 - r
    else -1
  }

  function FormatBit(mask: nat, i: nat): int
    requires mask < 8
  {
    Shr(FormatBits(mask), i) % 2
  }

  method ApplyFormat(m: Matrix, mask: nat)
    requires mask < 8 && m.Length0 == m.Length1 >= 21
    modifies m
    ensures forall r, c :: 0 <= r < m.Length0 && 0 <= c < m.Length1 ==>
      m[r, c] == if FormatIndex(m.Length0, r, c) >= 0 then FormatBit(mask, FormatIndex(m.Length0, r, c))
        else old(m[r, c])
  {
    hide FormatBit;
    var size := m.Length0;
    for i := 0 to 15
      invariant forall r, c :: 0 <= r < size && 0 <= c < size ==>
        m[r, c] == if 0 <= FormatIndex(size, r, c) < i then FormatBit(mask, FormatIndex(size, r, c)) else old(m[r, c])
    {
      var bit := FormatBit(mask, i);
      if i < 6 { m[8, i] := bit; }
      else if i == 6 { m[8, 7] := bit; }
      else if i == 7 { m[8, 8] := bit; }
      else if i == 8 { m[7, 8] := bit; }
      else { m[14 - i, 8] := bit; }
      if i < 8 { m[size - 1 - i, 8] := bit; }
      else { m[8, size - 15 + i] := bit; }
    }
  }

  lemma FormatIsReserved(version: nat, r: int, c: int)
    requires ValidVersion(version) && r >= 0 && c >= 0
    ensures FormatIndex(Size(version), r, c) >= 0 ==> Reserved(version, r, c)
  {}

  // ------------------------------------------------------------------- scanner

  /** The module of the split copy that carries format bit i. */
  function SplitCell(size: nat, i: nat): Cell
    requires size >= 21 && i < 15
  {
    if i < 8 then (size - 1 - i, 8) else (8, size - 15 + i)
  }

  type Modules = seq<seq<bool>>

  ghost predicate Square(modules: Modules, size: nat) {
    |modules| == size && forall r :: 0 <= r < size ==> |modules[r]| == size
  }

  ghost function At(modules: Modules, size: nat, x: Cell): bool
    requires Square(modules, size)
  {
    if x.0 < size && x.1 < size then modules[x.0][x.1] else false
  }

  /** The 15 format bits of the split copy, bit 14 first. */
  ghost function ReadFormat(modules: Modules, size: nat): nat
    requires size >= 21 && Square(modules, size)
  {
    FromBits(seq(15, j requires 0 <= j < 15 => At(modules, size, SplitCell(size, 14 - j))))
  }

  /** The module of the upper right version block that carries version bit i. */
  function VersionCell(size: nat, i: nat): Cell
    requires size >= 21 && i < 18
  {
    (i / 3, size - 11 + i % 3)
  }

  /** The 18 version bits of the upper right block, bit 17 first. */
  ghost function ReadVersion(modules: Modules, size: nat): nat
    requires size >= 21 && Square(modules, size)
  {
    FromBits(seq(18, j requires 0 <= j < 18 => At(modules, size, VersionCell(size, 17 - j))))
  }

  /** From version 7 on a symbol names its version. */
  ghost predicate NamesVersion(modules: Modules, version: nat)
    requires ValidVersion(version) && Square(modules, Size(version))
  {
    version >= 7 ==> VersionOf(ReadVersion(modules, Size(version))) == Some(version)
  }

  /** The unmasked data bits in walk order. */
  ghost function ReadBits(modules: Modules, version: nat, mask: nat): seq<bool>
    requires ValidVersion(version) && mask < 8 && Square(modules, Size(version))
  {
    var path := Path(version);
    seq(|path|, k requires 0 <= k < |path| =>
      At(modules, Size(version), path[k]) != Flipped(mask, path[k].0, path[k].1))
  }

  ghost predicate ParityValid(data: seq<seq<byte>>, ec: seq<seq<byte>>, ecLen: nat)
    requires |data| == |ec|
  {
    forall b :: 0 <= b < |data| ==> Vanishes(data[b] + ec[b], ecLen)
  }

  /**
   * A reader: the version and the mask from the checked words, the mask pattern from its tile, the walk,
   * de-interleaving, the parity check and the byte-mode segment.
   */
  ghost function Decode(modules: Modules, version: nat): Option<seq<byte>>
    requires ValidVersion(version) && Square(modules, Size(version))
  {
    var mask := MaskOf(ReadFormat(modules, Size(version)));
    if mask.None? || !NamesVersion(modules, version) then None
    else DecodeCodewords(BitsToBytes(ReadBits(modules, version, mask.value)), version)
  }

  ghost function DecodeCodewords(codewords: seq<byte>, version: nat): Option<seq<byte>>
    requires ValidVersion(version)
  {
    var sizes := BlockSizes(version);
    var data := ReadBlocks(codewords, 0, sizes);
    var ec := ReadBlocks(codewords, ColumnsCount(sizes, Longest(sizes)), EcSizes(version));
    if ParityValid(data, ec, EcLength(version)) then ReadPayload(Flatten(data), version) else None
  }

  // ------------------------------------------------------------ decode theorem

  lemma FormatBitAt(mask: nat, j: nat)
    requires mask < 8 && j < 15
    ensures |ToBits(FormatBits(mask), 15)| == 15
    ensures ToBits(FormatBits(mask), 15)[j] == (FormatBit(mask, 14 - j) == 1)
  {
    hide FormatBits;
    ToBitsShift(FormatBits(mask), 15, 14 - j);
  }

  lemma FormatRoundTrip(modules: Modules, size: nat, mask: nat)
    requires mask < 8 && size >= 21 && Square(modules, size)
    requires forall i :: 0 <= i < 15 ==> At(modules, size, SplitCell(size, i)) == (FormatBit(mask, i) == 1)
    ensures ReadFormat(modules, size) == FormatBits(mask)
  {
    hide FormatBits, FormatBit, At, SplitCell, ToBits, FromBits, Square;
    var format := FormatBits(mask);
    var s := seq(15, j requires 0 <= j < 15 => At(modules, size, SplitCell(size, 14 - j)));
    forall j | 0 <= j < 15 ensures s[j] == ToBits(format, 15)[j] {
      FormatBitAt(mask, j);
      assert s[j] == At(modules, size, SplitCell(size, 14 - j));
    }
    assert s == ToBits(format, 15);
    FormatRange(mask);
    FromToBits(format, 15);
  }

  lemma FormatRange(mask: nat)
    requires mask < 8
    ensures FormatBits(mask) < Exp2(15)
  {
    assert Exp2(8) == 256;
    assert Exp2(15) == 128 * Exp2(8);
  }

  predicate BitSet(info: nat, i: nat) { Shr(info, i) % 2 == 1 }

  lemma VersionBitAt(info: nat, j: nat)
    requires j < 18
    ensures |ToBits(info, 18)| == 18
    ensures ToBits(info, 18)[j] == BitSet(info, 17 - j)
  {
    ToBitsShift(info, 18, 17 - j);
  }

  lemma VersionRoundTrip(modules: Modules, size: nat, info: nat)
    requires size >= 21 && Square(modules, size) && info < Exp2(18)
    requires forall i :: 0 <= i < 18 ==> At(modules, size, VersionCell(size, i)) == BitSet(info, i)
    ensures ReadVersion(modules, size) == info
  {
    hide BitSet, At, VersionCell, ToBits, FromBits, Square;
    var s := seq(18, j requires 0 <= j < 18 => At(modules, size, VersionCell(size, 17 - j)));
    forall j | 0 <= j < 18 ensures s[j] == ToBits(info, 18)[j] {
      VersionBitAt(info, j);
      assert s[j] == At(modules, size, VersionCell(size, 17 - j));
    }
    assert s == ToBits(info, 18);
    FromToBits(info, 18);
  }

  lemma VersionRange(version: nat)
    requires 7 <= version <= 10
    ensures VersionInfo(version) < Exp2(18)
  {
    assert Exp2(8) == 256;
    assert Exp2(18) == 1024 * Exp2(8);
  }

  /** What the encoder guarantees about a finished symbol. */
  ghost predicate Carries(modules: Modules, version: nat, mask: nat, codewords: seq<byte>)
    requires ValidVersion(version) && mask < 8
  {
    && Square(modules, Size(version))
    && (forall i :: 0 <= i < 15 ==>
      At(modules, Size(version), SplitCell(Size(version), i)) == (FormatBit(mask, i) == 1))
    && (forall k :: 0 <= k < |Path(version)| ==> var x := Path(version)[k];
         At(modules, Size(version), x) == ((DataBit(codewords, k) == 1) != Mask(mask, x.0, x.1)))
    && NamesVersion(modules, version)
  }

  lemma DataBitIsBit(codewords: seq<byte>, k: nat)
    requires k < 8 * |codewords|
    ensures BytesToBits(codewords)[k] == (DataBit(codewords, k) == 1)
  {
    hide ToBits, BytesToBits, Shr;
    var i, j := k / 8, k % 8;
    BytesToBitsAt(codewords, i);
    ToBitsShift(codewords[i], 8, 7 - j);
    assert BytesToBits(codewords)[8 * i..8 * i + 8][j] == BytesToBits(codewords)[k];
  }

  /** The scanner recovers the codewords, possibly followed by remainder bits. */
  lemma CodewordsRoundTrip(modules: Modules, version: nat, mask: nat, codewords: seq<byte>)
    requires ValidVersion(version) && mask < 8 && Carries(modules, version, mask, codewords)
    requires |codewords| == TotalCodewords(version)
    ensures |BitsToBytes(ReadBits(modules, version, mask))| >= |codewords|
    ensures BitsToBytes(ReadBits(modules, version, mask))[..|codewords|] == codewords
  {
    hide Path, At, Mask, Flipped, DataBit, TotalCodewords, NamesVersion;
    var bits := ReadBits(modules, version, mask);
    var n := 8 * |codewords|;
    Capacity(version);
    forall k | 0 <= k < n ensures bits[k] == BytesToBits(codewords)[k] {
      DataBitIsBit(codewords, k);
      MaskTiles(mask, Path(version)[k].0, Path(version)[k].1);
    }
    assert bits == BytesToBits(codewords) + bits[n..];
    BitsOfBytes(codewords, bits[n..]);
  }

  /** What is left of the walk after the codewords reads as zeros. */
  lemma RemainderBits(modules: Modules, version: nat, mask: nat, codewords: seq<byte>, k: nat)
    requires ValidVersion(version) && mask < 8 && Carries(modules, version, mask, codewords)
    requires 8 * |codewords| <= k < |Path(version)|
    ensures !ReadBits(modules, version, mask)[k]
  {
    hide Path, At, Mask, Flipped, NamesVersion;
    MaskTiles(mask, Path(version)[k].0, Path(version)[k].1);
  }

  /** A symbol that carries the interleaved codewords of a payload decodes to that payload. */
  lemma DecodeRoundTrip(modules: Modules, version: nat, mask: nat, bytes: seq<byte>, data: seq<byte>, rest: seq<bool>)
    requires ValidVersion(version) && mask < 8 && Fits(|bytes|, version)
    requires |data| == Sum(BlockSizes(version)) && BytesToBits(data) == Segment(bytes, version) + rest
    requires Carries(modules, version, mask, Interleaved(data, version))
    ensures Decode(modules, version) == Some(bytes)
  {
    hide Segment, Interleaved, ReadFormat, MaskOf, FormatBits, ReadBits, Path, BlockSizes, EcLength, Longest,
      ReadPayload, ReadBlocks, Mask, TotalCodewords, NamesVersion;
    var codewords := Interleaved(data, version);
    FormatRoundTrip(modules, Size(version), mask);
    FormatReads(mask);
    InterleavedTotal(data, version);
    CodewordsRoundTrip(modules, version, mask, codewords);
    var read := BitsToBytes(ReadBits(modules, version, mask));
    assert read == codewords + read[|codewords|..];
    DecodesCodewords(data, version, read[|codewords|..]);
    PayloadRoundTrip(bytes, version, data, rest);
  }

  lemma InterleavedTotal(data: seq<byte>, version: nat)
    requires ValidVersion(version) && |data| == Sum(BlockSizes(version))
    ensures |Interleaved(data, version)| == TotalCodewords(version)
  {
    hide Interleaved, DataCodewords, EcLength, BlockSizes;
    InterleavedLength(data, version);
    SizesAddUp(version);
  }

  lemma DecodesCodewords(data: seq<byte>, version: nat, after: seq<byte>)
    requires ValidVersion(version) && |data| == Sum(BlockSizes(version))
    ensures DecodeCodewords(Interleaved(data, version) + after, version) == ReadPayload(data, version)
  {
    hide Interleaved, BlockSizes, EcLength, Longest, ReadPayload, ReadBlocks, Vanishes;
    var ecLen := EcLength(version);
    DeinterleaveRoundTrip(data, version, after);
    FlattenSplit(data, BlockSizes(version));
    var blocks := Split(data, BlockSizes(version));
    forall b | 0 <= b < |blocks| ensures Vanishes(blocks[b] + Parity(blocks[b], ecLen), ecLen) {
      ParityUnique(blocks[b], Parity(blocks[b], ecLen));
    }
    assert ParityValid(blocks, Parities(blocks, ecLen), ecLen);
  }

  // ------------------------------------------------------------------- encoder

  datatype Symbol = Symbol(version: nat, size: nat, modules: Modules)

  ghost predicate Cells01(m: Matrix, version: nat, mask: nat, codewords: seq<byte>)
    requires ValidVersion(version) && mask < 8
    reads m
  {
    && m.Length0 == m.Length1 == Size(version)
    && (forall k :: 0 <= k < |Path(version)| ==> var x := Path(version)[k];
         x.0 < Size(version) && x.1 < Size(version)
         && m[x.0, x.1] == Flip(DataBit(codewords, k), Mask(mask, x.0, x.1)))
    && (forall r: nat, c: nat :: r < Size(version) && c < Size(version) && Reserved(version, r, c) ==>
         m[r, c] == if FormatIndex(Size(version), r, c) >= 0 then FormatBit(mask, FormatIndex(Size(version), r, c))
                    else Pattern(version, r, c))
  }

  /** placeData, mask and format on a copy of the function patterns. */
  method DrawSymbol(reserved: Matrix, isReserved: array2<bool>, version: nat, codewords: seq<byte>, mask: nat)
    returns (m: Matrix)
    requires ValidVersion(version) && mask < 8
    requires reserved.Length0 == reserved.Length1 == Size(version)
    requires forall r: nat, c: nat :: r < Size(version) && c < Size(version) ==>
      reserved[r, c] == Pattern(version, r, c)
    requires MarksReserved(isReserved, version)
    ensures fresh(m) && Cells01(m, version, mask, codewords)
  {
    hide Pattern, Reserved, Path, DataBit, Mask, FormatBit, FormatIndex;
    var size := Size(version);
    OddSize(version);
    m := new int[size, size]((r: nat, c: nat) requires r < size && c < size reads reserved
      requires reserved.Length0 == reserved.Length1 == size => reserved[r, c]);
    ghost var pattern := (r: nat, c: nat) => PatternAt(version, r, c);
    PlaceData(m, codewords, isReserved, version, pattern);
    PathExact(version);
    ApplyMask(m, isReserved, version, mask);
    assert forall k :: 0 <= k < |Path(version)| ==> Path(version)[k] in Path(version);
    assert forall k :: 0 <= k < |Path(version)| ==> var x := Path(version)[k];
      m[x.0, x.1] == Flip(DataBit(codewords, k), Mask(mask, x.0, x.1));
    ApplyFormat(m, mask);
    forall r, c | 0 <= r < size && 0 <= c < size && FormatIndex(size, r, c) >= 0 ensures Reserved(version, r, c) {
      FormatIsReserved(version, r, c);
    }
  }

  function PatternAt(version: nat, r: nat, c: nat): int
    requires ValidVersion(version)
  {
    Pattern(version, r, c)
  }

  function Row(m: Matrix, r: nat): seq<bool>
    reads m
    requires r < m.Length0
  {
    seq(m.Length1, c requires 0 <= c < m.Length1 reads m => m[r, c] == 1)
  }

  function ToModules(m: Matrix): Modules
    reads m
  {
    seq(m.Length0, r requires 0 <= r < m.Length0 reads m => Row(m, r))
  }

  lemma DataBitRange(codewords: seq<byte>, k: nat)
    ensures DataBit(codewords, k) == 0 || DataBit(codewords, k) == 1
  {}

  lemma FormatCells(version: nat, i: nat)
    requires ValidVersion(version) && i < 15
    ensures Size(version) >= 21
    ensures var (s, x) := (Size(version), SplitCell(Size(version), i));
      x.0 < s && x.1 < s && FormatIndex(s, x.0, x.1) == i && Reserved(version, x.0, x.1)
  {}

  /** Every module of the symbol a mask produces: the data along the walk, both format copies, the patterns. */
  ghost predicate Shows(modules: Modules, version: nat, mask: nat, codewords: seq<byte>)
    requires ValidVersion(version) && mask < 8
  {
    && Square(modules, Size(version))
    && (forall k :: 0 <= k < |Path(version)| ==> var x := Path(version)[k];
         At(modules, Size(version), x) == ((DataBit(codewords, k) == 1) != Mask(mask, x.0, x.1)))
    && (forall r: nat, c: nat :: r < Size(version) && c < Size(version) && Reserved(version, r, c) ==>
         modules[r][c] == (1 == if FormatIndex(Size(version), r, c) >= 0
                                then FormatBit(mask, FormatIndex(Size(version), r, c)) else Pattern(version, r, c)))
  }

  lemma DrawnShows(m: Matrix, version: nat, mask: nat, codewords: seq<byte>)
    requires ValidVersion(version) && mask < 8 && Cells01(m, version, mask, codewords)
    ensures Shows(ToModules(m), version, mask, codewords)
  {
    hide Reserved, Path, DataBit, Mask, FormatBit, FormatIndex, Pattern;
    var s, modules := Size(version), ToModules(m);
    forall r: nat, c: nat | r < s && c < s ensures modules[r][c] == (m[r, c] == 1) {
      assert modules[r] == Row(m, r);
    }
    forall k | 0 <= k < |Path(version)|
      ensures var x := Path(version)[k];
        At(modules, s, x) == ((DataBit(codewords, k) == 1) != Mask(mask, x.0, x.1))
    {
      var x := Path(version)[k];
      DataBitRange(codewords, k);
      assert modules[x.0] == Row(m, x.0);
    }
  }

  lemma ShowsCarries(modules: Modules, version: nat, mask: nat, codewords: seq<byte>)
    requires ValidVersion(version) && mask < 8 && Shows(modules, version, mask, codewords)
    ensures Carries(modules, version, mask, codewords)
  {
    hide Reserved, Path, DataBit, Mask, FormatBit, FormatIndex, Pattern, SplitCell;
    var s := Size(version);
    OddSize(version);
    forall i | 0 <= i < 15
      ensures At(modules, s, SplitCell(s, i)) == (FormatBit(mask, i) == 1)
    {
      FormatCells(version, i);
    }
    if version >= 7 {
      ShowsVersion(modules, version, mask, codewords);
    }
  }

  lemma ShowsVersion(modules: Modules, version: nat, mask: nat, codewords: seq<byte>)
    requires 7 <= version <= 10 && mask < 8 && Shows(modules, version, mask, codewords)
    ensures NamesVersion(modules, version)
  {
    hide Reserved, Path, DataBit, Mask, FormatBit, FormatIndex, Pattern, VersionCell, VersionOf, VersionInfo, Shr;
    var s := Size(version);
    forall i | 0 <= i < 18
      ensures At(modules, s, VersionCell(s, i)) == BitSet(VersionInfo(version), i)
    {
      VersionCells(version, i);
    }
    VersionRange(version);
    VersionRoundTrip(modules, s, VersionInfo(version));
    VersionReads(version);
  }

  lemma VersionCells(version: nat, i: nat)
    requires 7 <= version <= 10 && i < 18
    ensures var (s, x) := (Size(version), VersionCell(Size(version), i));
      x.0 < s && x.1 < s && FormatIndex(s, x.0, x.1) < 0 && Reserved(version, x.0, x.1)
      && Pattern(version, x.0, x.1) == Shr(VersionInfo(version), i) % 2
  {
    hide VersionInfo, Shr;
    InfoCell(version, i, i / 3, Size(version) - 11 + i % 3);
  }

  /** The mask and the codewords leave no module open. */
  lemma ShowsUnique(a: Modules, b: Modules, version: nat, mask: nat, codewords: seq<byte>)
    requires ValidVersion(version) && mask < 8
    requires Shows(a, version, mask, codewords) && Shows(b, version, mask, codewords)
    ensures a == b
  {
    hide Reserved, Path, DataBit, Mask, FormatBit, FormatIndex, Pattern;
    PathExact(version);
    forall r: nat, c: nat | r < Size(version) && c < Size(version) ensures a[r][c] == b[r][c] {
      if !Reserved(version, r, c) {
        assert (r, c) in Path(version);
        var k :| 0 <= k < |Path(version)| && Path(version)[k] == (r, c);
        assert At(a, Size(version), Path(version)[k]) == At(b, Size(version), Path(version)[k]);
      }
    }
    assert forall r :: 0 <= r < Size(version) ==> a[r] == b[r];
  }

  /** The symbol of this mask scores lowest; among equals the lower mask wins. */
  ghost predicate Wins(modules: Modules, version: nat, mask: nat, among: nat, codewords: seq<byte>,
    penalty: Modules -> int)
    requires ValidVersion(version) && mask < among <= 8
  {
    && Shows(modules, version, mask, codewords)
    && (forall k: nat, other: Modules :: k < among && Shows(other, version, k, codewords) ==>
         if k < mask then penalty(modules) < penalty(other) else penalty(modules) <= penalty(other))
  }

  /** Drawing one more mask keeps the better of two symbols. */
  lemma NextMask(best: Modules, won: nat, drawn: Modules, version: nat, mask: nat, codewords: seq<byte>,
      penalty: Modules -> int)
    requires ValidVersion(version) && won < mask < 8
    requires Wins(best, version, won, mask, codewords, penalty) && Shows(drawn, version, mask, codewords)
    ensures if penalty(drawn) < penalty(best) then Wins(drawn, version, mask, mask + 1, codewords, penalty)
            else Wins(best, version, won, mask + 1, codewords, penalty)
  {
    hide Shows;
    forall other: Modules | Shows(other, version, mask, codewords) ensures other == drawn {
      ShowsUnique(other, drawn, version, mask, codewords);
    }
  }

  lemma FirstMask(drawn: Modules, version: nat, codewords: seq<byte>, penalty: Modules -> int)
    requires ValidVersion(version) && Shows(drawn, version, 0, codewords)
    ensures Wins(drawn, version, 0, 1, codewords, penalty)
  {
    hide Shows;
    forall other: Modules | Shows(other, version, 0, codewords) ensures other == drawn {
      ShowsUnique(other, drawn, version, 0, codewords);
    }
  }

  /** Data codewords as buildDataCodewords makes them: the segment and whatever fills the version up. */
  ghost predicate Holds(data: seq<byte>, bytes: seq<byte>, version: nat)
    requires ValidVersion(version)
  {
    && |data| == DataCodewords(version)
    && var n := |Segment(bytes, version)|;
    && n <= 8 * |data|
    && TerminatedBytes(n, |data|) <= |data| && n <= 8 * TerminatedBytes(n, |data|)
    && BytesToBits(data) == Segment(bytes, version) + FalseBits(8 * TerminatedBytes(n, |data|) - n)
                          + BytesToBits(PadBytes(|data| - TerminatedBytes(n, |data|)))
  }

  /** The finished symbol is the best-scoring drawing of the interleaved codewords. */
  ghost predicate BestDrawing(modules: Modules, version: nat, bytes: seq<byte>, penalty: Modules -> int)
    requires ValidVersion(version)
  {
    exists data: seq<byte>, mask: nat :: mask < 8 && |data| == Sum(BlockSizes(version)) && Holds(data, bytes, version)
      && Wins(modules, version, mask, 8, Interleaved(data, version), penalty)
  }

  /**
   * encode: for every penalty function, every payload of at most 271 bytes comes back from the
   * scanner, and the symbol is the best-scoring one of the eight; longer payloads are refused.
   */
  method Encode(t: Tables, bytes: seq<byte>, penalty: Modules -> int) returns (r: Option<Symbol>)
    requires t.Valid()
    ensures r.None? <==> |bytes| > 271
    ensures r.Some? ==> var s := r.value;
      && ValidVersion(s.version) && s.size == Size(s.version) && Square(s.modules, s.size)
      && Fits(|bytes|, s.version) && (forall v :: 1 <= v < s.version ==> !Fits(|bytes|, v))
      && Decode(s.modules, s.version) == Some(bytes)
      && BestDrawing(s.modules, s.version, bytes, penalty)
  {
    hide Carries, Decode, Segment, Shows, Wins, Interleaved, BlockSizes, DataCodewords, PadBytes, BytesToBits,
      FalseBits, TerminatedBytes;
    var chosen := ChooseVersion(|bytes|);
    if chosen.None? {
      return None;
    }
    var version := chosen.value;
    var data := BuildDataCodewords(bytes, version);
    SizesAddUp(version);
    var codewords := Interleave(t, data, version);
    var modules := DrawBest(version, codewords, penalty);
    ghost var mask: nat :| mask < 8 && Wins(modules, version, mask, 8, codewords, penalty);
    WinnerShows(modules, version, mask, 8, codewords, penalty);
    ShowsCarries(modules, version, mask, codewords);
    ghost var rest := BytesToBits(data)[|Segment(bytes, version)|..];
    assert BytesToBits(data) == Segment(bytes, version) + rest;
    DecodeRoundTrip(modules, version, mask, bytes, data, rest);
    r := Some(Symbol(version, Size(version), modules));
  }

  /** The function patterns and the map of the modules they occupy. */
  method DrawPatterns(version: nat) returns (reserved: Matrix, isReserved: array2<bool>)
    requires ValidVersion(version)
    ensures fresh(reserved) && fresh(isReserved) && MarksReserved(isReserved, version)
    ensures reserved.Length0 == reserved.Length1 == Size(version)
    ensures forall r: nat, c: nat :: r < Size(version) && c < Size(version) ==> reserved[r, c] == Pattern(version, r, c)
  {
    hide Pattern, Reserved;
    var size := Size(version);
    reserved := new int[size, size]((r, c) => -1);
    PlaceFunctionPatterns(reserved, version);
    var drawn := reserved;
    isReserved := new bool[size, size]((r: nat, c: nat) requires r < size && c < size reads drawn
      requires drawn.Length0 == drawn.Length1 == size => drawn[r, c] != -1);
    forall r: nat, c: nat | r < size && c < size ensures isReserved[r, c] == Reserved(version, r, c) {
      PatternIsReserved(version, r, c);
    }
  }

  lemma WinnerShows(modules: Modules, version: nat, mask: nat, among: nat, codewords: seq<byte>,
      penalty: Modules -> int)
    requires ValidVersion(version) && mask < among <= 8 && Wins(modules, version, mask, among, codewords, penalty)
    ensures Shows(modules, version, mask, codewords)
  {}

  /** Tries all eight masks and keeps the first symbol with the lowest score. */
  method DrawBest(version: nat, codewords: seq<byte>, penalty: Modules -> int) returns (best: Modules)
    requires ValidVersion(version)
    ensures exists mask: nat :: mask < 8 && Wins(best, version, mask, 8, codewords, penalty)
    ensures Square(best, Size(version))
  {
    hide Cells01, Pattern, Shows, Wins, MarksReserved;
    var size := Size(version);
    var reserved, isReserved := DrawPatterns(version);
    best := [];
    var bestScore := 0;
    ghost var won: nat := 0;
    for mask := 0 to 8
      invariant forall r: nat, c: nat :: r < size && c < size ==> reserved[r, c] == Pattern(version, r, c)
      invariant MarksReserved(isReserved, version)
      invariant mask > 0 ==> won < mask && Wins(best, version, won, mask, codewords, penalty)
      invariant mask > 0 ==> bestScore == penalty(best)
    {
      var m := DrawSymbol(reserved, isReserved, version, codewords, mask);
      DrawnShows(m, version, mask, codewords);
      var modules := ToModules(m);
      var score := penalty(modules);
      if mask == 0 {
        FirstMask(modules, version, codewords, penalty);
      } else {
        NextMask(best, won, modules, version, mask, codewords, penalty);
      }
      if mask == 0 || score < bestScore {
        best, bestScore, won := modules, score, mask;
      }
    }
    WinnerIsSquare(best, version, won, codewords, penalty);
  }

  lemma WinnerIsSquare(modules: Modules, version: nat, mask: nat, codewords: seq<byte>, penalty: Modules -> int)
    requires ValidVersion(version) && mask < 8 && Wins(modules, version, mask, 8, codewords, penalty)
    ensures Square(modules, Size(version))
  {}
}
