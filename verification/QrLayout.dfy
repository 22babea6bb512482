/**
 * Geometry of the QR matrix in app/src/qr.js: which modules are reserved, the zigzag walk
 * over the others, and the capacity of each version.
 */
module QrLayout {

  type Cell = (nat, nat)

  function Size(version: nat): nat { 17 + version * 4 }

  predicate ValidVersion(version: nat) { 1 <= version <= 10 }

  // ------------------------------------------------------------------ tables

  /** Middle alignment centre of versions 7 to 10. */
  function Middle(version: nat): nat { 8 + 2 * version }

  /** Alignment pattern centres. */
  function Alignment(version: nat): (centers: seq<nat>)
    requires ValidVersion(version)
  {
    if version == 1 then []
    else if version == 2 then [6, 18]
    else if version == 3 then [6, 22]
    else if version == 4 then [6, 26]
    else if version == 5 then [6, 30]
    else if version == 6 then [6, 34]
    else if version == 7 then [6, 22, 38]
    else if version == 8 then [6, 24, 42]
    else if version == 9 then [6, 26, 46]
    else [6, 28, 50]
  }

  /** Data codewords of a version at error-correction level L. */
  function DataCodewords(version: nat): nat
    requires ValidVersion(version)
  {
    [19, 34, 55, 80, 108, 136, 156, 194, 232, 274][version - 1]
  }

  /** Error-correction codewords per block. */
  function EcLength(version: nat): (n: nat)
    requires ValidVersion(version)
    ensures 0 < n <= 30
  {
    [7, 10, 15, 20, 26, 18, 20, 24, 30, 18][version - 1]
  }

  /** Data codewords of each block. */
  function BlockSizes(version: nat): (sizes: seq<nat>)
    requires ValidVersion(version)
    ensures 1 <= |sizes| <= 4
  {
    if version <= 5 then [DataCodewords(version)]
    else if version == 6 then [68, 68]
    else if version == 7 then [78, 78]
    else if version == 8 then [97, 97]
    else if version == 9 then [116, 116]
    else [68, 68, 69, 69]
  }

  function TotalCodewords(version: nat): nat
    requires ValidVersion(version)
  {
    DataCodewords(version) + EcLength(version) * |BlockSizes(version)|
  }

  // ---------------------------------------------------------------- reserved

  predicate Near(x: int, center: int) { center - 2 <= x <= center + 2 }

  /** The three finder corners carry no alignment pattern. */
  predicate FinderCorner(size: nat, r: nat, c: nat) {
    (r == 6 && c == 6) || (r == 6 && c == size - 7) || (r == size - 7 && c == 6)
  }

  ghost predicate InAlignment(version: nat, r: int, c: int)
    requires ValidVersion(version)
  {
    var centers := Alignment(version);
    exists i, j :: 0 <= i < |centers| && 0 <= j < |centers| && !FinderCorner(Size(version), centers[i], centers[j])
      && Near(r, centers[i]) && Near(c, centers[j])
  }

  /** The same set without the quantifier. */
  predicate Aligned(version: nat, r: int, c: int) {
    var (a, b) := (Middle(version), Size(version) - 7);
    if version == 1 then false
    else if version <= 6 then Near(r, b) && Near(c, b)
    else
      || (Near(r, 6) && Near(c, a))
      || (Near(r, a) && (Near(c, 6) || Near(c, a) || Near(c, b)))
      || (Near(r, b) && (Near(c, a) || Near(c, b)))
  }

  predicate InFinder(size: nat, r: int, c: int) {
    (r <= 7 && (c <= 7 || c >= size - 8)) || (r >= size - 8 && c <= 7)
  }

  predicate InFormat(size: nat, r: int, c: int) {
    (r == 8 && (c <= 8 || c >= size - 8)) || (c == 8 && (r <= 8 || r >= size - 8))
  }

  predicate InVersionInfo(version: nat, r: int, c: int) {
    var s := Size(version);
    version >= 7 && ((r < 6 && s - 11 <= c <= s - 9) || (c < 6 && s - 11 <= r <= s - 9))
  }

  /** The modules that carry no data. */
  predicate Reserved(version: nat, r: int, c: int) {
    || InFinder(Size(version), r, c)
    || r == 6 || c == 6
    || Aligned(version, r, c)
    || InFormat(Size(version), r, c)
    || InVersionInfo(version, r, c)
  }

  lemma AlignedIsInAlignment(version: nat, r: int, c: int)
    requires ValidVersion(version)
    ensures Aligned(version, r, c) <==> InAlignment(version, r, c)
  {
    var centers := Alignment(version);
    var (a, b, s) := (Middle(version), Size(version) - 7, Size(version));
    assert |centers| == if version == 1 then 0 else if version <= 6 then 2 else 3;
    assert |centers| >= 2 ==> centers[0] == 6 && centers[|centers| - 1] == b;
    assert |centers| == 3 ==> centers[1] == a;
    if Aligned(version, r, c) {
      var i := if Near(r, b) then |centers| - 1 else if Near(r, 6) then 0 else 1;
      var j := if Near(c, b) then |centers| - 1 else if Near(c, 6) then 0 else 1;
      assert !FinderCorner(s, centers[i], centers[j]) && Near(r, centers[i]) && Near(c, centers[j]);
    }
  }

  // ----------------------------------------------------------------- the walk

  /** The non-reserved ones of the two modules visited in one row of a column pair. */
  function RowCells(res: (nat, nat) -> bool, row: nat, col: nat): seq<Cell>
    requires col > 0
  {
    (if res(row, col) then [] else [(row, col)]) + (if res(row, col - 1) then [] else [(row, col - 1)])
  }

  /** Rows i.. of one column pair. */
  function PairWalk(size: nat, res: (nat, nat) -> bool, col: nat, upward: bool, i: nat): seq<Cell>
    requires col > 0 && i <= size
    decreases size - i
  {
    if i == size then []
    else RowCells(res, if upward then size - 1 - i else i, col) + PairWalk(size, res, col, upward, i + 1)
  }

  /** The timing column is skipped. */
  function SkipTiming(col: nat): nat { if col == 6 then 5 else col }

  /** Column pairs from col leftwards, alternating direction. */
  function Walk(size: nat, res: (nat, nat) -> bool, col: int, upward: bool): seq<Cell>
    decreases col
  {
    if col <= 0 then []
    else PairWalk(size, res, SkipTiming(col), upward, 0) + Walk(size, res, SkipTiming(col) - 2, !upward)
  }

  /** The order in which placeData fills the modules. */
  function DataPath(size: nat, res: (nat, nat) -> bool): seq<Cell> {
    Walk(size, res, size - 1, true)
  }

  predicate NoDuplicates(s: seq<Cell>) {
    forall i, j :: 0 <= i < j < |s| ==> s[i] != s[j]
  }

  lemma EmptyNoDuplicates()
    ensures NoDuplicates([])
  {}

  lemma ConcatNoDuplicates(s: seq<Cell>, t: seq<Cell>)
    requires NoDuplicates(s) && NoDuplicates(t) && forall x: Cell :: x in s ==> x !in t
    ensures NoDuplicates(s + t)
  {
    assert forall i :: 0 <= i < |s| ==> s[i] in s;
    assert forall i :: 0 <= i < |t| ==> t[i] in t;
  }

  lemma RowCellsExact(res: (nat, nat) -> bool, row: nat, col: nat)
    requires col > 0
    ensures NoDuplicates(RowCells(res, row, col))
    ensures forall x: Cell :: x in RowCells(res, row, col) <==>
      x.0 == row && (x.1 == col || x.1 == col - 1) && !res(x.0, x.1)
  {}

  lemma {:induction false} PairWalkExact(size: nat, res: (nat, nat) -> bool, col: nat, upward: bool, i: nat)
    requires col > 0 && i <= size
    ensures NoDuplicates(PairWalk(size, res, col, upward, i))
    ensures forall x: Cell :: x in PairWalk(size, res, col, upward, i) <==>
      && (x.1 == col || x.1 == col - 1) && !res(x.0, x.1)
      && (if upward then x.0 < size - i else i <= x.0 < size)
    decreases size - i
  {
    hide NoDuplicates, RowCells;
    if i < size {
      var row := if upward then size - 1 - i else i;
      var here := RowCells(res, row, col);
      var rest := PairWalk(size, res, col, upward, i + 1);
      PairWalkExact(size, res, col, upward, i + 1);
      RowCellsExact(res, row, col);
      ConcatNoDuplicates(here, rest);
    } else {
      EmptyNoDuplicates();
    }
  }

  lemma {:induction false} WalkExact(size: nat, res: (nat, nat) -> bool, col: int, upward: bool)
    requires -1 <= col && (col >= 6 ==> col % 2 == 0) && (col < 6 ==> col % 2 == 1)
    ensures NoDuplicates(Walk(size, res, col, upward))
    ensures forall x: Cell :: x in Walk(size, res, col, upward) <==>
      x.0 < size && x.1 <= col && x.1 != 6 && !res(x.0, x.1)
    decreases col
  {
    hide NoDuplicates, PairWalk, RowCells;
    if col <= 0 {
      EmptyNoDuplicates();
    } else {
      var k: int := SkipTiming(col);
      var here := PairWalk(size, res, k, upward, 0);
      var rest := Walk(size, res, k - 2, !upward);
      PairWalkExact(size, res, k, upward, 0);
      WalkExact(size, res, k - 2, !upward);
      ConcatNoDuplicates(here, rest);
    }
  }

  /**
   * For every odd size of at least 7 the walk visits each non-reserved module outside the timing
   * column exactly once; below 7 it never reaches column 0.
   */
  lemma DataPathExact(size: nat, res: (nat, nat) -> bool)
    requires size % 2 == 1
    ensures size >= 7 ==> NoDuplicates(DataPath(size, res))
    ensures size >= 7 ==> forall x: Cell :: x in DataPath(size, res) <==>
      x.0 < size && x.1 < size && x.1 != 6 && !res(x.0, x.1)
    ensures size < 7 ==> forall x: Cell :: x in DataPath(size, res) ==> x.1 != 0
  {
    hide NoDuplicates, Walk;
    if size >= 7 {
      WalkExact(size, res, size - 1, true);
    } else {
      ShortWalk(size, res, size - 1, true);
    }
  }

  lemma {:induction false} ShortWalk(size: nat, res: (nat, nat) -> bool, col: int, upward: bool)
    requires col < 6 && col % 2 == 0
    ensures forall x: Cell :: x in Walk(size, res, col, upward) ==> x.1 != 0
    decreases col
  {
    hide PairWalk, NoDuplicates;
    if col > 0 {
      PairWalkExact(size, res, col, upward, 0);
      ShortWalk(size, res, col - 2, !upward);
    }
  }

  // ----------------------------------------------------------------- capacity

  ghost function Rectangle(r0: nat, r1: nat, c0: nat, c1: nat): set<Cell> {
    set r: nat, c: nat | r0 <= r < r1 && c0 <= c < c1 :: (r, c)
  }

  lemma {:induction false} RowSize(r: nat, c0: nat, c1: nat)
    requires c0 <= c1
    ensures |Rectangle(r, r + 1, c0, c1)| == c1 - c0
    decreases c1
  {
    if c0 < c1 {
      RowSize(r, c0, c1 - 1);
      assert Rectangle(r, r + 1, c0, c1) == Rectangle(r, r + 1, c0, c1 - 1) + {(r, c1 - 1)};
    } else {
      assert Rectangle(r, r + 1, c0, c1) == {};
    }
  }

  function Area(h: nat, w: nat): nat { h * w }

  lemma NextRow(h: nat, w: nat)
    ensures Area(h + 1, w) == Area(h, w) + w
  {}

  lemma NoRow(w: nat)
    ensures Area(0, w) == 0
  {}

  lemma {:induction false} RectangleSize(r0: nat, r1: nat, c0: nat, c1: nat)
    requires r0 <= r1 && c0 <= c1
    ensures |Rectangle(r0, r1, c0, c1)| == Area(r1 - r0, c1 - c0)
    decreases r1
  {
    hide Area, Rectangle;
    NoRow(c1 - c0);
    RectangleRows(r0, r1, c0, c1);
    if r0 < r1 {
      RectangleSize(r0, r1 - 1, c0, c1);
      RowSize(r1 - 1, c0, c1);
      NextRow(r1 - 1 - r0, c1 - c0);
    }
  }

  lemma RectangleRows(r0: nat, r1: nat, c0: nat, c1: nat)
    requires r0 <= r1
    ensures r0 == r1 ==> Rectangle(r0, r1, c0, c1) == {}
    ensures r0 < r1 ==>
      && Rectangle(r0, r1, c0, c1) == Rectangle(r0, r1 - 1, c0, c1) + Rectangle(r1 - 1, r1, c0, c1)
      && Rectangle(r0, r1 - 1, c0, c1) !! Rectangle(r1 - 1, r1, c0, c1)
  {}

  /** Every counted module lies left of column c0, or above row r0 in the band c0..c1. */
  ghost predicate Before(s: set<Cell>, r0: nat, c0: nat, c1: nat) {
    forall x :: x in s ==> x.1 < c0 || (x.1 < c1 && x.0 < r0)
  }

  lemma AddRectangle(version: nat, s: set<Cell>, r0: nat, r1: nat, c0: nat, c1: nat) returns (t: set<Cell>)
    requires r0 <= r1 <= Size(version) && c0 <= c1 <= Size(version) && Before(s, r0, c0, c1)
    requires s <= FreeCells(version)
    requires forall r, c :: r0 <= r < r1 && c0 <= c < c1 ==> !Reserved(version, r, c)
    ensures t <= FreeCells(version) && |t| == |s| + Area(r1 - r0, c1 - c0)
    ensures forall r: nat :: r >= r1 ==> Before(t, r, c0, c1)
    ensures forall r: nat, c: nat, d: nat :: c >= c1 ==> Before(t, r, c, d)
  {
    RectangleSize(r0, r1, c0, c1);
    t := s + Rectangle(r0, r1, c0, c1);
    assert s !! Rectangle(r0, r1, c0, c1);
  }

  ghost function FreeCells(version: nat): set<Cell> {
    set r: nat, c: nat | r < Size(version) && c < Size(version) && !Reserved(version, r, c) :: (r, c)
  }

  lemma NoneBefore()
    ensures forall r: nat, c: nat, d: nat :: Before({}, r, c, d)
  {}

  lemma CapacityFirst()
    ensures |FreeCells(1)| >= 8 * TotalCodewords(1)
  {
    hide FreeCells, Before;
    NoneBefore();
    var t := AddRectangle(1, {}, 9, 13, 0, 6);
    t := AddRectangle(1, t, 9, 13, 7, 9);
    t := AddRectangle(1, t, 0, 6, 9, 13);
    t := AddRectangle(1, t, 7, 21, 9, 13);
    t := AddRectangle(1, t, 9, 21, 13, 21);
    Subset(t, FreeCells(1));
  }

  function AreaSmall(s: nat): nat
    requires s >= 25
  {
    Area(s - 17, 6) + Area(s - 17, 2) + Area(6, s - 18) + Area(s - 7, s - 18) + Area(6, 1) + Area(s - 16, 1)
    + Area(4, 1) + Area(s - 18, 4) + Area(4, 4) + Area(s - 9, 4)
  }

  lemma CapacitySmall(version: nat)
    requires 2 <= version <= 6
    ensures |FreeCells(version)| >= AreaSmall(Size(version))
  {
    hide FreeCells, Before, Area;
    NoneBefore();
    var s := Size(version);
    var t := AddRectangle(version, {}, 9, s - 8, 0, 6);
    t := AddRectangle(version, t, 9, s - 8, 7, 9);
    t := AddRectangle(version, t, 0, 6, 9, s - 9);
    t := AddRectangle(version, t, 7, s, 9, s - 9);
    t := AddRectangle(version, t, 0, 6, s - 9, s - 8);
    t := AddRectangle(version, t, 7, s - 9, s - 9, s - 8);
    t := AddRectangle(version, t, s - 4, s, s - 9, s - 8);
    t := AddRectangle(version, t, 9, s - 9, s - 8, s - 4);
    t := AddRectangle(version, t, s - 4, s, s - 8, s - 4);
    t := AddRectangle(version, t, 9, s, s - 4, s);
    Subset(t, FreeCells(version));
  }

  function AreaCorner(s: nat, a: nat): nat
    requires a >= 22 && s - 11 >= a + 3
  {
    Area(s - 20, 4) + Area(a - 11, 2) + Area(s - 14 - a, 2) + Area(a - 11, 2) + Area(s - 11 - a, 2)
  }

  function AreaLeft(s: nat, a: nat): nat
    requires a >= 22 && s - 11 >= a + 3
  {
    AreaCorner(s, a)
    + Area(6, a - 11) + Area(s - 7, a - 11) + Area(4, 5) + Area(a - 11, 5) + Area(s - 12 - a, 5) + Area(4, 5)
  }

  /** The columns below the upper left finder. */
  lemma CapacityCorner(version: nat) returns (t: set<Cell>)
    requires 7 <= version <= 10
    ensures t <= FreeCells(version) && |t| == AreaCorner(Size(version), Middle(version))
    ensures forall r: nat, c: nat, d: nat :: c >= 9 ==> Before(t, r, c, d)
  {
    hide FreeCells, Before, Area;
    NoneBefore();
    var (s, a) := (Size(version), Middle(version));
    t := AddRectangle(version, {}, 9, s - 11, 0, 4);
    t := AddRectangle(version, t, 9, a - 2, 4, 6);
    t := AddRectangle(version, t, a + 3, s - 11, 4, 6);
    t := AddRectangle(version, t, 9, a - 2, 7, 9);
    t := AddRectangle(version, t, a + 3, s - 8, 7, 9);
  }

  /** The columns up to the middle alignment pattern. */
  lemma CapacityLeft(version: nat) returns (t: set<Cell>)
    requires 7 <= version <= 10
    ensures t <= FreeCells(version) && |t| == AreaLeft(Size(version), Middle(version))
    ensures forall r: nat, c: nat, d: nat :: c >= Middle(version) + 3 ==> Before(t, r, c, d)
  {
    hide FreeCells, Before, Area, AreaCorner;
    var (s, a) := (Size(version), Middle(version));
    t := CapacityCorner(version);
    t := AddRectangle(version, t, 0, 6, 9, a - 2);
    t := AddRectangle(version, t, 7, s, 9, a - 2);
    t := AddRectangle(version, t, 0, 4, a - 2, a + 3);
    t := AddRectangle(version, t, 9, a - 2, a - 2, a + 3);
    t := AddRectangle(version, t, a + 3, s - 9, a - 2, a + 3);
    t := AddRectangle(version, t, s - 4, s, a - 2, a + 3);
  }

  function AreaInner(s: nat, a: nat): nat
    requires a >= 22 && s - 11 >= a + 3
  {
    Area(6, s - 14 - a) + Area(s - 7, s - 14 - a) + Area(s - 7, 2) + Area(a - 9, 1) + Area(s - 12 - a, 1) + Area(4, 1)
  }

  function AreaRight(s: nat, a: nat): nat
    requires a >= 22 && s - 11 >= a + 3
  {
    AreaInner(s, a) + Area(a - 11, 4) + Area(s - 12 - a, 4) + Area(4, 4) + Area(s - 9, 4)
  }

  /** Those up to the right finder. */
  lemma CapacityInner(version: nat, left: set<Cell>) returns (t: set<Cell>)
    requires 7 <= version <= 10 && left <= FreeCells(version)
    requires forall r: nat, c: nat, d: nat :: c >= Middle(version) + 3 ==> Before(left, r, c, d)
    ensures t <= FreeCells(version) && |t| == |left| + AreaInner(Size(version), Middle(version))
    ensures forall r: nat, c: nat, d: nat :: c >= Size(version) - 8 ==> Before(t, r, c, d)
  {
    hide FreeCells, Before, Area;
    var (s, a) := (Size(version), Middle(version));
    t := AddRectangle(version, left, 0, 6, a + 3, s - 11);
    t := AddRectangle(version, t, 7, s, a + 3, s - 11);
    t := AddRectangle(version, t, 7, s, s - 11, s - 9);
    t := AddRectangle(version, t, 7, a - 2, s - 9, s - 8);
    t := AddRectangle(version, t, a + 3, s - 9, s - 9, s - 8);
    t := AddRectangle(version, t, s - 4, s, s - 9, s - 8);
  }

  /** The remaining columns. */
  lemma CapacityRight(version: nat, left: set<Cell>) returns (t: set<Cell>)
    requires 7 <= version <= 10 && left <= FreeCells(version)
    requires forall r: nat, c: nat, d: nat :: c >= Middle(version) + 3 ==> Before(left, r, c, d)
    ensures t <= FreeCells(version) && |t| == |left| + AreaRight(Size(version), Middle(version))
  {
    hide FreeCells, Before, Area, AreaInner;
    var (s, a) := (Size(version), Middle(version));
    t := CapacityInner(version, left);
    t := AddRectangle(version, t, 9, a - 2, s - 8, s - 4);
    t := AddRectangle(version, t, a + 3, s - 9, s - 8, s - 4);
    t := AddRectangle(version, t, s - 4, s, s - 8, s - 4);
    t := AddRectangle(version, t, 9, s, s - 4, s);
  }

  lemma AreasSuffice()
    ensures AreaSmall(25) >= 8 * TotalCodewords(2) && AreaSmall(29) >= 8 * TotalCodewords(3)
    ensures AreaSmall(33) >= 8 * TotalCodewords(4) && AreaSmall(37) >= 8 * TotalCodewords(5)
    ensures AreaSmall(41) >= 8 * TotalCodewords(6)
    ensures AreaLeft(45, 22) + AreaRight(45, 22) >= 8 * TotalCodewords(7)
    ensures AreaLeft(49, 24) + AreaRight(49, 24) >= 8 * TotalCodewords(8)
    ensures AreaLeft(53, 26) + AreaRight(53, 26) >= 8 * TotalCodewords(9)
    ensures AreaLeft(57, 28) + AreaRight(57, 28) >= 8 * TotalCodewords(10)
  {}

  lemma Subset(t: set<Cell>, u: set<Cell>)
    requires t <= u
    ensures |t| <= |u|
  {
    assert u == t + (u - t);
  }

  /** A sequence has at least as many elements as distinct values. */
  lemma {:induction false} Distinct(s: seq<Cell>, t: set<Cell>)
    requires forall x :: x in t ==> x in s
    ensures |t| <= |s|
  {
    if s == [] {
      assert t == {};
    } else {
      var r := t - {s[0]};
      Distinct(s[1..], r);
      Subset(t, r + {s[0]});
    }
  }

  lemma FreeCellsSuffice(version: nat)
    requires ValidVersion(version)
    ensures |FreeCells(version)| >= 8 * TotalCodewords(version)
  {
    hide FreeCells, Before, TotalCodewords, AreaSmall, AreaLeft, AreaRight;
    AreasSuffice();
    if version == 1 {
      CapacityFirst();
    } else if version <= 6 {
      CapacitySmall(version);
    } else {
      var t := CapacityLeft(version);
      t := CapacityRight(version, t);
      Subset(t, FreeCells(version));
    }
  }

  /** The data path of a version. */
  function Path(version: nat): seq<Cell> {
    DataPath(Size(version), ReservedMap(version))
  }

  function ReservedMap(version: nat): (nat, nat) -> bool {
    (r: nat, c: nat) => Reserved(version, r, c)
  }

  lemma PathExact(version: nat)
    requires ValidVersion(version)
    ensures NoDuplicates(Path(version))
    ensures forall x: Cell :: x in Path(version) <==>
      x.0 < Size(version) && x.1 < Size(version) && !Reserved(version, x.0, x.1)
  {
    DataPathExact(Size(version), ReservedMap(version));
  }

  /** Every version has room for all its codewords. */
  lemma Capacity(version: nat)
    requires ValidVersion(version)
    ensures |Path(version)| >= 8 * TotalCodewords(version)
  {
    hide TotalCodewords, Path, Reserved;
    FreeCellsSuffice(version);
    PathExact(version);
    Distinct(Path(version), FreeCells(version));
  }
}
