/** Drawing the QR matrix in app/src/qr.js: function patterns, data, mask and format cells. */
module QrMatrix {
  import opened Galois
  import opened QrLayout

  type Matrix = array2<int>

  // ------------------------------------------------------------------- tables

  function VersionInfo(version: nat): nat
    requires 7 <= version <= 10
  {
    [0x07c94, 0x085bc, 0x09a99, 0x0a4d3][version - 7]
  }

  /** Format information for level L and masks 0 to 7. */
  function FormatBits(mask: nat): nat
    requires mask < 8
  {
    [0x77c4, 0x72f3, 0x7daa, 0x789d, 0x662f, 0x6318, 0x6c41, 0x6976][mask]
  }

  predicate Mask(mask: nat, r: nat, c: nat)
    requires mask < 8
  {
    match mask
    case 0 => (r + c) % 2 == 0
    case 1 => r % 2 == 0
    case 2 => c % 3 == 0
    case 3 => (r + c) % 3 == 0
    case 4 => (r / 2 + c / 3) % 2 == 0
    case 5 => (r * c) % 2 + (r * c) % 3 == 0
    case 6 => ((r * c) % 2 + (r * c) % 3) % 2 == 0
    case 7 => ((r + c) % 2 + (r * c) % 3) % 2 == 0
  }

  // --------------------------------------------------- expected function modules

  /** A finder pattern with its light separator, relative to its corner. */
  function FinderValue(r: int, c: int): int {
    if 0 <= r <= 6 && 0 <= c <= 6 && (r == 0 || r == 6 || c == 0 || c == 6 || (2 <= r <= 4 && 2 <= c <= 4)) then 1
    else 0
  }

  /** Which alignment centre lies within two modules of x, or -1. */
  function CenterIndex(centers: seq<nat>, x: int): int {
    if |centers| > 0 && Near(x, centers[0]) then 0
    else if |centers| > 1 && Near(x, centers[1]) then 1
    else if |centers| > 2 && Near(x, centers[2]) then 2
    else -1
  }

  function AlignmentValue(dr: int, dc: int): int {
    if (if Abs(dr) >= Abs(dc) then Abs(dr) else Abs(dc)) != 1 then 1 else 0
  }

  function Abs(x: int): int { if x < 0 then -x else x }

  /** Has the alignment loop drawn over (r, c) before reaching centre pair (i, j)? */
  predicate Drawn(version: nat, i: int, j: int, r: int, c: int)
    requires ValidVersion(version)
  {
    var centers := Alignment(version);
    var (p, q) := (CenterIndex(centers, r), CenterIndex(centers, c));
    p >= 0 && q >= 0 && !FinderCorner(Size(version), centers[p], centers[q]) && (p < i || (p == i && q < j))
  }

  function AlignmentAt(version: nat, r: int, c: int): int
    requires ValidVersion(version)
  {
    var centers := Alignment(version);
    var (p, q) := (CenterIndex(centers, r), CenterIndex(centers, c));
    if p >= 0 && q >= 0 then AlignmentValue(r - centers[p], c - centers[q]) else 0
  }

  predicate InFinderAt(row: int, col: int, r: int, c: int) {
    row - 1 <= r <= row + 7 && col - 1 <= c <= col + 7
  }

  predicate InTiming(size: nat, r: int, c: int) {
    (r == 6 && 8 <= c < size - 8) || (c == 6 && 8 <= r < size - 8)
  }

  function VersionInfoAt(version: nat, r: int, c: int): int
    requires 7 <= version <= 10 && InVersionInfo(version, r, c) && r >= 0 && c >= 0
  {
    var s := Size(version);
    Shr(VersionInfo(version), if r < 6 then 3 * r + c - (s - 11) else 3 * c + r - (s - 11)) % 2
  }

  /** Every module as the function patterns leave it; -1 marks a data module. */
  function Pattern(version: nat, r: nat, c: nat): int
    requires ValidVersion(version)
  {
    var s := Size(version);
    if InVersionInfo(version, r, c) then VersionInfoAt(version, r, c)
    else if r == s - 8 && c == 8 then 1
    else if Drawn(version, 3, 0, r, c) then AlignmentAt(version, r, c)
    else if InTiming(s, r, c) then (if r == 6 then 1 - c % 2 else 1 - r % 2)
    else if InFinderAt(s - 7, 0, r, c) then FinderValue(r - (s - 7), c)
    else if InFinderAt(0, s - 7, r, c) then FinderValue(r, c - (s - 7))
    else if InFinderAt(0, 0, r, c) then FinderValue(r, c)
    else if InFormat(s, r, c) then 0
    else -1
  }

  lemma DrawnIsAligned(version: nat, r: int, c: int)
    requires ValidVersion(version)
    ensures Drawn(version, 3, 0, r, c) <==> Aligned(version, r, c)
  {
    var centers := Alignment(version);
    assert |centers| == if version == 1 then 0 else if version <= 6 then 2 else 3;
    assert |centers| >= 2 ==> centers[0] == 6 && centers[|centers| - 1] == Size(version) - 7;
    assert |centers| == 3 ==> centers[1] == Middle(version);
  }

  /** The modules the patterns leave untouched are exactly the unreserved ones. */
  lemma PatternIsReserved(version: nat, r: nat, c: nat)
    requires ValidVersion(version) && r < Size(version) && c < Size(version)
    ensures Pattern(version, r, c) != -1 <==> Reserved(version, r, c)
  {
    hide Drawn, Aligned, AlignmentAt;
    DrawnIsAligned(version, r, c);
    AlignmentRange(version, r, c);
  }

  lemma AlignmentRange(version: nat, r: int, c: int)
    requires ValidVersion(version)
    ensures AlignmentAt(version, r, c) >= 0
  {}

  // ------------------------------------------------------------ drawing methods

  method Finder(m: Matrix, row: int, col: int)
    modifies m
    ensures forall r, c :: 0 <= r < m.Length0 && 0 <= c < m.Length1 ==>
      m[r, c] == if InFinderAt(row, col, r, c) then FinderValue(r - row, c - col) else old(m[r, c])
  {
    var r := -1;
    while r <= 7
      invariant -1 <= r <= 8
      invariant forall i, j :: 0 <= i < m.Length0 && 0 <= j < m.Length1 ==>
        m[i, j] == if InFinderAt(row, col, i, j) && i < row + r then FinderValue(i - row, j - col) else old(m[i, j])
    {
      var c := -1;
      while c <= 7
        invariant -1 <= c <= 8
        invariant forall i, j :: 0 <= i < m.Length0 && 0 <= j < m.Length1 ==>
          m[i, j] == if InFinderAt(row, col, i, j) && (i < row + r || (i == row + r && j < col + c))
                     then FinderValue(i - row, j - col) else old(m[i, j])
      {
        var rr, cc := row + r, col + c;
        if 0 <= rr < m.Length0 && 0 <= cc < m.Length1 {
          var inRing := 0 <= r <= 6 && 0 <= c <= 6;
          var dark := inRing && (r == 0 || r == 6 || c == 0 || c == 6 || (2 <= r <= 4 && 2 <= c <= 4));
          m[rr, cc] := if dark then 1 else 0;
        }
        c := c + 1;
      }
      r := r + 1;
    }
  }

  method Timing(m: Matrix)
    requires m.Length0 == m.Length1 >= 21
    modifies m
    ensures forall r, c :: 0 <= r < m.Length0 && 0 <= c < m.Length1 ==>
      m[r, c] == if InTiming(m.Length0, r, c) then (if r == 6 then 1 - c % 2 else 1 - r % 2) else old(m[r, c])
  {
    var size := m.Length0;
    for i := 8 to size - 8
      invariant forall r, c :: 0 <= r < m.Length0 && 0 <= c < m.Length1 ==>
        m[r, c] == if InTiming(size, r, c) && (if r == 6 then c < i else r < i)
                   then (if r == 6 then 1 - c % 2 else 1 - r % 2) else old(m[r, c])
    {
      var v := if i % 2 == 0 then 1 else 0;
      m[6, i] := v;
      m[i, 6] := v;
    }
  }

  /** One 5x5 alignment pattern. */
  method AlignmentPattern(m: Matrix, r0: nat, c0: nat)
    requires 2 <= r0 < m.Length0 - 2 && 2 <= c0 < m.Length1 - 2
    modifies m
    ensures forall r, c :: 0 <= r < m.Length0 && 0 <= c < m.Length1 ==>
      m[r, c] == if Near(r, r0) && Near(c, c0) then AlignmentValue(r - r0, c - c0) else old(m[r, c])
  {
    var dr := -2;
    while dr <= 2
      invariant -2 <= dr <= 3
      invariant forall r, c :: 0 <= r < m.Length0 && 0 <= c < m.Length1 ==>
        m[r, c] == if Near(r, r0) && Near(c, c0) && r < r0 + dr then AlignmentValue(r - r0, c - c0) else old(m[r, c])
    {
      var dc := -2;
      while dc <= 2
        invariant -2 <= dc <= 3
        invariant forall r, c :: 0 <= r < m.Length0 && 0 <= c < m.Length1 ==>
          m[r, c] == if Near(r, r0) && Near(c, c0) && (r < r0 + dr || (r == r0 + dr && c < c0 + dc))
                     then AlignmentValue(r - r0, c - c0) else old(m[r, c])
      {
        m[r0 + dr, c0 + dc] := if Abs(dr) > 1 || Abs(dc) > 1 || (dr == 0 && dc == 0) then 1 else 0;
        dc := dc + 1;
      }
      dr := dr + 1;
    }
  }

  lemma CentersApart(version: nat, i: nat, x: int)
    requires ValidVersion(version) && i < |Alignment(version)|
    ensures |Alignment(version)| <= 3
    ensures 2 <= Alignment(version)[i] < Size(version) - 2
    ensures Near(x, Alignment(version)[i]) <==> CenterIndex(Alignment(version), x) == i
  {}

  lemma CenterIndexRange(version: nat, x: int)
    requires ValidVersion(version)
    ensures -1 <= CenterIndex(Alignment(version), x) < |Alignment(version)| <= 3
  {}

  /** One pair of the alignment loop draws exactly its own 5x5 square. */
  lemma DrawnStep(version: nat, i: nat, j: nat, r: int, c: int)
    requires ValidVersion(version) && i < |Alignment(version)| && j < |Alignment(version)|
    ensures var centers := Alignment(version);
      var mine := !FinderCorner(Size(version), centers[i], centers[j]) && Near(r, centers[i]) && Near(c, centers[j]);
      && (Drawn(version, i, j + 1, r, c) <==> Drawn(version, i, j, r, c) || mine)
      && (mine ==> AlignmentAt(version, r, c) == AlignmentValue(r - centers[i], c - centers[j]))
      && (Drawn(version, i, |centers|, r, c) <==> Drawn(version, i + 1, 0, r, c))
      && (Drawn(version, |centers|, 0, r, c) <==> Drawn(version, 3, 0, r, c))
  {
    hide Alignment, AlignmentValue, Near, CenterIndex, FinderCorner;
    CentersApart(version, i, r);
    CentersApart(version, j, c);
    CenterIndexRange(version, r);
    CenterIndexRange(version, c);
  }

  method AlignmentPatterns(m: Matrix, version: nat)
    requires ValidVersion(version) && m.Length0 == m.Length1 == Size(version)
    modifies m
    ensures forall r, c :: 0 <= r < m.Length0 && 0 <= c < m.Length1 ==>
      m[r, c] == if Drawn(version, 3, 0, r, c) then AlignmentAt(version, r, c) else old(m[r, c])
  {
    hide Alignment, AlignmentValue, Near, FinderCorner, AlignmentAt;
    var centers := Alignment(version);
    forall r, c | 0 <= r < m.Length0 && 0 <= c < m.Length1
      ensures !Drawn(version, 0, 0, r, c) && (|centers| == 0 ==> !Drawn(version, 3, 0, r, c))
    {
      CenterIndexRange(version, r);
    }
    for i := 0 to |centers|
      invariant forall r, c :: 0 <= r < m.Length0 && 0 <= c < m.Length1 ==>
        m[r, c] == if Drawn(version, i, 0, r, c) then AlignmentAt(version, r, c) else old(m[r, c])
    {
      AlignmentRow(m, version, i);
      forall r, c | 0 <= r < m.Length0 && 0 <= c < m.Length1
        ensures Drawn(version, i, |centers|, r, c) <==> Drawn(version, i + 1, 0, r, c)
        ensures Drawn(version, |centers|, 0, r, c) <==> Drawn(version, 3, 0, r, c)
      {
        DrawnStep(version, i, 0, r, c);
      }
    }
  }

  /** All columns of one row of alignment centres. */
  method AlignmentRow(m: Matrix, version: nat, i: nat)
    requires ValidVersion(version) && i < |Alignment(version)| && m.Length0 == m.Length1 == Size(version)
    modifies m
    ensures forall r, c :: 0 <= r < m.Length0 && 0 <= c < m.Length1 ==>
      m[r, c] == if Drawn(version, i, |Alignment(version)|, r, c) && !Drawn(version, i, 0, r, c)
                 then AlignmentAt(version, r, c) else old(m[r, c])
    ensures forall r, c :: 0 <= r < m.Length0 && 0 <= c < m.Length1 ==>
      Drawn(version, i, 0, r, c) ==> Drawn(version, i, |Alignment(version)|, r, c)
  {
    hide Alignment, AlignmentValue, Near, FinderCorner, CenterIndex, Drawn, AlignmentAt;
    var centers := Alignment(version);
    for j := 0 to |centers|
      invariant forall r, c :: 0 <= r < m.Length0 && 0 <= c < m.Length1 ==>
        m[r, c] == if Drawn(version, i, j, r, c) && !Drawn(version, i, 0, r, c)
                   then AlignmentAt(version, r, c) else old(m[r, c])
      invariant forall r, c :: 0 <= r < m.Length0 && 0 <= c < m.Length1 ==>
        Drawn(version, i, 0, r, c) ==> Drawn(version, i, j, r, c)
    {
      forall r, c | 0 <= r < m.Length0 && 0 <= c < m.Length1
        ensures var mine := !FinderCorner(m.Length0, centers[i], centers[j]) && Near(r, centers[i])
          && Near(c, centers[j]);
          && (Drawn(version, i, j + 1, r, c) <==> Drawn(version, i, j, r, c) || mine)
          && (mine ==> AlignmentAt(version, r, c) == AlignmentValue(r - centers[i], c - centers[j]))
          && (mine ==> !Drawn(version, i, 0, r, c))
      {
        DrawnStep(version, i, j, r, c);
        NotDrawnYet(version, i, j, r, c);
      }
      if !FinderCorner(m.Length0, centers[i], centers[j]) {
        CentersApart(version, i, 0);
        CentersApart(version, j, 0);
        AlignmentPattern(m, centers[i], centers[j]);
      }
    }
  }

  lemma NotDrawnYet(version: nat, i: nat, j: nat, r: int, c: int)
    requires ValidVersion(version) && i < |Alignment(version)| && j < |Alignment(version)|
    ensures Near(r, Alignment(version)[i]) ==> !Drawn(version, i, 0, r, c)
  {
    hide Alignment, Near, CenterIndex;
    CentersApart(version, i, r);
  }

  /** Format cells still untouched are set to light, to be filled later. */
  method ReserveFormat(m: Matrix)
    requires m.Length0 == m.Length1 >= 21
    modifies m
    ensures forall r, c :: 0 <= r < m.Length0 && 0 <= c < m.Length1 ==>
      m[r, c] == if InFormat(m.Length0, r, c) && old(m[r, c]) == -1 then 0 else old(m[r, c])
  {
    var size := m.Length0;
    for i := 0 to 9
      invariant forall r, c :: 0 <= r < size && 0 <= c < size ==>
        m[r, c] == if old(m[r, c]) == -1 && ((r == 8 && c < i) || (c == 8 && r < i)) then 0 else old(m[r, c])
    {
      if m[8, i] == -1 { m[8, i] := 0; }
      if m[i, 8] == -1 { m[i, 8] := 0; }
    }
    for i := 0 to 8
      invariant forall r, c :: 0 <= r < size && 0 <= c < size ==>
        m[r, c] == if old(m[r, c]) == -1
          && ((r == 8 && (c <= 8 || c >= size - i)) || (c == 8 && (r <= 8 || r >= size - i)))
                   then 0 else old(m[r, c])
    {
      if m[8, size - 1 - i] == -1 { m[8, size - 1 - i] := 0; }
      if m[size - 1 - i, 8] == -1 { m[size - 1 - i, 8] := 0; }
    }
  }

  /** Index of a module inside its version-information block. */
  function InfoIndex(size: nat, r: nat, c: nat): int {
    if r < 6 then 3 * r + c - (size - 11) else 3 * c + r - (size - 11)
  }

  lemma InfoRange(version: nat, r: nat, c: nat)
    requires 7 <= version <= 10 && InVersionInfo(version, r, c)
    ensures 0 <= InfoIndex(Size(version), r, c) < 18
  {}

  /** Bit i lies at two mirrored modules. */
  lemma InfoCell(version: nat, i: nat, r: nat, c: nat)
    requires 7 <= version <= 10 && i < 18
    requires var s := Size(version); (r == i / 3 && c == s - 11 + i % 3) || (c == i / 3 && r == s - 11 + i % 3)
    ensures InVersionInfo(version, r, c) && InfoIndex(Size(version), r, c) == i
    ensures VersionInfoAt(version, r, c) == Shr(VersionInfo(version), i) % 2
  {
    hide VersionInfo, Shr;
  }

  /** And nowhere else. */
  lemma InfoOnly(version: nat, i: nat, r: nat, c: nat)
    requires 7 <= version <= 10 && InVersionInfo(version, r, c) && InfoIndex(Size(version), r, c) == i
    ensures var s := Size(version); (r == i / 3 && c == s - 11 + i % 3) || (c == i / 3 && r == s - 11 + i % 3)
  {}

  method DrawVersionInfo(m: Matrix, version: nat)
    requires 7 <= version <= 10 && m.Length0 == m.Length1 == Size(version)
    modifies m
    ensures forall r, c :: 0 <= r < m.Length0 && 0 <= c < m.Length1 ==>
      m[r, c] == if InVersionInfo(version, r, c) then VersionInfoAt(version, r, c) else old(m[r, c])
  {
    hide VersionInfo, Shr, InVersionInfo, InfoIndex, VersionInfoAt;
    var size := m.Length0;
    forall r, c | 0 <= r < size && 0 <= c < size && InVersionInfo(version, r, c)
      ensures 0 <= InfoIndex(size, r, c) < 18
    {
      InfoRange(version, r, c);
    }
    var info := VersionInfo(version);
    for i := 0 to 18
      invariant forall r, c :: 0 <= r < size && 0 <= c < size ==>
        m[r, c] == if InVersionInfo(version, r, c) && InfoIndex(size, r, c) < i
                   then VersionInfoAt(version, r, c) else old(m[r, c])
    {
      var bit := Shr(info, i) % 2;
      InfoCell(version, i, i / 3, size - 11 + i % 3);
      InfoCell(version, i, size - 11 + i % 3, i / 3);
      forall r, c | 0 <= r < size && 0 <= c < size && InVersionInfo(version, r, c) && InfoIndex(size, r, c) == i
        ensures (r == i / 3 && c == size - 11 + i % 3) || (c == i / 3 && r == size - 11 + i % 3)
      {
        InfoOnly(version, i, r, c);
      }
      m[i / 3, size - 11 + i % 3] := bit;
      m[size - 11 + i % 3, i / 3] := bit;
    }
  }

  /** placeFunctionPatterns on a blank matrix. */
  method PlaceFunctionPatterns(m: Matrix, version: nat)
    requires ValidVersion(version) && m.Length0 == m.Length1 == Size(version)
    requires forall r, c :: 0 <= r < m.Length0 && 0 <= c < m.Length1 ==> m[r, c] == -1
    modifies m
    ensures forall r, c :: 0 <= r < m.Length0 && 0 <= c < m.Length1 ==> m[r, c] == Pattern(version, r, c)
  {
    hide FinderValue, Drawn, AlignmentAt, VersionInfoAt;
    var size := m.Length0;
    Finder(m, 0, 0);
    Finder(m, 0, size - 7);
    Finder(m, size - 7, 0);
    Timing(m);
    AlignmentPatterns(m, version);
    forall r, c | 0 <= r < size && 0 <= c < size
      ensures AlignmentAt(version, r, c) >= 0
      ensures Drawn(version, 3, 0, r, c) ==> !(r == size - 8 && c == 8)
    {
      AlignmentRange(version, r, c);
      DrawnIsAligned(version, r, c);
    }
    m[size - 8, 8] := 1;
    FinderBits();
    ReserveFormat(m);
    if version >= 7 {
      DrawVersionInfo(m, version);
    }
  }

  lemma FinderBits()
    ensures forall r, c :: FinderValue(r, c) >= 0
  {}
}
