/**
 * What a QR reader knows without the tables of app/src/qr.js: ISO/IEC 18004 protects the format information
 * (section 7.9) and the version information (section 7.10) with the remainder of a division of bit
 * polynomials, and pictures the mask patterns (section 7.8).
 */
module QrReader {
  import opened Options
  import opened QrLayout
  import opened QrBits
  import opened QrMatrix

  // ------------------------------------------------------- format information

  /** One step of a division of bit polynomials: the multiple goes if its highest bit is set. */
  function Reduce(u: bv15, multiple: bv15, highest: bv15): bv15 {
    if u & highest != 0 then u ^ multiple else u
  }

  /** Remainder on division by x^10 + x^8 + x^5 + x^4 + x^2 + x + 1. */
  function FormatRemainder(u: bv15): bv15 {
    var a := Reduce(u, 0x537 << 4, 1 << 14);
    var b := Reduce(a, 0x537 << 3, 1 << 13);
    var c := Reduce(b, 0x537 << 2, 1 << 12);
    var d := Reduce(c, 0x537 << 1, 1 << 11);
    Reduce(d, 0x537, 1 << 10)
  }

  /** What error-free format bits say: level L is 01, then come the mask and ten check bits. */
  function MaskOf(format: nat): (mask: Option<nat>)
    ensures mask.Some? ==> mask.value < 8
  {
    if format >= 0x8000 then None
    else
      var u := (format as bv15) ^ 0x5412;
      if u >> 13 == 1 && FormatRemainder(u) == 0 then Some(((u >> 10) & 7) as nat) else None
  }

  /** The tabulated word of a mask says this mask. */
  lemma FormatReads(mask: nat)
    requires mask < 8
    ensures MaskOf(FormatBits(mask)) == Some(mask)
  {
    match mask
    case 0 => assert MaskOf(0x77c4) == Some(0);
    case 1 => assert MaskOf(0x72f3) == Some(1);
    case 2 => assert MaskOf(0x7daa) == Some(2);
    case 3 => assert MaskOf(0x789d) == Some(3);
    case 4 => assert MaskOf(0x662f) == Some(4);
    case 5 => assert MaskOf(0x6318) == Some(5);
    case 6 => assert MaskOf(0x6c41) == Some(6);
    case 7 => assert MaskOf(0x6976) == Some(7);
  }

  // ------------------------------------------------------ version information

  function ReduceWide(u: bv18, multiple: bv18, highest: bv18): bv18 {
    if u & highest != 0 then u ^ multiple else u
  }

  /** Remainder on division by x^12 + x^11 + x^10 + x^9 + x^8 + x^5 + x^2 + 1. */
  function VersionRemainder(u: bv18): bv18 {
    var a := ReduceWide(u, 0x1f25 << 5, 1 << 17);
    var b := ReduceWide(a, 0x1f25 << 4, 1 << 16);
    var c := ReduceWide(b, 0x1f25 << 3, 1 << 15);
    var d := ReduceWide(c, 0x1f25 << 2, 1 << 14);
    var e := ReduceWide(d, 0x1f25 << 1, 1 << 13);
    ReduceWide(e, 0x1f25, 1 << 12)
  }

  /** What error-free version bits say. */
  function VersionOf(info: nat): Option<nat> {
    if info >= 0x40000 then None
    else
      var u := info as bv18;
      if VersionRemainder(u) == 0 then Some((u >> 12) as nat) else None
  }

  /** The tabulated word of a version says this version. */
  lemma VersionReads(version: nat)
    requires 7 <= version <= 10
    ensures VersionOf(VersionInfo(version)) == Some(version)
  {
    match version
    case 7 => assert VersionOf(0x07c94) == Some(7);
    case 8 => assert VersionOf(0x085bc) == Some(8);
    case 9 => assert VersionOf(0x09a99) == Some(9);
    case 10 => assert VersionOf(0x0a4d3) == Some(10);
  }

  // ------------------------------------------------------------ mask patterns

  /** The tile that a mask pattern repeats; # marks the modules to flip. */
  function Tile(mask: nat): (tile: seq<string>)
    requires mask < 8
    ensures tile != [] && forall i :: 0 <= i < |tile| ==> tile[i] != []
  {
    match mask
    case 0 => ["#.", ".#"]
    case 1 => ["#", "."]
    case 2 => ["#.."]
    case 3 => ["#..", "..#", ".#."]
    case 4 => ["###...", "###...", "...###", "...###"]
    case 5 => ["######", "#.....", "#..#..", "#.#.#.", "#..#..", "#....."]
    case 6 => ["######", "###...", "##.##.", "#.#.#.", "#.##.#", "#...##"]
    case 7 => ["#.#.#.", "...###", "#...##", ".#.#.#", "###...", ".###.."]
  }

  predicate Flipped(mask: nat, r: nat, c: nat)
    requires mask < 8
  {
    var row := Tile(mask)[r % |Tile(mask)|];
    row[c % |row|] == '#'
  }

  /** A pattern with products repeats every six modules in both directions. */
  lemma Periodic(mask: nat, r: nat, c: nat)
    requires 5 <= mask < 8
    ensures Mask(mask, r, c) == Mask(mask, r % 6, c % 6)
  {
    var a, i, b, j := r / 6, r % 6, c / 6, c % 6;
    var n := 6 * a * b + a * j + i * b;
    ProductSplit(a, i, b, j);
    Multiple(n, i * j);
    Multiple(a + b, i + j);
  }

  lemma ProductSplit(a: nat, i: nat, b: nat, j: nat)
    ensures (6 * a + i) * (6 * b + j) == 6 * (6 * a * b + a * j + i * b) + i * j
  {}

  lemma Multiple(n: nat, m: nat)
    ensures (6 * n + m) % 2 == m % 2 && (6 * n + m) % 3 == m % 3
  {
    ModTwo(3 * n, m);
    ModThree(2 * n, m);
  }

  lemma ModTwo(q: nat, m: nat)
    ensures (2 * q + m) % 2 == m % 2
  {}

  lemma ModThree(q: nat, m: nat)
    ensures (3 * q + m) % 3 == m % 3
  {}

  /** A product modulo 2 and 3, case by case. */
  lemma Products(r: nat, c: nat)
    requires r < 6 && c < 6
    ensures (r * c) % 2 == (if r % 2 == 1 && c % 2 == 1 then 1 else 0)
    ensures (r * c) % 3 == (if r % 3 == 0 || c % 3 == 0 then 0 else if r % 3 == c % 3 then 1 else 2)
  {
    match r
    case 0 =>
    case 1 =>
    case 2 =>
    case 3 =>
    case 4 =>
    case 5 =>
  }

  function Third(r: nat, c: nat): nat {
    if r == 0 || c == 0 then 0 else if r == c then 1 else 2
  }

  /** The formulas of the masks with products, and their tiles, by remainders. */
  lemma Mask5(r: nat, c: nat)
    ensures Mask(5, r, c) <==> (r * c) % 2 == 0 && (r * c) % 3 == 0
  {}

  lemma Mask6(r: nat, c: nat)
    ensures Mask(6, r, c) <==> ((r * c) % 2 == 1 <==> (r * c) % 3 == 1)
  {}

  lemma Mask7(r: nat, c: nat)
    ensures Mask(7, r, c) <==> ((r + c) % 2 == 1 <==> (r * c) % 3 == 1)
  {}

  lemma Tile5(r: nat, c: nat)
    ensures var (i, j) := (r % 6, c % 6); Flipped(5, r, c) <==> (i % 2 == 0 || j % 2 == 0) && (i % 3 == 0 || j % 3 == 0)
  {}

  lemma Tile6(r: nat, c: nat)
    ensures var (i, j) := (r % 6, c % 6); Flipped(6, r, c) <==> (i % 2 == 1 && j % 2 == 1 <==> Third(i % 3, j % 3) == 1)
  {}

  lemma Tile7(r: nat, c: nat)
    ensures var (i, j) := (r % 6, c % 6); Flipped(7, r, c) <==> (i % 2 != j % 2 <==> Third(i % 3, j % 3) == 1)
  {}

  lemma ProductTile(mask: nat, r: nat, c: nat)
    requires 5 <= mask < 8
    ensures Flipped(mask, r, c) <==> Mask(mask, r % 6, c % 6)
  {
    hide Mask, Flipped;
    Products(r % 6, c % 6);
    match mask
    case 5 => Mask5(r % 6, c % 6); Tile5(r, c);
    case 6 => Mask6(r % 6, c % 6); Tile6(r, c);
    case 7 => Mask7(r % 6, c % 6); Tile7(r, c);
  }

  lemma Tile0(r: nat, c: nat)
    ensures Flipped(0, r, c) <==> Mask(0, r, c)
  {}

  lemma Tile1(r: nat, c: nat)
    ensures Flipped(1, r, c) <==> Mask(1, r, c)
  {}

  lemma Tile2(r: nat, c: nat)
    ensures Flipped(2, r, c) <==> Mask(2, r, c)
  {}

  lemma Tile3(r: nat, c: nat)
    ensures Flipped(3, r, c) <==> Mask(3, r, c)
  {}

  lemma Tile4(r: nat, c: nat)
    ensures Flipped(4, r, c) <==> (r % 4 < 2 <==> c % 6 < 3)
  {}

  lemma Mask4(r: nat, c: nat)
    ensures Mask(4, r, c) <==> (r % 4 < 2 <==> c % 6 < 3)
  {
    assert r / 2 % 2 == (if r % 4 < 2 then 0 else 1);
    assert c / 3 % 2 == (if c % 6 < 3 then 0 else 1);
  }

  /** The tiles cover the plane with the mask patterns. */
  lemma MaskTiles(mask: nat, r: nat, c: nat)
    requires mask < 8
    ensures Flipped(mask, r, c) <==> Mask(mask, r, c)
  {
    hide Flipped, Mask;
    match mask
    case 0 => Tile0(r, c);
    case 1 => Tile1(r, c);
    case 2 => Tile2(r, c);
    case 3 => Tile3(r, c);
    case 4 => Tile4(r, c); Mask4(r, c);
    case _ => Periodic(mask, r, c); ProductTile(mask, r, c);
  }

  // --------------------------------------------------------------- capacities

  /** The largest payload, and the codewords of a symbol, as tables 7 and 9 of the standard give them for level L. */
  lemma VersionTables(version: nat, n: nat)
    requires ValidVersion(version)
    ensures Fits(n, version) <==> n <= [17, 32, 53, 78, 106, 134, 154, 192, 230, 271][version - 1]
    ensures TotalCodewords(version) == [26, 44, 70, 100, 134, 172, 196, 242, 292, 346][version - 1]
  {
    hide EcLength, BlockSizes;
    LayoutTotals(version);
  }

  lemma LayoutTotals(version: nat)
    requires ValidVersion(version)
    ensures TotalCodewords(version) == [26, 44, 70, 100, 134, 172, 196, 242, 292, 346][version - 1]
  {}

  /** The blocks of a version share its data evenly, the longer ones last. */
  lemma BlocksEven(version: nat, i: nat)
    requires ValidVersion(version) && i < |BlockSizes(version)|
    ensures var (n, data) := (|BlockSizes(version)|, DataCodewords(version));
      BlockSizes(version)[i] == data / n + (if i >= n - data % n then 1 else 0)
  {}
}
