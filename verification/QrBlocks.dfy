/** Block splitting, parity and interleaving of app/src/qr.js, and the inverse a scanner performs. */
module QrBlocks {
  import opened Galois
  import opened ReedSolomon
  import opened QrLayout

  // ---------------------------------------------------------------- splitting

  function Sum(sizes: seq<nat>): nat {
    if sizes == [] then 0 else sizes[0] + Sum(sizes[1..])
  }

  function Split(data: seq<byte>, sizes: seq<nat>): (blocks: seq<seq<byte>>)
    requires |data| == Sum(sizes)
    ensures |blocks| == |sizes| && forall b :: 0 <= b < |sizes| ==> |blocks[b]| == sizes[b]
  {
    if sizes == [] then [] else [data[..sizes[0]]] + Split(data[sizes[0]..], sizes[1..])
  }

  function Flatten(blocks: seq<seq<byte>>): seq<byte> {
    if blocks == [] then [] else blocks[0] + Flatten(blocks[1..])
  }

  lemma {:induction false} FlattenSplit(data: seq<byte>, sizes: seq<nat>)
    requires |data| == Sum(sizes)
    ensures Flatten(Split(data, sizes)) == data
  {
    if sizes != [] {
      FlattenSplit(data[sizes[0]..], sizes[1..]);
    }
  }

  function Parities(blocks: seq<seq<byte>>, ecLen: nat): (ec: seq<seq<byte>>)
    requires ecLen > 0
    ensures |ec| == |blocks| && forall b :: 0 <= b < |blocks| ==> ec[b] == Parity(blocks[b], ecLen)
  {
    seq(|blocks|, b requires 0 <= b < |blocks| => Parity(blocks[b], ecLen))
  }

  // -------------------------------------------------------------- interleaving

  /** Codeword i of every block that has one. */
  function Column(blocks: seq<seq<byte>>, i: nat): seq<byte> {
    if blocks == [] then []
    else Column(blocks[..|blocks| - 1], i) + (if i < |blocks[|blocks| - 1]| then [blocks[|blocks| - 1][i]] else [])
  }

  function Columns(blocks: seq<seq<byte>>, n: nat): seq<byte> {
    if n == 0 then [] else Columns(blocks, n - 1) + Column(blocks, n - 1)
  }

  /** How many of the blocks have a codeword i. */
  function ColumnCount(sizes: seq<nat>, i: nat): nat {
    if sizes == [] then 0 else ColumnCount(sizes[..|sizes| - 1], i) + (if i < sizes[|sizes| - 1] then 1 else 0)
  }

  function ColumnsCount(sizes: seq<nat>, n: nat): nat {
    if n == 0 then 0 else ColumnsCount(sizes, n - 1) + ColumnCount(sizes, n - 1)
  }

  /** Where the reader finds codeword i of block b. */
  function Position(sizes: seq<nat>, b: nat, i: nat): nat
    requires b < |sizes|
  {
    ColumnsCount(sizes, i) + ColumnCount(sizes[..b], i)
  }

  ghost predicate HasSizes(blocks: seq<seq<byte>>, sizes: seq<nat>) {
    |blocks| == |sizes| && forall b :: 0 <= b < |blocks| ==> |blocks[b]| == sizes[b]
  }

  lemma {:induction false} ColumnLength(blocks: seq<seq<byte>>, sizes: seq<nat>, i: nat)
    requires HasSizes(blocks, sizes)
    ensures |Column(blocks, i)| == ColumnCount(sizes, i)
    decreases |blocks|
  {
    if blocks != [] {
      ColumnLength(blocks[..|blocks| - 1], sizes[..|sizes| - 1], i);
    }
  }

  lemma {:induction false} ColumnsLength(blocks: seq<seq<byte>>, sizes: seq<nat>, n: nat)
    requires HasSizes(blocks, sizes)
    ensures |Columns(blocks, n)| == ColumnsCount(sizes, n)
  {
    hide Column, ColumnCount;
    if n > 0 {
      ColumnsLength(blocks, sizes, n - 1);
      ColumnLength(blocks, sizes, n - 1);
    }
  }

  lemma {:induction false} ColumnAt(blocks: seq<seq<byte>>, sizes: seq<nat>, b: nat, i: nat)
    requires HasSizes(blocks, sizes) && b < |blocks| && i < sizes[b]
    ensures ColumnCount(sizes[..b], i) < |Column(blocks, i)|
    ensures Column(blocks, i)[ColumnCount(sizes[..b], i)] == blocks[b][i]
    decreases |blocks|
  {
    var n := |blocks| - 1;
    ColumnLength(blocks[..n], sizes[..n], i);
    if b < n {
      ColumnAt(blocks[..n], sizes[..n], b, i);
      assert sizes[..n][..b] == sizes[..b];
    }
  }

  /** Reading at Position undoes the interleaving. */
  lemma {:induction false} ColumnsAt(blocks: seq<seq<byte>>, sizes: seq<nat>, n: nat, b: nat, i: nat)
    requires HasSizes(blocks, sizes) && b < |blocks| && i < sizes[b] && i < n
    ensures Position(sizes, b, i) < |Columns(blocks, n)|
    ensures Columns(blocks, n)[Position(sizes, b, i)] == blocks[b][i]
  {
    hide Column, ColumnCount, ColumnsCount;
    if i == n - 1 {
      ColumnsLength(blocks, sizes, n - 1);
      ColumnAt(blocks, sizes, b, i);
    } else {
      ColumnsAt(blocks, sizes, n - 1, b, i);
    }
  }

  /** Sum of the sizes, each cut off at n. */
  function SumUpTo(sizes: seq<nat>, n: nat): nat {
    if sizes == [] then 0
    else SumUpTo(sizes[..|sizes| - 1], n) + (if sizes[|sizes| - 1] < n then sizes[|sizes| - 1] else n)
  }

  lemma {:induction false} CountIsSum(sizes: seq<nat>, n: nat)
    ensures ColumnsCount(sizes, n) == SumUpTo(sizes, n)
  {
    if n == 0 {
      NothingUpToZero(sizes);
    } else {
      CountIsSum(sizes, n - 1);
      OneMore(sizes, n - 1);
    }
  }

  lemma {:induction false} NothingUpToZero(sizes: seq<nat>)
    ensures SumUpTo(sizes, 0) == 0
  {
    if sizes != [] {
      NothingUpToZero(sizes[..|sizes| - 1]);
    }
  }

  lemma {:induction false} OneMore(sizes: seq<nat>, n: nat)
    ensures SumUpTo(sizes, n + 1) == SumUpTo(sizes, n) + ColumnCount(sizes, n)
  {
    if sizes != [] {
      OneMore(sizes[..|sizes| - 1], n);
    }
  }

  /** The longest block. */
  function Longest(sizes: seq<nat>): (n: nat)
    ensures forall b :: 0 <= b < |sizes| ==> sizes[b] <= n
  {
    if sizes == [] then 0
    else if sizes[|sizes| - 1] > Longest(sizes[..|sizes| - 1]) then sizes[|sizes| - 1]
    else Longest(sizes[..|sizes| - 1])
  }

  function EcSizes(version: nat): (sizes: seq<nat>)
    requires ValidVersion(version)
    ensures |sizes| == |BlockSizes(version)| && forall b :: 0 <= b < |sizes| ==> sizes[b] == EcLength(version)
  {
    seq(|BlockSizes(version)|, b => EcLength(version))
  }

  /** The final codeword sequence of a version. */
  function Interleaved(data: seq<byte>, version: nat): seq<byte>
    requires ValidVersion(version) && |data| == Sum(BlockSizes(version))
  {
    var blocks := Split(data, BlockSizes(version));
    Columns(blocks, Longest(BlockSizes(version))) + Columns(Parities(blocks, EcLength(version)), EcLength(version))
  }

  method Interleave(t: Tables, data: seq<byte>, version: nat) returns (out: seq<byte>)
    requires t.Valid() && ValidVersion(version) && |data| == Sum(BlockSizes(version))
    ensures out == Interleaved(data, version)
  {
    hide Longest, EcLength, BlockSizes;
    var sizes := BlockSizes(version);
    var ecLen := EcLength(version);
    var dataBlocks, ecBlocks := SplitAndEncode(t, data, sizes, ecLen);
    var dataColumns := AppendColumns(dataBlocks, Longest(sizes));
    var ecColumns := AppendColumns(ecBlocks, ecLen);
    out := dataColumns + ecColumns;
  }

  /** Cuts the data into blocks and computes the parity of each. */
  method SplitAndEncode(t: Tables, data: seq<byte>, sizes: seq<nat>, ecLen: nat)
    returns (dataBlocks: seq<seq<byte>>, ecBlocks: seq<seq<byte>>)
    requires t.Valid() && |data| == Sum(sizes) && 0 < ecLen <= 255
    ensures dataBlocks == Split(data, sizes)
    ensures ecBlocks == Parities(dataBlocks, ecLen)
  {
    hide Parity, Parities, Split, Sum;
    ghost var all := Split(data, sizes);
    dataBlocks, ecBlocks := [], [];
    var offset: nat := 0;
    NoBlocks(ecLen);
    for k := 0 to |sizes|
      invariant offset == Sum(sizes[..k])
      invariant dataBlocks == all[..k] && ecBlocks == Parities(dataBlocks, ecLen)
    {
      var size := sizes[k];
      SplitAt(data, sizes, k);
      var block := data[offset..offset + size];
      ParitiesMore(dataBlocks, block, ecLen);
      var ec := EncodeBlock(t, block, ecLen);
      dataBlocks, ecBlocks := dataBlocks + [block], ecBlocks + [ec];
      offset := offset + size;
    }
  }

  lemma SumPrefix(sizes: seq<nat>, k: nat)
    requires 0 < k <= |sizes|
    ensures Sum(sizes[..k]) == sizes[0] + Sum(sizes[1..][..k - 1])
  {
    assert sizes[..k][1..] == sizes[1..][..k - 1];
  }

  /** Block k starts after the blocks before it. */
  lemma {:induction false} SplitAt(data: seq<byte>, sizes: seq<nat>, k: nat)
    requires |data| == Sum(sizes) && k < |sizes|
    ensures Sum(sizes[..k + 1]) == Sum(sizes[..k]) + sizes[k] <= |data|
    ensures Split(data, sizes)[k] == data[Sum(sizes[..k])..Sum(sizes[..k]) + sizes[k]]
  {
    SumPrefix(sizes, k + 1);
    var rest := data[sizes[0]..];
    if k == 0 {
      assert sizes[..0] == [] && sizes[1..][..0] == [];
    } else {
      SumPrefix(sizes, k);
      SplitAt(rest, sizes[1..], k - 1);
      hide Sum;
      var from := Sum(sizes[1..][..k - 1]);
      assert rest[from..from + sizes[k]] == data[sizes[0] + from..sizes[0] + from + sizes[k]];
    }
  }

  method EncodeBlock(t: Tables, block: seq<byte>, ecLen: nat) returns (ec: seq<byte>)
    requires t.Valid() && 0 < ecLen <= 255
    ensures ec == Parity(block, ecLen)
  {
    hide Parity;
    var res := RsEncode(t, block, ecLen);
    return res[..];
  }

  lemma NoBlocks(ecLen: nat)
    requires ecLen > 0
    ensures Parities([], ecLen) == [] && Sum([]) == 0
  {}

  lemma ParitiesMore(blocks: seq<seq<byte>>, block: seq<byte>, ecLen: nat)
    requires ecLen > 0
    ensures Parities(blocks + [block], ecLen) == Parities(blocks, ecLen) + [Parity(block, ecLen)]
  {
    hide Parity;
  }

  /** Writes the blocks out column by column. */
  method AppendColumns(blocks: seq<seq<byte>>, n: nat) returns (out: seq<byte>)
    ensures out == Columns(blocks, n)
  {
    out := [];
    for i := 0 to n
      invariant out == Columns(blocks, i)
    {
      ghost var before := out;
      for k := 0 to |blocks|
        invariant out == before + Column(blocks[..k], i)
      {
        assert blocks[..k + 1][..k] == blocks[..k];
        if i < |blocks[k]| {
          out := out + [blocks[k][i]];
        }
      }
      assert blocks[..|blocks|] == blocks;
    }
  }

  // ------------------------------------------------------------------- reading

  /** The blocks a scanner reassembles from position base on. */
  function ReadBlocks(codewords: seq<byte>, base: nat, sizes: seq<nat>): (blocks: seq<seq<byte>>)
    ensures HasSizes(blocks, sizes)
  {
    seq(|sizes|, b requires 0 <= b < |sizes| =>
      seq(sizes[b], i requires 0 <= i < sizes[b] => CodewordAt(codewords, base + Position(sizes, b, i))))
  }

  function CodewordAt(codewords: seq<byte>, i: nat): byte {
    if i < |codewords| then codewords[i] else 0
  }

  lemma ReadColumns(blocks: seq<seq<byte>>, sizes: seq<nat>, n: nat, before: seq<byte>, after: seq<byte>)
    requires HasSizes(blocks, sizes) && forall b :: 0 <= b < |sizes| ==> sizes[b] <= n
    ensures ReadBlocks(before + Columns(blocks, n) + after, |before|, sizes) == blocks
  {
    var cw := before + Columns(blocks, n) + after;
    var read := ReadBlocks(cw, |before|, sizes);
    forall b | 0 <= b < |sizes| ensures read[b] == blocks[b] {
      forall i | 0 <= i < sizes[b] ensures read[b][i] == blocks[b][i] {
        ColumnsAt(blocks, sizes, n, b, i);
      }
    }
  }

  /** Data and parity blocks both read back from the interleaved codewords, whatever follows them. */
  lemma DeinterleaveRoundTrip(data: seq<byte>, version: nat, after: seq<byte>)
    requires ValidVersion(version) && |data| == Sum(BlockSizes(version))
    ensures var (cw, sizes) := (Interleaved(data, version) + after, BlockSizes(version));
      && ReadBlocks(cw, 0, sizes) == Split(data, sizes)
      && ReadBlocks(cw, ColumnsCount(sizes, Longest(sizes)), EcSizes(version))
           == Parities(Split(data, sizes), EcLength(version))
  {
    hide Columns, ColumnsCount, Longest, BlockSizes, EcLength, ReadBlocks, Parity;
    var sizes := BlockSizes(version);
    var blocks := Split(data, sizes);
    var ec := Parities(blocks, EcLength(version));
    var first, second := Columns(blocks, Longest(sizes)), Columns(ec, EcLength(version));
    ColumnsLength(blocks, sizes, Longest(sizes));
    assert Interleaved(data, version) + after == [] + first + (second + after);
    ReadColumns(blocks, sizes, Longest(sizes), [], second + after);
    assert Interleaved(data, version) + after == first + second + after;
    ReadColumns(ec, EcSizes(version), EcLength(version), first, after);
  }

  lemma {:induction false} SumUpToLongest(sizes: seq<nat>, n: nat)
    requires forall b :: 0 <= b < |sizes| ==> sizes[b] <= n
    ensures SumUpTo(sizes, n) == Sum(sizes)
  {
    if sizes != [] {
      SumUpToLongest(sizes[..|sizes| - 1], n);
      SumLast(sizes);
    }
  }

  lemma {:induction false} SumLast(sizes: seq<nat>)
    requires sizes != []
    ensures Sum(sizes) == Sum(sizes[..|sizes| - 1]) + sizes[|sizes| - 1]
  {
    if |sizes| > 1 {
      SumLast(sizes[1..]);
      assert sizes[1..][..|sizes| - 2] == sizes[..|sizes| - 1][1..];
    }
  }

  lemma {:induction false} SumEqual(sizes: seq<nat>, n: nat)
    requires forall b :: 0 <= b < |sizes| ==> sizes[b] == n
    ensures Sum(sizes) == n * |sizes|
  {
    if sizes != [] {
      SumEqual(sizes[1..], n);
    }
  }

  lemma InterleavedLength(data: seq<byte>, version: nat)
    requires ValidVersion(version) && |data| == Sum(BlockSizes(version))
    ensures |Interleaved(data, version)| == |data| + EcLength(version) * |BlockSizes(version)|
  {
    var (sizes, ecLen) := (BlockSizes(version), EcLength(version));
    var blocks := Split(data, sizes);
    ColumnsLength(blocks, sizes, Longest(sizes));
    CountIsSum(sizes, Longest(sizes));
    SumUpToLongest(sizes, Longest(sizes));
    ColumnsLength(Parities(blocks, ecLen), EcSizes(version), ecLen);
    CountIsSum(EcSizes(version), ecLen);
    SumUpToLongest(EcSizes(version), ecLen);
    SumEqual(EcSizes(version), ecLen);
  }

  lemma SumOfFew(a: nat, b: nat, c: nat, d: nat)
    ensures Sum([a]) == a && Sum([a, b]) == a + b && Sum([a, b, c, d]) == a + b + c + d
  {
    assert [a][1..] == [] && [d][1..] == [];
    assert [a, b][1..] == [b] && [b][1..] == [];
    assert [a, b, c, d][1..] == [b, c, d] && [b, c, d][1..] == [c, d] && [c, d][1..] == [d];
    assert Sum([d]) == d && Sum([c, d]) == c + d && Sum([b, c, d]) == b + c + d;
  }

  lemma SizesAddUp(version: nat)
    requires ValidVersion(version)
    ensures Sum(BlockSizes(version)) == DataCodewords(version)
  {
    hide Sum;
    var s := BlockSizes(version);
    SumOfFew(s[0], if |s| > 1 then s[1] else 0, if |s| > 2 then s[2] else 0, if |s| > 3 then s[3] else 0);
    if version > 5 && version < 10 {
      assert s == [s[0], s[1]];
    } else if version == 10 {
      assert s == [s[0], s[1], s[2], s[3]];
    }
  }
}
