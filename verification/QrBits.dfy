/** Bit strings of app/src/qr.js: the byte-mode segment, its padding, and reading it back. */
module QrBits {
  import opened Options
  import opened Galois
  import opened QrLayout

  // -------------------------------------------------------------- bit strings

  function Exp2(n: nat): (p: nat)
    ensures p > 0
  {
    if n == 0 then 1 else 2 * Exp2(n - 1)
  }

  /** The low len bits of v, most significant first. */
  function ToBits(v: nat, len: nat): (s: seq<bool>)
    ensures |s| == len
  {
    if len == 0 then [] else ToBits(v / 2, len - 1) + [v % 2 == 1]
  }

  function FromBits(s: seq<bool>): nat {
    if s == [] then 0 else 2 * FromBits(s[..|s| - 1]) + (if s[|s| - 1] then 1 else 0)
  }

  lemma {:induction false} FromToBits(v: nat, len: nat)
    requires v < Exp2(len)
    ensures FromBits(ToBits(v, len)) == v
  {
    if len > 0 {
      FromToBits(v / 2, len - 1);
      assert ToBits(v, len)[..len - 1] == ToBits(v / 2, len - 1);
    }
  }

  lemma {:induction false} ToFromBits(s: seq<bool>)
    ensures ToBits(FromBits(s), |s|) == s && FromBits(s) < Exp2(|s|)
  {
    if s != [] {
      ToFromBits(s[..|s| - 1]);
    }
  }

  function Octet(s: seq<bool>): (b: byte)
    requires |s| == 8
    ensures ToBits(b, 8) == s && b == FromBits(s)
  {
    ToFromBits(s);
    assert Exp2(8) == 256;
    FromBits(s)
  }

  /** The bits of a byte string. */
  function BytesToBits(bytes: seq<byte>): (s: seq<bool>)
    ensures |s| == 8 * |bytes|
  {
    if bytes == [] then [] else ToBits(bytes[0], 8) + BytesToBits(bytes[1..])
  }

  lemma {:induction false} BytesToBitsConcat(a: seq<byte>, b: seq<byte>)
    ensures BytesToBits(a + b) == BytesToBits(a) + BytesToBits(b)
  {
    if a == [] {
      assert a + b == b;
    } else {
      assert (a + b)[1..] == a[1..] + b;
      BytesToBitsConcat(a[1..], b);
    }
  }

  /** Byte i occupies bits 8i to 8i+7. */
  lemma {:induction false} BytesToBitsAt(bytes: seq<byte>, i: nat)
    requires i < |bytes|
    ensures BytesToBits(bytes)[8 * i..8 * i + 8] == ToBits(bytes[i], 8)
  {
    if i > 0 {
      BytesToBitsAt(bytes[1..], i - 1);
      var s := BytesToBits(bytes);
      assert s[8..] == BytesToBits(bytes[1..]);
      assert s[8 * i..8 * i + 8] == s[8..][8 * (i - 1)..8 * (i - 1) + 8];
    }
  }

  /** (value >> k) & 1 is bit len-1-k of the string. */
  lemma {:induction false} ToBitsShift(v: nat, len: nat, k: nat)
    requires k < len
    ensures ToBits(v, len)[len - 1 - k] == (Shr(v, k) % 2 == 1)
  {
    if k > 0 {
      ToBitsShift(v / 2, len - 1, k - 1);
    }
  }

  // ------------------------------------------------------------------ segment

  /** Bits of the character count indicator. */
  function CountBits(version: nat): nat { if version < 10 then 8 else 16 }

  /** The byte-mode segment: mode 0100, length, payload. */
  function Segment(bytes: seq<byte>, version: nat): seq<bool> {
    ToBits(4, 4) + ToBits(|bytes|, CountBits(version)) + BytesToBits(bytes)
  }

  predicate Fits(byteLen: nat, version: nat)
    requires ValidVersion(version)
  {
    4 + (if version < 10 then 8 else 16) + 8 * byteLen <= 8 * DataCodewords(version)
  }

  /** chooseVersion: the smallest version that fits; None where the source throws. */
  method ChooseVersion(byteLen: nat) returns (r: Option<nat>)
    ensures r.None? <==> byteLen > 271
    ensures r.Some? ==> ValidVersion(r.value) && Fits(byteLen, r.value)
    ensures r.Some? ==> forall v :: 1 <= v < r.value ==> !Fits(byteLen, v)
  {
    for v := 1 to 11
      invariant forall u :: 1 <= u < v ==> !Fits(byteLen, u)
    {
      // Math.ceil(bits / 8) codewords
      var needed := (4 + CountBits(v) + byteLen * 8 + 7) / 8;
      if needed <= DataCodewords(v) {
        return Some(v);
      }
    }
    assert !Fits(byteLen, 10);
    return None;
  }

  function PadBytes(n: nat): (p: seq<byte>)
    ensures |p| == n && forall i :: 0 <= i < n ==> p[i] == if i % 2 == 0 then 0xec else 0x11
  {
    seq(n, i requires 0 <= i < n => PadByte(i))
  }

  function PadByte(i: nat): byte { if i % 2 == 0 then 0xec else 0x11 }

  method Push(bits: seq<bool>, value: nat, len: nat) returns (out: seq<bool>)
    ensures out == bits + ToBits(value, len)
  {
    out := bits;
    var i := len;
    ghost var pushed: seq<bool> := [];
    while i > 0
      invariant 0 <= i <= len
      invariant pushed == ToBits(value, len)[..len - i] && out == bits + pushed
    {
      i := i - 1;
      ToBitsShift(value, len, i);
      out := out + [Shr(value, i) % 2 == 1];
      pushed := pushed + [Shr(value, i) % 2 == 1];
    }
  }

  function FalseBits(n: nat): (s: seq<bool>)
    ensures |s| == n
  {
    seq(n, i => false)
  }

  lemma {:induction false} ZeroBits(n: nat)
    ensures ToBits(0, n) == FalseBits(n)
  {
    if n > 0 {
      ZeroBits(n - 1);
    }
  }

  /** Bytes used by the segment and its terminator of up to four zero bits. */
  function TerminatedBytes(segment: nat, dataCw: nat): nat {
    ((if segment + 4 <= 8 * dataCw then segment + 4 else 8 * dataCw) + 7) / 8
  }

  lemma OneMoreByte(bytes: seq<byte>, i: nat)
    requires i < |bytes|
    ensures BytesToBits(bytes[..i + 1]) == BytesToBits(bytes[..i]) + ToBits(bytes[i], 8)
  {
    hide ToBits;
    assert bytes[..i + 1] == bytes[..i] + [bytes[i]];
    BytesToBitsConcat(bytes[..i], [bytes[i]]);
    assert [bytes[i]][1..] == [];
    assert BytesToBits([bytes[i]]) == ToBits(bytes[i], 8) + BytesToBits([]);
  }

  method SegmentBits(bytes: seq<byte>, version: nat) returns (bits: seq<bool>)
    ensures bits == Segment(bytes, version)
  {
    bits := [];
    bits := Push(bits, 4, 4);
    bits := Push(bits, |bytes|, CountBits(version));
    for i := 0 to |bytes|
      invariant bits == ToBits(4, 4) + ToBits(|bytes|, CountBits(version)) + BytesToBits(bytes[..i])
    {
      hide ToBits, BytesToBits;
      bits := Push(bits, bytes[i], 8);
      OneMoreByte(bytes, i);
    }
    assert bytes[..|bytes|] == bytes;
  }

  /** Terminator and padding to a byte boundary. */
  method Terminate(segment: seq<bool>, dataCw: nat) returns (bits: seq<bool>)
    requires |segment| <= 8 * dataCw
    ensures bits == segment + FalseBits(8 * TerminatedBytes(|segment|, dataCw) - |segment|)
  {
    hide ToBits, Exp2;
    var room := 8 * dataCw - |segment|;
    var zeros := if room < 4 then room else 4;
    bits := Push(segment, 0, zeros);
    ZeroBits(zeros);
    while |bits| % 8 != 0
      invariant |segment| + zeros <= |bits| <= 8 * TerminatedBytes(|segment|, dataCw)
      invariant bits == segment + FalseBits(|bits| - |segment|)
      decreases 8 * TerminatedBytes(|segment|, dataCw) - |bits|
    {
      bits := bits + [false];
    }
  }

  /**
   * buildDataCodewords: the codewords spell the segment, then a terminator and zero bits up to a
   * byte boundary, then the two pad bytes alternately until the version is full.
   */
  method BuildDataCodewords(bytes: seq<byte>, version: nat) returns (out: seq<byte>)
    requires ValidVersion(version) && Fits(|bytes|, version)
    ensures |out| == DataCodewords(version)
    ensures var (n, dataCw) := (|Segment(bytes, version)|, DataCodewords(version));
      BytesToBits(out) == Segment(bytes, version) + FalseBits(8 * TerminatedBytes(n, dataCw) - n)
                        + BytesToBits(PadBytes(dataCw - TerminatedBytes(n, dataCw)))
  {
    hide ToBits, DataCodewords, Segment;
    var dataCw := DataCodewords(version);
    var bits := SegmentBits(bytes, version);
    SegmentLength(bytes, version);
    bits := Terminate(bits, dataCw);
    out := PackBytes(bits);
    ghost var packed := out;
    var p := 0;
    while |out| < dataCw
      invariant |out| <= dataCw && out == packed + PadBytes(p)
      decreases dataCw - |out|
    {
      assert PadBytes(p + 1) == PadBytes(p) + [PadByte(p)];
      out := out + [PadByte(p)];
      p := p + 1;
    }
    BytesToBitsConcat(packed, PadBytes(p));
  }

  lemma SegmentLength(bytes: seq<byte>, version: nat)
    requires ValidVersion(version)
    ensures |Segment(bytes, version)| == 4 + CountBits(version) + 8 * |bytes|
  {}

  /** Gathers every eight bits into a byte. */
  method PackBytes(bits: seq<bool>) returns (out: seq<byte>)
    requires |bits| % 8 == 0
    ensures BytesToBits(out) == bits
  {
    hide ToBits, Exp2, FromBits;
    out := [];
    var i := 0;
    while i < |bits|
      invariant i % 8 == 0 && i <= |bits| && BytesToBits(out) == bits[..i]
    {
      var b := PackByte(bits[i..i + 8]);
      BytesToBitsConcat(out, [b]);
      assert BytesToBits([b]) == ToBits(b, 8) + [];
      assert bits[..i + 8] == bits[..i] + bits[i..i + 8];
      out := out + [b];
      i := i + 8;
    }
    assert bits[..|bits|] == bits;
  }

  method PackByte(s: seq<bool>) returns (b: byte)
    requires |s| == 8
    ensures ToBits(b, 8) == s
  {
    var value := 0;
    for j := 0 to 8
      invariant value == FromBits(s[..j])
    {
      assert s[..j + 1][..j] == s[..j];
      value := 2 * value + (if s[j] then 1 else 0);
    }
    assert s[..8] == s;
    ToFromBits(s);
    assert Exp2(8) == 256;
    b := value;
  }

  // ------------------------------------------------------------------ reading

  /** The bytes spelled by a bit string; leftover bits are dropped. */
  function BitsToBytes(s: seq<bool>): (bytes: seq<byte>)
    ensures |bytes| == |s| / 8
  {
    if |s| < 8 then [] else [Octet(s[..8])] + BitsToBytes(s[8..])
  }

  lemma {:induction false} BitsOfBytes(bytes: seq<byte>, rest: seq<bool>)
    ensures |BitsToBytes(BytesToBits(bytes) + rest)| >= |bytes|
    ensures BitsToBytes(BytesToBits(bytes) + rest)[..|bytes|] == bytes
  {
    var s := BytesToBits(bytes) + rest;
    if bytes != [] {
      assert s[..8] == ToBits(bytes[0], 8);
      assert Exp2(8) == 256;
      FromToBits(bytes[0], 8);
      assert s[8..] == BytesToBits(bytes[1..]) + rest;
      BitsOfBytes(bytes[1..], rest);
      assert BitsToBytes(s) == [bytes[0]] + BitsToBytes(s[8..]);
    }
  }

  /** Reads a byte-mode payload out of the data codewords, as a scanner does. */
  function ReadPayload(data: seq<byte>, version: nat): Option<seq<byte>> {
    var bits := BytesToBits(data);
    var start := 4 + (if version < 10 then 8 else 16);
    if |bits| < start || FromBits(bits[..4]) != 4 then None
    else
      var len := FromBits(bits[4..start]);
      if |bits| < start + 8 * len then None else Some(BitsToBytes(bits[start..start + 8 * len]))
  }

  lemma CountRoundTrip(n: nat, version: nat)
    requires ValidVersion(version) && Fits(n, version)
    ensures FromBits(ToBits(n, CountBits(version))) == n
  {
    assert Exp2(8) == 256 && Exp2(16) == 65536 by {
      assert Exp2(8) == 256;
      assert Exp2(12) == 16 * Exp2(8);
    }
    FromToBits(n, CountBits(version));
  }

  /** The three parts of a segment, whatever follows it. */
  lemma SegmentParts(bytes: seq<byte>, version: nat, rest: seq<bool>)
    ensures var bits, start := Segment(bytes, version) + rest, 4 + CountBits(version);
      && |bits| >= start + 8 * |bytes|
      && bits[..4] == ToBits(4, 4) && bits[4..start] == ToBits(|bytes|, CountBits(version))
      && bits[start..start + 8 * |bytes|] == BytesToBits(bytes)
  {
    hide ToBits, BytesToBits, CountBits;
  }

  lemma AllBytes(bytes: seq<byte>)
    ensures BitsToBytes(BytesToBits(bytes)) == bytes
  {
    hide BytesToBits, BitsToBytes;
    BitsOfBytes(bytes, []);
    assert BytesToBits(bytes) + [] == BytesToBits(bytes);
  }

  /** Whatever follows the segment, the payload reads back. */
  lemma PayloadRoundTrip(bytes: seq<byte>, version: nat, data: seq<byte>, rest: seq<bool>)
    requires ValidVersion(version) && Fits(|bytes|, version)
    requires BytesToBits(data) == Segment(bytes, version) + rest
    ensures ReadPayload(data, version) == Some(bytes)
  {
    SmallMode();
    hide ToBits, FromBits, BytesToBits, BitsToBytes, Segment;
    CountRoundTrip(|bytes|, version);
    SegmentParts(bytes, version, rest);
    AllBytes(bytes);
  }

  /** The mode indicator reads back. */
  lemma SmallMode()
    ensures FromBits(ToBits(4, 4)) == 4
  {
    assert Exp2(4) == 16;
    FromToBits(4, 4);
  }
}
