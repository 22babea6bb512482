/**
 * Base64url without padding (sections 5 and 3.5 of RFC 4648): the lenient codec of firmware/main/b64url.c,
 * the strict decoder of firmware/main/ota_manifest.c and the publisher's unb64 (tools/ota/manifest.py).
 */
module Base64Url {
  import opened Options

  type Byte = b: nat | b < 256

  type Sextet = d: nat | d < 64

  const PAD: Byte := 61

  /** The alphabet: A-Z a-z 0-9 - _ */
  function Letter(d: Sextet): Byte {
    if d < 26 then 65 + d else if d < 52 then 71 + d else if d < 62 then d - 4 else if d == 62 then 45 else 95
  }

  /** dec_one: also reads + and / of the standard alphabet. */
  function Digit(c: Byte): (d: int)
    ensures -1 <= d < 64
  {
    if 65 <= c <= 90 then c - 65
    else if 97 <= c <= 122 then c - 71
    else if 48 <= c <= 57 then c + 4
    else if c == 45 || c == 43 then 62
    else if c == 95 || c == 47 then 63
    else -1
  }

  predicate Strict(c: Byte) { 65 <= c <= 90 || 97 <= c <= 122 || 48 <= c <= 57 || c == 45 || c == 95 }

  lemma LettersAreDigits(d: Sextet)
    ensures Digit(Letter(d)) == d && Strict(Letter(d)) && Letter(d) != PAD
  {}

  lemma DigitsAreLetters(c: Byte)
    requires Strict(c)
    ensures 0 <= Digit(c) < 64 && Letter(Digit(c)) == c
  {}

  // ----------------------------------------------------------- specification

  function First(a: Byte): Sextet { a / 4 }
  function Second(a: Byte, b: Byte): Sextet { a % 4 * 16 + b / 16 }
  function Third(b: Byte, c: Byte): Sextet { b % 16 * 4 + c / 64 }
  function Fourth(c: Byte): Sextet { c % 64 }

  function High(w: nat, x: nat): Byte
    requires w < 64 && x < 64
  {
    w * 4 + x / 16
  }

  function Middle(x: nat, y: nat): Byte
    requires x < 64 && y < 64
  {
    x % 16 * 16 + y / 4
  }

  function Low(y: nat, z: nat): Byte
    requires y < 64 && z < 64
  {
    y % 4 * 64 + z
  }

  /** Three bytes in four sextets; one or two bytes at the end in two or three. */
  function Sextets(b: seq<Byte>): seq<Sextet> {
    if b == [] then []
    else if |b| == 1 then [First(b[0]), Second(b[0], 0)]
    else if |b| == 2 then [First(b[0]), Second(b[0], b[1]), Third(b[1], 0)]
    else [First(b[0]), Second(b[0], b[1]), Third(b[1], b[2]), Fourth(b[2])] + Sextets(b[3..])
  }

  function EncodedLength(n: nat): nat { (n * 4 + 2) / 3 }

  function Letters(d: seq<Sextet>): seq<Byte> { seq(|d|, i requires 0 <= i < |d| => Letter(d[i])) }

  function Encoded(b: seq<Byte>): seq<Byte> { Letters(Sextets(b)) }

  /** The whole bytes among the sextets; bits past the last byte are dropped. */
  function Octets(d: seq<Sextet>): seq<Byte> {
    if |d| < 2 then []
    else if |d| == 2 then [High(d[0], d[1])]
    else if |d| == 3 then [High(d[0], d[1]), Middle(d[1], d[2])]
    else [High(d[0], d[1]), Middle(d[1], d[2]), Low(d[2], d[3])] + Octets(d[4..])
  }

  /** No lone sextet at the end, and the dropped bits are zero. */
  predicate Tail(d: seq<Sextet>) {
    match |d| % 4
    case 0 => true
    case 1 => false
    case 2 => d[|d| - 1] % 16 == 0
    case _ => d[|d| - 1] % 4 == 0
  }

  predicate Readable(s: seq<Byte>) { forall i :: 0 <= i < |s| ==> Digit(s[i]) >= 0 }

  predicate AllStrict(s: seq<Byte>) { forall i :: 0 <= i < |s| ==> Strict(s[i]) }

  function Digits(s: seq<Byte>): seq<Sextet>
    requires Readable(s)
  {
    seq(|s|, i requires 0 <= i < |s| => Digit(s[i]))
  }

  function Unpadded(s: seq<Byte>): seq<Byte> {
    if s != [] && s[|s| - 1] == PAD then Unpadded(s[..|s| - 1]) else s
  }

  function Decoded(s: seq<Byte>): Option<seq<Byte>> {
    var t := Unpadded(s);
    if Readable(t) && Tail(Digits(t)) then Some(Octets(Digits(t))) else None
  }

  // ---------------------------------------------------------------- theorems

  lemma OctetsStep(w: Sextet, x: Sextet, y: Sextet, z: Sextet, d: seq<Sextet>)
    ensures Octets([w, x, y, z] + d) == [High(w, x), Middle(x, y), Low(y, z)] + Octets(d)
    ensures Tail([w, x, y, z] + d) == Tail(d)
  {
    hide High, Middle, Low;
    assert ([w, x, y, z] + d)[4..] == d;
  }

  lemma SextetsStep(a: Byte, b: Byte, c: Byte, s: seq<Byte>)
    ensures Sextets([a, b, c] + s) == [First(a), Second(a, b), Third(b, c), Fourth(c)] + Sextets(s)
  {
    hide First, Second, Third, Fourth;
    assert ([a, b, c] + s)[3..] == s;
  }

  lemma {:induction false} OctetsOfSextets(b: seq<Byte>)
    ensures Tail(Sextets(b)) && Octets(Sextets(b)) == b && |Sextets(b)| == EncodedLength(|b|)
  {
    hide First, Second, Third, Fourth, High, Middle, Low;
    if |b| >= 3 {
      OctetsOfSextets(b[3..]);
      assert b == [b[0], b[1], b[2]] + b[3..];
      SextetsStep(b[0], b[1], b[2], b[3..]);
      OctetsStep(First(b[0]), Second(b[0], b[1]), Third(b[1], b[2]), Fourth(b[2]), Sextets(b[3..]));
      ThreeBytes(b[0], b[1], b[2]);
    } else if |b| == 2 {
      ThreeBytes(b[0], b[1], 0);
    } else if |b| == 1 {
      ThreeBytes(b[0], 0, 0);
    }
  }

  lemma ThreeBytes(a: Byte, b: Byte, c: Byte)
    ensures High(First(a), Second(a, b)) == a
    ensures Middle(Second(a, b), Third(b, c)) == b
    ensures Low(Third(b, c), Fourth(c)) == c
    ensures Second(a, 0) % 16 == 0 && Third(b, 0) % 4 == 0
  {}

  /** The sextets of the bytes of sextets: unchanged exactly when no bit was dropped. */
  lemma {:induction false} SextetsOfOctets(d: seq<Sextet>)
    ensures (Sextets(Octets(d)) == d <==> Tail(d)) && |Octets(d)| == |d| * 3 / 4
  {
    hide First, Second, Third, Fourth, High, Middle, Low;
    if |d| >= 4 {
      SextetsOfOctets(d[4..]);
      assert d == [d[0], d[1], d[2], d[3]] + d[4..];
      OctetsStep(d[0], d[1], d[2], d[3], d[4..]);
      SextetsStep(High(d[0], d[1]), Middle(d[1], d[2]), Low(d[2], d[3]), Octets(d[4..]));
      FourSextets(d[0], d[1], d[2], d[3]);
      assert Sextets(Octets(d)) == [d[0], d[1], d[2], d[3]] + Sextets(Octets(d[4..]));
      assert Sextets(Octets(d))[4..] == Sextets(Octets(d[4..]));
    } else if |d| == 3 {
      FourSextets(d[0], d[1], d[2], 0);
    } else if |d| == 2 {
      FourSextets(d[0], d[1], 0, 0);
    }
  }

  lemma FourSextets(w: Sextet, x: Sextet, y: Sextet, z: Sextet)
    ensures First(High(w, x)) == w && Second(High(w, x), Middle(x, y)) == x
    ensures Third(Middle(x, y), Low(y, z)) == y && Fourth(Low(y, z)) == z
    ensures Second(High(w, x), 0) == x <==> x % 16 == 0
    ensures Third(Middle(x, y), 0) == y <==> y % 4 == 0
  {}

  lemma EncodedFacts(b: seq<Byte>)
    ensures |Encoded(b)| == EncodedLength(|b|) && AllStrict(Encoded(b)) && Readable(Encoded(b))
    ensures Digits(Encoded(b)) == Sextets(b)
  {
    OctetsOfSextets(b);
    forall i | 0 <= i < |Sextets(b)| ensures Digit(Encoded(b)[i]) == Sextets(b)[i] && Strict(Encoded(b)[i]) {
      LettersAreDigits(Sextets(b)[i]);
    }
  }

  lemma StrictIsReadable(s: seq<Byte>)
    requires AllStrict(s)
    ensures Readable(s) && Letters(Digits(s)) == s
  {
    forall i | 0 <= i < |s| ensures Digit(s[i]) >= 0 && Letter(Digit(s[i])) == s[i] {
      DigitsAreLetters(s[i]);
    }
  }

  lemma {:induction false} UnpaddedPads(s: seq<Byte>, pads: nat)
    requires s == [] || s[|s| - 1] != PAD
    ensures Unpadded(s + seq(pads, _ => PAD)) == s
  {
    var padded := s + seq(pads, _ => PAD);
    if pads == 0 {
      assert padded == s;
    } else {
      assert padded[..|padded| - 1] == s + seq(pads - 1, _ => PAD);
      UnpaddedPads(s, pads - 1);
    }
  }

  /** Decoding undoes encoding for every byte string, with or without padding. */
  lemma RoundTrip(b: seq<Byte>, pads: nat)
    ensures Decoded(Encoded(b) + seq(pads, _ => PAD)) == Some(b)
  {
    EncodedFacts(b);
    UnpaddedPads(Encoded(b), pads);
    OctetsOfSextets(b);
  }

  /** Strict text that decodes is what the encoder writes: one text per byte string. */
  lemma StrictTextIsCanonical(s: seq<Byte>)
    requires AllStrict(s)
    ensures Readable(s) && (Encoded(Octets(Digits(s))) == s <==> Tail(Digits(s)))
  {
    StrictIsReadable(s);
    var d := Digits(s);
    SextetsOfOctets(d);
    if Encoded(Octets(d)) == s {
      EncodedFacts(Octets(d));
    }
  }

  const UPPER := "ABCDEFGHIJKLMNOPQRSTUVWXYZ"
  const LOWER := "abcdefghijklmnopqrstuvwxyz"
  const NUMERALS := "0123456789"

  /** Tables 1 and 2 of RFC 4648. */
  const STANDARD := UPPER + LOWER + NUMERALS + "+/"
  const ALPHABET := UPPER + LOWER + NUMERALS + "-_"

  /** A character of either table that stands for d. */
  predicate StandsFor(c: Byte, d: Sextet) {
    c == ALPHABET[d] as nat || c == STANDARD[d] as nat
  }

  lemma Runs(d: nat)
    ensures d < 26 ==> UPPER[d] as nat == 65 + d && LOWER[d] as nat == 97 + d
    ensures d < 10 ==> NUMERALS[d] as nat == 48 + d
  {
    if d < 13 {
    } else if d < 26 {
    }
  }

  /** The encoder writes the URL-safe table; the decoder reads both and nothing else. */
  lemma Alphabets(c: Byte, d: Sextet)
    ensures Letter(d) == ALPHABET[d] as nat
    ensures Digit(c) == d <==> StandsFor(c, d)
  {
    Runs(if d < 26 then d else if d < 52 then d - 26 else d - 52);
    if d < 26 {
    } else if d < 52 {
    } else {
    }
  }

  /** The decoder reads the bytes back from text in the standard alphabet, the URL-safe one or a mixture. */
  lemma EitherAlphabet(b: seq<Byte>, s: seq<Byte>, pads: nat)
    requires |s| == |Sextets(b)| && forall i :: 0 <= i < |s| ==> StandsFor(s[i], Sextets(b)[i])
    ensures Decoded(s + seq(pads, _ => PAD)) == Some(b)
  {
    hide StandsFor;
    forall i | 0 <= i < |s| ensures Digit(s[i]) == Sextets(b)[i] {
      Alphabets(s[i], Sextets(b)[i]);
    }
    assert Digit(PAD) == -1;
    assert Digits(s) == Sextets(b);
    UnpaddedPads(s, pads);
    OctetsOfSextets(b);
  }

  lemma EncodedStep(a: Byte, b: Byte, c: Byte, s: seq<Byte>)
    ensures Encoded([a, b, c] + s)
         == [Letter(First(a)), Letter(Second(a, b)), Letter(Third(b, c)), Letter(Fourth(c))] + Encoded(s)
  {
    hide First, Second, Third, Fourth, Letter, Sextets;
    SextetsStep(a, b, c, s);
  }

  // ------------------------------------------------- strict decoding, both ends

  /** What the device accepts as a manifest field of at most `capacity` bytes. */
  function StrictlyDecoded(text: seq<Byte>, capacity: nat): Option<seq<Byte>> {
    if text == [] || |text| > EncodedLength(capacity) || !AllStrict(text) then None
    else
      match Decoded(text)
      case None => None
      case Some(b) => if |b| <= capacity && Encoded(b) == text then Some(b) else None
  }

  /** base64.urlsafe_b64decode after padding to a multiple of four: excess bits are dropped. */
  function PythonDecoded(value: seq<Byte>): Option<seq<Byte>>
    requires Readable(value)
  {
    if |value| % 4 == 1 then None else Some(Octets(Digits(value)))
  }

  /** unb64 */
  function Unb64(value: seq<Byte>, limit: nat): Option<seq<Byte>> {
    if |value| > (limit + 2) / 3 * 4 || value == [] || !AllStrict(value) then None
    else
      StrictIsReadable(value);
      match PythonDecoded(value)
      case None => None
      case Some(b) => if |b| > limit || Encoded(b) != value then None else Some(b)
  }

  lemma UnpaddedStrict(s: seq<Byte>)
    requires AllStrict(s)
    ensures Unpadded(s) == s
  {}

  /** Strict decoding accepts exactly the encodings of 1 to capacity bytes. */
  lemma StrictAccepts(text: seq<Byte>, capacity: nat, b: seq<Byte>)
    ensures StrictlyDecoded(text, capacity) == Some(b) <==> 1 <= |b| <= capacity && text == Encoded(b)
  {
    EncodedFacts(b);
    RoundTrip(b, 0);
    assert Encoded(b) + seq(0, _ => PAD) == Encoded(b);
    if text == Encoded(b) && 1 <= |b| <= capacity {
      UnpaddedStrict(text);
    }
  }

  /** unb64 accepts the same texts. */
  lemma Unb64Accepts(value: seq<Byte>, limit: nat, b: seq<Byte>)
    ensures Unb64(value, limit) == Some(b) <==> 1 <= |b| <= limit && value == Encoded(b)
  {
    EncodedFacts(b);
    OctetsOfSextets(b);
    if value == Encoded(b) && 1 <= |b| <= limit {
      assert |value| == EncodedLength(|b|) && |value| % 4 != 1;
      assert |value| <= (limit + 2) / 3 * 4;
    }
  }

  /** Device and publisher agree on every text and every bound. */
  lemma StrictDecodersAgree(text: seq<Byte>, bound: nat)
    ensures StrictlyDecoded(text, bound) == Unb64(text, bound)
  {
    match StrictlyDecoded(text, bound)
    case Some(b) =>
      StrictAccepts(text, bound, b);
      Unb64Accepts(text, bound, b);
    case None =>
      match Unb64(text, bound) {
        case None => {}
        case Some(b) =>
          Unb64Accepts(text, bound, b);
          StrictAccepts(text, bound, b);
      }
  }

  // ------------------------------------------------------------ b64url.c

  function Pack(a: nat, b: nat, c: nat): nat { a * 65536 + b * 256 + c }

  lemma Mod4(q: nat, r: nat)
    ensures (4 * q + r) % 4 == r % 4
  {}

  lemma Mod16(q: nat, r: nat)
    ensures (16 * q + r) % 16 == r % 16
  {}

  lemma Mod64(q: nat, r: nat)
    ensures (64 * q + r) % 64 == r % 64
  {}

  lemma Mod256(q: nat, r: nat)
    ensures (256 * q + r) % 256 == r % 256
  {}

  lemma PackedTop(a: Byte, b: Byte, c: Byte)
    ensures Pack(a, b, c) / 262144 == a / 4
    ensures Pack(a, b, c) / 4096 == 64 * (a / 4) + (a % 4 * 16 + b / 16)
  {}

  lemma PackedLow(a: Byte, b: Byte, c: Byte)
    ensures Pack(a, b, c) / 64 == 64 * (16 * a + b / 16) + (b % 16 * 4 + c / 64)
    ensures Pack(a, b, c) == 64 * (1024 * a + 4 * b) + c
  {}

  lemma PackedSecond(a: Byte, b: Byte, c: Byte)
    ensures Pack(a, b, c) / 4096 % 64 == Second(a, b)
  {
    hide Pack;
    PackedTop(a, b, c);
    Mod64(a / 4, a % 4 * 16 + b / 16);
  }

  lemma PackedThird(a: Byte, b: Byte, c: Byte)
    ensures Pack(a, b, c) / 64 % 64 == Third(b, c)
  {
    hide Pack;
    PackedLow(a, b, c);
    Mod64(16 * a + b / 16, b % 16 * 4 + c / 64);
  }

  lemma PackedFourth(a: Byte, b: Byte, c: Byte)
    ensures Pack(a, b, c) % 64 == Fourth(c)
  {
    hide Pack;
    PackedLow(a, b, c);
    Mod64(1024 * a + 4 * b, c);
  }

  lemma PackedSextets(a: Byte, b: Byte, c: Byte)
    ensures var v := Pack(a, b, c);
      && v / 262144 % 64 == First(a) && v / 4096 % 64 == Second(a, b)
      && v / 64 % 64 == Third(b, c) && v % 64 == Fourth(c)
  {
    hide Pack, Second, Third, Fourth;
    PackedTop(a, b, c);
    PackedSecond(a, b, c);
    PackedThird(a, b, c);
    PackedFourth(a, b, c);
  }

  lemma Room(n: nat, i: nat, o: nat)
    requires i <= n && 3 * o == 4 * i
    ensures o + EncodedLength(n - i) == EncodedLength(n) && (i + 3 <= n ==> o + 4 <= EncodedLength(n))
  {}

  /** rw_b64url_encode: needs room for the text and its NUL. */
  method Encode(input: seq<Byte>, out: array<Byte>) returns (n: int)
    modifies out
    ensures n == if out.Length < EncodedLength(|input|) + 1 then -1 else EncodedLength(|input|)
    ensures n >= 0 ==> out[..n] == Encoded(input) && out[n] == 0
  {
    hide Letter, First, Second, Third, Fourth, Pack, Encoded, EncodedLength;
    var need := EncodedLength(|input|);
    if out.Length < need + 1 {
      return -1;
    }
    EncodedFacts(input);
    var o, i := 0, 0;
    while i + 3 <= |input|
      invariant 0 <= i <= |input|
      invariant 3 * o == 4 * i && o <= need
      invariant out[..o] + Encoded(input[i..]) == Encoded(input)
    {
      Room(|input|, i, o);
      EncodedStep(input[i], input[i + 1], input[i + 2], input[i + 3..]);
      assert input[i..] == [input[i], input[i + 1], input[i + 2]] + input[i + 3..];
      PutFour(input[i], input[i + 1], input[i + 2], out, o);
      i, o := i + 3, o + 4;
    }
    Room(|input|, i, o);
    assert |input[i..]| == |input| - i;
    o := PutRest(input[i..], out, o);
    out[o] := 0;
    assert out[..o] == Encoded(input);
    return o;
  }

  method PutFour(a: Byte, b: Byte, c: Byte, out: array<Byte>, o: nat)
    requires o + 4 <= out.Length
    modifies out
    ensures out[..o + 4]
         == old(out[..o]) + [Letter(First(a)), Letter(Second(a, b)), Letter(Third(b, c)), Letter(Fourth(c))]
  {
    hide Letter, First, Second, Third, Fourth, Pack;
    var v := Pack(a, b, c);
    PackedSextets(a, b, c);
    out[o] := Letter(v / 262144 % 64);
    out[o + 1] := Letter(v / 4096 % 64);
    out[o + 2] := Letter(v / 64 % 64);
    out[o + 3] := Letter(v % 64);
  }

  /** The one or two bytes after the last group of three. */
  method PutRest(rest: seq<Byte>, out: array<Byte>, o: nat) returns (end: nat)
    requires |rest| < 3 && o + EncodedLength(|rest|) <= out.Length
    modifies out
    ensures end == o + EncodedLength(|rest|) && out[..end] == old(out[..o]) + Encoded(rest)
  {
    hide Letter, First, Second, Third, Fourth, Pack;
    end := o;
    if |rest| == 1 {
      var v := Pack(rest[0], 0, 0);
      PackedSextets(rest[0], 0, 0);
      out[o] := Letter(v / 262144 % 64);
      out[o + 1] := Letter(v / 4096 % 64);
      end := o + 2;
    } else if |rest| == 2 {
      var v := Pack(rest[0], rest[1], 0);
      PackedSextets(rest[0], rest[1], 0);
      out[o] := Letter(v / 262144 % 64);
      out[o + 1] := Letter(v / 4096 % 64);
      out[o + 2] := Letter(v / 64 % 64);
      end := o + 3;
    }
    assert out[..o] == old(out[..o]);
  }

  const WORD := 0x1_0000_0000

  /** The byte that sextet x completes after the sextets d, if any. */
  function Completed(d: seq<Sextet>, x: Sextet): seq<Byte> {
    match |d| % 4
    case 0 => []
    case 1 => [High(d[|d| - 1], x)]
    case 2 => [Middle(d[|d| - 1], x)]
    case _ => [Low(d[|d| - 1], x)]
  }

  lemma {:induction false} OctetsAppend(d: seq<Sextet>, x: Sextet)
    ensures Octets(d + [x]) == Octets(d) + Completed(d, x)
  {
    hide High, Middle, Low;
    if |d| < 4 {
      OctetsShort(d, x);
    } else {
      hide Octets, Completed;
      OctetsAppend(d[4..], x);
      assert d == [d[0], d[1], d[2], d[3]] + d[4..];
      assert d + [x] == [d[0], d[1], d[2], d[3]] + (d[4..] + [x]);
      OctetsStep(d[0], d[1], d[2], d[3], d[4..]);
      OctetsStep(d[0], d[1], d[2], d[3], d[4..] + [x]);
      SameCompletion(d, x);
    }
  }

  lemma OctetsEnds(d: seq<Sextet>)
    ensures |d| < 2 ==> Octets(d) == []
    ensures |d| == 2 ==> Octets(d) == [High(d[0], d[1])]
    ensures |d| == 3 ==> Octets(d) == [High(d[0], d[1]), Middle(d[1], d[2])]
  {
    hide High, Middle, Low;
  }

  lemma OctetsShort(d: seq<Sextet>, x: Sextet)
    requires |d| < 4
    ensures Octets(d + [x]) == Octets(d) + Completed(d, x)
  {
    hide High, Middle, Low, Octets, Completed;
    OctetsEnds(d);
    CompletedMeans(d, x);
    if |d| == 0 {
      OctetsEnds(d + [x]);
      assert Octets(d) + [] == [];
    } else if |d| == 1 {
      OctetsEnds(d + [x]);
      assert [] + [High(d[0], x)] == [High(d[0], x)];
    } else if |d| == 2 {
      OctetsEnds(d + [x]);
      assert [High(d[0], d[1])] + [Middle(d[1], x)] == [High(d[0], d[1]), Middle(d[1], x)];
    } else {
      OctetsStep(d[0], d[1], d[2], x, []);
      OctetsEnds([]);
      assert d + [x] == [d[0], d[1], d[2], x] + [];
      assert [High(d[0], d[1]), Middle(d[1], d[2]), Low(d[2], x)] + [] == Octets(d) + [Low(d[2], x)];
    }
  }

  lemma CompletedMeans(d: seq<Sextet>, x: Sextet)
    requires |d| < 4
    ensures |d| == 0 ==> Completed(d, x) == []
    ensures |d| == 1 ==> Completed(d, x) == [High(d[0], x)]
    ensures |d| == 2 ==> Completed(d, x) == [Middle(d[1], x)]
    ensures |d| == 3 ==> Completed(d, x) == [Low(d[2], x)]
  {
    hide High, Middle, Low;
  }

  lemma SameCompletion(d: seq<Sextet>, x: Sextet)
    requires |d| >= 4
    ensures Completed(d[4..], x) == Completed(d, x)
  {
    hide High, Middle, Low;
  }

  lemma ToHigh(low: nat, x: Sextet)
    ensures (low * 64 + x) / 16 % 256 == High(low % 64, x)
  {
    var q, r := low / 64, low % 64;
    assert (low * 64 + x) / 16 == 256 * q + (r * 4 + x / 16);
    Mod256(q, r * 4 + x / 16);
  }

  lemma ToMiddle(low: nat, x: Sextet)
    ensures (low * 64 + x) / 4 % 256 == Middle(low % 16, x)
  {
    var q, r := low / 16, low % 16;
    assert (low * 64 + x) / 4 == 256 * q + (r * 16 + x / 4);
    Mod256(q, r * 16 + x / 4);
  }

  lemma ToLow(low: nat, x: Sextet)
    ensures (low * 64 + x) % 256 == Low(low % 4, x)
  {
    var q, r := low / 4, low % 4;
    assert low * 64 + x == 256 * q + (r * 64 + x);
    Mod256(q, r * 64 + x);
  }

  function Shift6(acc: nat, x: Sextet): nat { acc * 64 % WORD + x }

  lemma Shift6Means(acc: nat, x: Sextet)
    ensures Shift6(acc, x) == acc % 67108864 * 64 + x
  {
    assert acc * 64 == acc / 67108864 * WORD + acc % 67108864 * 64;
  }

  /** (acc << 6) | x in 32 bits: the bits still wanted are never shifted out. */
  lemma Shifted(acc: nat, x: Sextet)
    ensures var next := Shift6(acc, x);
      && next % 64 == x && next % 16 == x % 16 && next % 4 == x % 4
      && next / 16 % 256 == High(acc % 64, x)
      && next / 4 % 256 == Middle(acc % 16, x)
      && next % 256 == Low(acc % 4, x)
  {
    hide High, Middle, Low, Shift6;
    var low := acc % 67108864;
    Shift6Means(acc, x);
    var q := acc / 67108864;
    Mod64(1048576 * q, low);
    Mod16(4194304 * q, low);
    Mod4(16777216 * q, low);
    Mod64(low, x);
    Mod16(low * 4, x);
    Mod4(low * 16, x);
    ToHigh(low, x);
    ToMiddle(low, x);
    ToLow(low, x);
  }

  /** What the accumulator still holds after i sextets. */
  predicate Pending(d: seq<Sextet>, acc: nat, bits: nat) {
    match |d| % 4
    case 0 => bits == 0
    case 1 => bits == 6 && acc % 64 == d[|d| - 1]
    case 2 => bits == 4 && acc % 16 == d[|d| - 1] % 16
    case _ => bits == 2 && acc % 4 == d[|d| - 1] % 4
  }

  /** rw_b64url_decode */
  method Decode(input: seq<Byte>, out: array<Byte>) returns (n: int)
    modifies out
    ensures n >= 0 <==> Decoded(input).Some? && |Decoded(input).value| <= out.Length
    ensures n >= 0 ==> n <= out.Length && out[..n] == Decoded(input).value
    ensures n >= -1
  {
    hide Digit, High, Middle, Low, Octets, Tail, Shift6, Pending, Completed;
    var len := |input|;
    assert input[..len] == input;
    while len > 0 && input[len - 1] == PAD
      invariant 0 <= len <= |input| && Unpadded(input[..len]) == Unpadded(input)
    {
      assert input[..len][..len - 1] == input[..len - 1];
      len := len - 1;
    }
    ghost var t := input[..len];
    assert Unpadded(input) == t;
    var acc, bits, o, i := 0, 0, 0, 0;
    ghost var d: seq<Sextet> := [];
    StartOfText();
    while i < len
      invariant i <= len && Readable(t[..i]) && d == Digits(t[..i])
      invariant o <= out.Length && out[..o] == Octets(d) && Pending(d, acc, bits)
    {
      assert t[i] == input[i];
      var x := Digit(input[i]);
      if x < 0 {
        return -1;
      }
      assert t[..i + 1] == t[..i] + [t[i]];
      assert Digits(t[..i + 1]) == d + [x];
      OctetsAppend(d, x);
      NextBits(d, acc, bits, x);
      acc := Shift6(acc, x);
      bits := bits + 6;
      if bits >= 8 {
        bits := bits - 8;
        if o >= out.Length {
          TooLong(t, i + 1, out.Length);
          return -1;
        }
        out[o] := acc / (if bits == 4 then 16 else if bits == 2 then 4 else 1) % 256;
        o := o + 1;
        assert out[..o] == Octets(d) + Completed(d, x);
      }
      d := d + [x];
      i := i + 1;
    }
    assert t[..i] == t;
    PendingTail(d, acc, bits);
    if bits >= 6 || acc % (if bits == 4 then 16 else if bits == 2 then 4 else 1) != 0 {
      return -1;
    }
    return o;
  }

  lemma StartOfText()
    ensures Octets([]) == [] && Pending([], 0, 0)
  {}

  lemma OnlyLowBits(y: Sextet, x: Sextet)
    ensures Middle(y, x) == Middle(y % 16, x) && Low(y, x) == Low(y % 4, x)
  {
    assert y % 16 % 16 == y % 16;
    assert y % 4 % 4 == y % 4;
  }

  lemma NextBits(d: seq<Sextet>, acc: nat, bits: nat, x: Sextet)
    requires Pending(d, acc, bits)
    ensures var next := Shift6(acc, x);
      if bits + 6 < 8 then Completed(d, x) == [] && Pending(d + [x], next, bits + 6)
      else
        && bits - 2 in {0, 2, 4} && Pending(d + [x], next, bits - 2)
        && Completed(d, x) == [next / (if bits == 6 then 16 else if bits == 4 then 4 else 1) % 256]
  {
    hide High, Middle, Low, Shift6;
    Shifted(acc, x);
    if |d| > 0 {
      OnlyLowBits(d[|d| - 1], x);
    }
    NextCount(|d|);
  }

  lemma NextCount(n: nat)
    ensures (n + 1) % 4 == if n % 4 == 3 then 0 else n % 4 + 1
  {}

  lemma PendingTail(d: seq<Sextet>, acc: nat, bits: nat)
    requires Pending(d, acc, bits)
    ensures Tail(d) <==> bits < 6 && acc % (if bits == 4 then 16 else if bits == 2 then 4 else 1) == 0
  {}

  /** A prefix that already overflows the buffer makes the whole text overflow it. */
  lemma TooLong(t: seq<Byte>, i: nat, capacity: nat)
    requires i <= |t| && Readable(t[..i]) && |Octets(Digits(t[..i]))| > capacity
    ensures Readable(t) ==> |Octets(Digits(t))| > capacity
  {
    SextetsOfOctets(Digits(t[..i]));
    if Readable(t) {
      SextetsOfOctets(Digits(t));
    }
  }

  // -------------------------------------------------------- ota_manifest.c

  /** decode: only the one canonical text of 1 to capacity bytes; `memory` is whether malloc finds room for it. */
  method DecodeStrictly(text: seq<Byte>, out: array<Byte>, memory: bool) returns (n: int)
    modifies out
    ensures n >= 0 <==> memory && StrictlyDecoded(text, out.Length).Some?
    ensures n < 0 ==> n == -1
    ensures n >= 0 ==> n <= out.Length && StrictlyDecoded(text, out.Length) == Some(out[..n])
  {
    var length := |text|;
    if length == 0 || length > EncodedLength(out.Length) {
      return -1;
    }
    for i := 0 to length
      invariant AllStrict(text[..i])
    {
      if !Strict(text[i]) {
        return -1;
      }
      assert text[..i + 1] == text[..i] + [text[i]];
    }
    assert text[..length] == text;
    var count := Decode(text, out);
    if count < 0 {
      return -1;
    }
    if !memory {
      return -1;
    }
    var canonical := new Byte[length + 1](_ => 0);
    ghost var bytes := out[..count];
    var chars := Encode(out[..count], canonical);
    EncodedFacts(bytes);
    var same := chars == length && canonical[..chars] == text;
    n := if same then count else -1;
  }
}
