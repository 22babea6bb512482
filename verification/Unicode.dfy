/**
 * Text as the phone and the device hold it: UTF-16 code units in JavaScript, UTF-8 bytes in C
 * (sections 3.9 and 3.10 of the Unicode Standard), and the two orders that sorting by code unit gives.
 */
module Unicode {

  predicate Scalar(c: nat) { c <= 0x10FFFF && !(0xD800 <= c <= 0xDFFF) }

  /** Well-formed text: a sequence of Unicode scalar values. */
  predicate Text(t: seq<nat>) { forall i :: 0 <= i < |t| ==> Scalar(t[i]) }

  datatype Encoding = Utf8 | Utf16

  function Units(e: Encoding, c: nat): (u: seq<nat>)
    requires Scalar(c)
    ensures u != [] && (c < 0x80 ==> u == [c])
    ensures c >= 0x80 ==> forall i :: 0 <= i < |u| ==> u[i] >= 0x80
  {
    match e
    case Utf8 =>
      if c < 0x80 then [c]
      else if c < 0x800 then [0xC0 + c / 64, 0x80 + c % 64]
      else if c < 0x10000 then [0xE0 + c / 4096, 0x80 + c / 64 % 64, 0x80 + c % 64]
      else [0xF0 + c / 262144, 0x80 + c / 4096 % 64, 0x80 + c / 64 % 64, 0x80 + c % 64]
    case Utf16 =>
      if c < 0x10000 then [c]
      else [0xD800 + (c - 0x10000) / 1024, 0xDC00 + (c - 0x10000) % 1024]
  }

  function Encode(e: Encoding, t: seq<nat>): (u: seq<nat>)
    requires Text(t)
  {
    if t == [] then [] else Units(e, t[0]) + Encode(e, t[1..])
  }

  lemma {:induction false} EncodeConcat(e: Encoding, a: seq<nat>, b: seq<nat>)
    requires Text(a) && Text(b)
    ensures Encode(e, a + b) == Encode(e, a) + Encode(e, b)
  {
    if a == [] {
      assert a + b == b;
    } else {
      hide Units;
      EncodeConcat(e, a[1..], b);
      assert (a + b)[0] == a[0] && (a + b)[1..] == a[1..] + b;
      var head, tail := Units(e, a[0]), Encode(e, a[1..]);
      assert head + (tail + Encode(e, b)) == head + tail + Encode(e, b);
    }
  }

  lemma EncodeOne(e: Encoding, c: nat)
    requires Scalar(c)
    ensures Encode(e, [c]) == Units(e, c)
  {
    assert [c][1..] == [];
  }

  predicate Ascii(t: seq<nat>) { forall i :: 0 <= i < |t| ==> t[i] < 0x80 }

  lemma {:induction false} EncodeAscii(e: Encoding, t: seq<nat>)
    requires Ascii(t)
    ensures Encode(e, t) == t
  {
    if t != [] {
      EncodeAscii(e, t[1..]);
      assert t == [t[0]] + t[1..];
    }
  }

  // ------------------------------------------------------ decoding of UTF-16

  predicate HighSurrogate(u: nat) { 0xD800 <= u < 0xDC00 }

  predicate LowSurrogate(u: nat) { 0xDC00 <= u < 0xE000 }

  /** Surrogates only in pairs. */
  predicate WellFormedUtf16(u: seq<nat>) {
    if u == [] then true
    else if HighSurrogate(u[0]) then |u| > 1 && LowSurrogate(u[1]) && WellFormedUtf16(u[2..])
    else u[0] < 0x10000 && !LowSurrogate(u[0]) && WellFormedUtf16(u[1..])
  }

  /** What TextEncoder reads from a JavaScript string; a lone surrogate becomes U+FFFD. */
  function DecodeUtf16(u: seq<nat>): (t: seq<nat>)
    requires forall i :: 0 <= i < |u| ==> u[i] < 0x10000
    ensures Text(t)
  {
    if u == [] then []
    else if HighSurrogate(u[0]) && |u| > 1 && LowSurrogate(u[1]) then
      [0x10000 + (u[0] - 0xD800) * 1024 + (u[1] - 0xDC00)] + DecodeUtf16(u[2..])
    else if HighSurrogate(u[0]) || LowSurrogate(u[0]) then [0xFFFD] + DecodeUtf16(u[1..])
    else [u[0]] + DecodeUtf16(u[1..])
  }

  lemma {:induction false} Utf16RoundTrip(t: seq<nat>)
    requires Text(t)
    ensures forall i :: 0 <= i < |Encode(Utf16, t)| ==> Encode(Utf16, t)[i] < 0x10000
    ensures WellFormedUtf16(Encode(Utf16, t)) && DecodeUtf16(Encode(Utf16, t)) == t
  {
    if t != [] {
      Utf16RoundTrip(t[1..]);
      var u := Encode(Utf16, t);
      if t[0] < 0x10000 {
        assert u[1..] == Encode(Utf16, t[1..]);
      } else {
        assert u[2..] == Encode(Utf16, t[1..]);
      }
      assert t == [t[0]] + t[1..];
    }
  }

  // ------------------------------------------------------- decoding of UTF-8

  function Continuation(u: nat): nat { u % 64 }

  /** The code points of well-formed UTF-8: the lead byte tells how many bytes follow. */
  function DecodeUtf8(u: seq<nat>): seq<nat> {
    if u == [] then []
    else if u[0] < 0x80 then [u[0]] + DecodeUtf8(u[1..])
    else if u[0] < 0xE0 && |u| > 1 then [u[0] % 32 * 64 + Continuation(u[1])] + DecodeUtf8(u[2..])
    else if u[0] < 0xF0 && |u| > 2 then
      [u[0] % 16 * 4096 + Continuation(u[1]) * 64 + Continuation(u[2])] + DecodeUtf8(u[3..])
    else if |u| > 3 then
      [u[0] % 8 * 262144 + Continuation(u[1]) * 4096 + Continuation(u[2]) * 64 + Continuation(u[3])]
        + DecodeUtf8(u[4..])
    else []
  }

  /** The bits of a lead byte and of the bytes after it. */
  lemma Utf8Bits(c: nat)
    requires Scalar(c)
    ensures var u := Units(Utf8, c);
      && (forall i :: 0 <= i < |u| ==> u[i] < 0x100) && (forall i :: 0 < i < |u| ==> u[i] / 64 == 2)
      && (if c < 0x80 then u == [c]
          else if c < 0x800 then |u| == 2 && u[0] / 32 == 6 && c == u[0] % 32 * 64 + u[1] % 64
          else if c < 0x10000 then |u| == 3 && u[0] / 16 == 14 && c == u[0] % 16 * 4096 + u[1] % 64 * 64 + u[2] % 64
          else |u| == 4 && u[0] / 8 == 30 && c == u[0] % 8 * 262144 + u[1] % 64 * 4096 + u[2] % 64 * 64 + u[3] % 64)
  {
    Quotients(c);
  }

  lemma {:induction false} Utf8RoundTrip(t: seq<nat>)
    requires Text(t)
    ensures DecodeUtf8(Encode(Utf8, t)) == t
  {
    if t != [] {
      Utf8Bits(t[0]);
      Utf8RoundTrip(t[1..]);
      var head := Units(Utf8, t[0]);
      var u := Encode(Utf8, t);
      assert u == head + Encode(Utf8, t[1..]);
      assert u[|head|..] == Encode(Utf8, t[1..]);
      hide Units;
      assert t == [t[0]] + t[1..];
    }
  }

  // ---------------------------------------------------------------- ordering

  /** strcmp on bytes, and the default JavaScript comparison on code units. */
  predicate Less(a: seq<nat>, b: seq<nat>) {
    b != [] && (a == [] || a[0] < b[0] || (a[0] == b[0] && Less(a[1..], b[1..])))
  }

  lemma {:induction false} LessIsTotal(a: seq<nat>, b: seq<nat>)
    ensures !(Less(a, b) && Less(b, a))
    ensures !Less(a, b) && !Less(b, a) <==> a == b
  {
    if a != [] && b != [] && a[0] == b[0] {
      LessIsTotal(a[1..], b[1..]);
      assert a == [a[0]] + a[1..] && b == [b[0]] + b[1..];
    }
  }

  lemma {:induction false} LessIsTransitive(a: seq<nat>, b: seq<nat>, c: seq<nat>)
    requires Less(a, b) && Less(b, c)
    ensures Less(a, c)
  {
    if a != [] && a[0] == b[0] == c[0] {
      LessIsTransitive(a[1..], b[1..], c[1..]);
    }
  }

  lemma {:induction false} LessSkipsPrefix(p: seq<nat>, a: seq<nat>, b: seq<nat>)
    ensures Less(p + a, p + b) == Less(a, b)
  {
    if p == [] {
      assert p + a == a && p + b == b;
    } else {
      LessSkipsPrefix(p[1..], a, b);
      assert (p + a)[1..] == p[1..] + a && (p + b)[1..] == p[1..] + b;
    }
  }

  /** The code points that sort above the surrogates in UTF-16 although supplementary ones are larger. */
  predicate AboveSurrogates(c: nat) { 0xE000 <= c <= 0xFFFF }

  predicate Clash(c: nat, d: nat) {
    (AboveSurrogates(c) && d >= 0x10000) || (c >= 0x10000 && AboveSurrogates(d))
  }

  /** Two texts first differ in a clash. */
  predicate Conflict(a: seq<nat>, b: seq<nat>) {
    a != [] && b != [] && if a[0] == b[0] then Conflict(a[1..], b[1..]) else Clash(a[0], b[0])
  }

  lemma LessAtDifference(x: seq<nat>, y: seq<nat>, i: nat)
    requires i < |x| && i < |y| && x[..i] == y[..i] && x[i] != y[i]
    ensures Less(x, y) == (x[i] < y[i])
  {
    assert x == x[..i] + x[i..] && y == y[..i] + y[i..];
    LessSkipsPrefix(x[..i], x[i..], y[i..]);
  }

  lemma BaseStep(c: nat, d: nat)
    requires c < d
    ensures c / 64 < d / 64 || (c / 64 == d / 64 && c % 64 < d % 64)
  {}

  lemma Quotients(c: nat)
    ensures c / 4096 == c / 64 / 64 && c / 262144 == c / 64 / 64 / 64
  {}

  /** Where two encodings of one length first differ: their lead and continuation bytes are digits to base 64. */
  predicate DiffersAt(x: seq<nat>, y: seq<nat>, i: nat) {
    i < |x| && i < |y| && x[..i] == y[..i] && x[i] < y[i]
  }

  lemma TwoBytes(c: nat, d: nat) returns (i: nat)
    requires 0x80 <= c < d < 0x800
    ensures DiffersAt(Units(Utf8, c), Units(Utf8, d), i)
  {
    BaseStep(c, d);
    i := if c / 64 < d / 64 then 0 else 1;
    Prefixes(Units(Utf8, c), Units(Utf8, d), i);
  }

  lemma ThreeBytes(c: nat, d: nat) returns (i: nat)
    requires 0x800 <= c < d < 0x10000 && Scalar(c) && Scalar(d)
    ensures DiffersAt(Units(Utf8, c), Units(Utf8, d), i)
  {
    Quotients(c);
    Quotients(d);
    BaseStep(c, d);
    if c / 64 == d / 64 {
      i := 2;
    } else {
      BaseStep(c / 64, d / 64);
      i := if c / 64 / 64 < d / 64 / 64 then 0 else 1;
    }
    Prefixes(Units(Utf8, c), Units(Utf8, d), i);
  }

  lemma FourBytes(c: nat, d: nat) returns (i: nat)
    requires 0x10000 <= c < d && Scalar(c) && Scalar(d)
    ensures DiffersAt(Units(Utf8, c), Units(Utf8, d), i)
  {
    Quotients(c);
    Quotients(d);
    BaseStep(c, d);
    if c / 64 == d / 64 {
      i := 3;
    } else {
      BaseStep(c / 64, d / 64);
      if c / 64 / 64 == d / 64 / 64 {
        i := 2;
      } else {
        BaseStep(c / 64 / 64, d / 64 / 64);
        i := if c / 64 / 64 / 64 < d / 64 / 64 / 64 then 0 else 1;
      }
    }
    Prefixes(Units(Utf8, c), Units(Utf8, d), i);
  }

  lemma Prefixes(x: seq<nat>, y: seq<nat>, i: nat)
    requires i <= |x| && i <= |y| && forall k :: 0 <= k < i ==> x[k] == y[k]
    ensures x[..i] == y[..i]
  {}

  lemma Lengths(c: nat)
    requires Scalar(c)
    ensures |Units(Utf8, c)| == if c < 0x80 then 1 else if c < 0x800 then 2 else if c < 0x10000 then 3 else 4
  {}

  lemma Utf8Difference(c: nat, d: nat) returns (i: nat)
    requires Scalar(c) && Scalar(d) && c < d && |Units(Utf8, c)| == |Units(Utf8, d)|
    ensures DiffersAt(Units(Utf8, c), Units(Utf8, d), i)
  {
    Lengths(c);
    Lengths(d);
    hide DiffersAt;
    if d < 0x80 {
      i := 0;
      OneByte(c, d);
    } else {
      hide Units;
      if d < 0x800 {
        i := TwoBytes(c, d);
      } else if d < 0x10000 {
        i := ThreeBytes(c, d);
      } else {
        i := FourBytes(c, d);
      }
    }
  }

  lemma OneByte(c: nat, d: nat)
    requires c < d < 0x80
    ensures DiffersAt(Units(Utf8, c), Units(Utf8, d), 0)
  {}

  lemma Utf8Order(c: nat, d: nat) returns (i: nat)
    requires Scalar(c) && Scalar(d) && c < d
    ensures i < |Units(Utf8, c)| && i < |Units(Utf8, d)| && Units(Utf8, c)[..i] == Units(Utf8, d)[..i]
    ensures Units(Utf8, c)[i] < Units(Utf8, d)[i]
  {
    if |Units(Utf8, c)| == |Units(Utf8, d)| {
      i := Utf8Difference(c, d);
    } else {
      i := 0;
    }
  }

  lemma Utf16Order(c: nat, d: nat) returns (i: nat)
    requires Scalar(c) && Scalar(d) && c < d
    ensures i < |Units(Utf16, c)| && i < |Units(Utf16, d)| && Units(Utf16, c)[..i] == Units(Utf16, d)[..i]
    ensures Units(Utf16, c)[i] != Units(Utf16, d)[i]
    ensures Units(Utf16, c)[i] < Units(Utf16, d)[i] <==> !Clash(c, d)
  {
    var x, y := Units(Utf16, c), Units(Utf16, d);
    if x[0] != y[0] {
      i := 0;
    } else {
      i := 1;
      assert x[..1] == [x[0]] && y[..1] == [y[0]];
    }
  }

  /** Two scalar values encode to units whose first difference orders them, reversed on a UTF-16 clash. */
  lemma UnitOrder(e: Encoding, c: nat, d: nat, a: seq<nat>, b: seq<nat>)
    requires Scalar(c) && Scalar(d) && c != d
    ensures Less(Units(e, c) + a, Units(e, d) + b) <==> (c < d) != (e.Utf16? && Clash(c, d))
  {
    var x, y := Units(e, c) + a, Units(e, d) + b;
    var low, high := if c < d then c else d, if c < d then d else c;
    var i;
    if e.Utf8? {
      i := Utf8Order(low, high);
    } else {
      i := Utf16Order(low, high);
    }
    hide Units, Clash, Less;
    assert x[..i] == Units(e, c)[..i] && y[..i] == Units(e, d)[..i];
    LessAtDifference(x, y, i);
  }

  /** The unit order of two encoded texts: code point order, reversed exactly on a UTF-16 conflict. */
  lemma {:induction false} EncodedOrder(e: Encoding, a: seq<nat>, b: seq<nat>)
    requires Text(a) && Text(b)
    ensures Less(Encode(e, a), Encode(e, b)) == (Less(a, b) != (e.Utf16? && Conflict(a, b)))
  {
    hide Units;
    if a == [] || b == [] {
    } else if a[0] == b[0] {
      EncodedOrder(e, a[1..], b[1..]);
      LessSkipsPrefix(Units(e, a[0]), Encode(e, a[1..]), Encode(e, b[1..]));
    } else {
      UnitOrder(e, a[0], b[0], Encode(e, a[1..]), Encode(e, b[1..]));
    }
  }

  lemma EncodeInjective(e: Encoding, a: seq<nat>, b: seq<nat>)
    requires Text(a) && Text(b) && Encode(e, a) == Encode(e, b)
    ensures a == b
  {
    EncodedOrder(e, a, b);
    EncodedOrder(e, b, a);
    LessIsTotal(Encode(e, a), Encode(e, b));
    LessIsTotal(a, b);
    ConflictSymmetric(a, b);
  }

  lemma {:induction false} ConflictSymmetric(a: seq<nat>, b: seq<nat>)
    ensures Conflict(a, b) == Conflict(b, a) && !Conflict(a, a)
  {
    if a != [] {
      if b != [] {
        ConflictSymmetric(a[1..], b[1..]);
      } else {
        ConflictSymmetric(a[1..], b);
      }
    }
  }
}
