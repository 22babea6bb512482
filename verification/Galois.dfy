/**
 * The field GF(256) used by the QR code (polynomial x^8+x^4+x^3+x^2+1, 0x11d):
 * exclusive or, the schoolbook product, and the powers of alpha = 2.
 */
module Galois {

  type byte = x: nat | x < 256

  // ------------------------------------------------------------- exclusive or

  function Xor(a: nat, b: nat): nat
    decreases a + b
  {
    if a == 0 && b == 0 then 0 else 2 * Xor(a / 2, b / 2) + (if a % 2 != b % 2 then 1 else 0)
  }

  lemma XorHalf(a: nat, b: nat)
    ensures Xor(a, b) / 2 == Xor(a / 2, b / 2)
    ensures Xor(a, b) % 2 == if a % 2 != b % 2 then 1 else 0
  {}

  lemma {:induction false} XorAssoc(a: nat, b: nat, c: nat)
    ensures Xor(Xor(a, b), c) == Xor(a, Xor(b, c))
    decreases a + b + c
  {
    if a + b + c > 0 {
      XorAssoc(a / 2, b / 2, c / 2);
      XorHalf(a, b);
      XorHalf(b, c);
      XorHalf(Xor(a, b), c);
      XorHalf(a, Xor(b, c));
    }
  }

  lemma {:induction false} XorComm(a: nat, b: nat)
    ensures Xor(a, b) == Xor(b, a)
    decreases a + b
  {
    if a + b > 0 {
      XorComm(a / 2, b / 2);
    }
  }

  lemma {:induction false} XorSelf(a: nat)
    ensures Xor(a, a) == 0
  {
    if a > 0 {
      XorSelf(a / 2);
    }
  }

  lemma {:induction false} XorZero(a: nat)
    ensures Xor(a, 0) == a == Xor(0, a)
  {
    if a > 0 {
      XorZero(a / 2);
    }
  }

  lemma Xor4(a: nat, b: nat, c: nat, d: nat)
    ensures Xor(Xor(a, b), Xor(c, d)) == Xor(Xor(a, c), Xor(b, d))
  {
    XorAssoc(a, b, Xor(c, d));
    XorAssoc(b, c, d);
    XorComm(b, c);
    XorAssoc(c, b, d);
    XorAssoc(a, c, Xor(b, d));
  }

  lemma XorChain(a: nat, b: nat, c: nat)
    ensures Xor(Xor(a, b), Xor(b, c)) == Xor(a, c)
  {
    XorAssoc(a, b, Xor(b, c));
    XorAssoc(b, b, c);
    XorSelf(b);
    XorZero(c);
  }

  lemma XorDouble(a: nat, b: nat)
    ensures Xor(2 * a, 2 * b) == 2 * Xor(a, b)
  {
    XorHalf(2 * a, 2 * b);
  }

  /** The lowest bit can be split off both operands. */
  lemma Peel(x: nat, s: nat, y: nat, t: nat)
    requires s < 2 && t < 2
    ensures Xor(2 * x + s, 2 * y + t) == 2 * Xor(x, y) + (if s != t then 1 else 0)
  {
    XorHalf(2 * x + s, 2 * y + t);
  }

  function Shr(a: nat, k: nat): nat {
    if k == 0 then a else Shr(a / 2, k - 1)
  }

  lemma {:induction false} XorShr(a: nat, b: nat, k: nat)
    ensures Shr(Xor(a, b), k) == Xor(Shr(a, k), Shr(b, k))
  {
    if k > 0 {
      XorHalf(a, b);
      XorShr(a / 2, b / 2, k - 1);
    }
  }

  lemma Shr7(a: nat)
    ensures Shr(a, 7) == a / 128
  {
    var b := a / 2; var c := b / 2; var d := c / 2; var e := d / 2; var f := e / 2; var g := f / 2;
    assert Shr(a, 7) == Shr(b, 6) && Shr(b, 6) == Shr(c, 5) && Shr(c, 5) == Shr(d, 4) && Shr(d, 4) == Shr(e, 3);
    assert Shr(e, 3) == Shr(f, 2) && Shr(f, 2) == Shr(g, 1) && Shr(g, 1) == Shr(g / 2, 0);
  }

  lemma XorHigh(a: nat, b: nat)
    ensures Xor(a, b) / 128 == Xor(a / 128, b / 128)
    ensures Xor(a, b) / 256 == Xor(a / 256, b / 256)
  {
    hide Xor, Shr;
    Shr7(a);
    Shr7(b);
    Shr7(Xor(a, b));
    XorShr(a, b, 7);
    XorHalf(a / 128, b / 128);
    Halves(a);
    Halves(b);
    Halves(Xor(a, b));
  }

  lemma Halves(a: nat)
    ensures a / 256 == a / 128 / 2
  {}

  /** Addition in the field. */
  function Add(a: byte, b: byte): byte {
    XorHigh(a, b);
    Xor(a, b)
  }

  // ------------------------------------------------------------------ product

  /** Multiplication by x: one step of the table set-up loop. */
  function XTime(a: byte): byte {
    XorHigh(2 * a, 0x11d);
    if 2 * a >= 0x100 then Xor(2 * a, 0x11d) else 2 * a
  }

  function Reduction(a: byte): nat {
    if a >= 128 then 0x11d else 0
  }

  lemma ReductionXor(a: byte, b: byte)
    ensures Reduction(Add(a, b)) == Xor(Reduction(a), Reduction(b))
  {
    XorHigh(a, b);
    XorSelf(0x11d);
    XorZero(0x11d);
  }

  lemma XTimeReduction(a: byte)
    ensures XTime(a) == Xor(2 * a, Reduction(a))
  {
    XorZero(2 * a);
  }

  lemma XTimeAdd(a: byte, b: byte)
    ensures XTime(Add(a, b)) == Add(XTime(a), XTime(b))
  {
    ReductionXor(a, b);
    XorDouble(a, b);
    XTimeReduction(a);
    XTimeReduction(b);
    XTimeReduction(Add(a, b));
    Xor4(2 * a, Reduction(a), 2 * b, Reduction(b));
  }

  function Select(c: bool, a: byte): byte {
    if c then a else 0
  }

  /** The product of polynomials modulo 0x11d, by Horner's rule over the bits of b. */
  function Mul(a: byte, b: nat): byte {
    if b == 0 then 0 else Add(XTime(Mul(a, b / 2)), Select(b % 2 == 1, a))
  }

  lemma {:induction false} MulZeroLeft(b: nat)
    ensures Mul(0, b) == 0
  {
    if b > 0 {
      MulZeroLeft(b / 2);
    }
  }

  lemma {:induction false} MulAddLeft(a: byte, b: byte, c: nat)
    ensures Mul(Add(a, b), c) == Add(Mul(a, c), Mul(b, c))
    decreases c
  {
    if c > 0 {
      MulAddLeft(a, b, c / 2);
      XTimeAdd(Mul(a, c / 2), Mul(b, c / 2));
      Xor4(XTime(Mul(a, c / 2)), Select(c % 2 == 1, a), XTime(Mul(b, c / 2)), Select(c % 2 == 1, b));
    }
  }

  lemma {:induction false} MulXTimeLeft(a: byte, b: nat)
    ensures Mul(XTime(a), b) == XTime(Mul(a, b))
  {
    if b > 0 {
      MulXTimeLeft(a, b / 2);
      XTimeAdd(XTime(Mul(a, b / 2)), Select(b % 2 == 1, a));
    }
  }

  /** Multiplying by c and then by d is multiplying by d and then by c. */
  lemma {:induction false} MulSwap(a: byte, c: nat, d: nat)
    ensures Mul(Mul(a, c), d) == Mul(Mul(a, d), c)
    decreases d
  {
    MulZeroLeft(c);
    if d > 0 {
      var x := Mul(a, d / 2);
      MulSwap(a, c, d / 2);
      MulXTimeLeft(x, c);
      MulAddLeft(XTime(x), Select(d % 2 == 1, a), c);
    }
  }

  lemma {:induction false} MulOneLeft(b: byte)
    ensures Mul(1, b) == b
  {
    if b > 0 {
      MulOneLeft(b / 2);
      XorHalf(2 * (b / 2), b % 2);
      XorZero(b / 2);
    }
  }

  lemma MulComm(a: byte, b: byte)
    ensures Mul(a, b) == Mul(b, a)
  {
    MulSwap(1, a, b);
    MulOneLeft(a);
    MulOneLeft(b);
  }

  lemma MulAssoc(a: byte, b: byte, c: byte)
    ensures Mul(Mul(a, b), c) == Mul(a, Mul(b, c))
  {
    MulComm(a, b);
    MulSwap(b, a, c);
    MulComm(Mul(b, c), a);
  }

  lemma MulAdd(a: byte, b: byte, c: byte)
    ensures Mul(a, Add(b, c)) == Add(Mul(a, b), Mul(a, c))
    ensures Mul(Add(b, c), a) == Add(Mul(b, a), Mul(c, a))
  {
    MulAddLeft(b, c, a);
    MulComm(a, Add(b, c));
    MulComm(a, b);
    MulComm(a, c);
  }

  lemma MulUnits(a: byte)
    ensures Mul(a, 1) == a == Mul(1, a)
    ensures Mul(a, 0) == 0 == Mul(0, a)
  {
    MulOneLeft(a);
    MulComm(a, 1);
    MulZeroLeft(a);
  }

  // ---------------------------------------------------------- powers of alpha

  /** alpha^i, the value the set-up loop stores in EXP[i]. */
  function Pow(i: nat): byte {
    if i == 0 then 1 else XTime(Pow(i - 1))
  }

  lemma PowStep(i: nat)
    ensures Pow(0) == 1
    ensures Pow(i + 1) == if 2 * Pow(i) >= 0x100 then Xor(2 * Pow(i), 0x11d) else 2 * Pow(i)
  {}

  lemma {:induction false} PowAdd(i: nat, j: nat)
    ensures Pow(i + j) == Mul(Pow(i), Pow(j))
  {
    if i == 0 {
      MulOneLeft(Pow(j));
    } else {
      PowAdd(i - 1, j);
      MulXTimeLeft(Pow(i - 1), Pow(j));
    }
  }

  lemma XorEight(h: nat)
    requires h < 8
    ensures Xor(8 + h, 8) == h
  {
    hide Xor;
    var h1 := h / 2;
    var h2 := h1 / 2;
    Peel(4 + h1, h % 2, 4, 0);
    Peel(2 + h2, h1 % 2, 2, 0);
    Peel(1, h2, 1, 0);
    XorSelf(1);
  }

  /** One reducing step of XTime in plain arithmetic. */
  lemma Fold(h: nat, c3: nat, c2: nat, c1: nat, c0: nat)
    requires h < 8 && c3 < 2 && c2 < 2 && c1 < 2 && c0 < 2
    ensures XTime(128 + 16 * h + 8 * c3 + 4 * c2 + 2 * c1 + c0)
         == 32 * h + 16 * (1 - c3) + 8 * (1 - c2) + 4 * (1 - c1) + 2 * c0 + 1
  {
    hide Xor;
    var a4 := 8 + h; var a3 := 2 * a4 + c3; var a2 := 2 * a3 + c2; var a1 := 2 * a2 + c1; var a := 2 * a1 + c0;
    Peel(a, 0, 142, 1);
    Peel(a1, c0, 71, 0);
    Peel(a2, c1, 35, 1);
    Peel(a3, c2, 17, 1);
    Peel(a4, c3, 8, 1);
    XorEight(h);
  }

  lemma PowSmall()
    ensures Pow(1) == 2 && Pow(3) == 8 && Pow(5) == 32 && Pow(7) == 128 && Pow(10) == 116
    ensures Pow(11) == 232 && Pow(12) == 205 && Pow(13) == 135 && Pow(15) == 38
  {
    assert Pow(1) == 2; assert Pow(2) == 4; assert Pow(3) == 8; assert Pow(4) == 16;
    assert Pow(5) == 32; assert Pow(6) == 64; assert Pow(7) == 128;
    Fold(0, 0, 0, 0, 0); assert Pow(8) == 29; assert Pow(9) == 58; assert Pow(10) == 116; assert Pow(11) == 232;
    Fold(6, 1, 0, 0, 0); assert Pow(12) == 205;
    Fold(4, 1, 1, 0, 1); assert Pow(13) == 135;
    Fold(0, 0, 1, 1, 1); assert Pow(14) == 19; assert Pow(15) == 38;
  }

  lemma Pow25()
    ensures Pow(25) == 3
  {
    PowSmall();
    assert Pow(16) == 76; assert Pow(17) == 152;
    Fold(1, 1, 0, 0, 0); assert Pow(18) == 45; assert Pow(19) == 90; assert Pow(20) == 180;
    Fold(3, 0, 1, 0, 0); assert Pow(21) == 117; assert Pow(22) == 234;
    Fold(6, 1, 0, 1, 0); assert Pow(23) == 201;
    Fold(4, 1, 0, 0, 1); assert Pow(24) == 143;
    Fold(0, 1, 1, 1, 1);
  }

  // alpha^25 = alpha + 1, so the larger powers follow from three squarings.
  lemma PowPlus25(i: nat)
    ensures Pow(i + 25) == Xor(Pow(i + 1), Pow(i))
  {
    PowAdd(i, 25);
    Pow25();
    assert Mul(Pow(i), 3) == Add(XTime(Mul(Pow(i), 1)), Pow(i));
    MulUnits(Pow(i));
  }

  lemma PowPlus(i: nat)
    ensures Pow(i + 50) == Xor(Pow(i + 2), Pow(i))
    ensures Pow(i + 100) == Xor(Pow(i + 4), Pow(i))
    ensures Pow(i + 200) == Xor(Pow(i + 8), Pow(i))
  {
    forall j: nat ensures Pow(j + 50) == Xor(Pow(j + 2), Pow(j)) {
      PowPlus25(j + 25);
      PowPlus25(j + 1);
      PowPlus25(j);
      XorChain(Pow(j + 2), Pow(j + 1), Pow(j));
    }
    forall j: nat ensures Pow(j + 100) == Xor(Pow(j + 4), Pow(j)) {
      assert Pow(j + 50 + 50) == Xor(Pow(j + 2 + 50), Pow(j + 50));
      XorChain(Pow(j + 4), Pow(j + 2), Pow(j));
    }
    assert Pow(i + 100 + 100) == Xor(Pow(i + 4 + 100), Pow(i + 100));
    XorChain(Pow(i + 8), Pow(i + 4), Pow(i));
  }

  lemma Xor255()
    ensures Xor(Xor(38, 135), Xor(128, 32)) == 1
  {
    hide Xor;
    assert Xor(38, 135) == 161 by {
      Peel(19, 0, 67, 1); Peel(9, 1, 33, 1); Peel(4, 1, 16, 1); Peel(2, 0, 8, 0); Peel(1, 0, 4, 0); Peel(0, 1, 2, 0);
      XorZero(2);
    }
    assert Xor(128, 32) == 160 by {
      Peel(64, 0, 16, 0); Peel(32, 0, 8, 0); Peel(16, 0, 4, 0); Peel(8, 0, 2, 0); Peel(4, 0, 1, 0); Peel(2, 0, 0, 1);
      XorZero(2);
    }
    Peel(80, 1, 80, 0);
    XorSelf(80);
  }

  lemma PowLandmarks()
    ensures Pow(15) != 1 && Pow(51) != 1 && Pow(85) != 1 && Pow(255) == 1
  {
    PowSmall();
    Pow51();
    Pow255();
    Pow85();
  }

  lemma Pow51()
    ensures Pow(51) != 1
  {
    hide Pow;
    PowSmall();
    PowPlus(1);
    XorHalf(8, 2);
  }

  lemma Pow255()
    ensures Pow(255) == 1
  {
    hide Pow, Xor;
    PowSmall();
    PowPlus(55);
    PowPlus(13);
    PowPlus(5);
    Xor255();
  }

  lemma Pow85()
    ensures Pow(85) != 1
  {
    hide Pow;
    PowSmall();
    PowPlus25(60);
    PowPlus(11);
    PowPlus(10);
    XorHalf(135, 232);
    XorHalf(205, 116);
    XorHalf(Pow(61), Pow(60));
  }

  /** If alpha^d = 1, multiples of d may be dropped from an exponent. */
  lemma {:induction false} PowPeriod(d: nat, q: nat, r: nat)
    requires Pow(d) == 1
    ensures Pow(q * d + r) == Pow(r)
  {
    hide *;
    if q > 0 {
      PowPeriod(d, q - 1, r);
      assert q * d + r == d + ((q - 1) * d + r);
      PowAdd(d, (q - 1) * d + r);
      MulUnits(Pow(r));
    }
  }

  lemma DivisorsOf255(d: nat, q: nat)
    requires q * d == 255 && d < 255
    ensures d == 1 || d == 3 || d == 5 || d == 15 || d == 17 || d == 51 || d == 85
  {
    assert q >= 16 && d >= 16 ==> q * d >= 16 * d;
    if {
      case q <= 1 => case q == 2 => case q == 3 => case q == 4 => case q == 5 => case q == 6 => case q == 7 =>
      case q == 8 => case q == 9 => case q == 10 => case q == 11 => case q == 12 => case q == 13 => case q == 14 =>
      case q == 15 =>
      case d == 0 => case d == 1 => case d == 2 => case d == 3 => case d == 4 => case d == 5 => case d == 6 =>
      case d == 7 => case d == 8 => case d == 9 => case d == 10 => case d == 11 => case d == 12 => case d == 13 =>
      case d == 14 => case d == 15 =>
    }
  }

  lemma {:induction false} NoShortPeriod(d: nat)
    requires 0 < d < 255
    ensures Pow(d) != 1
  {
    hide *;
    if Pow(d) == 1 {
      PowLandmarks();
      var q, r := 255 / d, 255 % d;
      assert q * d + r == 255;
      PowPeriod(d, q, r);
      if r > 0 {
        NoShortPeriod(r);
      } else {
        DivisorsOf255(d, q);
        var k := if d == 1 then 15 else if d == 3 || d == 17 then 5 else if d == 5 then 3 else 1;
        PowPeriod(d, k, 0);
      }
    }
  }

  lemma XTimeInjective(a: byte, b: byte)
    requires XTime(a) == XTime(b)
    ensures a == b
  {
    XTimeAdd(a, b);
    XorSelf(XTime(a));
    var s := Add(a, b);
    XTimeReduction(s);
    XorHalf(2 * s, 0x11d);
    assert s == 0;
    XorAssoc(a, b, b);
    XorSelf(b);
    XorZero(a);
    XorZero(b);
  }

  /** alpha generates 255 distinct powers. */
  lemma {:induction false} PowInjective(i: nat, j: nat)
    requires i < j < 255
    ensures Pow(i) != Pow(j)
  {
    if i == 0 {
      NoShortPeriod(j);
    } else {
      PowInjective(i - 1, j - 1);
      if Pow(i) == Pow(j) {
        XTimeInjective(Pow(i - 1), Pow(j - 1));
      }
    }
  }

  lemma {:induction false} PowNonZero(i: nat)
    ensures Pow(i) != 0
  {
    if i > 0 {
      PowNonZero(i - 1);
      if Pow(i) == 0 {
        XTimeInjective(Pow(i - 1), 0);
      }
    }
  }

  ghost function Powers(n: nat): set<nat> {
    if n == 0 then {} else Powers(n - 1) + {Pow(n - 1) as nat}
  }

  lemma {:induction false} InPowers(n: nat, a: nat) returns (i: nat)
    ensures a in Powers(n) ==> i < n && Pow(i) == a
  {
    i := 0;
    if n > 0 {
      if a == Pow(n - 1) {
        i := n - 1;
      } else {
        i := InPowers(n - 1, a);
      }
    }
  }

  lemma {:induction false} PowersSize(n: nat)
    requires n <= 255
    ensures |Powers(n)| == n
  {
    if n > 0 {
      PowersSize(n - 1);
      var i := InPowers(n - 1, Pow(n - 1));
      if Pow(n - 1) in Powers(n - 1) {
        PowInjective(i, n - 1);
      }
    }
  }

  ghost function NonZero(n: nat): set<nat> {
    if n == 0 then {} else NonZero(n - 1) + {n}
  }

  lemma {:induction false} NonZeroSize(n: nat)
    ensures |NonZero(n)| == n && forall a :: a in NonZero(n) <==> 0 < a <= n
  {
    if n > 0 {
      NonZeroSize(n - 1);
    }
  }

  /** Every non-zero byte is a power of alpha. */
  lemma PowSurjective(a: byte)
    requires a != 0
    ensures exists i: nat :: i < 255 && Pow(i) == a
  {
    hide Powers, NonZero, Pow;
    PowersSize(255);
    NonZeroSize(255);
    forall x | x in Powers(255) ensures x in NonZero(255) {
      var i := InPowers(255, x);
      PowNonZero(i);
    }
    SubsetOfSameSize(Powers(255), NonZero(255));
    var i := InPowers(255, a);
  }

  lemma SubsetOfSameSize(s: set<nat>, t: set<nat>)
    requires s <= t && |s| == |t|
    ensures s == t
  {
    assert t == s + (t - s);
    assert |t - s| == 0;
  }

  /** The discrete logarithm. */
  ghost function Log(a: byte): (i: nat)
    requires a != 0
    ensures i < 255 && Pow(i) == a
  {
    PowSurjective(a);
    var i: nat :| i < 255 && Pow(i) == a;
    i
  }

  /** The field has no zero divisors. */
  lemma MulNonZero(a: byte, b: byte)
    requires a != 0 && b != 0
    ensures Mul(a, b) != 0
  {
    var i, j := Log(a), Log(b);
    PowAdd(i, j);
    PowNonZero(i + j);
  }
}
