/** Reed-Solomon coding of app/src/qr.js: log tables, generator polynomial, systematic encoder. */
module ReedSolomon {
  import opened Galois

  // ---------------------------------------------------------------- log tables

  /** Once every power is entered, every non-zero byte has its logarithm. */
  lemma LogComplete(log: seq<nat>)
    requires |log| == 256 && forall j :: 0 <= j < 255 ==> log[Pow(j)] == j
    ensures forall a: byte :: a != 0 ==> log[a] < 255 && Pow(log[a]) == a
  {
    forall a: byte | a != 0 ensures log[a] < 255 && Pow(log[a]) == a {
      PowSurjective(a);
    }
  }

  /** First loop of initGF: one full cycle of powers and their logarithms. */
  method FillCycle(exp: array<byte>, log: array<nat>)
    requires exp.Length == 512 && log.Length == 256
    modifies exp, log
    ensures forall j :: 0 <= j < 255 ==> exp[j] == Pow(j) && log[Pow(j)] == j
  {
    hide Xor, XTime;
    var x := 1;
    for i := 0 to 255
      invariant x == Pow(i)
      invariant forall j :: 0 <= j < i ==> exp[j] == Pow(j)
      invariant forall j :: 0 <= j < i ==> log[Pow(j)] == j
    {
      exp[i] := x;
      forall j | 0 <= j < i ensures Pow(j) != x {
        PowInjective(j, i);
      }
      log[x] := i;
      PowStep(i);
      x := 2 * x;
      if x >= 0x100 {
        x := Xor(x, 0x11d);
      }
    }
  }

  /** Second loop of initGF: the table repeats with period 255. */
  method Unroll(exp: array<byte>)
    requires exp.Length == 512 && forall j :: 0 <= j < 255 ==> exp[j] == Pow(j)
    modifies exp
    ensures forall j :: 0 <= j < 512 ==> exp[j] == Pow(j)
  {
    hide Xor, Mul, XTime;
    for i := 255 to 512
      invariant forall j :: 0 <= j < i ==> exp[j] == Pow(j)
    {
      exp[i] := exp[i - 255];
      PowLandmarks();
      PowAdd(255, i - 255);
      MulUnits(Pow(i - 255));
    }
  }

  /** The module-level EXP and LOG arrays. */
  class Tables {
    const exp: array<byte>
    const log: array<nat>

    ghost predicate Valid()
      reads exp, log
    {
      && exp.Length == 512 && log.Length == 256
      && (forall i :: 0 <= i < 512 ==> exp[i] == Pow(i))
      && (forall a: byte :: a != 0 ==> log[a] < 255 && Pow(log[a]) == a)
    }

    constructor ()
      ensures Valid() && fresh(exp) && fresh(log)
    {
      exp := new byte[512];
      log := new nat[256];
      new;
      hide Xor, Mul, XTime;
      FillCycle(exp, log);
      Unroll(exp);
      LogComplete(log[..]);
    }

    /** gfMul: the table look-up is the product of the field. */
    function GfMul(a: byte, b: byte): (c: byte)
      reads exp, log
      requires Valid()
      ensures c == Mul(a, b)
    {
      MulUnits(a);
      MulUnits(b);
      if a == 0 || b == 0 then 0
      else
        PowAdd(log[a], log[b]);
        exp[log[a] + log[b]]
    }
  }

  // --------------------------------------------------------------- polynomials

  /** Value at x, coefficients in descending degree order. */
  function Eval(p: seq<byte>, x: byte): byte {
    if p == [] then 0 else Add(Mul(Eval(p[..|p| - 1], x), x), p[|p| - 1])
  }

  /** Value at x, coefficients in ascending degree order. */
  function EvalAsc(p: seq<byte>, x: byte): byte {
    if p == [] then 0 else Add(Mul(EvalAsc(p[1..], x), x), p[0])
  }

  function Reversed(p: seq<byte>): (r: seq<byte>)
    ensures |r| == |p| && forall i :: 0 <= i < |p| ==> r[i] == p[|p| - 1 - i]
  {
    if p == [] then [] else Reversed(p[1..]) + [p[0]]
  }

  lemma {:induction false} EvalReversed(p: seq<byte>, x: byte)
    ensures Eval(Reversed(p), x) == EvalAsc(p, x)
  {
    if p != [] {
      EvalReversed(p[1..], x);
      assert Reversed(p)[..|p| - 1] == Reversed(p[1..]);
    }
  }

  function XPow(x: byte, n: nat): byte {
    if n == 0 then 1 else Mul(XPow(x, n - 1), x)
  }

  lemma {:induction false} EvalConcat(p: seq<byte>, q: seq<byte>, x: byte)
    ensures Eval(p + q, x) == Add(Mul(Eval(p, x), XPow(x, |q|)), Eval(q, x))
  {
    if q == [] {
      assert p + q == p;
      MulUnits(Eval(p, x));
      XorZero(Eval(p, x));
    } else {
      var r, c := q[..|q| - 1], q[|q| - 1];
      assert (p + q)[..|p + q| - 1] == p + r;
      EvalConcat(p, r, x);
      MulAdd(x, Mul(Eval(p, x), XPow(x, |r|)), Eval(r, x));
      MulAssoc(Eval(p, x), XPow(x, |r|), x);
      XorAssoc(Mul(Eval(p, x), XPow(x, |q|)), Mul(Eval(r, x), x), c);
    }
  }

  /** Sum of two polynomials of equal length, the second scaled by f. */
  function AddScaled(p: seq<byte>, q: seq<byte>, f: byte): (r: seq<byte>)
    requires |p| == |q|
    ensures |r| == |p|
  {
    seq(|p|, i requires 0 <= i < |p| => Add(p[i], Mul(q[i], f)))
  }

  lemma {:induction false} EvalAddScaled(p: seq<byte>, q: seq<byte>, f: byte, x: byte)
    requires |p| == |q|
    ensures Eval(AddScaled(p, q, f), x) == Add(Eval(p, x), Mul(Eval(q, x), f))
  {
    MulUnits(f);
    if p != [] {
      var n := |p| - 1;
      var r := AddScaled(p, q, f);
      var ep, eq := Eval(p[..n], x), Eval(q[..n], x);
      assert r[..n] == AddScaled(p[..n], q[..n], f);
      EvalAddScaled(p[..n], q[..n], f, x);
      MulAdd(x, ep, Mul(eq, f));
      MulAssoc(eq, f, x);
      MulComm(f, x);
      MulAssoc(eq, x, f);
      MulAdd(f, Mul(eq, x), q[n]);
      Xor4(Mul(ep, x), Mul(Mul(eq, x), f), p[n], Mul(q[n], f));
    }
  }

  // ----------------------------------------------------------------- generator

  /** p multiplied by (x + r), ascending order. */
  function MulRoot(p: seq<byte>, r: byte): (q: seq<byte>)
    ensures |q| == |p| + 1
  {
    seq(|p| + 1, j requires 0 <= j < |p| + 1 => RootCoefficient(p, r, j))
  }

  function RootCoefficient(p: seq<byte>, r: byte, j: nat): byte
    requires j <= |p|
  {
    Add(if j < |p| then Mul(p[j], r) else 0, if j > 0 then p[j - 1] else 0)
  }

  function GeneratorAsc(degree: nat): (p: seq<byte>)
    ensures |p| == degree + 1 && p[degree] == 1
  {
    if degree == 0 then [1]
    else
      XorZero(1);
      MulRoot(GeneratorAsc(degree - 1), Pow(degree - 1))
  }

  /** The product of (x + alpha^i) for i below degree. */
  function RootProduct(degree: nat, x: byte): byte {
    if degree == 0 then 1 else Mul(RootProduct(degree - 1, x), Add(x, Pow(degree - 1)))
  }
  lemma RootAlgebra(e: byte, p0: byte, r: byte, c: byte, x: byte)
    ensures Add(Mul(Add(Mul(e, Add(x, r)), p0), x), Add(Mul(p0, r), c)) == Add(Mul(Add(Mul(e, x), p0), Add(x, r)), c)
  {
    hide Xor, Mul;
    var s := Add(x, r);
    MulAdd(x, Mul(e, s), p0);
    MulAssoc(e, s, x); MulComm(s, x); MulAssoc(e, x, s);
    MulAdd(s, Mul(e, x), p0);
    MulAdd(p0, x, r);
    var u, v, w := Mul(Mul(e, x), s), Mul(p0, x), Mul(p0, r);
    XorAssoc(u, v, Xor(w, c));
    XorAssoc(v, w, c);
    XorAssoc(u, Xor(v, w), c);
  }

  lemma {:induction false} MulRootEval(p: seq<byte>, c: byte, r: byte, x: byte)
    ensures EvalAsc([Add(if p == [] then 0 else Mul(p[0], r), c)] + MulRoot(p, r)[1..], x)
         == Add(Mul(EvalAsc(p, x), Add(x, r)), c)
  {
    hide Xor, Mul, XTime;
    MulUnits(x);
    MulUnits(Add(x, r));
    XorZero(c);
    if p == [] {
      assert [Add(0, c)] + MulRoot(p, r)[1..] == [c];
      assert EvalAsc([c], x) == Add(Mul(0, x), c);
    } else {
      MulRootStep(p, c, r, x);
      MulRootEval(p[1..], p[0], r, x);
      RootAlgebra(EvalAsc(p[1..], x), p[0], r, c, x);
    }
  }

  lemma MulRootStep(p: seq<byte>, c: byte, r: byte, x: byte)
    requires p != []
    ensures var t, head := p[1..], Add(Mul(p[0], r), c);
      EvalAsc([head] + MulRoot(p, r)[1..], x)
        == Add(Mul(EvalAsc([Add(if t == [] then 0 else Mul(t[0], r), p[0])] + MulRoot(t, r)[1..], x), x), head)
  {
    hide Xor, Mul, XTime;
    var t, head, q := p[1..], Add(Mul(p[0], r), c), MulRoot(p, r);
    XorZero(p[0]);
    assert q[1..] == [Add(if t == [] then 0 else Mul(t[0], r), p[0])] + MulRoot(t, r)[1..];
    assert ([head] + q[1..])[1..] == q[1..];
  }

  lemma {:induction false} GeneratorIsProduct(degree: nat, x: byte)
    ensures EvalAsc(GeneratorAsc(degree), x) == RootProduct(degree, x)
  {
    hide Xor, Mul, XTime, Pow;
    MulUnits(x);
    if degree == 0 {
      XorZero(1);
      assert EvalAsc([1], x) == Add(Mul(0, x), 1);
    } else {
      var p, r := GeneratorAsc(degree - 1), Pow(degree - 1);
      GeneratorIsProduct(degree - 1, x);
      MulRootEval(p, 0, r, x);
      XorZero(Mul(p[0], r));
      XorZero(Mul(EvalAsc(p, x), Add(x, r)));
      assert GeneratorAsc(degree) == [Add(Mul(p[0], r), 0)] + MulRoot(p, r)[1..];
    }
  }

  lemma {:induction false} RootProductZero(degree: nat, i: nat)
    requires i < degree
    ensures RootProduct(degree, Pow(i)) == 0
  {
    if i == degree - 1 {
      XorSelf(Pow(i));
      MulUnits(RootProduct(degree - 1, Pow(i)));
    } else {
      RootProductZero(degree - 1, i);
      MulUnits(Add(Pow(i), Pow(degree - 1)));
    }
  }

  /** What rsGenerator returns: descending order, leading coefficient 1. */
  function Generator(degree: nat): (p: seq<byte>)
    ensures |p| == degree + 1 && p[0] == 1
  {
    Reversed(GeneratorAsc(degree))
  }

  /** The generator is the product of (x + alpha^i): same value everywhere. */
  lemma GeneratorRoots(degree: nat, x: byte)
    ensures Eval(Generator(degree), x) == RootProduct(degree, x)
    ensures forall i: nat :: i < degree ==> Eval(Generator(degree), Pow(i)) == 0
  {
    EvalReversed(GeneratorAsc(degree), x);
    GeneratorIsProduct(degree, x);
    forall i: nat | i < degree ensures Eval(Generator(degree), Pow(i)) == 0 {
      EvalReversed(GeneratorAsc(degree), Pow(i));
      GeneratorIsProduct(degree, Pow(i));
      RootProductZero(degree, i);
    }
  }

  method RsGenerator(t: Tables, degree: nat) returns (gen: seq<byte>)
    requires t.Valid() && degree <= 255
    ensures gen == Generator(degree)
  {
    hide Xor, Mul, XTime, Pow, MulRoot;
    var poly: seq<byte> := [1];
    for i := 0 to degree
      invariant poly == GeneratorAsc(i)
    {
      poly := TimesRoot(t, poly, i);
    }
    gen := Reversed(poly);
  }

  /** The inner loop: the polynomial times (x + alpha^i). */
  method TimesRoot(t: Tables, poly: seq<byte>, i: nat) returns (product: seq<byte>)
    requires t.Valid() && i < 255 && poly != []
    ensures product == MulRoot(poly, Pow(i))
  {
    hide Xor, Mul, XTime, Pow;
    var next := new byte[|poly| + 1](_ => 0);
    ghost var want := MulRoot(poly, Pow(i));
    XorZero(0);
    for j := 0 to |poly|
      invariant t.Valid()
      invariant forall k :: 0 <= k < j ==> next[k] == want[k]
      invariant next[j] == if j > 0 then poly[j - 1] else 0
      invariant forall k :: j < k < next.Length ==> next[k] == 0
    {
      XorComm(next[j], Mul(poly[j], Pow(i)));
      next[j] := Add(next[j], t.GfMul(poly[j], t.exp[i]));
      XorZero(poly[j]);
      next[j + 1] := Add(next[j + 1], poly[j]);
    }
    XorZero(poly[|poly| - 1]);
    assert next[..] == want;
    return next[..];
  }

  // ------------------------------------------------------------------- encoder

  function Zeros(n: nat): (z: seq<byte>)
    ensures |z| == n && forall i :: 0 <= i < n ==> z[i] == 0
  {
    seq(n, i => 0)
  }

  function Shifted(res: seq<byte>): (s: seq<byte>)
    requires |res| > 0
    ensures |s| == |res|
  {
    res[1..] + [0]
  }

  /** One step of the shift-register division. */
  function DivideStep(res: seq<byte>, b: byte): (next: seq<byte>)
    requires |res| > 0
    ensures |next| == |res|
  {
    AddScaled(Shifted(res), Generator(|res|)[1..], Add(b, res[0]))
  }

  /** The parity rsEncode leaves in its register. */
  function Parity(data: seq<byte>, n: nat): (res: seq<byte>)
    requires n > 0
    ensures |res| == n
  {
    if data == [] then Zeros(n) else DivideStep(Parity(data[..|data| - 1], n), data[|data| - 1])
  }

  lemma {:induction false} EvalZeros(n: nat, x: byte)
    ensures Eval(Zeros(n), x) == 0
  {
    MulUnits(x);
    XorZero(0);
    if n > 0 {
      assert Zeros(n)[..n - 1] == Zeros(n - 1);
      EvalZeros(n - 1, x);
    }
  }

  /** The register keeps the value of data * x^n at every root of the generator. */
  lemma {:induction false} ParityInvariant(data: seq<byte>, n: nat, i: nat)
    requires 0 < n && i < n
    ensures Eval(Parity(data, n), Pow(i)) == Mul(Eval(data, Pow(i)), XPow(Pow(i), n))
  {
    var x := Pow(i);
    var xn := XPow(x, n);
    if data == [] {
      EvalZeros(n, x);
      MulUnits(xn);
    } else {
      var d, b := data[..|data| - 1], data[|data| - 1];
      var res := Parity(d, n);
      ParityInvariant(d, n, i);
      ShiftRegister(res, b, i);
      // (res(x))*x + b*x^n  ==  (d(x)*x + b)*x^n
      MulAssoc(Eval(d, x), xn, x);
      MulComm(xn, x);
      MulAssoc(Eval(d, x), x, xn);
      MulAdd(xn, Mul(Eval(d, x), x), b);
    }
  }

  lemma ShiftAlgebra(s: byte, xn: byte, b: byte, head: byte)
    ensures Add(s, Mul(xn, Add(b, head))) == Add(Add(Mul(head, xn), s), Mul(b, xn))
  {
    hide Xor, Mul;
    MulAdd(xn, b, head);
    MulComm(xn, b);
    MulComm(xn, head);
    var p, q := Mul(head, xn), Mul(b, xn);
    // s + (q + p)  ==  (p + s) + q
    XorComm(q, p);
    XorAssoc(s, p, q);
    XorComm(s, p);
  }

  /** Shifting multiplies by x and drops the leading term. */
  lemma ShiftedValue(res: seq<byte>, x: byte)
    requires res != []
    ensures Mul(Eval(res, x), x) == Add(Mul(res[0], XPow(x, |res|)), Eval(Shifted(res), x))
  {
    hide Xor, Mul, XPow;
    LeadingTerm(res + [0], x);
    assert (res + [0])[1..] == Shifted(res);
    assert (res + [0])[..|res|] == res;
    XorZero(Mul(Eval(res, x), x));
  }

  /** The generator vanishes at its roots, so there its tail equals x^n. */
  lemma GeneratorTail(n: nat, i: nat)
    requires i < n
    ensures Eval(Generator(n)[1..], Pow(i)) == XPow(Pow(i), n)
  {
    hide Xor, Mul, XPow, Eval, Pow, Generator;
    var x, gen := Pow(i), Generator(n);
    GeneratorRoots(n, x);
    LeadingTerm(gen, x);
    MulUnits(XPow(x, n));
    SumZero(XPow(x, n), Eval(gen[1..], x));
  }

  lemma ShiftRegister(res: seq<byte>, b: byte, i: nat)
    requires i < |res|
    ensures Eval(DivideStep(res, b), Pow(i)) == Add(Mul(Eval(res, Pow(i)), Pow(i)), Mul(b, XPow(Pow(i), |res|)))
  {
    hide Xor, Mul, XPow, Eval, Pow, Generator, Add;
    var n, x := |res|, Pow(i);
    GeneratorTail(n, i);
    EvalAddScaled(Shifted(res), Generator(n)[1..], Add(b, res[0]), x);
    ShiftedValue(res, x);
    ShiftAlgebra(Eval(Shifted(res), x), XPow(x, n), b, res[0]);
  }

  lemma SumZero(a: nat, b: nat)
    requires Xor(a, b) == 0
    ensures a == b
  {
    XorAssoc(a, b, b);
    XorSelf(b);
    XorZero(a);
    XorZero(b);
  }

  lemma LeadingTerm(p: seq<byte>, x: byte)
    requires p != []
    ensures Eval(p, x) == Add(Mul(p[0], XPow(x, |p| - 1)), Eval(p[1..], x))
  {
    assert p == [p[0]] + p[1..];
    EvalConcat([p[0]], p[1..], x);
    MulUnits(x);
    XorZero(p[0]);
    assert Eval([p[0]], x) == Add(Mul(Eval([], x), x), p[0]);
  }

  /** Data followed by its parity vanishes at alpha^0 .. alpha^(n-1). */
  lemma SyndromesVanish(data: seq<byte>, n: nat, i: nat)
    requires 0 < n && i < n
    ensures Eval(data + Parity(data, n), Pow(i)) == 0
  {
    EvalConcat(data, Parity(data, n), Pow(i));
    ParityInvariant(data, n, i);
    XorSelf(Eval(Parity(data, n), Pow(i)));
  }

  method RsEncode(t: Tables, data: seq<byte>, ecLen: nat) returns (res: array<byte>)
    requires t.Valid() && 0 < ecLen <= 255
    ensures fresh(res) && res[..] == Parity(data, ecLen)
  {
    hide Xor, Mul, XTime, Pow;
    var gen := RsGenerator(t, ecLen);
    res := new byte[ecLen](_ => 0);
    assert res[..] == Zeros(ecLen);
    for n := 0 to |data|
      invariant t.Valid()
      invariant res[..] == Parity(data[..n], ecLen)
    {
      ghost var d := data[..n + 1];
      assert d[..|d| - 1] == data[..n];
      FeedByte(t, gen, res, data[n]);
    }
    assert data[..|data|] == data;
  }

  /** The body of rsEncode's loop: shift the register, then subtract factor * generator. */
  method FeedByte(t: Tables, gen: seq<byte>, res: array<byte>, b: byte)
    requires t.Valid() && 0 < res.Length && gen == Generator(res.Length) && res != t.exp
    modifies res
    ensures res[..] == DivideStep(old(res[..]), b)
  {
    hide Xor, Mul, XTime, Pow, Generator;
    var ecLen := res.Length;
    ghost var shifted := Shifted(res[..]);
    var factor := Add(b, res[0]);
    forall k | 0 <= k < ecLen - 1 {
      res[k] := res[k + 1];
    }
    res[ecLen - 1] := 0;
    assert res[..] == shifted;
    for i := 0 to ecLen
      invariant t.Valid()
      invariant forall k :: 0 <= k < i ==> res[k] == Add(shifted[k], Mul(gen[k + 1], factor))
      invariant forall k :: i <= k < ecLen ==> res[k] == shifted[k]
    {
      res[i] := Add(res[i], t.GfMul(gen[i + 1], factor));
    }
  }

  // ---------------------------------------------------------------- uniqueness

  /** Synthetic division by (x + r): the quotient collects the Horner values. */
  function Quotient(p: seq<byte>, r: byte): (q: seq<byte>)
    ensures |q| == if p == [] then 0 else |p| - 1
  {
    if |p| <= 1 then [] else Quotient(p[..|p| - 1], r) + [Eval(p[..|p| - 1], r)]
  }

  lemma {:induction false} FactorTheorem(p: seq<byte>, r: byte, x: byte)
    ensures Eval(p, x) == Add(Mul(Eval(Quotient(p, r), x), Add(x, r)), Eval(p, r))
  {
    MulUnits(Add(x, r));
    MulUnits(x);
    MulUnits(r);
    if |p| <= 1 {
      XorZero(Eval(p, r));
    } else {
      var h, c := p[..|p| - 1], p[|p| - 1];
      var q := Quotient(h, r);
      FactorTheorem(h, r, x);
      var e, s, v := Eval(q, x), Add(x, r), Eval(h, r);
      assert Quotient(p, r)[..|p| - 2] == q;
      assert Eval(Quotient(p, r), x) == Add(Mul(e, x), v);
      // (e*s + v)*x + c  ==  (e*x + v)*s + (v*r + c)
      MulAdd(x, Mul(e, s), v);
      MulAssoc(e, s, x);
      MulComm(s, x);
      MulAssoc(e, x, s);
      MulAdd(s, Mul(e, x), v);
      MulAdd(v, x, r);
      var a, b, d := Mul(Mul(e, x), s), Mul(v, x), Mul(v, r);
      // (a + b) + c  ==  (a + (b + d)) + (d + c)
      XorAssoc(a, Xor(b, d), Xor(d, c));
      XorChain(b, d, c);
      XorAssoc(a, b, c);
    }
  }

  /** The last coefficient of a polynomial whose others vanish at r, and with it the polynomial. */
  lemma LastIsZero(p: seq<byte>, r: byte)
    requires p != [] && Eval(p, r) == 0 && Eval(p[..|p| - 1], r) == 0
    ensures p[|p| - 1] == 0
  {
    hide Xor, Mul, XTime;
    MulUnits(r);
    XorZero(p[|p| - 1]);
  }

  lemma QuotientParts(p: seq<byte>, r: byte)
    requires |p| > 1 && Quotient(p, r) == Zeros(|p| - 1)
    ensures Eval(p[..|p| - 1], r) == 0 && Quotient(p[..|p| - 1], r) == Zeros(|p| - 2)
  {
    hide Eval;
    var q, h := Quotient(p, r), p[..|p| - 1];
    assert q[|p| - 2] == Eval(h, r) && q[..|p| - 2] == Quotient(h, r);
  }

  lemma {:induction false} ZeroQuotient(p: seq<byte>, r: byte)
    requires Eval(p, r) == 0 && Quotient(p, r) == Zeros(|Quotient(p, r)|)
    ensures p == Zeros(|p|)
  {
    hide Eval, Quotient;
    if p != [] {
      var h := p[..|p| - 1];
      if |p| > 1 {
        QuotientParts(p, r);
        ZeroQuotient(h, r);
      } else {
        EvalNothing(r);
        assert h == [];
      }
      LastIsZero(p, r);
      assert p == h + [p[|p| - 1]];
    }
  }

  lemma EvalNothing(r: byte)
    ensures Eval([], r) == 0
  {}

  /** A polynomial with as many distinct roots as coefficients is zero. */
  lemma {:induction false} OnlyZeroVanishes(p: seq<byte>)
    requires |p| <= 255 && forall i: nat :: i < |p| ==> Eval(p, Pow(i)) == 0
    ensures p == Zeros(|p|)
    decreases |p|
  {
    hide Xor, Mul, XTime, Pow;
    if p != [] {
      var n := |p| - 1;
      var q := Quotient(p, Pow(n));
      forall i: nat | i < n ensures Eval(q, Pow(i)) == 0 {
        FactorTheorem(p, Pow(n), Pow(i));
        var s := Add(Pow(i), Pow(n));
        XorZero(Mul(Eval(q, Pow(i)), s));
        PowInjective(i, n);
        if s == 0 { SumZero(Pow(i), Pow(n)); }
        if Eval(q, Pow(i)) != 0 { MulNonZero(Eval(q, Pow(i)), s); }
      }
      OnlyZeroVanishes(q);
      ZeroQuotient(p, Pow(n));
    }
  }

  lemma DifferenceVanishes(data: seq<byte>, ec: seq<byte>, i: nat)
    requires i < |ec| && Eval(data + ec, Pow(i)) == 0
    ensures Eval(AddScaled(ec, Parity(data, |ec|), 1), Pow(i)) == 0
  {
    hide Xor, Mul, XTime, Pow, Parity;
    var par := Parity(data, |ec|);
    EvalAddScaled(ec, par, 1, Pow(i));
    MulUnits(Eval(par, Pow(i)));
    EvalConcat(data, ec, Pow(i));
    ParityInvariant(data, |ec|, i);
    SumZero(Eval(par, Pow(i)), Eval(ec, Pow(i)));
    XorSelf(Eval(ec, Pow(i)));
  }

  lemma ZeroDifference(p: seq<byte>, q: seq<byte>)
    requires |p| == |q| && AddScaled(p, q, 1) == Zeros(|p|)
    ensures p == q
  {
    forall k | 0 <= k < |p| ensures p[k] == q[k] {
      assert AddScaled(p, q, 1)[k] == 0;
      MulUnits(q[k]);
      SumZero(p[k], q[k]);
    }
  }

  /** p evaluates to zero at alpha^0 .. alpha^(n-1). */
  ghost predicate Vanishes(p: seq<byte>, n: nat) {
    forall i: nat :: i < n ==> Eval(p, Pow(i)) == 0
  }

  /** The parity is the only one: every syndrome vanishes exactly when it is what rsEncode computes. */
  lemma ParityUnique(data: seq<byte>, ec: seq<byte>)
    requires 0 < |ec| <= 255
    ensures ec == Parity(data, |ec|) <==> Vanishes(data + ec, |ec|)
  {
    var par := Parity(data, |ec|);
    forall i: nat | i < |ec| ensures Eval(data + par, Pow(i)) == 0 {
      SyndromesVanish(data, |ec|, i);
    }
    assert Vanishes(data + par, |ec|);
    if Vanishes(data + ec, |ec|) {
      forall i: nat | i < |ec| ensures Eval(AddScaled(ec, par, 1), Pow(i)) == 0 {
        DifferenceVanishes(data, ec, i);
      }
      OnlyZeroVanishes(AddScaled(ec, par, 1));
      ZeroDifference(ec, par);
    }
  }
}
