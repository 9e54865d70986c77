/** Polynomials over the BLS12-381 scalar field, and division by a monic linear factor. */
module Polynomials {
  import opened Digits

  /** Order of the scalar field. Nothing below needs it to be prime. */
  const R: nat := 0x73eda753299d7d483339d80809a1d80553bda402fffe5bfeffffffff00000001

  /** It is u^4 - u^2 + 1 for the parameter u = -0xd201000000010000 of BLS12-381. */
  lemma OrderOfBls()
    ensures var v := 0xd201000000010000 * 0xd201000000010000; R == v * v - v + 1
  {
  }

  type Fr = x: int | 0 <= x < R

  /** The field element an integer stands for: multiples of the order are added or taken away until it is in range. */
  function Mod(x: int): Fr
    decreases if x < 0 then R - x else x
  {
    if x < 0 then Mod(x + R) else if x < R then x else Mod(x - R)
  }

  lemma MulAdd(a: int, b: int, c: int)
    ensures a * c + b * c == (a + b) * c
  {
  }

  lemma {:induction false} ModIsRemainder(x: int)
    ensures Mod(x) == x % R
    decreases if x < 0 then R - x else x
  {
    if x < 0 {
      ModIsRemainder(x + R);
      MulAdd(x / R, 1, R);
      DivModUnique(x / R + 1, x % R, R);
    } else if x < R {
      DivModUnique(0, x, R);
    } else {
      ModIsRemainder(x - R);
      MulAdd(x / R, -1, R);
      DivModUnique(x / R - 1, x % R, R);
    }
  }

  lemma ModCong(x: int, y: int, k: int)
    requires x == y + k * R
    ensures Mod(x) == Mod(y)
  {
    ModIsRemainder(x);
    ModIsRemainder(y);
    var q, r := y / R, y % R;
    MulAdd(q, k, R);
    DivModUnique(q + k, r, R);
  }

  /** Every integer differs from its representative by a multiple of the order. */
  lemma ModWitness(x: int) returns (k: int)
    ensures x == Mod(x) + k * R
  {
    ModIsRemainder(x);
    k := x / R;
  }

  lemma ModMul(x: int, y: int)
    ensures Mod(Mod(x) * y) == Mod(x * y)
  {
    hide Mod;
    var k := ModWitness(x);
    Expand(Mod(x), k, R, y);
    ModCong(x * y, Mod(x) * y, k * y);
  }

  lemma Expand(m: int, k: int, r: int, y: int)
    ensures (m + k * r) * y == m * y + k * y * r
  {
    assert (m + k * r) * y == m * y + k * r * y;
    assert k * r * y == k * y * r;
  }

  lemma ModAdd(x: int, y: int)
    ensures Mod(Mod(x) + y) == Mod(x + y)
  {
    hide Mod;
    var k := ModWitness(x);
    ModCong(x + y, Mod(x) + y, k);
  }

  lemma ModSmall(x: Fr)
    ensures Mod(x) == x
  {
    DivModUnique(0, x, R);
  }

  lemma ModIdem(x: int)
    ensures Mod(Mod(x)) == Mod(x)
  {
    ModSmall(Mod(x));
  }

  /** A product-plus-term may be reduced in every place. */
  lemma ModFused(a: int, x: int, y: int)
    ensures Mod(a + Mod(x * Mod(y))) == Mod(a + x * y)
  {
    hide Mod;
    ModMul(y, x);
    assert Mod(y) * x == x * Mod(y) && y * x == x * y;
    ModAdd(x * y, a);
    ModAdd(x * Mod(y), a);
    assert a + Mod(x * Mod(y)) == Mod(x * y) + a;
  }

  lemma ModSum(x: int, y: int)
    ensures Mod(Mod(x) + Mod(y)) == Mod(x + y)
  {
    hide Mod;
    ModAdd(x, Mod(y));
    ModAdd(y, x);
    assert x + Mod(y) == Mod(y) + x;
  }

  // -------------------------------------------------------------- evaluation --

  function Power(x: int, n: nat): int
  {
    if n == 0 then 1 else Power(x, n - 1) * x
  }

  /** Horner evaluation over the integers; coefficients from the constant term up. */
  function EvalZ(p: seq<int>, x: int): int
  {
    if p == [] then 0 else p[0] + x * EvalZ(p[1..], x)
  }

  /** The value of a polynomial at a field element. */
  function Eval(p: seq<int>, x: int): Fr
  {
    Mod(EvalZ(p, x))
  }

  lemma {:induction false} EvalSnoc(p: seq<int>, c: int, x: int)
    ensures EvalZ(p + [c], x) == EvalZ(p, x) + c * Power(x, |p|)
  {
    if p == [] {
      assert p + [c] == [c];
      assert EvalZ([c], x) == c + x * EvalZ([], x);
    } else {
      assert (p + [c])[1..] == p[1..] + [c];
      EvalSnoc(p[1..], c, x);
      Distribute(x, EvalZ(p[1..], x), c, Power(x, |p| - 1));
    }
  }

  lemma Distribute(x: int, e: int, c: int, w: int)
    ensures x * (e + c * w) == x * e + c * (w * x)
  {
    assert x * (c * w) == c * (w * x);
  }

  /** Coefficients may be reduced before evaluating. */
  lemma {:induction false} EvalReduced(p: seq<int>, q: seq<int>, x: int)
    requires |q| == |p| && forall i :: 0 <= i < |p| ==> q[i] == Mod(p[i])
    ensures Eval(q, x) == Eval(p, x)
  {
    hide Mod;
    if p != [] {
      EvalReduced(p[1..], q[1..], x);
      var a, b := EvalZ(p[1..], x), EvalZ(q[1..], x);
      ModMul(a, x);
      ModMul(b, x);
      assert x * a == a * x && x * b == b * x;
      ModSum(p[0], x * a);
      ModSum(q[0], x * b);
      ModIdem(p[0]);
    }
  }

  // ------------------------------------------------------ synthetic division --

  /** The quotient of p by (x - z), over the integers. */
  ghost function QuotientZ(p: seq<int>, z: int): (q: seq<int>)
    ensures |q| == if p == [] then 0 else |p| - 1
  {
    if |p| <= 1 then [] else [EvalZ(p[1..], z)] + QuotientZ(p[1..], z)
  }

  /** The quotient of p by (x - z) in the field: coefficient i is the value at z of the part above it. */
  ghost function Quotient(p: seq<int>, z: int): (q: seq<Fr>)
    requires p != []
    ensures |q| == |p| - 1
  {
    seq(|p| - 1, i requires 0 <= i < |p| - 1 => Eval(p[i + 1..], z))
  }

  lemma {:induction false} QuotientZAt(p: seq<int>, z: int, i: nat)
    requires i < |p| - 1
    ensures QuotientZ(p, z)[i] == EvalZ(p[i + 1..], z)
  {
    if i != 0 {
      QuotientZAt(p[1..], z, i - 1);
      assert p[1..][i..] == p[i + 1..];
    }
  }

  lemma {:induction false} DivisionZ(p: seq<int>, z: int, x: int)
    ensures EvalZ(p, x) == (x - z) * EvalZ(QuotientZ(p, z), x) + EvalZ(p, z)
  {
    if |p| <= 1 {
      assert p == [] || p[1..] == [];
    } else {
      DivisionZ(p[1..], z, x);
      var e, q := EvalZ(p[1..], z), EvalZ(QuotientZ(p[1..], z), x);
      assert QuotientZ(p, z)[1..] == QuotientZ(p[1..], z);
      assert EvalZ(QuotientZ(p, z), x) == e + x * q;
      DivisionStep(p[0], x, z, e, q);
    }
  }

  lemma DivisionStep(c: int, x: int, z: int, e: int, q: int)
    ensures c + x * ((x - z) * q + e) == (x - z) * (e + x * q) + (c + z * e)
  {
    var d := x - z;
    assert x * (d * q + e) == x * (d * q) + x * e;
    assert d * (e + x * q) == d * e + d * (x * q);
    assert x * (d * q) == d * (x * q);
    assert d * e == x * e - z * e;
  }

  /** f(x) = (x - z) * q(x) + f(z) at every point of the field. */
  lemma Division(p: seq<int>, z: int, x: int)
    requires p != []
    ensures Eval(p, x) == Mod((x - z) * Eval(Quotient(p, z), x) + Eval(p, z))
  {
    hide Mod, EvalZ, Quotient, QuotientZ;
    DivisionZ(p, z, x);
    QuotientReduced(p, z, x);
    var q, e := EvalZ(QuotientZ(p, z), x), EvalZ(p, z);
    ModFusedPair(x - z, q, e);
  }

  lemma QuotientReduced(p: seq<int>, z: int, x: int)
    requires p != []
    ensures Eval(Quotient(p, z), x) == Mod(EvalZ(QuotientZ(p, z), x))
  {
    hide EvalZ, Mod;
    forall i | 0 <= i < |p| - 1 ensures Quotient(p, z)[i] == Mod(QuotientZ(p, z)[i]) {
      QuotientZAt(p, z, i);
    }
    EvalReduced(QuotientZ(p, z), Quotient(p, z), x);
  }

  lemma ModFusedPair(d: int, q: int, e: int)
    ensures Mod(d * Mod(q) + Mod(e)) == Mod(d * q + e)
  {
    hide Mod;
    ModMul(q, d);
    assert q * d == d * q && Mod(q) * d == d * Mod(q);
    ModSum(d * Mod(q), e);
    ModIdem(e);
    ModSum(d * Mod(q), Mod(e));
    ModSum(d * q, e);
  }

  // ----------------------------------------------------- dense representation --

  /** `DensePolynomial::from_coefficients_vec` drops leading zero coefficients. */
  function Dense(p: seq<Fr>): (d: seq<Fr>)
    ensures d <= p
    ensures d != [] ==> d[|d| - 1] != 0
    ensures forall i :: |d| <= i < |p| ==> p[i] == 0
  {
    if p != [] && p[|p| - 1] == 0 then Dense(p[..|p| - 1]) else p
  }

  lemma {:induction false} EvalDense(p: seq<Fr>, x: int)
    ensures EvalZ(Dense(p), x) == EvalZ(p, x)
  {
    if p != [] && p[|p| - 1] == 0 {
      EvalDense(p[..|p| - 1], x);
      assert p == p[..|p| - 1] + [0];
      EvalSnoc(p[..|p| - 1], 0, x);
    }
  }
}
