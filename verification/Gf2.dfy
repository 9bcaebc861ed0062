/**
  Polynomials over GF(2), as sequences of coefficients with the highest degree first
  (leading zeros allowed), and division with remainder.
 */
module Gf2 {
  type Poly = seq<bool>

  function Zeros(n: nat): (z: Poly) {
    seq(n, _ => false)
  }

  function Ones(n: nat): (z: Poly) {
    seq(n, _ => true)
  }

  // Addition (and subtraction) of polynomials written with equally many coefficients.
  function Add(a: Poly, b: Poly): (c: Poly)
    requires |a| == |b|
    ensures |c| == |a|
  {
    seq(|a|, i requires 0 <= i < |a| => a[i] != b[i])
  }

  // Coefficient k of the schoolbook product: the sum of q[i] * p[k - i] over all i.
  function Coefficient(q: Poly, p: Poly, k: int): (c: bool) {
    if q == [] then
      false
    else
      var n := |q| - 1;
      Coefficient(q[..n], p, k) != (q[n] && 0 <= k - n < |p| && p[k - n])
  }

  function Mul(q: Poly, p: Poly): (m: Poly)
    requires p != []
    ensures |m| == |q| + |p| - 1
  {
    seq(|q| + |p| - 1, k => Coefficient(q, p, k))
  }

  // d = q * p + r with the degree of r below the degree of p.
  ghost predicate IsDivision(d: Poly, p: Poly, q: Poly, r: Poly)
    requires p != []
  {
    && |r| == |p| - 1
    && |d| == |q| + |r|
    && d == Add(Mul(q, p), Zeros(|q|) + r)
  }

  lemma {:induction false} CoefficientBeyond(q: Poly, p: Poly, k: int)
    requires p != [] && k >= |q| + |p| - 1
    ensures !Coefficient(q, p, k)
  {
    if q != [] {
      CoefficientBeyond(q[..|q| - 1], p, k);
    }
  }

  // Only the first k + 1 coefficients of q reach coefficient k of the product.
  lemma {:induction false} CoefficientPrefix(q: Poly, p: Poly, k: nat)
    requires k < |q|
    ensures Coefficient(q, p, k) == Coefficient(q[..k + 1], p, k)
  {
    if k + 1 == |q| {
      assert q[..k + 1] == q;
    } else {
      var n := |q| - 1;
      CoefficientPrefix(q[..n], p, k);
      assert q[..n][..k + 1] == q[..k + 1];
    }
  }

  // A monic divisor makes the product determine the quotient, top coefficient first.
  lemma {:induction false} QuotientPrefixUnique(q1: Poly, q2: Poly, p: Poly, k: nat)
    requires p != [] && p[0]
    requires k <= |q1| && k <= |q2|
    requires forall i :: 0 <= i < k ==> Coefficient(q1, p, i) == Coefficient(q2, p, i)
    ensures q1[..k] == q2[..k]
  {
    if k > 0 {
      var n := k - 1;
      QuotientPrefixUnique(q1, q2, p, n);
      CoefficientPrefix(q1, p, n);
      CoefficientPrefix(q2, p, n);
      assert q1[..k][..n] == q1[..n] && q2[..k][..n] == q2[..n];
      assert q1[..k] == q1[..n] + [q1[n]] && q2[..k] == q2[..n] + [q2[n]];
    }
  }

  lemma RemainderUnique(d: Poly, p: Poly, q1: Poly, r1: Poly, q2: Poly, r2: Poly)
    requires p != [] && p[0]
    requires IsDivision(d, p, q1, r1) && IsDivision(d, p, q2, r2)
    ensures q1 == q2 && r1 == r2
  {
    var n := |q1|;
    forall i | 0 <= i < n
      ensures Coefficient(q1, p, i) == Coefficient(q2, p, i)
    {
      assert d[i] == (Mul(q1, p)[i] != (Zeros(n) + r1)[i]);
      assert d[i] == (Mul(q2, p)[i] != (Zeros(n) + r2)[i]);
    }
    QuotientPrefixUnique(q1, q2, p, n);
    assert q1 == q1[..n] && q2 == q2[..n];
    forall i | 0 <= i < |r1|
      ensures r1[i] == r2[i]
    {
      assert d[n + i] == (Mul(q1, p)[n + i] != (Zeros(n) + r1)[n + i]);
      assert d[n + i] == (Mul(q2, p)[n + i] != (Zeros(n) + r2)[n + i]);
    }
  }

  // One step of long division: bring down a coefficient, subtract p when the top is set.
  function Reduce(r: Poly, p: Poly, b: bool): (r': Poly)
    requires p != [] && |r| == |p| - 1 && r != []
    ensures |r'| == |r|
  {
    Add(r[1..] + [false], if r[0] != b then p[1..] else Zeros(|r|))
  }

  // Feeding bit b at the top of the register is one more step of the division:
  // d is multiplied by x, b is added |p| - 1 places up, and the quotient grows by one bit.
  lemma DivisionStep(d: Poly, p: Poly, q: Poly, r: Poly, b: bool)
    requires |p| > 1 && p[0]
    requires IsDivision(d, p, q, r)
    ensures IsDivision(Add(d + [false], Zeros(|q|) + [b] + Zeros(|r|)), p, q + [r[0] != b], Reduce(r, p, b))
  {
    var n, w, t := |q|, |r|, r[0] != b;
    var q' := q + [t];
    var d' := Add(d + [false], Zeros(n) + [b] + Zeros(w));
    var e := Add(Mul(q', p), Zeros(n + 1) + Reduce(r, p, b));
    assert q'[..n] == q;
    forall k | 0 <= k < n + 1 + w
      ensures d'[k] == e[k]
    {
      assert Mul(q', p)[k] == (Coefficient(q, p, k) != (t && 0 <= k - n < |p| && p[k - n]));
      if k == n + w {
        CoefficientBeyond(q, p, k);
      } else {
        assert d[k] == (Mul(q, p)[k] != (Zeros(n) + r)[k]);
      }
    }
    assert d' == e;
  }
}
