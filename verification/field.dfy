/**
  The prime field the chips are generic over (`F: FieldExt` in the source).

  The chips never fix a concrete field, so the model keeps the characteristic
  `P` abstract: it is some prime, and every value is an integer in `[0, P)`.
  Only the three ring operations the gates use are modelled; they are written
  out with explicit reduction so that nothing depends on a machine width.
 */
module Field {

  /** `d` divides `n` */
  predicate Divides(d: nat, n: nat)
    requires 0 < d
  {
    n % d == 0
  }

  predicate IsPrime(p: nat) {
    1 < p && forall d :: 1 < d < p ==> !Divides(d, p)
  }

  type Prime = p: nat | IsPrime(p) witness 2

  /** The characteristic of the field; which prime it is stays open. */
  const P: Prime

  /** A field element, in canonical form. */
  type Fe = x: int | 0 <= x < P

  /** `a % P` for an `a` at most one modulus away from the canonical range. */
  lemma ModNear(a: int)
    requires -(P as int) <= a < 2 * P
    ensures a % P == if a < 0 then a + P else if a < P then a else a - P
  {
    var q := if a < 0 then -1 else if a < P then 0 else 1;
    var m := a - q * P;
    assert 0 <= m < P && a == q * P + m;
    DivModUnique(a, q, m);
  }

  /** Euclidean division by `P` is unique. */
  lemma DivModUnique(a: int, q: int, m: int)
    requires a == q * P + m && 0 <= m < P
    ensures a % P == m
  {
    var q' := a / P;
    var m' := a % P;
    assert a == q' * P + m';
    if q' < q {
      assert (q - q') * P >= P by { MulAtLeast(q - q', P); }
      assert false;
    } else if q < q' {
      assert (q' - q) * P >= P by { MulAtLeast(q' - q, P); }
      assert false;
    }
  }

  lemma MulAtLeast(k: int, p: nat)
    requires 1 <= k
    ensures k * p >= p
  {
  }

  /** Field addition. */
  function Add(x: Fe, y: Fe): (r: Fe)
    ensures r == if x + y < P then x + y else x + y - P
  {
    ModNear(x + y);
    (x + y) % P
  }

  /** Additive inverse. */
  function Neg(x: Fe): (r: Fe)
    ensures (x + r) % P == 0
    ensures x == 0 <==> r == 0
  {
    if x == 0 then 0 else P - x
  }

  /** Field subtraction: wraps around by `P` when `y` exceeds `x`. */
  function Sub(x: Fe, y: Fe): (r: Fe)
    ensures r == if y <= x then x - y else x - y + P
  {
    ModNear(x - y);
    (x - y) % P
  }

  /** Field multiplication. */
  function Mul(x: Fe, y: Fe): (r: Fe)
    ensures x == 0 || y == 0 ==> r == 0
    ensures x == 1 ==> r == y
    ensures y == 1 ==> r == x
  {
    (x * y) % P
  }

  /** Subtraction is addition of the inverse; this is how `lhs - rhs` is
      represented inside a gate polynomial. */
  lemma SubIsAddNeg(x: Fe, y: Fe)
    ensures Sub(x, y) == Add(x, Neg(y))
  {
  }

  /** `z - o` vanishes exactly when `z` and `o` are the same element. */
  lemma AddNegZeroIff(z: Fe, o: Fe)
    ensures Add(z, Neg(o)) == 0 <==> z == o
  {
  }

  /** Swapping the operands of a subtraction negates the result. */
  lemma SubAntisymmetric(x: Fe, y: Fe)
    ensures Sub(x, y) == Neg(Sub(y, x))
  {
  }
}
