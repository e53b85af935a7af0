/**
 Short Weierstrass curves of crypto/secp256k1/elliptic.go: the chord-and-tangent law on affine points,
 and the Jacobian formulas that compute it.
 */
module Curve {
  import opened Radix
  import opened Field

  datatype Point = Infinity | Affine(x: int, y: int)

  datatype Params = Params(P: nat, A: int, B: int, N: nat, Gx: int, Gy: int, bitSize: nat)

  ghost predicate InRange(c: Params, pt: Point)
  {
    pt.Affine? ==> 0 <= pt.x < c.P && 0 <= pt.y < c.P
  }

  /** x * x * x + A * x + B as the source groups it. */
  function Cubic(c: Params, x: int): int { (x * x + c.A) * x + c.B }

  ghost predicate OnCurve(c: Params, pt: Point)
    requires c.P > 0
  {
    InRange(c, pt) && (pt.Affine? ==> Cong(pt.y * pt.y, Cubic(c, pt.x), c.P))
  }

  /** Slope of the chord through two points, or of the tangent. */
  ghost function Slope(c: Params, p: Point, q: Point): int
    requires c.P > 0 && p.Affine? && q.Affine?
  {
    if p.x == q.x then (3 * (p.x * p.x) + c.A) * Inv(2 * p.y, c.P)
    else (q.y - p.y) * Inv(q.x - p.x, c.P)
  }

  ghost function ThirdX(c: Params, l: int, x1: int, x2: int): int
    requires c.P > 0
  {
    (l * l - (x2 - x1) - 2 * x1) % c.P
  }

  ghost function ThirdY(c: Params, l: int, x1: int, y1: int, x3: int): int
    requires c.P > 0
  {
    (l * (x1 - x3) - y1) % c.P
  }

  /** The group law. */
  ghost function Plus(c: Params, p: Point, q: Point): Point
    requires c.P > 0
  {
    if p.Infinity? then q
    else if q.Infinity? then p
    else if p.x == q.x && (p.y + q.y) % c.P == 0 then Infinity
    else
      var l := Slope(c, p, q);
      var x3 := ThirdX(c, l, p.x, q.x);
      Affine(x3, ThirdY(c, l, p.x, p.y, x3))
  }

  /** (X, Y, Z) stands for x = X/Z^2, y = Y/Z^3; Z = 0 is the point at infinity. */
  ghost predicate Represents(c: Params, X: int, Y: int, Z: int, pt: Point)
    requires c.P > 0
  {
    && 0 <= Z < c.P
    && if Z == 0 then pt == Infinity
       else pt.Affine? && Cong(X, pt.x * (Z * Z), c.P) && Cong(Y, pt.y * (Z * (Z * Z)), c.P)
  }

  // ---------- the slope ----------

  lemma ChordSlope(c: Params, p: Point, q: Point)
    requires OddPrime(c.P) && p.Affine? && q.Affine? && InRange(c, p) && InRange(c, q) && p.x != q.x
    ensures Cong(Slope(c, p, q) * (q.x - p.x), q.y - p.y, c.P)
  {
    DistinctMod(p.x, q.x, c.P);
    assert Invertible(q.x - p.x, c.P);
    SlopeBy(q.y - p.y, q.x - p.x, c.P);
  }

  lemma TangentSlope(c: Params, p: Point)
    requires OddPrime(c.P) && p.Affine? && InRange(c, p) && p.y != 0
    ensures Cong(Slope(c, p, p) * (2 * p.y), 3 * (p.x * p.x) + c.A, c.P)
  {
    OddDouble(p.y, c.P);
    assert Invertible(2 * p.y, c.P);
    SlopeBy(3 * (p.x * p.x) + c.A, 2 * p.y, c.P);
  }

  lemma SlopeBy(n: int, d: int, p: nat)
    requires p > 1 && Invertible(d, p)
    ensures Cong(n * Inv(d, p) * d, n, p)
  {
    hide Cong;
    var i := Inv(d, p);
    InverseCong(d, i, p);
    CongRefl(n, p);
    CongMul(n, n, d * i, 1, p);
    MulAssoc(n, i, d);
  }

  lemma DistinctMod(a: int, b: int, p: nat)
    requires p > 0 && 0 <= a < p && 0 <= b < p && a != b
    ensures (b - a) % p != 0
  {
    if (b - a) % p == 0 {
      SmallMultiple(b - a, p);
    }
  }

  lemma OddDouble(y: int, p: nat)
    requires OddPrime(p) && 0 < y < p
    ensures (2 * y) % p != 0
  {
    if (2 * y) % p == 0 {
      SmallMultiple(2 * y, p);
    }
  }

  // ---------- ring identities ----------

  lemma Ring1(l: int, z: int, x: int, d: int)
    ensures (l * z) * (l * z) - d * (z * z) - x * (z * z) - x * (z * z) == (l * l - d - 2 * x) * (z * z)
  {
  }

  lemma Ring2(l: int, z: int, q: int, x: int, x': int, y: int)
    ensures (l * z) * (x * q - x' * q) - y * (z * q) == (l * (x - x') - y) * (z * q)
  {
    var a := x - x';
    assert x * q - x' * q == a * q;
    assert (l * z) * (a * q) == (l * a) * (z * q);
  }

  /** From a common scale z the output coordinates come out right, whatever j, v and w were reduced to. */
  lemma Assemble(c: Params, l: int, z: int, x: int, y: int, d: int, r: int, j: int, v: int, w: int)
    requires c.P > 0
    requires Cong(r, l * z, c.P) && Cong(j, d * (z * z), c.P)
    requires Cong(v, x * (z * z), c.P) && Cong(w, y * (z * (z * z)), c.P)
    ensures var X3 := (r * r - j - v - v) % c.P;
            var Y3 := (r * (v - X3) - w) % c.P;
            var x3 := ThirdX(c, l, x, x + d);
            var y3 := ThirdY(c, l, x, y, x3);
            Cong(X3, x3 * (z * z), c.P) && Cong(Y3, y3 * (z * (z * z)), c.P)
  {
    hide Cong;
    var p, q := c.P, z * z;
    var X3 := (r * r - j - v - v) % p;
    var x3 := ThirdX(c, l, x, x + d);
    CongMul(r, l * z, r, l * z, p);
    CongAdd(r * r, (l * z) * (l * z), j, d * q, p);
    CongAdd(r * r - j, (l * z) * (l * z) - d * q, v, x * q, p);
    CongAdd(r * r - j - v, (l * z) * (l * z) - d * q - x * q, v, x * q, p);
    Ring1(l, z, x, d);
    CongMod(r * r - j - v - v, p);
    CongTrans(X3, r * r - j - v - v, (l * l - d - 2 * x) * q, p);
    ScaleMod(l * l - d - 2 * x, q, p);
    CongTrans(X3, (l * l - d - 2 * x) * q, x3 * q, p);

    var Y3 := (r * (v - X3) - w) % p;
    CongAdd(v, x * q, X3, x3 * q, p);
    CongMul(r, l * z, v - X3, x * q - x3 * q, p);
    CongAdd(r * (v - X3), (l * z) * (x * q - x3 * q), w, y * (z * q), p);
    Ring2(l, z, q, x, x3, y);
    CongMod(r * (v - X3) - w, p);
    CongTrans(Y3, r * (v - X3) - w, (l * (x - x3) - y) * (z * q), p);
    ScaleMod(l * (x - x3) - y, z * q, p);
    CongTrans(Y3, (l * (x - x3) - y) * (z * q), ThirdY(c, l, x, y, x3) * (z * q), p);
  }

  lemma ScaleMod(a: int, k: int, p: nat)
    requires p > 0
    ensures Cong(a * k, (a % p) * k, p)
  {
    hide Cong;
    CongMod(a, p);
    CongSym(a % p, a, p);
    CongRefl(k, p);
    CongMul(a, a % p, k, k, p);
  }

  /** Reducing the scale keeps the representation. */
  lemma Rescale(c: Params, X: int, Y: int, Z: int, z: int, pt: Point)
    requires c.P > 0 && pt.Affine? && Cong(Z, z, c.P) && 0 < Z < c.P
    requires Cong(X, pt.x * (z * z), c.P) && Cong(Y, pt.y * (z * (z * z)), c.P)
    ensures Represents(c, X, Y, Z, pt)
  {
    hide Cong;
    var p := c.P;
    CongSym(Z, z, p);
    CongMul(z, Z, z, Z, p);
    CongMul(z, Z, z * z, Z * Z, p);
    CongRefl(pt.x, p);
    CongRefl(pt.y, p);
    CongMul(pt.x, pt.x, z * z, Z * Z, p);
    CongMul(pt.y, pt.y, z * (z * z), Z * (Z * Z), p);
    CongTrans(X, pt.x * (z * z), pt.x * (Z * Z), p);
    CongTrans(Y, pt.y * (z * (z * z)), pt.y * (Z * (Z * Z)), p);
  }
}
