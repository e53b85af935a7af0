/** `addJacobian`, `doubleJacobian` and `affineFromJacobian` compute the group law. */
module Jacobian {
  import opened Radix
  import opened Field
  import opened Curve

  // ---------- doubling ----------

  lemma RingDouble(Z: int, x: int, y: int)
    ensures var q := Z * Z; var t := Z * q; var z := 2 * y * (q * q);
            && 2 * ((y * t) * Z) == z
            && 4 * ((x * q) * ((y * t) * (y * t))) == x * (z * z)
            && 8 * (((y * t) * (y * t)) * ((y * t) * (y * t))) == y * (z * (z * z))
  {
    var q := Z * Z;
    var t := Z * q;
    var z := 2 * y * (q * q);
    RingDoubleBy(y, q, t, Z);
    var g := y * y * (q * q * q);
    assert 4 * ((x * q) * g) == x * (z * z) by { RingX(x, y, q); }
    assert 8 * (g * g) == y * (z * (z * z)) by { RingY(y, q); }
  }

  lemma RingDoubleBy(y: int, q: int, t: int, Z: int)
    requires q == Z * Z && t == Z * q
    ensures 2 * ((y * t) * Z) == 2 * y * (q * q)
    ensures (y * t) * (y * t) == y * y * (q * q * q)
  {
    assert t * Z == q * q;
    assert (y * t) * Z == y * (t * Z);
    assert t * t == q * q * q by {
      assert t * t == (Z * q) * (Z * q) == (Z * Z) * (q * q);
    }
    assert (y * t) * (y * t) == (y * y) * (t * t);
  }

  lemma RingX(x: int, y: int, q: int)
    ensures var z := 2 * y * (q * q);
            4 * ((x * q) * (y * y * (q * q * q))) == x * (z * z)
  {
    var z := 2 * y * (q * q);
    var a := q * q;
    assert z * z == 4 * ((y * y) * (a * a)) by {
      assert (y * a) * (y * a) == (y * y) * (a * a);
    }
    assert q * (y * y * (q * q * q)) == (y * y) * (a * a) by {
      assert q * (q * q * q) == a * a;
      assert q * ((y * y) * (a * q)) == (y * y) * (q * (a * q));
    }
    assert (x * q) * (y * y * (q * q * q)) == x * (q * (y * y * (q * q * q)));
  }

  lemma RingY(y: int, q: int)
    ensures var z := 2 * y * (q * q); var g := y * y * (q * q * q);
            8 * (g * g) == y * (z * (z * z))
  {
    var a, b := q * q, y * y;
    SquareOf2(y, a);
    Cube(y, a);
    SquareProduct(b, a * q);
    SquareProduct(a, q);
  }

  lemma SquareProduct(a: int, b: int)
    ensures (a * b) * (a * b) == (a * a) * (b * b)
  {
    CubeProduct(a, b, a, b);
  }

  lemma SquareOf2(y: int, a: int)
    ensures (2 * y * a) * (2 * y * a) == 4 * ((y * y) * (a * a))
  {
    SquareProduct(2 * y, a);
    SquareProduct(2, y);
    MulAssoc(4, y * y, a * a);
  }

  /** y (2 y a)^3 = 8 (y^2)^2 (a^2 a). */
  lemma Cube(y: int, a: int)
    ensures var z := 2 * y * a; y * (z * (z * z)) == 8 * (((y * y) * (y * y)) * (a * (a * a)))
  {
    var z, b := 2 * y * a, y * y;
    SquareOf2(y, a);
    MulAssoc(y, z, z * z);
    assert y * z == 2 * (b * a) by { MulAssoc(2, y, a); MulAssoc(y, y, a); }
    CubeProduct(b, b, a, a * a);
    assert (b * a) * (b * (a * a)) == (b * b) * (a * (a * a)) by { CubeProduct(b, a, b, a * a); }
    EightOf(b * a, b * (a * a));
  }

  lemma EightOf(m: int, n: int)
    ensures (2 * m) * (4 * n) == 8 * (m * n)
  {
  }

  /** The numerator of the tangent slope, scaled: 3 X^2 + A Z^4 is l times the common scale. */
  lemma TangentScaled(c: Params, l: int, x: int, y: int, q: int)
    requires c.P > 0 && Cong(l * (2 * y), 3 * (x * x) + c.A, c.P)
    ensures Cong(3 * ((x * q) * (x * q)) + c.A * (q * q), l * (2 * y * (q * q)), c.P)
  {
    hide Cong;
    var p, a := c.P, q * q;
    CongRefl(a, p);
    CongSym(l * (2 * y), 3 * (x * x) + c.A, p);
    CongMul(3 * (x * x) + c.A, l * (2 * y), a, a, p);
    assert (x * q) * (x * q) == (x * x) * a;
    assert (3 * (x * x) + c.A) * a == 3 * ((x * x) * a) + c.A * a;
    MulAssoc(l, 2 * y, a);
  }

  /** All reductions of `doubleJacobian` at once. */
  lemma DoubleCore(
      c: Params, X: int, Y: int, Z: int, pt: Point, delta: int, gamma: int, alpha: int, beta4: int, Z3: int)
    requires OddPrime(c.P) && pt.Affine? && InRange(c, pt) && Z != 0 && Represents(c, X, Y, Z, pt)
    requires Cong(delta, Z * Z, c.P) && Cong(gamma, Y * Y, c.P)
    requires Cong(alpha, 3 * (X * X) + c.A * (delta * delta), c.P)
    requires Cong(beta4, 4 * (X * gamma), c.P) && Cong(Z3, 2 * (Y * Z), c.P) && 0 <= Z3 < c.P
    ensures var X3 := (alpha * alpha - 0 - beta4 - beta4) % c.P;
            var Y3 := (alpha * (beta4 - X3) - 8 * (gamma * gamma)) % c.P;
            Represents(c, X3, Y3, Z3, Plus(c, pt, pt))
  {
    hide Cong, Represents;
    var p, x, y, q := c.P, pt.x, pt.y, Z * Z;
    var t := Z * q;
    var z := 2 * y * (q * q);
    RepresentsCong(c, X, Y, Z, pt);
    RingDouble(Z, x, y);
    CongRefl(Z, p);
    CongMul(Y, y * t, Z, Z, p);
    CongScale(2, Y * Z, (y * t) * Z, p);
    CongTrans(Z3, 2 * (Y * Z), z, p);
    DoubleZero(c, Z, y, Z3, p);
    if y != 0 {
      CongMul(Y, y * t, Y, y * t, p);
      CongTrans(gamma, Y * Y, (y * t) * (y * t), p);
      CongMul(X, x * q, gamma, (y * t) * (y * t), p);
      CongScale(4, X * gamma, (x * q) * ((y * t) * (y * t)), p);
      CongTrans(beta4, 4 * (X * gamma), x * (z * z), p);
      CongMul(gamma, (y * t) * (y * t), gamma, (y * t) * (y * t), p);
      CongScale(8, gamma * gamma, ((y * t) * (y * t)) * ((y * t) * (y * t)), p);
      var l := Slope(c, pt, pt);
      AlphaCong(c, X, x, y, q, delta, alpha, pt);
      CongRefl(0, p);
      Assemble(c, l, z, x, y, 0, alpha, 0, beta4, 8 * (gamma * gamma));
      assert 0 * (z * z) == 0;
      var X3 := (alpha * alpha - 0 - beta4 - beta4) % p;
      var Y3 := (alpha * (beta4 - X3) - 8 * (gamma * gamma)) % p;
      SumNotZero(y, y, p);
      Rescale(c, X3, Y3, Z3, z, Plus(c, pt, pt));
    } else {
      RepresentsInfinity(c, (alpha * alpha - 0 - beta4 - beta4) % p,
        (alpha * (beta4 - (alpha * alpha - 0 - beta4 - beta4) % p) - 8 * (gamma * gamma)) % p);
    }
  }

  lemma AlphaCong(c: Params, X: int, x: int, y: int, q: int, delta: int, alpha: int, pt: Point)
    requires OddPrime(c.P) && pt == Affine(x, y) && InRange(c, pt) && y != 0
    requires Cong(X, x * q, c.P) && Cong(delta, q, c.P)
    requires Cong(alpha, 3 * (X * X) + c.A * (delta * delta), c.P)
    ensures Cong(alpha, Slope(c, pt, pt) * (2 * y * (q * q)), c.P)
  {
    hide Cong, Slope;
    var p := c.P;
    CongMul(X, x * q, X, x * q, p);
    CongScale(3, X * X, (x * q) * (x * q), p);
    CongMul(delta, q, delta, q, p);
    CongScale(c.A, delta * delta, q * q, p);
    CongAdd(3 * (X * X), 3 * ((x * q) * (x * q)), c.A * (delta * delta), c.A * (q * q), p);
    TangentSlope(c, pt);
    TangentScaled(c, Slope(c, pt, pt), x, y, q);
    CongTrans(alpha, 3 * (X * X) + c.A * (delta * delta), 3 * ((x * q) * (x * q)) + c.A * (q * q), p);
    CongTrans(alpha, 3 * ((x * q) * (x * q)) + c.A * (q * q), Slope(c, pt, pt) * (2 * y * (q * q)), p);
  }

  lemma RepresentsCong(c: Params, X: int, Y: int, Z: int, pt: Point)
    requires c.P > 0 && Represents(c, X, Y, Z, pt) && Z != 0
    ensures pt.Affine? && 0 < Z < c.P
    ensures Cong(X, pt.x * (Z * Z), c.P) && Cong(Y, pt.y * (Z * (Z * Z)), c.P)
  {
  }

  lemma RepresentsInfinity(c: Params, X: int, Y: int)
    requires c.P > 0
    ensures Represents(c, X, Y, 0, Infinity)
  {
  }

  lemma CongScale(k: int, a: int, b: int, p: nat)
    requires p > 0 && Cong(a, b, p)
    ensures Cong(k * a, k * b, p)
  {
    hide Cong;
    CongRefl(k, p);
    CongMul(k, k, a, b, p);
  }

  lemma NonZeroProduct(a: int, b: int, p: nat)
    requires OddPrime(p) && a % p != 0 && b % p != 0
    ensures (a * b) % p != 0
  {
    CongZero(a * b, p);
    CongZero(a, p);
    CongZero(b, p);
    if Cong(a * b, 0, p) {
      ZeroProduct(a, b, p);
    }
  }

  /** The doubled Z vanishes exactly when the ordinate does. */
  lemma DoubleZero(c: Params, Z: int, y: int, Z3: int, p: nat)
    requires p == c.P && OddPrime(p) && 0 < Z < p && 0 <= y < p && 0 <= Z3 < p
    requires Cong(Z3, 2 * y * ((Z * Z) * (Z * Z)), p)
    ensures y == 0 <==> Z3 == 0
  {
    hide Cong, OddPrime;
    CongModEq(Z3, 2 * y * ((Z * Z) * (Z * Z)), p);
    NoMod(Z3, p);
    if y == 0 {
      assert 2 * y * ((Z * Z) * (Z * Z)) == 0;
    } else {
      NoMod(Z, p);
      NonZeroProduct(Z, Z, p);
      NonZeroProduct(Z * Z, Z * Z, p);
      OddDouble(y, p);
      NonZeroProduct(2 * y, (Z * Z) * (Z * Z), p);
    }
  }

  lemma NoMod(a: int, p: nat)
    requires 0 <= a < p
    ensures a % p == a
  {
  }

  lemma SumNotZero(y: int, y': int, p: nat)
    requires OddPrime(p) && 0 < y < p && y == y'
    ensures (y + y') % p != 0
  {
    OddDouble(y, p);
  }

  method DoubleJacobian(c: Params, x: int, y: int, z: int, ghost pt: Point) returns (x3: int, y3: int, z3: int)
    requires OddPrime(c.P) && InRange(c, pt) && Represents(c, x, y, z, pt)
    ensures Represents(c, x3, y3, z3, Plus(c, pt, pt))
  {
    hide Cong, OddPrime;
    var delta := (z * z) % c.P;
    var gamma := (y * y) % c.P;
    CongMod(z * z, c.P);
    CongMod(y * y, c.P);
    ghost var d0 := delta;
    var alpha: int;
    if c.A == -3 {
      // 3 (x - delta) (x + delta)
      alpha := x - delta;
      var alpha2 := x + delta;
      alpha := alpha * alpha2;
      alpha := 2 * alpha + alpha;
      DiffSquares(x, delta);
    } else {
      var x2 := x * x;
      alpha := 2 * x2 + x2;
      if c.A != 0 {
        delta := delta * delta;
        delta := c.A * delta;
        alpha := alpha + delta;
      }
    }
    assert alpha == 3 * (x * x) + c.A * (d0 * d0);
    CongMod(alpha, c.P);
    alpha := alpha % c.P;
    var beta4 := x * gamma;
    beta4 := 4 * beta4;
    CongMod(beta4, c.P);
    beta4 := beta4 % c.P;
    x3 := alpha * alpha;
    var beta8 := 2 * beta4;
    x3 := x3 - beta8;
    x3 := x3 % c.P;
    z3 := y * z;
    z3 := 2 * z3;
    CongMod(z3, c.P);
    z3 := z3 % c.P;
    ghost var b4 := beta4;
    beta4 := beta4 - x3;
    y3 := alpha * beta4;
    var gamma2 := gamma * gamma;
    gamma2 := 8 * gamma2;
    y3 := y3 - gamma2;
    y3 := y3 % c.P;
    if z == 0 {
      assert y * z == 0;
      NoMod(0, c.P);
      RepresentsInfinity(c, x3, y3);
      assert pt == Infinity;
    } else {
      DoubleCore(c, x, y, z, pt, d0, gamma, alpha, b4, z3);
    }
  }

  // ---------- addition ----------

  lemma RingAdd(w: int, d: int, x: int, y: int)
    ensures var q := w * w; var t := w * q; var z := 2 * d * t; var i := (2 * (d * q)) * (2 * (d * q));
            && 2 * w * (d * q) == z
            && (d * q) * i == d * (z * z)
            && (x * q) * i == x * (z * z)
            && 2 * ((y * t) * (d * (z * z))) == y * (z * (z * z))
  {
    var q := w * w;
    var t := w * q;
    var z := 2 * d * t;
    var i := (2 * (d * q)) * (2 * (d * q));
    MulAssoc(2, d, t);
    assert w * (d * q) == d * t by { MulAssoc(w, d, q); MulAssoc(d, w, q); }
    assert 2 * w * (d * q) == z by { MulAssoc(2, w, d * q); }
    assert q * i == z * z by { RingScale(w, d); }
    MulAssoc(d, q, i);
    MulAssoc(x, q, i);
    assert (y * t) * (d * (z * z)) == y * ((d * t) * (z * z)) by { MulAssoc(y, t, d * (z * z)); MulAssoc(t, d, z * z); }
    assert z * (z * z) == 2 * ((d * t) * (z * z)) by { MulAssoc(2, d * t, z * z); }
    TwiceIn(y, (d * t) * (z * z));
  }

  lemma TwiceIn(y: int, m: int)
    ensures 2 * (y * m) == y * (2 * m)
  {
  }

  /** w^2 (2 d w^2)^2 = (2 d w^3)^2. */
  lemma RingScale(w: int, d: int)
    ensures var q := w * w; var z := 2 * d * (w * q); q * ((2 * (d * q)) * (2 * (d * q))) == z * z
  {
    var q := w * w;
    MulAssoc(2, d, q);
    SquareOf2(d, q);
    SquareOf2(d, w * q);
    SquareProduct(w, q);
    var dd, qq := d * d, q * q;
    MulAssoc(q, dd, qq);
    MulAssoc(dd, q, qq);
    FourIn(q, dd * qq);
  }

  lemma FourIn(q: int, m: int)
    ensures q * (4 * m) == 4 * (q * m)
  {
  }

  /** Cross-multiplying coordinates of two points to the common scale w = Z1 Z2. */
  lemma CrossX(X: int, x: int, Z1: int, Z2: int, zz: int, p: nat)
    requires p > 0 && Cong(X, x * (Z1 * Z1), p) && Cong(zz, Z2 * Z2, p)
    ensures Cong(X * zz, x * ((Z1 * Z2) * (Z1 * Z2)), p)
  {
    hide Cong;
    CongMul(X, x * (Z1 * Z1), zz, Z2 * Z2, p);
    assert (Z1 * Z2) * (Z1 * Z2) == (Z1 * Z1) * (Z2 * Z2);
    MulAssoc(x, Z1 * Z1, Z2 * Z2);
  }

  lemma CrossY(Y: int, y: int, Z1: int, Z2: int, zz: int, p: nat)
    requires p > 0 && Cong(Y, y * (Z1 * (Z1 * Z1)), p) && Cong(zz, Z2 * Z2, p)
    ensures Cong(Y * Z2 * zz, y * ((Z1 * Z2) * ((Z1 * Z2) * (Z1 * Z2))), p)
  {
    hide Cong;
    CongRefl(Z2, p);
    CongMul(Z2, Z2, zz, Z2 * Z2, p);
    CongMul(Y, y * (Z1 * (Z1 * Z1)), Z2 * zz, Z2 * (Z2 * Z2), p);
    MulAssoc(Y, Z2, zz);
    assert (Z1 * Z2) * (Z1 * Z2) == (Z1 * Z1) * (Z2 * Z2);
    CubeProduct(Z1, Z2, Z1 * Z1, Z2 * Z2);
    MulAssoc(y, Z1 * (Z1 * Z1), Z2 * (Z2 * Z2));
  }

  lemma CubeProduct(a: int, b: int, aa: int, bb: int)
    ensures (a * b) * (aa * bb) == (a * aa) * (b * bb)
  {
  }

  /** (Z1 + Z2)^2 - Z1^2 - Z2^2 is twice the product. */
  lemma CrossZ(Z1: int, Z2: int, zz1: int, zz2: int, p: nat)
    requires p > 0 && Cong(zz1, Z1 * Z1, p) && Cong(zz2, Z2 * Z2, p)
    ensures Cong((Z1 + Z2) * (Z1 + Z2) - zz1 - zz2, 2 * (Z1 * Z2), p)
  {
    hide Cong;
    var s := (Z1 + Z2) * (Z1 + Z2);
    CongRefl(s, p);
    CongAdd(s, s, zz1, Z1 * Z1, p);
    CongAdd(s - zz1, s - Z1 * Z1, zz2, Z2 * Z2, p);
    assert s == Z1 * Z1 + 2 * (Z1 * Z2) + Z2 * Z2;
  }

  /** Equality of reduced cross products is equality of the affine coordinates. */
  lemma CrossEqual(u1: int, u2: int, a: int, b: int, k: int, p: nat)
    requires OddPrime(p) && 0 <= u1 < p && 0 <= u2 < p && 0 <= a < p && 0 <= b < p && k % p != 0
    requires Cong(u1, a * k, p) && Cong(u2, b * k, p)
    ensures u1 == u2 <==> a == b
  {
    hide Cong, OddPrime;
    if u1 == u2 {
      CongSym(u1, a * k, p);
      CongTrans(a * k, u1, b * k, p);
      Cancel(a, b, k, p);
      CongEq(a, b, p);
    }
    if a == b {
      CongSym(u2, b * k, p);
      CongTrans(u1, a * k, u2, p);
      CongEq(u1, u2, p);
    }
  }

  /** h i, u1 i and 2 s1 j over the scale z = 2 d w^3. */
  lemma ChordProducts(
      x: int, y: int, d: int, w: int, u1: int, h: int, s1: int, i: int, j: int, v: int, f: int, z: int, P: nat)
    requires P > 0 && z == 2 * d * (w * (w * w))
    requires Cong(u1, x * (w * w), P) && Cong(s1, y * (w * (w * w)), P) && Cong(h, d * (w * w), P)
    requires i == (2 * h) * (2 * h) && j == h * i && v == u1 * i && f == 2 * (s1 * j)
    ensures Cong(j, d * (z * z), P) && Cong(v, x * (z * z), P) && Cong(f, y * (z * (z * z)), P)
    ensures 2 * w * (d * (w * w)) == z
  {
    hide Cong;
    var qq := w * w;
    var t := w * qq;
    RingAdd(w, d, x, y);
    CongScale(2, h, d * qq, P);
    CongMul(2 * h, 2 * (d * qq), 2 * h, 2 * (d * qq), P);
    var i' := (2 * (d * qq)) * (2 * (d * qq));
    CongMul(h, d * qq, i, i', P);
    CongMul(u1, x * qq, i, i', P);
    CongMul(s1, y * t, j, d * (z * z), P);
    CongScale(2, s1 * j, (y * t) * (d * (z * z)), P);
  }

  /** The numerator of the chord's slope is the slope over the same scale. */
  lemma ChordNumerator(c: Params, p: Point, q: Point, w: int, r: int, z: int)
    requires OddPrime(c.P) && p.Affine? && q.Affine? && InRange(c, p) && InRange(c, q) && p.x != q.x
    requires z == 2 * (q.x - p.x) * (w * (w * w))
    requires Cong(r, 2 * ((q.y - p.y) * (w * (w * w))), c.P)
    ensures Cong(r, Slope(c, p, q) * z, c.P)
  {
    hide Cong, Slope, OddPrime;
    var P, d, t, l := c.P, q.x - p.x, w * (w * w), Slope(c, p, q);
    ChordSlope(c, p, q);
    CongSym(l * d, q.y - p.y, P);
    CongRefl(t, P);
    CongMul(q.y - p.y, l * d, t, t, P);
    CongScale(2, (q.y - p.y) * t, l * d * t, P);
    SlopeScale(l, d, t);
    CongTrans(r, 2 * ((q.y - p.y) * t), l * z, P);
  }

  lemma SlopeScale(l: int, d: int, t: int)
    ensures 2 * (l * d * t) == l * (2 * d * t)
  {
    MulAssoc(l, d, t);
    MulAssoc(2, d, t);
  }

  /** The chord case of `addJacobian`, with every reduction it makes. */
  lemma ChordCore(
      c: Params, p: Point, q: Point, w: int, u1: int, h: int, s1: int, r: int, i: int, j: int, v: int, f: int,
      Z3: int)
    requires OddPrime(c.P) && p.Affine? && q.Affine? && InRange(c, p) && InRange(c, q) && p.x != q.x
    requires w % c.P != 0
    requires Cong(u1, p.x * (w * w), c.P) && Cong(s1, p.y * (w * (w * w)), c.P)
    requires Cong(h, (q.x - p.x) * (w * w), c.P) && Cong(r, 2 * ((q.y - p.y) * (w * (w * w))), c.P)
    requires i == (2 * h) * (2 * h) && j == h * i && v == u1 * i && f == 2 * (s1 * j)
    requires Cong(Z3, 2 * w * h, c.P) && 0 <= Z3 < c.P
    ensures var X3 := (r * r - j - v - v) % c.P;
            var Y3 := (r * (v - X3) - f) % c.P;
            Represents(c, X3, Y3, Z3, Plus(c, p, q))
  {
    hide Cong, Represents, Slope, OddPrime;
    var d := q.x - p.x;
    var z := 2 * d * (w * (w * w));
    ChordProducts(p.x, p.y, d, w, u1, h, s1, i, j, v, f, z, c.P);
    ChordNumerator(c, p, q, w, r, z);
    Assemble(c, Slope(c, p, q), z, p.x, p.y, d, r, j, v, f);
    CongScale(2 * w, h, d * (w * w), c.P);
    CongTrans(Z3, 2 * w * h, z, c.P);
    ChordScale(c, p.x, q.x, w, Z3);
    assert p.x + d == q.x;
    var X3 := (r * r - j - v - v) % c.P;
    Rescale(c, X3, (r * (v - X3) - f) % c.P, Z3, z, Plus(c, p, q));
  }

  lemma ChordScale(c: Params, x: int, x': int, w: int, Z3: int)
    requires OddPrime(c.P) && 0 <= x < c.P && 0 <= x' < c.P && x != x' && w % c.P != 0 && 0 <= Z3 < c.P
    requires Cong(Z3, 2 * (x' - x) * (w * (w * w)), c.P)
    ensures Z3 != 0
  {
    hide Cong, OddPrime;
    var p := c.P;
    DistinctMod(x, x', p);
    TwoMod(p);
    NonZeroProduct(2, x' - x, p);
    NonZeroProduct(w, w, p);
    NonZeroProduct(w, w * w, p);
    NonZeroProduct(2 * (x' - x), w * (w * w), p);
    CongModEq(Z3, 2 * (x' - x) * (w * (w * w)), p);
    NoMod(Z3, p);
  }

  lemma TwoMod(p: nat)
    requires OddPrime(p)
    ensures 2 % p != 0
  {
    NoMod(2, p);
  }

  /** Points of the curve above one abscissa are equal or opposite. */
  lemma SameX(c: Params, p: Point, q: Point)
    requires OddPrime(c.P) && OnCurve(c, p) && OnCurve(c, q) && p.Affine? && q.Affine? && p.x == q.x
    ensures p == q || (p.y + q.y) % c.P == 0
  {
    hide Cong, OddPrime;
    CongSym(q.y * q.y, Cubic(c, q.x), c.P);
    CongTrans(p.y * p.y, Cubic(c, p.x), q.y * q.y, c.P);
    RootsOpposite(p.y, q.y, c.P);
    if p.y + q.y == c.P { Multiple(1, c.P); }
  }

  method AddJacobian(
      c: Params, x1: int, y1: int, z1: int, x2: int, y2: int, z2: int, ghost p: Point, ghost q: Point)
      returns (x3: int, y3: int, z3: int)
    requires OddPrime(c.P) && OnCurve(c, p) && OnCurve(c, q)
    requires Represents(c, x1, y1, z1, p) && Represents(c, x2, y2, z2, q)
    ensures Represents(c, x3, y3, z3, Plus(c, p, q))
  {
    hide Cong, OddPrime, Slope, Cubic, ThirdX, ThirdY;
    if z1 == 0 {
      return x2, y2, z2;
    }
    if z2 == 0 {
      return x1, y1, z1;
    }
    var z1z1 := (z1 * z1) % c.P;
    var z2z2 := (z2 * z2) % c.P;
    CongMod(z1 * z1, c.P);
    CongMod(z2 * z2, c.P);
    ghost var w := z1 * z2;
    NoMod(z1, c.P);
    NoMod(z2, c.P);
    NonZeroProduct(z1, z2, c.P);
    NonZeroProduct(w, w, c.P);
    NonZeroProduct(w, w * w, c.P);
    assert z2 * z1 == w;

    var u1 := (x1 * z2z2) % c.P;
    var u2 := (x2 * z1z1) % c.P;
    CrossX(x1, p.x, z1, z2, z2z2, c.P);
    CrossX(x2, q.x, z2, z1, z1z1, c.P);
    ReduceTo(x1 * z2z2, p.x * (w * w), c.P);
    ReduceTo(x2 * z1z1, q.x * (w * w), c.P);
    CrossEqual(u1, u2, p.x, q.x, w * w, c.P);
    var h := u2 - u1;
    var xEqual := h == 0;
    CongAdd(u2, q.x * (w * w), u1, p.x * (w * w), c.P);
    Distribute(q.x, p.x, w * w);
    if h < 0 {
      Shift(h, (q.x - p.x) * (w * w), c.P);
      h := h + c.P;
    }
    var i := 2 * h;
    i := i * i;
    var j := h * i;

    var s1 := (y1 * z2 * z2z2) % c.P;
    var s2 := (y2 * z1 * z1z1) % c.P;
    CrossY(y1, p.y, z1, z2, z2z2, c.P);
    CrossY(y2, q.y, z2, z1, z1z1, c.P);
    ReduceTo(y1 * z2 * z2z2, p.y * (w * (w * w)), c.P);
    ReduceTo(y2 * z1 * z1z1, q.y * (w * (w * w)), c.P);
    CrossEqual(s1, s2, p.y, q.y, w * (w * w), c.P);
    var r := s2 - s1;
    CongAdd(s2, q.y * (w * (w * w)), s1, p.y * (w * (w * w)), c.P);
    Distribute(q.y, p.y, w * (w * w));
    if r < 0 {
      Shift(r, (q.y - p.y) * (w * (w * w)), c.P);
      r := r + c.P;
    }
    var yEqual := r == 0;
    if xEqual && yEqual {
      assert p == q;
      x3, y3, z3 := DoubleJacobian(c, x1, y1, z1, p);
      return;
    }
    CongScale(2, r, (q.y - p.y) * (w * (w * w)), c.P);
    r := 2 * r;
    var v := u1 * i;

    x3 := r * r;
    x3 := x3 - j;
    x3 := x3 - v;
    x3 := x3 - v;
    x3 := x3 % c.P;

    y3 := r;
    ghost var v0, s0 := v, s1;
    v := v - x3;
    y3 := y3 * v;
    s1 := s1 * j;
    s1 := 2 * s1;
    y3 := y3 - s1;
    y3 := y3 % c.P;

    z3 := z1 + z2;
    z3 := z3 * z3;
    z3 := z3 - z1z1;
    z3 := z3 - z2z2;
    CrossZ(z1, z2, z1z1, z2z2, c.P);
    CongRefl(h, c.P);
    CongMul(z3, 2 * w, h, h, c.P);
    z3 := z3 * h;
    ReduceTo(z3, 2 * w * h, c.P);
    z3 := z3 % c.P;

    if xEqual {
      SameX(c, p, q);
      assert z3 == 0 by { Vanish(2 * w, h, z3, c.P); }
      RepresentsInfinity(c, x3, y3);
    } else {
      ChordCore(c, p, q, w, u1, h, s0, r, i, j, v0, s1, z3);
    }
  }

  lemma ReduceTo(a: int, b: int, p: nat)
    requires p > 0 && Cong(a, b, p)
    ensures Cong(a % p, b, p) && 0 <= a % p < p
  {
    CongMod(a, p);
    CongTrans(a % p, a, b, p);
  }

  lemma Shift(a: int, b: int, p: nat)
    requires p > 0 && Cong(a, b, p)
    ensures Cong(a + p, b, p)
  {
    CongBy(a + p, b, Quotient(a, b, p) + 1, p);
  }

  lemma Distribute(a: int, b: int, k: int)
    ensures a * k - b * k == (a - b) * k
  {
  }

  lemma Vanish(a: int, h: int, z: int, p: nat)
    requires p > 0 && h == 0 && Cong(z, a * h, p) && 0 <= z < p
    ensures z == 0
  {
    CongEq(z, 0, p);
  }

  // ---------- back to affine coordinates ----------

  /** The pair of coordinates the source uses for a point; (0, 0) is infinity. */
  ghost predicate Pair(x: int, y: int, pt: Point)
  {
    match pt
    case Infinity => x == 0 && y == 0
    case Affine(px, py) => x == px && y == py
  }

  method AffineFromJacobian(c: Params, x: int, y: int, z: int, ghost pt: Point) returns (xOut: int, yOut: int)
    requires OddPrime(c.P) && InRange(c, pt) && Represents(c, x, y, z, pt)
    ensures Pair(xOut, yOut, pt)
  {
    if z == 0 {
      return 0, 0;
    }
    NoMod(z, c.P);
    assert Invertible(z, c.P);
    var zinv := ModInverse(z, c.P);
    var zinvsq := zinv * zinv;
    xOut := x * zinvsq;
    xOut := xOut % c.P;
    ghost var s := zinvsq;
    zinvsq := zinvsq * zinv;
    yOut := y * zinvsq;
    yOut := yOut % c.P;
    UnscaleX(x, y, z, zinv, pt.x, pt.y, c.P);
  }

  lemma UnscaleX(X: int, Y: int, Z: int, i: int, x: int, y: int, p: nat)
    requires p > 1 && IsInverse(Z, i, p) && 0 <= x < p && 0 <= y < p
    requires Cong(X, x * (Z * Z), p) && Cong(Y, y * (Z * (Z * Z)), p)
    ensures (X * (i * i)) % p == x && (Y * (i * i * i)) % p == y
  {
    hide Cong;
    InverseCong(Z, i, p);
    CongMul(Z * i, 1, Z * i, 1, p);
    CubeProduct(Z, i, Z, i);
    assert (Z * i) * (Z * i) == (Z * Z) * (i * i);
    Unscale(X, x, Z * Z, i * i, p);
    CongMul((Z * Z) * (i * i), 1, Z * i, 1, p);
    CubeProduct(Z, i, Z * Z, i * i);
    assert (i * i) * i == i * (i * i);
    assert ((Z * Z) * (i * i)) * (Z * i) == (Z * (Z * Z)) * (i * (i * i));
    Unscale(Y, y, Z * (Z * Z), i * i * i, p);
  }

  lemma Unscale(X: int, x: int, k: int, i: int, p: nat)
    requires p > 0 && 0 <= x < p && Cong(X, x * k, p) && Cong(k * i, 1, p)
    ensures (X * i) % p == x
  {
    hide Cong;
    CongRefl(i, p);
    CongMul(X, x * k, i, i, p);
    CancelOne(x, k, i, p);
    CongTrans(X * i, x * k * i, x, p);
    CongModEq(X * i, x, p);
    NoMod(x, p);
  }
}
