/** Multiples of points: what is assumed of the curve group, and `ScalarMult` on top of it. */
module Group {
  import opened Radix
  import opened Field
  import opened Curve
  import opened Jacobian

  ghost function Times(c: Params, n: nat, p: Point): Point
    requires c.P > 0
  {
    if n == 0 then Infinity else Plus(c, p, Times(c, n - 1, p))
  }

  function G(c: Params): Point { Affine(c.Gx, c.Gy) }

  ghost predicate AssociativeAt(c: Params, p: Point, q: Point, r: Point)
    requires c.P > 0
  {
    Plus(c, Plus(c, p, q), r) == Plus(c, p, Plus(c, q, r))
  }

  ghost predicate Associative(c: Params)
    requires c.P > 0
  {
    forall p, q, r {:trigger AssociativeAt(c, p, q, r)} ::
      OnCurve(c, p) && OnCurve(c, q) && OnCurve(c, r) ==> AssociativeAt(c, p, q, r)
  }

  ghost predicate NotNull(c: Params, k: nat)
    requires c.P > 0
  {
    Times(c, k, G(c)) != Infinity
  }

  ghost predicate IsMultiple(c: Params, p: Point)
    requires c.P > 0
  {
    exists k: nat :: k < c.N && p == Times(c, k, G(c))
  }

  ghost predicate Generates(c: Params)
    requires c.P > 0
  {
    && Times(c, c.N, G(c)) == Infinity
    && (forall k: nat {:trigger NotNull(c, k)} :: 0 < k < c.N ==> NotNull(c, k))
    && (forall p {:trigger IsMultiple(c, p)} :: OnCurve(c, p) ==> IsMultiple(c, p))
  }

  /** What is assumed of the curve: prime moduli, (0, 0) off the curve, and an associative group of prime
      order N generated by G. That sums stay on the curve is proved below. */
  ghost predicate GroupLaw(c: Params)
    ensures GroupLaw(c) ==> OddPrime(c.P) && OddPrime(c.N) && Associative(c) && OnCurve(c, G(c))
  {
    && OddPrime(c.P) && OddPrime(c.N) && c.B % c.P != 0
    && OnCurve(c, G(c))
    && Associative(c)
    && Generates(c)
  }

  // ---------- sums stay on the curve ----------

  lemma CubicDifference(c: Params, x: int, y: int)
    ensures Cubic(c, y) - Cubic(c, x) == (x * x + x * y + y * y + c.A) * (y - x)
  {
  }

  /** The line through two points, and the sum of their ordinates. */
  lemma ChordSum(c: Params, p: Point, q: Point, l: int)
    requires OddPrime(c.P) && OnCurve(c, p) && OnCurve(c, q) && p.Affine? && q.Affine? && p.x != q.x
    requires Cong(l * (q.x - p.x), q.y - p.y, c.P)
    ensures Cong(l * (p.y + q.y), p.x * p.x + p.x * q.x + q.x * q.x + c.A, c.P)
  {
    hide Cong, OddPrime, Cubic;
    var P, d, s := c.P, q.x - p.x, p.y + q.y;
    var S := p.x * p.x + p.x * q.x + q.x * q.x + c.A;
    CongRefl(s, P);
    CongMul(l * d, q.y - p.y, s, s, P);
    DiffSquares(q.y, p.y);
    assert (q.y - p.y) * s == q.y * q.y - p.y * p.y by { assert q.y + p.y == s; }
    CongAdd(q.y * q.y, Cubic(c, q.x), p.y * p.y, Cubic(c, p.x), P);
    CubicDifference(c, p.x, q.x);
    CongTrans(l * d * s, q.y * q.y - p.y * p.y, S * d, P);
    assert l * d * s == (l * s) * d by { MulAssoc(l, d, s); MulAssoc(l, s, d); assert d * s == s * d; }
    DistinctMod(p.x, q.x, P);
    Cancel(l * s, S, d, P);
  }

  lemma RingThird(m: int, l: int, x1: int, x2: int, x3: int, A: int)
    requires m == x1 + x2 + x3
    ensures m * (x1 - x3) + m * (x2 - x1) - (x1 * x1 + x1 * x2 + x2 * x2 + A)
            + (x1 * x1 + x1 * x3 + x3 * x3 + A) == 0
  {
    assert m * (x1 - x3) + m * (x2 - x1) == m * (x2 - x3);
    assert m * (x2 - x3) == x1 * x2 + x2 * x2 + x3 * x2 - x1 * x3 - x2 * x3 - x3 * x3;
  }

  /** The third intersection of a line with the curve, reflected, is on the curve. */
  lemma ThirdOnCurve(c: Params, p: Point, x2: int, y2: int, l: int)
    requires c.P > 0 && OnCurve(c, p) && p.Affine?
    requires Cong(l * (x2 - p.x), y2 - p.y, c.P)
    requires Cong(l * (p.y + y2), p.x * p.x + p.x * x2 + x2 * x2 + c.A, c.P)
    ensures var x3 := ThirdX(c, l, p.x, x2);
            OnCurve(c, Affine(x3, ThirdY(c, l, p.x, p.y, x3)))
  {
    hide Cong, Cubic;
    var P, x1, y1 := c.P, p.x, p.y;
    var x3 := ThirdX(c, l, x1, x2);
    var y3 := ThirdY(c, l, x1, y1, x3);
    var a, m, S := x1 - x3, x1 + x2 + x3, x1 * x1 + x1 * x2 + x2 * x2 + c.A;
    var T := x1 * x1 + x1 * x3 + x3 * x3 + c.A;
    // l^2 is the sum of the abscissas
    CongMod(l * l - (x2 - x1) - 2 * x1, P);
    CongRefl(x1 + x2, P);
    CongAdd(x3, l * l - (x2 - x1) - 2 * x1, x1 + x2, x1 + x2, P);
    CongSym(m, l * l, P);
    // 2 l y1 = S - l^2 (x2 - x1)
    TwiceSlope(l, x2 - x1, y1, y2, S, m, P);
    // the bracket l^2 a - 2 l y1 + T vanishes
    CongRefl(a, P);
    CongMul(l * l, m, a, a, P);
    CongAdd((l * l) * a, m * a, 2 * (l * y1), S - m * (x2 - x1), P);
    CongRefl(T, P);
    CongAdd((l * l) * a - 2 * (l * y1), m * a - (S - m * (x2 - x1)), T, T, P);
    RingThird(m, l, x1, x2, x3, c.A);
    var bracket := (l * l) * a - 2 * (l * y1) + T;
    assert m * a - (S - m * (x2 - x1)) + T == 0;
    CongMul(a, a, bracket, 0, P);
    // y3^2 - Cubic(x3) = (y1^2 - Cubic(x1)) + a * bracket
    CongMod(l * a - y1, P);
    CongMul(y3, l * a - y1, y3, l * a - y1, P);
    CongAdd(y1 * y1, Cubic(c, x1), a * bracket, 0, P);
    CubicDifference(c, x3, x1);
    SquareLine(l, a, y1, T, c, x1, x3);
    CongRefl(T * a, P);
    CongAdd(y1 * y1 + a * bracket, Cubic(c, x1) + 0, T * a, T * a, P);
    CongTrans(y3 * y3, (l * a - y1) * (l * a - y1), Cubic(c, x3), P);
  }

  lemma TwiceSlope(l: int, d: int, y1: int, y2: int, S: int, m: int, p: nat)
    requires p > 0 && Cong(l * d, y2 - y1, p) && Cong(l * (y1 + y2), S, p) && Cong(l * l, m, p)
    ensures Cong(2 * (l * y1), S - m * d, p)
  {
    hide Cong;
    CongRefl(l, p);
    CongRefl(d, p);
    CongSym(l * d, y2 - y1, p);
    CongMul(l, l, y2 - y1, l * d, p);
    MulAssoc(l, l, d);
    CongMul(l * l, m, d, d, p);
    CongTrans(l * (y2 - y1), l * l * d, m * d, p);
    CongAdd(l * (y1 + y2), S, l * (y2 - y1), m * d, p);
    assert l * (y1 + y2) - l * (y2 - y1) == 2 * (l * y1);
  }

  lemma SquareLine(l: int, a: int, y: int, T: int, c: Params, x1: int, x3: int)
    requires T == x1 * x1 + x1 * x3 + x3 * x3 + c.A && a == x1 - x3
    ensures (l * a - y) * (l * a - y) == y * y + a * ((l * l) * a - 2 * (l * y) + T) - T * a
    ensures Cubic(c, x1) - T * a == Cubic(c, x3)
  {
    hide Cubic;
    CubicDifference(c, x3, x1);
    var u := l * a;
    SquareOf(u, y);
    Dist3(a, (l * l) * a, 2 * (l * y), T);
    assert u * u == a * ((l * l) * a) by {
      MulAssoc(l, a, u);
      MulAssoc(l, l, a);
      assert a * (l * u) == u * u;
      assert l * u == (l * l) * a;
    }
    assert a * (2 * (l * y)) == 2 * (u * y) by { MulAssoc(l, a, y); assert a * (l * y) == u * y; }
  }

  lemma SquareOf(u: int, y: int)
    ensures (u - y) * (u - y) == u * u - 2 * (u * y) + y * y
  {
  }

  lemma Dist3(a: int, p: int, q: int, t: int)
    ensures a * (p - q + t) == a * p - a * q + t * a
  {
  }

  /** The group law never leaves the curve. */
  lemma PlusOnCurve(c: Params, p: Point, q: Point)
    requires OddPrime(c.P) && OnCurve(c, p) && OnCurve(c, q)
    ensures OnCurve(c, Plus(c, p, q))
  {
    hide Cong, OddPrime, Slope, Cubic;
    if p.Affine? && q.Affine? && !(p.x == q.x && (p.y + q.y) % c.P == 0) {
      var l := Slope(c, p, q);
      if p.x == q.x {
        SameX(c, p, q);
        assert p.y != 0 by { if p.y == 0 { NoMod(0, c.P); assert false; } }
        TangentSlope(c, p);
        assert l * (q.x - p.x) == 0;
        CongRefl(0, c.P);
        assert p.x * p.x + p.x * q.x + q.x * q.x == 3 * (p.x * p.x);
      } else {
        ChordSlope(c, p, q);
        ChordSum(c, p, q, l);
      }
      ThirdOnCurve(c, p, q.x, q.y, l);
    }
  }

  lemma {:induction false} TimesOnCurve(c: Params, n: nat, p: Point)
    requires OddPrime(c.P) && OnCurve(c, p)
    ensures OnCurve(c, Times(c, n, p))
  {
    hide Plus, OddPrime, OnCurve;
    if n > 0 {
      TimesOnCurve(c, n - 1, p);
      PlusOnCurve(c, p, Times(c, n - 1, p));
    } else {
      InfinityOnCurve(c);
    }
  }

  lemma InfinityOnCurve(c: Params)
    requires OddPrime(c.P)
    ensures OnCurve(c, Infinity)
  {
  }

  // ---------- multiples ----------

  lemma PlusInfinity(c: Params, p: Point)
    requires c.P > 0
    ensures Plus(c, Infinity, p) == p && Plus(c, p, Infinity) == p
  {
  }

  lemma Assoc(c: Params, p: Point, q: Point, r: Point)
    requires c.P > 0 && Associative(c) && OnCurve(c, p) && OnCurve(c, q) && OnCurve(c, r)
    ensures Plus(c, Plus(c, p, q), r) == Plus(c, p, Plus(c, q, r))
  {
    hide Plus, OnCurve;
    assert AssociativeAt(c, p, q, r);
  }

  lemma {:induction false} TimesAdd(c: Params, n: nat, m: nat, p: Point)
    requires OddPrime(c.P) && Associative(c) && OnCurve(c, p)
    ensures Times(c, n + m, p) == Plus(c, Times(c, n, p), Times(c, m, p))
  {
    hide Plus, OddPrime, OnCurve, Associative;
    if n == 0 {
      PlusInfinity(c, Times(c, m, p));
    } else {
      TimesAdd(c, n - 1, m, p);
      TimesOnCurve(c, n - 1, p);
      TimesOnCurve(c, m, p);
      Assoc(c, p, Times(c, n - 1, p), Times(c, m, p));
    }
  }

  lemma {:induction false} TimesTimes(c: Params, n: nat, m: nat, p: Point)
    requires OddPrime(c.P) && Associative(c) && OnCurve(c, p)
    ensures Times(c, n, Times(c, m, p)) == Times(c, n * m, p)
  {
    hide Plus, OddPrime, OnCurve, Associative;
    if n > 0 {
      TimesTimes(c, n - 1, m, p);
      TimesAdd(c, m, (n - 1) * m, p);
      assert m + (n - 1) * m == n * m;
    }
  }

  lemma {:induction false} TimesInfinity(c: Params, n: nat)
    requires c.P > 0
    ensures Times(c, n, Infinity) == Infinity
  {
    if n > 0 { TimesInfinity(c, n - 1); }
  }

  /** Scalars count modulo the order: k and k' with the same remainder give the same multiple. */
  lemma TimesMod(c: Params, k: nat, p: Point)
    requires GroupLaw(c) && OnCurve(c, p)
    ensures Times(c, k % c.N, p) == Times(c, k, p)
  {
    hide GroupLaw, OnCurve, OddPrime, Plus, Associative, Times;
    DivMod(k, c.N);
    OrderKills(c, p);
    TimesRemainder(c, k / c.N, k % c.N, p);
  }

  lemma TimesRemainder(c: Params, q: nat, r: nat, p: Point)
    requires OddPrime(c.P) && Associative(c) && OnCurve(c, p) && Times(c, c.N, p) == Infinity
    ensures Times(c, q * c.N + r, p) == Times(c, r, p)
  {
    hide OnCurve, OddPrime, Plus, Associative, Times;
    TimesAdd(c, q * c.N, r, p);
    TimesTimes(c, q, c.N, p);
    TimesInfinity(c, q);
    PlusInfinity(c, Times(c, r, p));
  }

  lemma OrderKills(c: Params, p: Point)
    requires GroupLaw(c) && OnCurve(c, p)
    ensures Times(c, c.N, p) == Infinity
  {
    hide OddPrime, Plus, Associative, OnCurve, Times;
    assert IsMultiple(c, p);
    var k: nat :| k < c.N && p == Times(c, k, G(c));
    TimesTimes(c, c.N, k, G(c));
    TimesTimes(c, k, c.N, G(c));
    assert c.N * k == k * c.N;
    TimesInfinity(c, k);
  }

  lemma TimesCong(c: Params, k: nat, k': nat, p: Point)
    requires GroupLaw(c) && OnCurve(c, p) && Cong(k, k', c.N)
    ensures Times(c, k, p) == Times(c, k', p)
  {
    CongModEq(k, k', c.N);
    TimesMod(c, k, p);
    TimesMod(c, k', p);
  }

  /** Scalars as byte strings: leading zero bytes do not matter, nor does reduction by the order. */
  lemma ScalarBytes(c: Params, k: seq<byte>, k': seq<byte>, zeros: nat, p: Point)
    requires GroupLaw(c) && OnCurve(c, p)
    ensures Times(c, Value(Zeros(zeros) + k, 256), p) == Times(c, Value(k, 256), p)
    ensures Cong(Value(k, 256), Value(k', 256), c.N) ==> Times(c, Value(k, 256), p) == Times(c, Value(k', 256), p)
  {
    hide GroupLaw, Times, Value, Cong;
    ValueZeros(zeros, k, 256);
    if Cong(Value(k, 256), Value(k', 256), c.N) {
      TimesCong(c, Value(k, 256), Value(k', 256), p);
    }
  }

  // ---------- scalar multiplication ----------

  lemma PowSplit(bit: nat)
    requires bit < 8
    ensures Pow(2, bit) * Pow(2, 7 - bit) == 128
    ensures Pow(2, 8 - bit) == 2 * Pow(2, 7 - bit) && Pow(2, bit + 1) == 2 * Pow(2, bit)
  {
    PowAdd(2, bit, 7 - bit);
    PowersOfTwo();
  }

  lemma TopBit(low: nat, x: nat, y: nat)
    requires x * y == 128 && low < 2 * y && x >= 1 && y >= 1
    ensures low * x < 256
    ensures low * x >= 128 <==> low >= y
    ensures low >= y ==> (2 * (low * x)) % 256 == (low - y) * (2 * x)
    ensures low < y ==> (2 * (low * x)) % 256 == low * (2 * x)
  {
    MulGap(1, x);
    MulMono(low + 1, 2 * y, x);
    if low >= y {
      MulMono(y, low, x);
      assert (low - y) * (2 * x) == 2 * (low * x) - 256;
    } else {
      MulMono(low + 1, y, x);
    }
  }

  /** State of the bit loop: `b` holds the bits `low` still to come, shifted to the top. */
  ghost predicate BitsLeft(n: nat, low: nat, bit: nat, b: int, total: nat)
  {
    && bit <= 8
    && b == low * Pow(2, bit) && low < Pow(2, 8 - bit)
    && n * Pow(2, 8 - bit) + low == total
  }

  lemma BitTurn(n: nat, low: nat, bit: nat, b: int, total: nat) returns (low': nat)
    requires bit < 8 && BitsLeft(n, low, bit, b, total)
    ensures 0 <= b < 256
    ensures BitsLeft(if b >= 128 then n + n + 1 else n + n, low', bit + 1, (2 * b) % 256, total)
  {
    hide Pow;
    PowSplit(bit);
    TopBit(low, Pow(2, bit), Pow(2, 7 - bit));
    low' := if b >= 128 then low - Pow(2, 7 - bit) else low;
    Doubled(n, if b >= 128 then n + n + 1 else n + n, Pow(2, 7 - bit));
  }

  lemma BitsStart(n: nat, b: byte)
    ensures BitsLeft(n, b, 0, b, n * 256 + b)
  {
    PowersOfTwo();
  }

  lemma BitsDone(n: nat, low: nat, b: int, total: nat)
    requires BitsLeft(n, low, 8, b, total)
    ensures n == total
  {
    PowersOfTwo();
  }

  /** Double-and-add over the bits of `k`, most significant first, is the multiple by the number `k` writes. */
  method ScalarMult(c: Params, Bx: int, By: int, k: seq<byte>) returns (xOut: int, yOut: int)
    requires OddPrime(c.P) && Associative(c) && OnCurve(c, Affine(Bx, By))
    ensures Pair(xOut, yOut, Times(c, Value(k, 256), Affine(Bx, By)))
  {
    hide Plus, OddPrime, Associative, OnCurve, Represents, Times, BitsLeft;
    var Bz := 1;
    var x, y, z := 0, 0, 0;
    ghost var B, n: nat := Affine(Bx, By), 0;
    BaseRepresents(c, Bx, By);
    var i := 0;
    assert k[..0] == [];
    while i < |k|
      invariant 0 <= i <= |k| && n == Value(k[..i], 256)
      invariant Represents(c, x, y, z, Times(c, n, B))
    {
      ghost var total := Value(k[..i + 1], 256);
      assert k[..i + 1][..i] == k[..i];
      var b: int, bitNum := k[i], 0;
      ghost var low: nat := b;
      BitsStart(n, k[i]);
      while bitNum < 8
        invariant 0 <= bitNum <= 8
        invariant BitsLeft(n, low, bitNum, b, total)
        invariant Represents(c, x, y, z, Times(c, n, B))
      {
        low := BitTurn(n, low, bitNum, b, total);
        x, y, z := BitOfScalar(c, Bx, By, Bz, x, y, z, b >= 0x80, n);
        n := if b >= 0x80 then n + n + 1 else n + n;
        b := (2 * b) % 256;
        bitNum := bitNum + 1;
      }
      BitsDone(n, low, b, total);
      i := i + 1;
    }
    assert k[..|k|] == k;
    TimesOnCurve(c, n, B);
    CurveRange(c, Times(c, n, B));
    xOut, yOut := AffineFromJacobian(c, x, y, z, Times(c, n, B));
  }

  /** The body of the bit loop: double, then add the base point if the bit is set. */
  method BitOfScalar(c: Params, Bx: int, By: int, Bz: int, x: int, y: int, z: int, bit: bool, ghost n: nat)
      returns (x': int, y': int, z': int)
    requires OddPrime(c.P) && Associative(c) && OnCurve(c, Affine(Bx, By))
    requires Represents(c, Bx, By, Bz, Affine(Bx, By))
    requires Represents(c, x, y, z, Times(c, n, Affine(Bx, By)))
    ensures Represents(c, x', y', z', Times(c, if bit then n + n + 1 else n + n, Affine(Bx, By)))
  {
    hide Plus, OddPrime, Associative, OnCurve, Represents;
    ghost var B := Affine(Bx, By);
    TimesOnCurve(c, n, B);
    CurveRange(c, Times(c, n, B));
    x', y', z' := DoubleJacobian(c, x, y, z, Times(c, n, B));
    TimesAdd(c, n, n, B);
    if bit {
      TimesOnCurve(c, n + n, B);
      x', y', z' := AddJacobian(c, Bx, By, Bz, x', y', z', B, Times(c, n + n, B));
    }
  }

  lemma BaseRepresents(c: Params, x: int, y: int)
    requires OddPrime(c.P) && OnCurve(c, Affine(x, y))
    ensures Represents(c, x, y, 1, Affine(x, y)) && Represents(c, 0, 0, 0, Times(c, 0, Affine(x, y)))
  {
    CongRefl(x, c.P);
    CongRefl(y, c.P);
  }

  lemma CurveRange(c: Params, p: Point)
    requires c.P > 0 && OnCurve(c, p)
    ensures InRange(c, p)
  {
  }

  lemma Doubled(n: nat, n': nat, k: nat)
    requires n' == n + n || n' == n + n + 1
    ensures n' * k == n * (2 * k) + (if n' == n + n then 0 else k)
  {
  }

  /** `Add` on affine pairs. */
  method AddPoints(c: Params, x1: int, y1: int, x2: int, y2: int, ghost p: Point, ghost q: Point)
      returns (x: int, y: int)
    requires OddPrime(c.P) && c.B % c.P != 0 && OnCurve(c, p) && OnCurve(c, q)
    requires Pair(x1, y1, p) && Pair(x2, y2, q)
    ensures Pair(x, y, Plus(c, p, q))
  {
    var z1 := ZForAffine(c, x1, y1, p);
    var z2 := ZForAffine(c, x2, y2, q);
    var X, Y, Z := AddJacobian(c, x1, y1, z1, x2, y2, z2, p, q);
    PlusOnCurve(c, p, q);
    x, y := AffineFromJacobian(c, X, Y, Z, Plus(c, p, q));
  }

  method ZForAffine(c: Params, x: int, y: int, ghost p: Point) returns (z: int)
    requires OddPrime(c.P) && c.B % c.P != 0 && OnCurve(c, p) && Pair(x, y, p)
    ensures Represents(c, x, y, z, p)
  {
    z := 0;
    OriginOff(c, p);
    CongRefl(x, c.P);
    CongRefl(y, c.P);
    if x != 0 || y != 0 {
      z := 1;
    }
  }

  /** The origin is not on the curve, so it can stand for infinity. */
  lemma OriginOff(c: Params, p: Point)
    requires OddPrime(c.P) && c.B % c.P != 0 && OnCurve(c, p)
    ensures p != Affine(0, 0)
  {
    if p == Affine(0, 0) {
      assert Cubic(c, 0) == c.B;
      CongModEq(0, c.B, c.P);
      NoMod(0, c.P);
    }
  }
}
