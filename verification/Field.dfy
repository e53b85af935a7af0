/** Integers modulo a prime, as math/big leaves them: congruence, inverses and square roots. */
module Field {
  import opened Radix

  ghost predicate Cong(a: int, b: int, p: nat)
    requires p > 0
  {
    (a - b) % p == 0
  }

  ghost predicate IsInverse(a: int, b: int, p: nat)
    requires p > 0
  {
    0 <= b < p && (a * b) % p == 1
  }

  ghost predicate Invertible(a: int, p: nat)
    requires p > 0
  {
    exists b :: IsInverse(a, b, p)
  }

  /** What is assumed of a prime modulus: it is odd and everything but zero has an inverse. */
  ghost predicate OddPrime(p: nat)
    ensures OddPrime(p) ==> p > 3
  {
    p > 3 && p % 2 == 1 && forall a: int {:trigger Invertible(a, p)} :: a % p != 0 ==> Invertible(a, p)
  }

  // ---------- congruence ----------

  lemma Multiple(m: int, p: nat)
    requires p > 0
    ensures (m * p) % p == 0
  {
    var n := m * p;
    assert n == (n / p) * p + n % p;
    assert (m - n / p) * p == n % p;
    MulGap(m - n / p, p);
  }

  lemma CongBy(a: int, b: int, k: int, p: nat)
    requires p > 0 && a - b == k * p
    ensures Cong(a, b, p)
  {
    Multiple(k, p);
  }

  ghost function Quotient(a: int, b: int, p: nat): (k: int)
    requires p > 0 && Cong(a, b, p)
    ensures a - b == k * p
  {
    (a - b) / p
  }

  lemma CongRefl(a: int, p: nat)
    requires p > 0
    ensures Cong(a, a, p)
  {
  }

  lemma CongSym(a: int, b: int, p: nat)
    requires p > 0 && Cong(a, b, p)
    ensures Cong(b, a, p)
  {
    var k := Quotient(a, b, p);
    CongBy(b, a, -k, p);
  }

  lemma CongTrans(a: int, b: int, c: int, p: nat)
    requires p > 0 && Cong(a, b, p) && Cong(b, c, p)
    ensures Cong(a, c, p)
  {
    var k, l := Quotient(a, b, p), Quotient(b, c, p);
    CongBy(a, c, k + l, p);
  }

  lemma CongAdd(a: int, a': int, b: int, b': int, p: nat)
    requires p > 0 && Cong(a, a', p) && Cong(b, b', p)
    ensures Cong(a + b, a' + b', p) && Cong(a - b, a' - b', p)
  {
    var k, l := Quotient(a, a', p), Quotient(b, b', p);
    CongBy(a + b, a' + b', k + l, p);
    CongBy(a - b, a' - b', k - l, p);
  }

  lemma CongMul(a: int, a': int, b: int, b': int, p: nat)
    requires p > 0 && Cong(a, a', p) && Cong(b, b', p)
    ensures Cong(a * b, a' * b', p)
  {
    var k, l := Quotient(a, a', p), Quotient(b, b', p);
    MulSplit(a, a', b, b', k, l, p);
    CongBy(a * b, a' * b', k * b + a' * l, p);
  }

  lemma MulSplit(a: int, a': int, b: int, b': int, k: int, l: int, p: nat)
    requires a - a' == k * p && b - b' == l * p
    ensures a * b - a' * b' == (k * b + a' * l) * p
  {
    assert a * b - a' * b' == (a - a') * b + a' * (b - b');
    assert (k * p) * b == (k * b) * p;
    assert a' * (l * p) == (a' * l) * p;
  }

  lemma CongMod(a: int, p: nat)
    requires p > 0
    ensures Cong(a % p, a, p) && 0 <= a % p < p
  {
    CongBy(a % p, a, -(a / p), p);
  }

  /** Two representatives in range are equal. */
  lemma CongEq(a: int, b: int, p: nat)
    requires p > 0 && Cong(a, b, p) && 0 <= a < p && 0 <= b < p
    ensures a == b
  {
    var k := Quotient(a, b, p);
    MulGap(k, p);
  }

  lemma CongZero(a: int, p: nat)
    requires p > 0
    ensures Cong(a, 0, p) <==> a % p == 0
  {
  }

  lemma CongModEq(a: int, b: int, p: nat)
    requires p > 0
    ensures Cong(a, b, p) <==> a % p == b % p
  {
    CongMod(a, p);
    CongMod(b, p);
    if Cong(a, b, p) {
      CongSym(b % p, b, p);
      CongTrans(a % p, a, b, p);
      CongTrans(a % p, b, b % p, p);
      CongEq(a % p, b % p, p);
    }
    if a % p == b % p {
      CongSym(a % p, a, p);
      CongTrans(a, a % p, b, p);
    }
  }

  // ---------- inverses ----------

  ghost function Inv(a: int, p: nat): (b: int)
    requires p > 0
    ensures Invertible(a, p) ==> IsInverse(a, b, p)
  {
    if Invertible(a, p) then
      var b :| IsInverse(a, b, p);
      b
    else 0
  }

  /** math/big's ModInverse. */
  method ModInverse(a: int, p: nat) returns (b: int)
    requires p > 0 && Invertible(a, p)
    ensures IsInverse(a, b, p)
  {
    b :| 0 <= b < p && (a * b) % p == 1;
  }

  lemma InverseCong(a: int, b: int, p: nat)
    requires p > 1 && IsInverse(a, b, p)
    ensures Cong(a * b, 1, p)
  {
    CongMod(a * b, p);
    CongSym((a * b) % p, a * b, p);
  }

  /** A factor that is not zero can be cancelled. */
  lemma Cancel(a: int, b: int, c: int, p: nat)
    requires OddPrime(p) && c % p != 0 && Cong(a * c, b * c, p)
    ensures Cong(a, b, p)
  {
    hide Cong;
    assert Invertible(c, p);
    var i := Inv(c, p);
    InverseCong(c, i, p);
    CongRefl(i, p);
    CongMul(a * c, b * c, i, i, p);
    CancelOne(a, c, i, p);
    CancelOne(b, c, i, p);
    CongSym(a * c * i, a, p);
    CongTrans(a, a * c * i, b * c * i, p);
    CongTrans(a, b * c * i, b, p);
  }

  lemma CancelOne(a: int, c: int, i: int, p: nat)
    requires p > 0 && Cong(c * i, 1, p)
    ensures Cong(a * c * i, a, p)
  {
    hide Cong;
    CongRefl(a, p);
    CongMul(a, a, c * i, 1, p);
    MulAssoc(a, c, i);
  }

  /** There are no zero divisors. */
  lemma ZeroProduct(a: int, b: int, p: nat)
    requires OddPrime(p) && Cong(a * b, 0, p)
    ensures Cong(a, 0, p) || Cong(b, 0, p)
  {
    CongZero(b, p);
    if b % p != 0 {
      assert 0 * b == 0;
      Cancel(a, 0, b, p);
    }
  }

  // ---------- square roots ----------

  /** math/big's ModSqrt: some root if there is one. */
  method ModSqrt(a: int, p: nat) returns (found: bool, y: int)
    requires p > 0
    ensures found ==> 0 <= y < p && (y * y) % p == a % p
    ensures !found ==> forall z :: 0 <= z < p ==> (z * z) % p != a % p
  {
    found, y := false, 0;
    if z :| 0 <= z < p && (z * z) % p == a % p {
      found, y := true, z;
    }
  }

  lemma DiffSquares(y: int, z: int)
    ensures (y - z) * (y + z) == y * y - z * z
  {
  }

  lemma SmallMultiple(n: int, p: nat)
    requires p > 0 && Cong(n, 0, p) && -(p as int) < n < 2 * p
    ensures n == 0 || n == p
  {
    hide Cong;
    var l := Quotient(n, 0, p);
    MulGap(l, p);
    MulGap(l - 1, p);
    assert (l - 1) * p == n - p;
  }

  /** Two roots of one number are equal or opposite. */
  lemma RootsOpposite(y: int, z: int, p: nat)
    requires OddPrime(p) && 0 <= y < p && 0 <= z < p && Cong(y * y, z * z, p)
    ensures y == z || y + z == p
  {
    hide Cong;
    DiffSquares(y, z);
    CongRefl(z * z, p);
    CongAdd(y * y, z * z, z * z, z * z, p);
    ZeroProduct(y - z, y + z, p);
    if Cong(y - z, 0, p) {
      SmallMultiple(y - z, p);
    } else {
      SmallMultiple(y + z, p);
    }
  }
}
