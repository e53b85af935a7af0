/**
 A curve on which everything assumed of a curve holds: y^2 = x^3 + 7 over the field of 13 elements, whose seven
 points are the multiples of (7, 5). Two of its three abscissas are not below the order of the group.
 */
module SmallCurve {
  import opened Radix
  import opened Field
  import opened Curve
  import opened Jacobian
  import opened Group
  import Ecdsa
  import Recover
  import Bip32

  const C := Params(13, 0, 7, 7, 7, 5, 256)

  /** The multiples of (7, 5) in order. */
  function Pt(i: nat): Point
    requires i < 7
  {
    match i
    case 0 => Infinity
    case 1 => Affine(7, 5)
    case 2 => Affine(8, 5)
    case 3 => Affine(11, 8)
    case 4 => Affine(11, 5)
    case 5 => Affine(8, 8)
    case _ => Affine(7, 8)
  }

  // ---------- inverses ----------

  lemma InverseBy(a: int, b: nat, p: nat)
    requires p > 1 && b < p && ((a % p) * b) % p == 1
    ensures IsInverse(a, b, p) && Invertible(a, p)
  {
    hide Cong;
    CongMod(a, p);
    CongRefl(b, p);
    CongMul(a % p, a, b, b, p);
    CongModEq((a % p) * b, a * b, p);
  }

  function Inverse13(r: nat): nat
  {
    match r
    case 1 => 1
    case 2 => 7
    case 3 => 9
    case 4 => 10
    case 5 => 8
    case 6 => 11
    case 7 => 2
    case 8 => 5
    case 9 => 3
    case 10 => 4
    case 11 => 6
    case _ => 12
  }

  lemma Prime13()
    ensures OddPrime(13)
  {
    hide Invertible;
    forall a: int | a % 13 != 0 ensures Invertible(a, 13) {
      InverseBy(a, Inverse13(a % 13), 13);
    }
  }

  function Inverse7(r: nat): nat
  {
    match r
    case 1 => 1
    case 2 => 4
    case 3 => 5
    case 4 => 2
    case 5 => 3
    case _ => 6
  }

  lemma Prime7()
    ensures OddPrime(7)
  {
    hide Invertible;
    forall a: int | a % 7 != 0 ensures Invertible(a, 7) {
      InverseBy(a, Inverse7(a % 7), 7);
    }
  }

  lemma InvIs(a: int, b: nat)
    requires a % 13 != 0 && b < 13 && (a * b) % 13 == 1
    ensures Inv(a, 13) == b
  {
    hide Cong, OddPrime;
    Prime13();
    assert IsInverse(a, b, 13);
    var b' := Inv(a, 13);
    InverseCong(a, b, 13);
    InverseCong(a, b', 13);
    CongSym(a * b', 1, 13);
    CongTrans(a * b, 1, a * b', 13);
    Cancel(b, b', a, 13);
    CongEq(b, b', 13);
  }

  // ---------- the group ----------

  lemma Chord(x1: int, y1: int, x2: int, y2: int, inv: nat, x3: int, y3: int)
    requires (x2 - x1) % 13 != 0 && inv < 13 && ((x2 - x1) * inv) % 13 == 1
    requires var l := (y2 - y1) * inv;
             x3 == (l * l - (x2 - x1) - 2 * x1) % 13 && y3 == (l * (x1 - x3) - y1) % 13
    ensures Plus(C, Affine(x1, y1), Affine(x2, y2)) == Affine(x3, y3)
  {
    hide Inv;
    InvIs(x2 - x1, inv);
  }

  lemma Tangent(x: int, y: int, inv: nat, x3: int, y3: int)
    requires (2 * y) % 13 != 0 && inv < 13 && (2 * y * inv) % 13 == 1
    requires var l := 3 * (x * x) * inv;
             x3 == (l * l - 2 * x) % 13 && y3 == (l * (x - x3) - y) % 13
    ensures Plus(C, Affine(x, y), Affine(x, y)) == Affine(x3, y3)
  {
    hide Inv;
    InvIs(2 * y, inv);
  }

  lemma Opposite(p: Point, q: Point)
    requires p.Affine? && q.Affine? && p.x == q.x && p.y + q.y == 13
    ensures Plus(C, p, q) == Infinity
  {
  }

  lemma Row1()
    ensures Plus(C, Pt(1), Pt(0)) == Pt(1) && Plus(C, Pt(1), Pt(1)) == Pt(2) && Plus(C, Pt(1), Pt(2)) == Pt(3)
    ensures Plus(C, Pt(1), Pt(3)) == Pt(4) && Plus(C, Pt(1), Pt(4)) == Pt(5)
    ensures Plus(C, Pt(1), Pt(5)) == Pt(6) && Plus(C, Pt(1), Pt(6)) == Pt(0)
  {
    hide Plus;
    PlusInfinity(C, Pt(1));
    Tangent(7, 5, 4, 8, 5);
    Chord(7, 5, 8, 5, 1, 11, 8);
    Chord(7, 5, 11, 8, 10, 11, 5);
    Chord(7, 5, 11, 5, 10, 8, 8);
    Chord(7, 5, 8, 8, 1, 7, 8);
    Opposite(Pt(1), Pt(6));
  }

  lemma Row2()
    ensures Plus(C, Pt(2), Pt(0)) == Pt(2) && Plus(C, Pt(2), Pt(1)) == Pt(3) && Plus(C, Pt(2), Pt(2)) == Pt(4)
    ensures Plus(C, Pt(2), Pt(3)) == Pt(5) && Plus(C, Pt(2), Pt(4)) == Pt(6)
    ensures Plus(C, Pt(2), Pt(5)) == Pt(0) && Plus(C, Pt(2), Pt(6)) == Pt(1)
  {
    hide Plus;
    PlusInfinity(C, Pt(2));
    Chord(8, 5, 7, 5, 12, 11, 8);
    Tangent(8, 5, 4, 11, 5);
    Chord(8, 5, 11, 8, 9, 8, 8);
    Chord(8, 5, 11, 5, 9, 7, 8);
    Opposite(Pt(2), Pt(5));
    Chord(8, 5, 7, 8, 12, 7, 5);
  }

  lemma Row3()
    ensures Plus(C, Pt(3), Pt(0)) == Pt(3) && Plus(C, Pt(3), Pt(1)) == Pt(4) && Plus(C, Pt(3), Pt(2)) == Pt(5)
    ensures Plus(C, Pt(3), Pt(3)) == Pt(6) && Plus(C, Pt(3), Pt(4)) == Pt(0)
    ensures Plus(C, Pt(3), Pt(5)) == Pt(1) && Plus(C, Pt(3), Pt(6)) == Pt(2)
  {
    hide Plus;
    PlusInfinity(C, Pt(3));
    Chord(11, 8, 7, 5, 3, 11, 5);
    Chord(11, 8, 8, 5, 4, 8, 8);
    Tangent(11, 8, 9, 7, 8);
    Opposite(Pt(3), Pt(4));
    Chord(11, 8, 8, 8, 4, 7, 5);
    Chord(11, 8, 7, 8, 3, 8, 5);
  }

  lemma Row4()
    ensures Plus(C, Pt(4), Pt(0)) == Pt(4) && Plus(C, Pt(4), Pt(1)) == Pt(5) && Plus(C, Pt(4), Pt(2)) == Pt(6)
    ensures Plus(C, Pt(4), Pt(3)) == Pt(0) && Plus(C, Pt(4), Pt(4)) == Pt(1)
    ensures Plus(C, Pt(4), Pt(5)) == Pt(2) && Plus(C, Pt(4), Pt(6)) == Pt(3)
  {
    hide Plus;
    PlusInfinity(C, Pt(4));
    Chord(11, 5, 7, 5, 3, 8, 8);
    Chord(11, 5, 8, 5, 4, 7, 8);
    Opposite(Pt(4), Pt(3));
    Tangent(11, 5, 4, 7, 5);
    Chord(11, 5, 8, 8, 4, 8, 5);
    Chord(11, 5, 7, 8, 3, 11, 8);
  }

  lemma Row5()
    ensures Plus(C, Pt(5), Pt(0)) == Pt(5) && Plus(C, Pt(5), Pt(1)) == Pt(6) && Plus(C, Pt(5), Pt(2)) == Pt(0)
    ensures Plus(C, Pt(5), Pt(3)) == Pt(1) && Plus(C, Pt(5), Pt(4)) == Pt(2)
    ensures Plus(C, Pt(5), Pt(5)) == Pt(3) && Plus(C, Pt(5), Pt(6)) == Pt(4)
  {
    hide Plus;
    PlusInfinity(C, Pt(5));
    Chord(8, 8, 7, 5, 12, 7, 8);
    Opposite(Pt(5), Pt(2));
    Chord(8, 8, 11, 8, 9, 7, 5);
    Chord(8, 8, 11, 5, 9, 8, 5);
    Tangent(8, 8, 9, 11, 8);
    Chord(8, 8, 7, 8, 12, 11, 5);
  }

  lemma Row6()
    ensures Plus(C, Pt(6), Pt(0)) == Pt(6) && Plus(C, Pt(6), Pt(1)) == Pt(0) && Plus(C, Pt(6), Pt(2)) == Pt(1)
    ensures Plus(C, Pt(6), Pt(3)) == Pt(2) && Plus(C, Pt(6), Pt(4)) == Pt(3)
    ensures Plus(C, Pt(6), Pt(5)) == Pt(4) && Plus(C, Pt(6), Pt(6)) == Pt(5)
  {
    hide Plus;
    PlusInfinity(C, Pt(6));
    Opposite(Pt(6), Pt(1));
    Chord(7, 8, 8, 5, 1, 7, 5);
    Chord(7, 8, 11, 8, 10, 8, 5);
    Chord(7, 8, 11, 5, 10, 11, 8);
    Chord(7, 8, 8, 8, 1, 11, 5);
    Tangent(7, 8, 9, 8, 8);
  }

  /** Addition modulo 7. */
  function Add(i: nat, j: nat): nat
    requires i < 7 && j < 7
    ensures Add(i, j) < 7
  {
    if i + j < 7 then i + j else i + j - 7
  }

  /** Addition of points is addition of their indices. */
  lemma PlusIs(i: nat, j: nat)
    requires i < 7 && j < 7
    ensures Plus(C, Pt(i), Pt(j)) == Pt(Add(i, j))
  {
    hide Plus;
    match i
    case 0 => PlusInfinity(C, Pt(j));
    case 1 => Row1();
    case 2 => Row2();
    case 3 => Row3();
    case 4 => Row4();
    case 5 => Row5();
    case _ => Row6();
  }

  lemma Squares(y: nat)
    requires y < 13
    ensures (y * y) % 13 == 12 <==> y == 5 || y == 8
    ensures (y * y) % 13 in {0, 1, 3, 4, 9, 10, 12}
  {
  }

  /** Quotient and remainder of x^3 + 7 by 13. */
  function CubicParts(x: nat): (nat, nat)
    requires x < 13
  {
    match x
    case 0 => (0, 7)
    case 1 => (0, 8)
    case 2 => (1, 2)
    case 3 => (2, 8)
    case 4 => (5, 6)
    case 5 => (10, 2)
    case 6 => (17, 2)
    case 7 => (26, 12)
    case 8 => (39, 12)
    case 9 => (56, 8)
    case 10 => (77, 6)
    case 11 => (102, 12)
    case _ => (133, 6)
  }

  lemma Cubics(x: nat)
    requires x < 13
    ensures Cubic(C, x) % 13 == CubicParts(x).1
  {
    CubicIs(x);
    hide CubicParts, Cubic;
    DivModUnique(CubicParts(x).0, CubicParts(x).1, 13);
  }

  lemma CubicIs(x: nat)
    requires x < 13
    ensures Cubic(C, x) == CubicParts(x).0 * 13 + CubicParts(x).1 && CubicParts(x).1 < 13
  {
  }

  /** The curve has no other points. */
  lemma IndexOf(p: Point) returns (i: nat)
    requires OnCurve(C, p)
    ensures i < 7 && p == Pt(i)
  {
    if p.Infinity? {
      return 0;
    }
    CongModEq(p.y * p.y, Cubic(C, p.x), 13);
    Squares(p.y);
    Cubics(p.x);
    i := match p.x case 7 => (if p.y == 5 then 1 else 6)
                   case 8 => (if p.y == 5 then 2 else 5)
                   case _ => (if p.y == 8 then 3 else 4);
  }

  lemma {:induction false} TimesIs(k: nat)
    ensures Times(C, k, G(C)) == Pt(k % 7)
  {
    hide Plus;
    if k > 0 {
      TimesIs(k - 1);
      PlusIs(1, (k - 1) % 7);
    }
  }

  lemma AssociativeIndices(i: nat, j: nat, k: nat)
    requires i < 7 && j < 7 && k < 7
    ensures AssociativeAt(C, Pt(i), Pt(j), Pt(k))
  {
    hide Plus, Pt;
    PlusIs(i, j);
    PlusIs(Add(i, j), k);
    PlusIs(j, k);
    PlusIs(i, Add(j, k));
  }

  lemma IsAssociative()
    ensures Associative(C)
  {
    hide Plus, OnCurve, Pt, AssociativeAt;
    forall p, q, r | OnCurve(C, p) && OnCurve(C, q) && OnCurve(C, r) ensures AssociativeAt(C, p, q, r) {
      var i := IndexOf(p);
      var j := IndexOf(q);
      var k := IndexOf(r);
      AssociativeIndices(i, j, k);
    }
  }

  lemma IsGenerated()
    ensures Generates(C)
  {
    hide Times, OnCurve;
    TimesIs(7);
    forall k: nat | 0 < k < 7 ensures NotNull(C, k) {
      TimesIs(k);
    }
    forall p | OnCurve(C, p) ensures IsMultiple(C, p) {
      var i := IndexOf(p);
      TimesIs(i);
    }
  }

  /** All that is assumed of a curve anywhere holds of this one. */
  lemma Assumptions()
    ensures GroupLaw(C) && Recover.Sized(C) && Bip32.Curve256(C)
    ensures C.N <= C.P && Recover.RSize(C) == 32 && C.P <= Pow(256, Recover.RSize(C))
  {
    hide Associative, Generates, OddPrime, Pow;
    Prime13();
    Prime7();
    IsAssociative();
    IsGenerated();
    PowMono(256, 1, 32);
    PowOne();
  }

  lemma PowOne()
    ensures Pow(256, 1) == 256
  {
    assert Pow(256, 0) == 1;
  }

  /** Extended keys, private and public. */
  lemma SomeKeys(k: nat)
    requires 0 < k < 7
    ensures var bytes := Pad(Bytes(k), 32);
            var key := Bip32.Key(bytes, Bip32.PRIVATE_VERSION, Zeros(4), Zeros(4), Zeros(32), 0, true);
            Bip32.WellFormed(C, key) && Bip32.WellFormed(C, Bip32.Neuter(C, key))
  {
    hide GroupLaw, Times, Pow, Value, Bip32.Curve256;
    Assumptions();
    Bip32.ChildKeySize(C, k);
    Bip32.PubBytesCompressed(C, Pad(Bytes(k), 32));
  }

  // ---------- an abscissa that is not below the order ----------

  lemma HighPoint()
    ensures GroupLaw(C) && Recover.Abscissa(C, 2) == 8 > C.N
  {
    hide GroupLaw, Times, OnCurve, Pow;
    Assumptions();
    TimesIs(2);
  }

  /** The RFC 6979 signer makes 65 bytes that are no signature: its first candidate, 2, gives the abscissa 8. */
  method NoSignature(hash: seq<byte>) returns (d: nat, sig: seq<byte>)
    ensures 0 < d < C.N && |sig| == 65 && !Recover.IsSignature(C, d, hash, sig)
  {
    hide GroupLaw, Times, Recover.Abscissa, Recover.Sized, Recover.RSize, Pow, Recover.IsSignature, Ecdsa.HashToInt;
    Assumptions();
    HighPoint();
    var e := Ecdsa.HashToInt(C, hash);
    d := if (e + 8) % 7 != 0 then 1 else 2;
    CongZero(e + d * 8, 7);
    assert [2][0] == 2;
    var res := Recover.SignRfc6979Bytes(C, d, hash, [2]);
    sig := res.value;
  }
}
