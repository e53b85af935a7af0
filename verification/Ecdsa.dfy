/**
 Signing, verification and public key recovery of crypto/secp256k1, and the RFC 6979 signer of
 crypto/signecdsa.go. The nonces a signer tries are a parameter.
 */
module Ecdsa {
  import opened Wrappers
  import opened Radix
  import opened Field
  import opened Curve
  import opened Jacobian
  import opened Group

  datatype Error = WrongSize | BadRecoveryId | ZeroParam | ExceedsOrder | NotOnCurve | InvalidKey

  datatype Signature = Signature(r: nat, s: nat, v: nat)

  /** The leftmost bits of a hash, as many as the order has. */
  function HashToInt(c: Params, hash: seq<byte>): nat
  {
    var orderBits := BitLen(c.N);
    var orderBytes := (orderBits + 7) / 8;
    var h := if |hash| > orderBytes then hash[..orderBytes] else hash;
    var excess := |h| * 8 - orderBits;
    if excess > 0 then Value(h, 256) / Pow(2, excess) else Value(h, 256)
  }

  /** Every hash gives its leftmost bits: the whole number shifted right by the bits that the order lacks. */
  lemma LeftmostBits(c: Params, hash: seq<byte>)
    ensures HashToInt(c, hash) ==
            var bits := BitLen(c.N);
            if 8 * |hash| > bits then Value(hash, 256) / Pow(2, 8 * |hash| - bits) else Value(hash, 256)
  {
    hide Value, Digits, Pow;
    var bits := BitLen(c.N);
    var k := (bits + 7) / 8;
    if |hash| > k {
      var t := |hash| - k;
      assert hash == hash[..k] + hash[k..];
      ValueConcat(hash[..k], hash[k..], 256);
      ValueBound(hash[k..], 256);
      DropBytes(Value(hash[..k], 256), Value(hash[k..], 256), t, 8 * k - bits);
    }
  }

  /** Dropping `t` bytes and then `e` bits is dropping all of them. */
  lemma DropBytes(v: nat, w: nat, t: nat, e: nat)
    requires w < Pow(256, t)
    ensures (v * Pow(256, t) + w) / Pow(2, 8 * t + e) == v / Pow(2, e)
    ensures Pow(2, 0) == 1 && v / Pow(2, 0) == v
  {
    PowersOfTwo();
    PowBits(t);
    PowAdd(2, 8 * t, e);
    hide Pow;
    DivDivBy(v * Pow(256, t) + w, Pow(256, t), Pow(2, e));
    DivModUnique(v, w, Pow(256, t));
  }

  /** No two hashes of one length that fit the order give the same number. */
  lemma HashInjective(c: Params, a: seq<byte>, b: seq<byte>)
    requires |a| == |b| && 8 * |a| <= BitLen(c.N) && HashToInt(c, a) == HashToInt(c, b)
    ensures a == b
  {
    hide HashToInt, Value;
    LeftmostBits(c, a);
    LeftmostBits(c, b);
    ValueInjective(a, b, 256);
  }

  /** The source's `v ^ 1`. */
  function FlipBit(v: nat): nat { if v % 2 == 0 then v + 1 else v - 1 }

  /** `sig` is a signature of the number `e` under key `d` made with nonce `k`: with (x, y) = k G,
      r = x mod N, s k = e + d r mod N, and v says whether x exceeds N and whether y is odd. */
  ghost predicate SignedBy(c: Params, d: nat, e: nat, k: nat, sig: Signature)
    requires c.P > 0 && c.N > 0
  {
    && 0 < k < c.N
    && var R := Times(c, k, G(c));
       && R.Affine?
       && sig.r == R.x % c.N && 0 < sig.r
       && sig.v == (if R.x > c.N then 2 else 0) + R.y % 2
       && 0 < sig.s < c.N && Cong(sig.s * k, e + d * sig.r, c.N)
  }

  // ---------- opposite points ----------

  /** No point of the curve has ordinate zero: the order of the group is odd. */
  lemma NoOrderTwo(c: Params, p: Point)
    requires GroupLaw(c) && OnCurve(c, p) && p.Affine?
    ensures p.y != 0
  {
    hide OddPrime, Associative, Cubic, Cong, Times;
    if p.y == 0 {
      assert Plus(c, p, p) == Infinity by { NoMod(0, c.P); }
      hide Plus, OnCurve;
      assert IsMultiple(c, p);
      var k: nat :| k < c.N && p == Times(c, k, G(c));
      TimesAdd(c, k, k, G(c));
      TimesMod(c, k + k, G(c));
      TimesZero(c, G(c));
      assert !NotNull(c, (k + k) % c.N);
      OddOrder(k, c.N);
      assert false;
    }
  }

  lemma TimesZero(c: Params, p: Point)
    requires c.P > 0
    ensures Times(c, 0, p) == Infinity
  {
  }

  lemma OddOrder(k: nat, n: nat)
    requires OddPrime(n) && 0 < k < n
    ensures 0 < (k + k) % n < n
  {
    OddDouble(k, n);
  }

  /** Multiplying by N - k instead of k reflects the point. */
  lemma OppositeMultiple(c: Params, k: nat)
    requires GroupLaw(c) && 0 < k < c.N
    ensures var R, S := Times(c, k, G(c)), Times(c, c.N - k, G(c));
            R.Affine? && 0 < R.y < c.P && S == Affine(R.x, c.P - R.y)
  {
    hide OddPrime, Associative, Cubic, Cong, Times, Plus;
    var R, S := Times(c, k, G(c)), Times(c, c.N - k, G(c));
    assert NotNull(c, k);
    TimesOnCurve(c, k, G(c));
    TimesOnCurve(c, c.N - k, G(c));
    NoOrderTwo(c, R);
    var M := Affine(R.x, c.P - R.y);
    Reflect(c, R);
    TimesAdd(c, k, c.N - k, G(c));
    Assoc(c, M, R, S);
    PlusInfinity(c, S);
    PlusInfinity(c, M);
  }

  lemma Reflect(c: Params, p: Point)
    requires OddPrime(c.P) && OnCurve(c, p) && p.Affine? && p.y > 0
    ensures var m := Affine(p.x, c.P - p.y);
            OnCurve(c, m) && Plus(c, m, p) == Infinity
  {
    hide Cubic, OddPrime;
    var y, P := p.y, c.P;
    assert (P - y) * (P - y) - y * y == (P - 2 * y) * P;
    CongBy((P - y) * (P - y), y * y, P - 2 * y, P);
    CongTrans((P - y) * (P - y), y * y, Cubic(c, p.x), P);
    Multiple(1, P);
  }

  /** The low-S step: (r, N - s) with the flipped recovery bit is the signature for the nonce N - k. */
  lemma FlipSignature(c: Params, d: nat, e: nat, k: nat, sig: Signature)
    requires GroupLaw(c) && SignedBy(c, d, e, k, sig)
    ensures SignedBy(c, d, e, c.N - k, Signature(sig.r, c.N - sig.s, FlipBit(sig.v)))
  {
    hide OddPrime, Associative, Times, GroupLaw, Cong;
    OppositeMultiple(c, k);
    OddParity(c.P, Times(c, k, G(c)).y);
    OppositeProduct(c.N, sig.s, k, e + d * sig.r);
  }

  lemma OppositeProduct(N: nat, s: int, k: int, n: int)
    requires N > 0 && Cong(s * k, n, N)
    ensures Cong((N - s) * (N - k), n, N)
  {
    hide Cong;
    assert (N - s) * (N - k) - s * k == (N - s - k) * N;
    CongBy((N - s) * (N - k), s * k, N - s - k, N);
    CongTrans((N - s) * (N - k), s * k, n, N);
  }

  lemma OddParity(p: nat, y: int)
    requires OddPrime(p)
    ensures (p - y) % 2 != y % 2
  {
  }

  // ---------- signing ----------

  /** What one nonce gives: the affine point and s; a zero r or s rejects the nonce. */
  ghost predicate Rejected(c: Params, d: nat, e: nat, k: nat)
    requires c.P > 0 && c.N > 0
  {
    forall sig :: !SignedBy(c, d, e, k, sig)
  }

  lemma NoncePoint(c: Params, k: nat)
    requires GroupLaw(c) && 0 < k < c.N
    ensures Times(c, k, G(c)).Affine? && OnCurve(c, Times(c, k, G(c))) && Invertible(k, c.N)
    ensures Times(c, k, G(c)).x >= 0 && Times(c, k, G(c)).y >= 0
  {
    assert NotNull(c, k);
    TimesOnCurve(c, k, G(c));
    NoMod(k, c.N);
  }

  /** s computed with the inverse of k solves s k = e + d r. */
  lemma SolveS(c: Params, d: nat, e: nat, k: nat, kInv: int, r: int, s: int)
    requires c.N > 1 && IsInverse(k, kInv, c.N) && s == ((d * r + e) * kInv) % c.N
    ensures 0 <= s < c.N && Cong(s * k, e + d * r, c.N)
  {
    hide Cong;
    var N, n := c.N, d * r + e;
    CongMod(n * kInv, N);
    CongRefl(k, N);
    CongMul(s, n * kInv, k, k, N);
    InverseCong(k, kInv, N);
    assert kInv * k == k * kInv;
    CancelOne(n, kInv, k, N);
    CongTrans(s * k, n * kInv * k, n, N);
  }

  /** Any other solution is the same. */
  lemma UniqueS(c: Params, k: nat, s: int, s': int, n: int)
    requires OddPrime(c.N) && 0 < k < c.N && 0 <= s < c.N && 0 <= s' < c.N
    requires Cong(s * k, n, c.N) && Cong(s' * k, n, c.N)
    ensures s == s'
  {
    hide Cong, OddPrime;
    NoMod(k, c.N);
    CongSym(s' * k, n, c.N);
    CongTrans(s * k, n, s' * k, c.N);
    Cancel(s, s', k, c.N);
    CongEq(s, s', c.N);
  }

  method ScalarBaseMult(c: Params, k: nat) returns (x: int, y: int)
    requires GroupLaw(c)
    ensures Pair(x, y, Times(c, k, G(c)))
  {
    BytesValue(k);
    x, y := ScalarMult(c, c.Gx, c.Gy, Bytes(k));
  }

  /** `sign`: draws nonces until r and s are not zero. */
  method Sign(c: Params, d: nat, hash: seq<byte>, nonces: seq<nat>) returns (res: Option<Signature>)
    requires GroupLaw(c) && forall j :: 0 <= j < |nonces| ==> 0 < nonces[j] < c.N
    ensures res.Some? ==> FirstSigned(c, d, HashToInt(c, hash), nonces, res.value)
    ensures res.None? ==> forall k :: k in nonces ==> Rejected(c, d, HashToInt(c, hash), k)
  {
    hide Times, OddPrime, Associative, GroupLaw, Cong, Invertible, SignedBy, Rejected, OnCurve, HashToInt, IsInverse;
    ghost var e0 := HashToInt(c, hash);
    var i := 0;
    while true
      invariant 0 <= i <= |nonces|
      invariant forall j :: 0 <= j < i ==> Rejected(c, d, e0, nonces[j])
      decreases |nonces| - i
    {
      var k, kInv, r, y, recid;
      while true
        invariant 0 <= i <= |nonces|
        invariant forall j :: 0 <= j < i ==> Rejected(c, d, e0, nonces[j])
        decreases |nonces| - i
      {
        if i == |nonces| {
          return None;
        }
        k := nonces[i];
        NoncePoint(c, k);
        kInv := ModInverse(k, c.N);
        r, y := ScalarBaseMult(c, k);
        recid := if r > c.N then 2 else 0;
        r := r % c.N;
        if r != 0 {
          recid := recid + y % 2;
          break;
        }
        RZeroRejected(c, d, e0, k);
        i := i + 1;
      }
      var e := HashToInt(c, hash);
      var s := d * r;
      s := s + e;
      s := s * kInv;
      s := s % c.N;
      SolveS(c, d, e, k, kInv, r, s);
      if s != 0 {
        AcceptedSigned(c, d, e, k, Signature(r, s, recid));
        assert FirstAt(c, d, e, nonces, i, Signature(r, s, recid));
        return Some(Signature(r, s, recid));
      }
      ZeroRejected(c, d, e, k, r);
      i := i + 1;
    }
  }

  lemma ZeroS(c: Params, k: nat, s: int, n: int)
    requires OddPrime(c.N) && 0 < k < c.N && 0 <= s < c.N && Cong(s * k, n, c.N)
    ensures s == 0 <==> Cong(n, 0, c.N)
  {
    hide Cong, OddPrime;
    if s == 0 {
      CongSym(0, n, c.N);
    } else if Cong(n, 0, c.N) {
      CongSym(n, 0, c.N);
      UniqueS(c, k, s, 0, n);
      assert false;
    }
  }

  /** `sig` is made with the first nonce that is not rejected. */
  ghost predicate FirstSigned(c: Params, d: nat, e: nat, nonces: seq<nat>, sig: Signature)
    requires c.P > 0 && c.N > 0
  {
    exists j :: 0 <= j < |nonces| && FirstAt(c, d, e, nonces, j, sig)
  }

  ghost predicate FirstAt(c: Params, d: nat, e: nat, nonces: seq<nat>, j: nat, sig: Signature)
    requires c.P > 0 && c.N > 0 && j < |nonces|
  {
    SignedBy(c, d, e, nonces[j], sig) && forall i :: 0 <= i < j ==> Rejected(c, d, e, nonces[i])
  }

  lemma FirstNonce(c: Params, d: nat, e: nat, nonces: seq<nat>, sig: Signature) returns (k: nat)
    requires c.P > 0 && c.N > 0 && FirstSigned(c, d, e, nonces, sig)
    ensures SignedBy(c, d, e, k, sig)
  {
    var j :| 0 <= j < |nonces| && FirstAt(c, d, e, nonces, j, sig);
    k := nonces[j];
  }

  /** There is at most one such signature, and further nonces do not change it. */
  lemma FirstOnce(c: Params, d: nat, e: nat, nonces: seq<nat>, sig: Signature, sig': Signature, more: seq<nat>)
    requires GroupLaw(c) && FirstSigned(c, d, e, nonces, sig)
    ensures FirstSigned(c, d, e, nonces, sig') ==> sig' == sig
    ensures FirstSigned(c, d, e, nonces + more, sig)
  {
    hide GroupLaw, SignedBy, Rejected;
    var j :| 0 <= j < |nonces| && FirstAt(c, d, e, nonces, j, sig);
    assert (nonces + more)[j] == nonces[j] && forall i :: 0 <= i < j ==> (nonces + more)[i] == nonces[i];
    assert FirstAt(c, d, e, nonces + more, j, sig);
    if FirstSigned(c, d, e, nonces, sig') {
      var j' :| 0 <= j' < |nonces| && FirstAt(c, d, e, nonces, j', sig');
      NotRejected(c, d, e, nonces[j], sig);
      NotRejected(c, d, e, nonces[j'], sig');
      OneSignature(c, d, e, nonces[j], sig, sig');
    }
  }

  lemma NotRejected(c: Params, d: nat, e: nat, k: nat, sig: Signature)
    requires c.P > 0 && c.N > 0 && SignedBy(c, d, e, k, sig)
    ensures !Rejected(c, d, e, k)
  {
  }

  /** A nonce makes at most one signature. */
  lemma OneSignature(c: Params, d: nat, e: nat, k: nat, sig: Signature, sig': Signature)
    requires GroupLaw(c) && SignedBy(c, d, e, k, sig)
    ensures SignedBy(c, d, e, k, sig') ==> sig' == sig
  {
    hide GroupLaw, Times, Cong;
    if SignedBy(c, d, e, k, sig') {
      UniqueS(c, k, sig.s, sig'.s, e + d * sig.r);
    }
  }

  lemma AcceptedSigned(c: Params, d: nat, e: nat, k: nat, sig: Signature)
    requires c.P > 0 && c.N > 0 && 0 < k < c.N && Times(c, k, G(c)).Affine?
    requires var R := Times(c, k, G(c));
             sig.r == R.x % c.N && 0 < sig.r && sig.v == (if R.x > c.N then 2 else 0) + R.y % 2
    requires 0 < sig.s < c.N && Cong(sig.s * k, e + d * sig.r, c.N)
    ensures SignedBy(c, d, e, k, sig)
  {
  }

  lemma RZeroRejected(c: Params, d: nat, e: nat, k: nat)
    requires c.P > 0 && c.N > 0 && Times(c, k, G(c)).Affine? && Times(c, k, G(c)).x % c.N == 0
    ensures Rejected(c, d, e, k)
  {
  }

  lemma ZeroRejected(c: Params, d: nat, e: nat, k: nat, r: int)
    requires GroupLaw(c) && 0 < k < c.N && Times(c, k, G(c)).Affine? && r == Times(c, k, G(c)).x % c.N
    requires Cong(0 * k, e + d * r, c.N)
    ensures Rejected(c, d, e, k)
  {
    hide Cong;
    forall sig ensures !SignedBy(c, d, e, k, sig) {
      if SignedBy(c, d, e, k, sig) {
        UniqueS(c, k, 0, sig.s, e + d * r);
      }
    }
  }

  /** A nonce is rejected exactly if the abscissa of its point is 0 modulo N, or e + d r is. */
  lemma RejectedIff(c: Params, d: nat, e: nat, k: nat)
    requires GroupLaw(c) && 0 < k < c.N && Times(c, k, G(c)).Affine?
    ensures var r := Times(c, k, G(c)).x % c.N;
            Rejected(c, d, e, k) <==> r == 0 || Cong(e + d * r, 0, c.N)
  {
    hide GroupLaw, OddPrime, Associative, Times, Cong, Invertible, IsInverse, SignedBy, Rejected, OnCurve;
    NoncePoint(c, k);
    var R := Times(c, k, G(c));
    var r := R.x % c.N;
    CongMod(R.x, c.N);
    if r == 0 {
      RZeroRejected(c, d, e, k);
    } else if Cong(e + d * r, 0, c.N) {
      CongSym(e + d * r, 0, c.N);
      ZeroRejected(c, d, e, k, r);
    } else {
      var kInv := Inv(k, c.N);
      var s := ((d * r + e) * kInv) % c.N;
      SolveS(c, d, e, k, kInv, r, s);
      ZeroS(c, k, s, e + d * r);
      var sig := Signature(r, s, (if R.x > c.N then 2 else 0) + R.y % 2);
      AcceptedSigned(c, d, e, k, sig);
      NotRejected(c, d, e, k, sig);
    }
  }

  // ---------- verification ----------

  ghost function VerifyPoint(c: Params, e: nat, Q: Point, r: nat, s: nat): Point
    requires c.P > 0 && c.N > 0
  {
    var w := Inv(s, c.N);
    Plus(c, Times(c, (e * w) % c.N, G(c)), Times(c, (r * w) % c.N, Q))
  }

  /** The ECDSA verification equation. */
  ghost predicate Valid(c: Params, e: nat, Q: Point, r: nat, s: nat)
    requires c.P > 0 && c.N > 0
  {
    && 0 < r < c.N && 0 < s < c.N
    && var V := VerifyPoint(c, e, Q, r, s);
       V.Affine? && V.x % c.N == r
  }

  /** u1 G + u2 (m G) is one multiple of G. */
  lemma Combine(c: Params, u1: nat, u2: nat, m: nat)
    requires GroupLaw(c)
    ensures Plus(c, Times(c, u1, G(c)), Times(c, u2, Times(c, m, G(c)))) == Times(c, u1 + u2 * m, G(c))
  {
    hide OddPrime, Associative, Times, GroupLaw, Plus, OnCurve;
    TimesTimes(c, u2, m, G(c));
    TimesAdd(c, u1, u2 * m, G(c));
  }

  /** (a w mod N) + (b w mod N) m = (a + b m) w mod N. */
  lemma CombineCong(a: int, b: int, w: int, m: int, N: nat)
    requires N > 0
    ensures Cong((a * w) % N + ((b * w) % N) * m, (a + b * m) * w, N)
  {
    hide Cong;
    CongMod(a * w, N);
    CongMod(b * w, N);
    CongRefl(m, N);
    CombineParts(a, b, w, m, (a * w) % N, (b * w) % N, N);
  }

  lemma CombineParts(a: int, b: int, w: int, m: int, x: int, y: int, N: nat)
    requires N > 0 && Cong(x, a * w, N) && Cong(y, b * w, N) && Cong(m, m, N)
    ensures Cong(x + y * m, (a + b * m) * w, N)
  {
    hide Cong;
    CongMul(y, b * w, m, m, N);
    CongAdd(x, a * w, y * m, b * w * m, N);
    CombineRing(a, b, w, m);
  }

  lemma CombineRing(a: int, b: int, w: int, m: int)
    ensures a * w + b * w * m == (a + b * m) * w
  {
    MulAssoc(b, w, m);
    MulAssoc(b, m, w);
    MulComm(w, m);
    Expand(a, b * m, w);
  }

  /** u1 + u2 d = (e + r d) w = s k w = k. */
  lemma ScalarIsNonce(N: nat, e: int, d: int, r: int, s: int, k: int, w: int)
    requires N > 1 && IsInverse(s, w, N) && Cong(s * k, e + d * r, N)
    ensures Cong((e * w) % N + ((r * w) % N) * d, k, N)
  {
    hide Cong, IsInverse;
    var u := (e * w) % N + ((r * w) % N) * d;
    CombineCong(e, r, w, d, N);
    assert r * d == d * r;
    CongSym(s * k, e + d * r, N);
    CongRefl(w, N);
    CongMul(e + d * r, s * k, w, w, N);
    InverseCong(s, w, N);
    CancelOne(k, s, w, N);
    assert k * s == s * k;
    CongTrans(u, (e + r * d) * w, s * k * w, N);
    CongTrans(u, s * k * w, k, N);
  }

  /** Every signature verifies under the key it was made with. */
  lemma SignedIsValid(c: Params, d: nat, e: nat, k: nat, sig: Signature)
    requires GroupLaw(c) && SignedBy(c, d, e, k, sig)
    ensures Valid(c, e, Times(c, d, G(c)), sig.r, sig.s)
  {
    hide OddPrime, Associative, Times, GroupLaw, Cong, Invertible, Plus, IsInverse;
    var w := Inv(sig.s, c.N);
    InverseExists(sig.s, c.N);
    ScalarIsNonce(c.N, e, d, sig.r, sig.s, k, w);
    var u1, u2 := (e * w) % c.N, (sig.r * w) % c.N;
    Combine(c, u1, u2, d);
    TimesCong(c, u1 + u2 * d, k, G(c));
  }

  lemma InverseExists(s: int, n: nat)
    requires OddPrime(n) && 0 < s < n
    ensures Invertible(s, n)
  {
    NoMod(s, n);
  }

  method Verify(c: Params, Qx: int, Qy: int, hash: seq<byte>, r: nat, s: nat) returns (ok: bool)
    requires GroupLaw(c) && OnCurve(c, Affine(Qx, Qy))
    ensures ok <==> Valid(c, HashToInt(c, hash), Affine(Qx, Qy), r, s)
  {
    hide OddPrime, Associative, Times, Cong, Invertible, Plus, IsInverse;
    if r <= 0 || s <= 0 {
      return false;
    }
    if r >= c.N || s >= c.N {
      return false;
    }
    var e := HashToInt(c, hash);
    ghost var Q := Affine(Qx, Qy);
    InverseExists(s, c.N);
    var w := ModInverse(s, c.N);
    InverseUnique(s, w, Inv(s, c.N), c.N);
    var u1 := (e * w) % c.N;
    var u2 := (r * w) % c.N;
    var x1, y1 := ScalarBaseMult(c, u1);
    BytesValue(u2);
    var x2, y2 := ScalarMult(c, Qx, Qy, Bytes(u2));
    TimesOnCurve(c, u1, G(c));
    TimesOnCurve(c, u2, Q);
    PlusOnCurve(c, Times(c, u1, G(c)), Times(c, u2, Q));
    OriginOff(c, Plus(c, Times(c, u1, G(c)), Times(c, u2, Q)));
    var x, y := AddPoints(c, x1, y1, x2, y2, Times(c, u1, G(c)), Times(c, u2, Q));
    if x == 0 && y == 0 {
      return false;
    }
    x := x % c.N;
    return x == r;
  }

  lemma InverseUnique(a: int, b: int, b': int, p: nat)
    requires OddPrime(p) && 0 < a < p && IsInverse(a, b, p) && IsInverse(a, b', p)
    ensures b == b'
  {
    hide Cong;
    InverseCong(a, b, p);
    InverseCong(a, b', p);
    CongSym(a * b', 1, p);
    CongTrans(a * b, 1, a * b', p);
    NoMod(a, p);
    assert a * b == b * a && a * b' == b' * a;
    Cancel(b, b', a, p);
    CongEq(b, b', p);
  }
}
