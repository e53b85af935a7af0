/** Signature bytes and public key recovery: `SignBytes`, `RecoverPubkey`, `SignEcdsaRfc6979`. */
module Recover {
  import opened Wrappers
  import opened Radix
  import opened Field
  import opened Curve
  import opened Jacobian
  import opened Group
  import opened Ecdsa

  function RSize(c: Params): nat { (c.bitSize + 7) / 8 }

  /** Constants of the curve that the signature format relies on. */
  ghost predicate Sized(c: Params)
  {
    0 < c.N <= Pow(256, RSize(c)) && c.P < 2 * c.N
  }

  /** r, s and the recovery id as `decodeSigBytes` and `RecoverPubkey` take them from the bytes. */
  function DecodeSig(c: Params, sig: seq<byte>): Signature
    requires |sig| == 2 * RSize(c) + 1
  {
    Signature(Value(sig[..RSize(c)], 256), Value(sig[RSize(c)..2 * RSize(c)], 256), sig[2 * RSize(c)])
  }

  /** `sig` is a signature of `hash` under the key `d`. */
  ghost predicate IsSignature(c: Params, d: nat, hash: seq<byte>, sig: seq<byte>)
    requires c.P > 0 && c.N > 0
  {
    |sig| == 2 * RSize(c) + 1 && exists k :: SignedBy(c, d, HashToInt(c, hash), k, DecodeSig(c, sig))
  }

  lemma ScalarFits(c: Params, n: nat)
    requires Sized(c) && n < c.N
    ensures |Bytes(n)| <= RSize(c)
  {
    DigitsLength(n, 256, RSize(c));
  }

  // ---------- signing ----------

  /** With the flag, an s above half the order is reflected, and the recovery id with it. */
  function Lowered(c: Params, lowerS: bool, sg: Signature): Signature
  {
    if lowerS && c.N / 2 < sg.s <= c.N then Signature(sg.r, c.N - sg.s, FlipBit(sg.v)) else sg
  }

  /** `SignBytes` with the recovery id; `lowerS` is the flag that keeps s in the lower half. */
  method SignBytes(c: Params, d: nat, hash: seq<byte>, lowerS: bool, nonces: seq<nat>)
      returns (res: Option<seq<byte>>)
    requires GroupLaw(c) && Sized(c) && forall j :: 0 <= j < |nonces| ==> 0 < nonces[j] < c.N
    ensures res.Some? ==>
      |res.value| == 2 * RSize(c) + 1 && exists sg ::
        FirstSigned(c, d, HashToInt(c, hash), nonces, sg) && DecodeSig(c, res.value) == Lowered(c, lowerS, sg)
    ensures res.Some? ==> IsSignature(c, d, hash, res.value)
    ensures res.Some? && lowerS ==> DecodeSig(c, res.value).s <= c.N / 2
    ensures res == None ==> forall k :: k in nonces ==> Rejected(c, d, HashToInt(c, hash), k)
  {
    hide GroupLaw, HashToInt, Fill, Bytes, RSize, FirstSigned, FirstAt, SignedBy, Rejected, Times;
    var signed := Sign(c, d, hash, nonces);
    if signed == None {
      return None;
    }
    var r, s, v := signed.value.r, signed.value.s, signed.value.v;
    ghost var e := HashToInt(c, hash);
    ghost var k := FirstNonce(c, d, e, nonces, signed.value);
    SignedRanges(c, d, e, k, signed.value);
    if lowerS && s > c.N / 2 {
      FlipSignature(c, d, e, k, signed.value);
      s := c.N - s;
      v := FlipBit(v);
    }
    ScalarFits(c, r);
    ScalarFits(c, s);
    var rs, ss := Fill(r, RSize(c)), Fill(s, RSize(c));
    var sig := rs + ss + [v];
    FillValue(r, RSize(c));
    FillValue(s, RSize(c));
    SigParts(c, v, rs, ss);
    return Some(sig);
  }

  /** Without the flag, or with a low s, nothing changes; a high s is reflected, and only the parity in v with it. */
  lemma LoweredIs(c: Params, lowerS: bool, sg: Signature)
    requires 0 < sg.s < c.N
    ensures !lowerS || sg.s <= c.N / 2 ==> Lowered(c, lowerS, sg) == sg
    ensures var low := Lowered(c, lowerS, sg);
            lowerS && sg.s > c.N / 2 ==>
              low.r == sg.r && low.s + sg.s == c.N && low.v / 2 == sg.v / 2 && low.v % 2 != sg.v % 2
  {
  }

  lemma SignedRanges(c: Params, d: nat, e: nat, k: nat, sg: Signature)
    requires OddPrime(c.P) && c.N > 0 && OnCurve(c, G(c)) && SignedBy(c, d, e, k, sg)
    ensures 0 < sg.r < c.N && 0 < sg.s < c.N && sg.v <= 3
  {
    TimesOnCurve(c, k, G(c));
  }

  lemma SigParts(c: Params, v: byte, rs: seq<byte>, ss: seq<byte>)
    requires |rs| == RSize(c) == |ss|
    ensures |rs + ss + [v]| == 2 * RSize(c) + 1
    ensures DecodeSig(c, rs + ss + [v]) == Signature(Value(rs, 256), Value(ss, 256), v)
  {
    var sig := rs + ss + [v];
    assert sig[..RSize(c)] == rs && sig[RSize(c)..2 * RSize(c)] == ss;
  }

  // ---------- recovery ----------

  method ComputePointFromX(c: Params, r: nat, recid: nat) returns (found: bool, x: int, y: int)
    requires GroupLaw(c) && 0 < r < c.N && (recid < 2 ==> r < c.P)
    ensures x == if recid >= 2 then c.N + r else r
    ensures found ==> OnCurve(c, Affine(x, y)) && y % 2 == recid % 2
    ensures !found ==> forall y' :: !OnCurve(c, Affine(x, y'))
  {
    hide GroupLaw, OddPrime, Cong, OnCurve, Cubic;
    x := r;
    if recid >= 2 {
      x := c.N + x;
      if x >= c.P {
        OutOfRange(c, x);
        return false, x, 0;
      }
    }
    var x3 := x * x;
    x3 := x3 + c.A;
    x3 := x3 * x;
    x3 := x3 + c.B;
    found, y := ModSqrt(x3, c.P);
    assert x3 == Cubic(c, x) by { CubicIs(c, x); }
    if !found {
      NoRoot(c, x);
      return;
    }
    RootOnCurve(c, x, y);
    NoOrderTwo(c, Affine(x, y));
    if y % 2 != recid % 2 {
      Reflect(c, Affine(x, y));
      OddParity(c.P, y);
      y := c.P - y;
    }
  }

  lemma OutOfRange(c: Params, x: int)
    requires c.P > 0 && x >= c.P
    ensures forall y :: !OnCurve(c, Affine(x, y))
  {
  }

  lemma CubicIs(c: Params, x: int)
    ensures Cubic(c, x) == (x * x + c.A) * x + c.B
  {
  }

  lemma NoRoot(c: Params, x: int)
    requires c.P > 0 && forall z :: 0 <= z < c.P ==> (z * z) % c.P != Cubic(c, x) % c.P
    ensures forall y :: !OnCurve(c, Affine(x, y))
  {
    forall y ensures !OnCurve(c, Affine(x, y)) {
      CongModEq(y * y, Cubic(c, x), c.P);
    }
  }

  lemma RootOnCurve(c: Params, x: int, y: int)
    requires c.P > 0 && 0 <= x < c.P && 0 <= y < c.P && (y * y) % c.P == Cubic(c, x) % c.P
    ensures OnCurve(c, Affine(x, y))
  {
    CongModEq(y * y, Cubic(c, x), c.P);
  }

  /** The nonce point is the only point of the curve with this abscissa and parity. */
  lemma PointByParity(c: Params, p: Point, q: Point)
    requires GroupLaw(c) && OnCurve(c, p) && OnCurve(c, q) && p.Affine? && q.Affine?
    requires p.x == q.x && p.y % 2 == q.y % 2
    ensures p == q
  {
    hide GroupLaw, OddPrime, Cong, Cubic;
    CongSym(q.y * q.y, Cubic(c, q.x), c.P);
    CongTrans(p.y * p.y, Cubic(c, p.x), q.y * q.y, c.P);
    RootsOpposite(p.y, q.y, c.P);
    OddParity(c.P, q.y);
  }

  lemma NonceX(c: Params, d: nat, e: nat, k: nat, sg: Signature)
    requires GroupLaw(c) && Sized(c) && SignedBy(c, d, e, k, sg)
    ensures var R := Times(c, k, G(c));
            && OnCurve(c, R) && R.Affine?
            && R.x == (if sg.v >= 2 then c.N + sg.r else sg.r)
            && R.y % 2 == sg.v % 2
  {
    hide OddPrime, Associative, Times, Cong, Cubic;
    TimesOnCurve(c, k, G(c));
    var R := Times(c, k, G(c));
    if R.x >= c.N {
      DivModUnique(1, R.x - c.N, c.N);
    } else {
      NoMod(R.x, c.N);
    }
  }

  /** u1 = -e/r, u2 = s/r: with R = k G the sum u1 G + u2 R is (u1 + u2 k) G. */
  ghost function KeyFrom(c: Params, e: nat, sg: Signature, R: Point): Point
    requires c.P > 0 && c.N > 0
  {
    var w := Inv(sg.r, c.N);
    Plus(c, Times(c, ((c.N - e) * w) % c.N, G(c)), Times(c, (sg.s * w) % c.N, R))
  }

  /** (N - e + s k) / r is congruent to d exactly when s k is congruent to e + d r. */
  lemma SolveKey(N: nat, e: int, s: int, k: int, r: int, w: int, d: int)
    requires OddPrime(N) && 0 < r < N && IsInverse(r, w, N)
    ensures Cong(s * k, e + d * r, N) <==> Cong(((N - e) * w) % N + ((s * w) % N) * k, d, N)
  {
    hide Cong, OddPrime;
    var u := ((N - e) * w) % N + ((s * w) % N) * k;
    CombineCong(N - e, s, w, k, N);
    var a := N - e + s * k;
    InverseCong(r, w, N);
    NoMod(r, N);
    // d r w = d
    CancelOne(d, r, w, N);
    CongBy(s * k - e, a, -1, N);
    if Cong(s * k, e + d * r, N) {
      CongRefl(e, N);
      CongAdd(s * k, e + d * r, e, e, N);
      CongSym(s * k - e, a, N);
      CongTrans(a, s * k - e, d * r, N);
      CongRefl(w, N);
      CongMul(a, d * r, w, w, N);
      CongTrans(u, a * w, d * r * w, N);
      CongTrans(u, d * r * w, d, N);
    }
    if Cong(u, d, N) {
      CongSym(u, a * w, N);
      CongTrans(a * w, u, d, N);
      CongRefl(r, N);
      CongMul(a * w, d, r, r, N);
      assert r * w == w * r;
      CancelOne(a, w, r, N);
      CongSym(a * w * r, a, N);
      CongTrans(a, a * w * r, d * r, N);
      CongTrans(s * k - e, a, d * r, N);
      CongRefl(e, N);
      CongAdd(s * k - e, d * r, e, e, N);
    }
  }

  /** Recovery inverts signing. */
  lemma KeyOfSignature(c: Params, d: nat, e: nat, k: nat, sg: Signature)
    requires GroupLaw(c) && SignedBy(c, d, e, k, sg)
    ensures KeyFrom(c, e, sg, Times(c, k, G(c))) == Times(c, d, G(c))
  {
    hide OddPrime, Associative, Times, Plus, Cong, Invertible, IsInverse, OnCurve, GroupLaw;
    SignedRanges(c, d, e, k, sg);
    InverseExists(sg.r, c.N);
    var w := Inv(sg.r, c.N);
    SolveKey(c.N, e, sg.s, k, sg.r, w, d);
    var u1, u2 := ((c.N - e) * w) % c.N, (sg.s * w) % c.N;
    Combine(c, u1, u2, k);
    TimesCong(c, u1 + u2 * k, d, G(c));
  }

  /** What recovery returns is a key for which the input is a signature. */
  lemma KeyIsSigner(c: Params, e: nat, sg: Signature, R: Point) returns (d: nat, k: nat)
    requires GroupLaw(c) && Sized(c) && 0 < sg.r < c.N && 0 < sg.s < c.N && sg.v <= 3
    requires OnCurve(c, R) && R.Affine? && R.x == (if sg.v >= 2 then c.N + sg.r else sg.r)
    requires R.y % 2 == sg.v % 2
    ensures d < c.N && SignedBy(c, d, e, k, sg) && KeyFrom(c, e, sg, R) == Times(c, d, G(c))
  {
    hide OddPrime, Associative, Times, Plus, Cong, Invertible, IsInverse, OnCurve, Cubic;
    assert IsMultiple(c, R);
    k :| 0 <= k < c.N && R == Times(c, k, G(c));
    TimesZero(c, G(c));
    InverseExists(sg.r, c.N);
    var w := Inv(sg.r, c.N);
    var u1, u2 := ((c.N - e) * w) % c.N, (sg.s * w) % c.N;
    CongMod(u1 + u2 * k, c.N);
    d := (u1 + u2 * k) % c.N;
    CongSym(d, u1 + u2 * k, c.N);
    SolveKey(c.N, e, sg.s, k, sg.r, w, d);
    if sg.v >= 2 { DivModUnique(1, sg.r, c.N); } else { NoMod(sg.r, c.N); }
    KeyOfSignature(c, d, e, k, sg);
  }

  /** The outcome for the key Q: a point with a zero coordinate, or infinity, is refused. */
  ghost predicate KeyResult(Q: Point, res: Result<(int, int), Error>)
  {
    if Q.Affine? && Q.x > 0 then res == Ok((Q.x, Q.y)) else res.Err?
  }

  /** `RecoverPubkey` on one curve. It returns Q exactly when the bytes are a signature of the hash by the
      key of Q, for some nonce; the only signers it refuses are those with a zero coordinate. */
  method RecoverPubkey(c: Params, hash: seq<byte>, sig: seq<byte>) returns (res: Result<(int, int), Error>)
    requires GroupLaw(c) && Sized(c) && c.N <= c.P
    ensures res.Ok? ==>
      exists d: nat :: d < c.N && IsSignature(c, d, hash, sig)
        && Times(c, d, G(c)) == Affine(res.value.0, res.value.1)
    ensures forall d: nat :: IsSignature(c, d, hash, sig) ==> KeyResult(Times(c, d, G(c)), res)
  {
    hide GroupLaw, OddPrime, Associative, Times, Plus, Cong, Invertible, IsInverse, OnCurve, RSize, HashToInt,
      SignedBy, KeyFrom, Sized, DecodeSig;
    if |sig| != 2 * RSize(c) + 1 {
      return Err(WrongSize);
    }
    var sg := DecodeSig(c, sig);
    ghost var e0 := HashToInt(c, hash);
    forall d, k | SignedBy(c, d, e0, k, sg) ensures 0 < sg.r < c.N && 0 < sg.s < c.N && sg.v <= 3 {
      SignedRanges(c, d, e0, k, sg);
    }
    if sg.v > 3 {
      return Err(BadRecoveryId);
    }
    if sg.r == 0 || sg.s == 0 {
      return Err(ZeroParam);
    }
    if sg.r >= c.N || sg.s >= c.N {
      return Err(ExceedsOrder);
    }
    var found, x, y := ComputePointFromX(c, sg.r, sg.v);
    forall d, k | SignedBy(c, d, e0, k, sg)
      ensures found && Times(c, k, G(c)) == Affine(x, y)
    {
      NonceX(c, d, e0, k, sg);
      if found { PointByParity(c, Affine(x, y), Times(c, k, G(c))); }
    }
    if !found {
      return Err(NotOnCurve);
    }
    ghost var R := Affine(x, y);
    res := RecoverFromPoint(c, HashToInt(c, hash), x, y, sg);
    forall d, k | SignedBy(c, d, e0, k, sg) ensures KeyFrom(c, e0, sg, R) == Times(c, d, G(c)) {
      KeyOfSignature(c, d, e0, k, sg);
    }
    ghost var d, k := KeyIsSigner(c, e0, sg, R);
  }

  /** `recoverPubkey`. */
  method RecoverFromPoint(c: Params, e: nat, x: int, y: int, sg: Signature) returns (res: Result<(int, int), Error>)
    requires GroupLaw(c) && OnCurve(c, Affine(x, y)) && 0 < sg.r < c.N
    ensures KeyResult(KeyFrom(c, e, sg, Affine(x, y)), res)
  {
    hide OddPrime, Associative, Times, Plus, Cong, Invertible, IsInverse, Cubic;
    ghost var R := Affine(x, y);
    InverseExists(sg.r, c.N);
    var w := ModInverse(sg.r, c.N);
    InverseUnique(sg.r, w, Inv(sg.r, c.N), c.N);
    var u1 := ((c.N - e) * w) % c.N;
    var u2 := (sg.s * w) % c.N;
    var x1, y1 := ScalarBaseMult(c, u1);
    BytesValue(u2);
    var x2, y2 := ScalarMult(c, x, y, Bytes(u2));
    TimesOnCurve(c, u1, G(c));
    TimesOnCurve(c, u2, R);
    PlusOnCurve(c, Times(c, u1, G(c)), Times(c, u2, R));
    var Qx, Qy := AddPoints(c, x1, y1, x2, y2, Times(c, u1, G(c)), Times(c, u2, R));
    ghost var Q := KeyFrom(c, e, sg, R);
    if Q.Affine? { NoOrderTwo(c, Q); }
    if Qx <= 0 || Qy <= 0 {
      return Err(InvalidKey);
    }
    return Ok((Qx, Qy));
  }

  // ---------- the RFC 6979 signer ----------

  /** The first coordinate of the nonce point. */
  ghost function Abscissa(c: Params, k: nat): int
    requires GroupLaw(c) && 0 < k < c.N
  {
    NoncePoint(c, k);
    Times(c, k, G(c)).x
  }

  /** A secret that gives r = 0 or s = 0. */
  ghost predicate Unusable(c: Params, d: nat, e: nat, k: nat)
    requires GroupLaw(c) && 0 < k < c.N
  {
    Abscissa(c, k) == 0 || Cong(e + d * Abscissa(c, k), 0, c.N)
  }

  /** s k = e + d r mod N with the parity of the nonce point in v, or both turned over. */
  ghost predicate RfcParts(c: Params, d: nat, e: nat, k: nat, sg: Signature)
    requires GroupLaw(c) && 0 < k < c.N
  {
    NoncePoint(c, k);
    var parity := Times(c, k, G(c)).y % 2;
    && 0 < sg.s < c.N
    && ((Cong(sg.s * k, e + d * sg.r, c.N) && sg.v == parity)
        || (Cong((c.N - sg.s) * k, e + d * sg.r, c.N) && sg.v == 1 - parity))
  }

  /** r is the whole abscissa of the nonce point, so the result is a signature exactly if that is below N. */
  ghost predicate RfcResult(c: Params, d: nat, e: nat, k: nat, sg: Signature)
    requires GroupLaw(c) && 0 < k < c.N
  {
    && sg.r == Abscissa(c, k) && sg.v <= 1 && RfcParts(c, d, e, k, sg)
    && ((exists k' :: SignedBy(c, d, e, k', sg)) <==> Abscissa(c, k) < c.N)
  }

  /** Candidate `j` is the first one in range that gives nonzero r and s. */
  ghost predicate FirstUsable(c: Params, d: nat, e: nat, candidates: seq<nat>, j: nat)
    requires GroupLaw(c) && j < |candidates|
  {
    && 1 <= candidates[j] < c.N && !Unusable(c, d, e, candidates[j])
    && forall i :: 0 <= i < j && 1 <= candidates[i] < c.N ==> Unusable(c, d, e, candidates[i])
  }

  /** Among the candidates there is at most one first usable one, and more candidates do not change it. */
  lemma FirstUsableOnce(c: Params, d: nat, e: nat, candidates: seq<nat>, j: nat, j': nat, more: seq<nat>)
    requires GroupLaw(c) && j < |candidates| && j' < |candidates|
    requires FirstUsable(c, d, e, candidates, j)
    ensures FirstUsable(c, d, e, candidates, j') ==> j' == j
    ensures FirstUsable(c, d, e, candidates + more, j)
  {
    hide GroupLaw, Unusable;
  }

  /** Below N, the unusable secrets are the nonces that no signature can be made with. */
  lemma UnusableIsRejected(c: Params, d: nat, e: nat, k: nat)
    requires GroupLaw(c) && 0 < k < c.N && Abscissa(c, k) < c.N
    ensures Unusable(c, d, e, k) <==> forall sg :: !SignedBy(c, d, e, k, sg)
  {
    hide GroupLaw, Times, Cong, OnCurve, SignedBy;
    NoncePoint(c, k);
    NoMod(Abscissa(c, k), c.N);
    RejectedIff(c, d, e, k);
  }

  /** The test that `SignEcdsaRfc6979` applies to one secret. It does not reduce r and keeps only the
      parity in v. */
  method TrySecret(c: Params, d: nat, hash: seq<byte>, k: nat) returns (res: Option<Signature>)
    requires GroupLaw(c) && 0 < k < c.N
    ensures res.None? <==> Unusable(c, d, HashToInt(c, hash), k)
    ensures res.Some? ==> res.value.s <= c.N / 2 && RfcResult(c, d, HashToInt(c, hash), k, res.value)
  {
    hide GroupLaw, OddPrime, Associative, Times, Cong, Invertible, IsInverse, OnCurve, SignedBy, HashToInt;
    NoncePoint(c, k);
    var inv := ModInverse(k, c.N);
    var r, y := ScalarBaseMult(c, k);
    var v := y % 2;
    if r == 0 {
      return None;
    }
    var e := HashToInt(c, hash);
    var s := d * r;
    s := s + e;
    s := s * inv;
    var sR := s % c.N;
    SolveS(c, d, e, k, inv, r, sR);
    ZeroS(c, k, sR, e + d * r);
    if c.N / 2 < sR {
      NegMod(s, c.N);
      s := (-s) % c.N;
      v := FlipBit(v);
    } else {
      s := sR;
    }
    if s == 0 {
      return None;
    }
    assert s == if c.N / 2 < sR then c.N - sR else sR;
    res := Some(Signature(r, s, v));
    Rfc6979Signed(c, d, e, k, sR, res.value);
  }

  /** `SignEcdsaRfc6979` over the candidate secrets of its generator: the result is a signature exactly
      when the abscissa of the nonce point stays below N. */
  method SignRfc6979(c: Params, d: nat, hash: seq<byte>, candidates: seq<nat>)
      returns (res: Option<Signature>)
    requires GroupLaw(c)
    ensures res.None? ==>
      forall j :: 0 <= j < |candidates| && 1 <= candidates[j] < c.N ==>
        Unusable(c, d, HashToInt(c, hash), candidates[j])
    ensures res.Some? ==> res.value.s <= c.N / 2
    ensures res.Some? ==>
      exists j ::
        0 <= j < |candidates| && FirstUsable(c, d, HashToInt(c, hash), candidates, j)
        && RfcResult(c, d, HashToInt(c, hash), candidates[j], res.value)
  {
    hide GroupLaw, Times, SignedBy, HashToInt, Unusable, Abscissa, RfcResult;
    var i := 0;
    while i < |candidates|
      invariant 0 <= i <= |candidates|
      invariant forall j :: 0 <= j < i && 1 <= candidates[j] < c.N ==>
                  Unusable(c, d, HashToInt(c, hash), candidates[j])
    {
      if 1 <= candidates[i] < c.N {
        res := TrySecret(c, d, hash, candidates[i]);
        if res.Some? {
          assert FirstUsable(c, d, HashToInt(c, hash), candidates, i);
          return;
        }
      }
      i := i + 1;
    }
    return None;
  }

  lemma NegMod(s: int, n: nat)
    requires n > 0 && s % n != 0
    ensures (-s) % n == n - s % n
  {
    var q, r := s / n, s % n;
    DivModInt(-q - 1, n - r, n);
    assert (-q - 1) * n + (n - r) == -s;
  }

  lemma DivModInt(q: int, r: nat, b: nat)
    requires r < b
    ensures (q * b + r) % b == r
  {
    var n := q * b + r;
    assert n == (n / b) * b + n % b;
    assert (n / b - q) * b == r - n % b;
    MulGap(n / b - q, b);
  }

  lemma Rfc6979Signed(c: Params, d: nat, e: nat, k: nat, sR: nat, sg: Signature)
    requires GroupLaw(c) && 0 < k < c.N && Times(c, k, G(c)).Affine?
    requires var R := Times(c, k, G(c));
             && sg.r == R.x && sg.r > 0 && 0 < sR < c.N && Cong(sR * k, e + d * sg.r, c.N)
             && if c.N / 2 < sR then sg.s == c.N - sR && sg.v == FlipBit(R.y % 2)
                else sg.s == sR && sg.v == R.y % 2
    ensures (exists k' :: SignedBy(c, d, e, k', sg)) <==> sg.r < c.N
  {
    hide OddPrime, Associative, Times, Cong, OnCurve, GroupLaw;
    if sg.r < c.N {
      NoMod(sg.r, c.N);
      var plain := Signature(sg.r, sR, Times(c, k, G(c)).y % 2);
      AcceptedSigned(c, d, e, k, plain);
      if c.N / 2 < sR { FlipSignature(c, d, e, k, plain); }
    }
    forall k' | SignedBy(c, d, e, k', sg) ensures sg.r < c.N {
      SignedRanges(c, d, e, k', sg);
    }
  }

  lemma AbscissaFits(c: Params, k: nat)
    requires GroupLaw(c) && 0 < k < c.N && c.P <= Pow(256, RSize(c))
    ensures 0 <= Abscissa(c, k) && |Bytes(Abscissa(c, k))| <= RSize(c)
  {
    hide GroupLaw, Times, Pow, RSize, OnCurve;
    NoncePoint(c, k);
    CurveRange(c, Times(c, k, G(c)));
    DigitsLength(Abscissa(c, k), 256, RSize(c));
  }

  /** `SignEcdsaRfc6979Bytes` on a curve of 256 bits: r and s in 32 bytes each, and v. */
  method SignRfc6979Bytes(c: Params, d: nat, hash: seq<byte>, candidates: seq<nat>) returns (sig: Option<seq<byte>>)
    requires GroupLaw(c) && Sized(c) && RSize(c) == 32 && c.P <= Pow(256, RSize(c))
    ensures sig.None? ==>
      forall j :: 0 <= j < |candidates| && 1 <= candidates[j] < c.N ==>
        Unusable(c, d, HashToInt(c, hash), candidates[j])
    ensures sig.Some? ==>
      |sig.value| == 65 && exists j ::
        0 <= j < |candidates| && FirstUsable(c, d, HashToInt(c, hash), candidates, j)
        && RfcResult(c, d, HashToInt(c, hash), candidates[j], DecodeSig(c, sig.value))
        && (IsSignature(c, d, hash, sig.value) <==> Abscissa(c, candidates[j]) < c.N)
  {
    hide GroupLaw, Times, SignedBy, HashToInt, Unusable, Abscissa, RSize, Pow, Fill, DecodeSig, RfcParts;
    var signed := SignRfc6979(c, d, hash, candidates);
    if signed.None? {
      return None;
    }
    var r, s, v := signed.value.r, signed.value.s, signed.value.v;
    ghost var e := HashToInt(c, hash);
    ghost var j :| 0 <= j < |candidates| && FirstUsable(c, d, e, candidates, j)
                   && RfcResult(c, d, e, candidates[j], signed.value);
    AbscissaFits(c, candidates[j]);
    ScalarFits(c, s);
    var rs, ss := Fill(r, 32), Fill(s, 32);
    FillValue(r, 32);
    FillValue(s, 32);
    SigParts(c, v, rs, ss);
    return Some(rs + ss + [v]);
  }

  // ---------- recovery inverts signing ----------

  /** The key recovered from a signature is the signer's, and verifies it. */
  method RecoverAndVerify(c: Params, hash: seq<byte>, sig: seq<byte>, ghost d: nat)
      returns (key: Result<(int, int), Error>, ok: bool)
    requires GroupLaw(c) && Sized(c) && c.N <= c.P && IsSignature(c, d, hash, sig)
    ensures KeyResult(Times(c, d, G(c)), key)
    ensures ok == key.Ok?
  {
    hide GroupLaw, Times, SignedBy, HashToInt, RSize, Sized, DecodeSig, OnCurve, Valid;
    key := RecoverPubkey(c, hash, sig);
    ok := false;
    if key.Ok? {
      var sg := DecodeSig(c, sig);
      ghost var k :| SignedBy(c, d, HashToInt(c, hash), k, sg);
      TimesOnCurve(c, d, G(c));
      SignedIsValid(c, d, HashToInt(c, hash), k, sg);
      ok := Verify(c, key.value.0, key.value.1, hash, sg.r, sg.s);
    }
  }

  /** What `SignBytes` makes, with or without the low S, gives back the signer's key, which verifies it. */
  method RecoverSigned(c: Params, d: nat, hash: seq<byte>, lowerS: bool, nonces: seq<nat>)
      returns (sig: Option<seq<byte>>, key: Result<(int, int), Error>, ok: bool)
    requires GroupLaw(c) && Sized(c) && c.N <= c.P
    requires forall j :: 0 <= j < |nonces| ==> 0 < nonces[j] < c.N
    ensures sig.None? ==> forall k :: k in nonces ==> Rejected(c, d, HashToInt(c, hash), k)
    ensures sig.Some? ==> KeyResult(Times(c, d, G(c)), key) && ok == key.Ok?
  {
    hide GroupLaw, Times, SignedBy, HashToInt, RSize, Sized, IsSignature, Rejected, Lowered, FirstSigned;
    sig := SignBytes(c, d, hash, lowerS, nonces);
    key, ok := Err(ZeroParam), false;
    if sig.Some? {
      key, ok := RecoverAndVerify(c, hash, sig.value, d);
    }
  }

  /** The same for the RFC 6979 signer, whenever the nonce point's abscissa is below N. */
  method RecoverRfc6979(c: Params, d: nat, hash: seq<byte>, candidates: seq<nat>, ghost j: nat)
      returns (key: Result<(int, int), Error>, ok: bool)
    requires GroupLaw(c) && Sized(c) && c.N <= c.P && RSize(c) == 32 && c.P <= Pow(256, RSize(c))
    requires j < |candidates| && FirstUsable(c, d, HashToInt(c, hash), candidates, j)
    requires Abscissa(c, candidates[j]) < c.N
    ensures KeyResult(Times(c, d, G(c)), key) && ok == key.Ok?
  {
    hide GroupLaw, Times, SignedBy, HashToInt, RSize, Sized, IsSignature, Unusable, Abscissa, Pow;
    var sig := SignRfc6979Bytes(c, d, hash, candidates);
    key, ok := RecoverAndVerify(c, hash, sig.value, d);
  }
}
