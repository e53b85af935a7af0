/**
 Hierarchical deterministic keys of common/bip32. The hash functions are parameters; of them only the
 output length is known.
 */
module Bip32 {
  import opened Wrappers
  import opened Radix
  import opened Field
  import opened Curve
  import opened Jacobian
  import opened Group
  import Ecdsa
  import Recover
  import Base58

  const HARDENED: nat := 0x8000_0000

  datatype Error = HardenedFromPublic | InvalidPrivateKey | InvalidPublicKey | WrongSize | BadChecksum
  /** HMAC-SHA512, RIPEMD-160 of SHA-256, and the first four bytes of double SHA-256. */
  datatype Hashes = Hashes(
    hmac: (seq<byte>, seq<byte>) -> seq<byte>,
    hash160: seq<byte> -> seq<byte>,
    checksum: seq<byte> -> seq<byte>)

  ghost predicate OutputSizes(h: Hashes)
  {
    && (forall k, d :: |h.hmac(k, d)| == 64)
    && (forall d :: |h.hash160(d)| == 20)
    && (forall d :: |h.checksum(d)| == 4)
  }

  /** The curve of BIP-32: a = 0, and field elements and scalars fit 32 bytes. */
  ghost predicate Curve256(c: Params)
    ensures Curve256(c) ==> GroupLaw(c)
  {
    GroupLaw(c) && c.A == 0 && c.bitSize == 256 && c.P <= Pow(256, 32) && c.N <= Pow(256, 32)
  }

  datatype Key = Key(
    key: seq<byte>, version: seq<byte>, childNumber: seq<byte>, fingerPrint: seq<byte>,
    chainCode: seq<byte>, depth: byte, isPrivate: bool)

  const PRIVATE_VERSION: seq<byte> := [0x04, 0x88, 0xAD, 0xE4]
  const PUBLIC_VERSION: seq<byte> := [0x04, 0x88, 0xB2, 0x1E]

  // ---------- compressed points ----------

  function Compress(x: nat, y: nat): seq<byte>
  {
    [2 + y % 2] + Pad(Bytes(x), 32)
  }

  function PointBytes(p: Point): seq<byte>
  {
    match p
    case Infinity => Compress(0, 0)
    case Affine(x, y) => if x >= 0 && y >= 0 then Compress(x, y) else []
  }

  ghost predicate IsCompressed(c: Params, key: seq<byte>, p: Point)
    requires c.P > 0
  {
    OnCurve(c, p) && p.Affine? && key == PointBytes(p)
  }

  lemma CompressParts(c: Params, x: nat, y: nat)
    requires x < Pow(256, 32)
    ensures |Compress(x, y)| == 33 && Compress(x, y)[0] == 2 + y % 2
    ensures Value(Compress(x, y)[1..], 256) == x
  {
    PadBytes(x, 32);
  }

  method CompressPublicKey(x: nat, y: nat) returns (key: seq<byte>)
    ensures key == Compress(x, y)
  {
    key := [2 + y % 2];
    var xBytes := Bytes(x);
    var i := 0;
    while i < 33 - 1 - |xBytes|
      invariant 0 <= i && (i == 0 || i <= 32 - |xBytes|)
      invariant key == [2 + y % 2] + Zeros(i)
    {
      key := key + [0];
      i := i + 1;
    }
    key := key + xBytes;
  }

  /** `uint64(key[0]) - 2`. */
  function SignY(tag: byte): nat { (tag + 0xFFFF_FFFF_FFFF_FFFE) % 0x1_0000_0000_0000_0000 }

  /** `expandPublicKey`. It ignores the coefficient a, and it does not notice a missing square root: then
      the ordinate is built from zero. */
  method ExpandPublicKey(c: Params, key: seq<byte>) returns (X: nat, Y: nat)
    requires Curve256(c) && |key| > 0
    ensures X == Value(key[1..], 256)
    ensures forall p :: IsCompressed(c, key, p) ==> p == Affine(X, Y)
  {
    hide GroupLaw, Cong, OddPrime, Cubic, OnCurve, Value, PointBytes, IsCompressed, SignY;
    X := Value(key[1..], 256);
    var ySquared := X * X * X;
    ySquared := ySquared + c.B;
    CubicNoA(c, X);
    var found, y := ModSqrt(ySquared, c.P);
    var root: int := if found then y else 0;
    forall p | IsCompressed(c, key, p)
      ensures p == Affine(X, if SignY(key[0]) != root % 2 then c.P - root else root)
    {
      Expanded(c, key, p, found, root, ySquared);
    }
    var signY := SignY(key[0]);
    if signY != root % 2 {
      root := c.P - root;
    }
    Y := root;
  }

  lemma SignOfTag(y: nat)
    ensures SignY(2 + y % 2) == y % 2
  {
  }

  lemma CubicNoA(c: Params, X: int)
    requires c.A == 0
    ensures X * X * X + c.B == Cubic(c, X)
  {
  }

  /** For a compressed point the root that was found is its ordinate up to sign, and the sign is right. */
  lemma Expanded(c: Params, key: seq<byte>, p: Point, found: bool, root: int, ySquared: int)
    requires Curve256(c) && |key| > 0 && IsCompressed(c, key, p)
    requires ySquared == Cubic(c, Value(key[1..], 256))
    requires found ==> 0 <= root < c.P && (root * root) % c.P == ySquared % c.P
    requires !found ==> forall z :: 0 <= z < c.P ==> (z * z) % c.P != ySquared % c.P
    ensures p == Affine(Value(key[1..], 256), if SignY(key[0]) != root % 2 then c.P - root else root)
  {
    hide GroupLaw, Cong, OddPrime, Value, Cubic, Compress, Pad, OnCurve, SignY, Pow, Digits;
    CurveRange(c, p);
    CompressParts(c, p.x, p.y);
    SignOfTag(p.y);
    if !found { Recover.NoRoot(c, p.x); }
    var X := p.x;
    Recover.RootOnCurve(c, X, root);
    Ecdsa.NoOrderTwo(c, Affine(X, root));
    Ecdsa.Reflect(c, Affine(X, root));
    Ecdsa.OddParity(c.P, root);
    Recover.PointByParity(c, p, if p.y % 2 != root % 2 then Affine(X, c.P - root) else Affine(X, root));
  }

  /** `unmarshalCompressed` accepts exactly the compressed points of the curve, and returns the point. */
  method UnmarshalCompressed(c: Params, data: seq<byte>) returns (res: Option<(int, int)>)
    requires Curve256(c)
    ensures forall x, y :: res == Some((x, y)) <==> IsCompressed(c, data, Affine(x, y))
  {
    hide GroupLaw, Cong, OddPrime, Cubic, OnCurve, Value, IsCompressed;
    var byteLen := (c.bitSize + 7) / 8;
    forall x, y | IsCompressed(c, data, Affine(x, y))
      ensures |data| == 33 && data[0] == 2 + y % 2 && x == Value(data[1..], 256)
      ensures 0 <= x < c.P && OnCurve(c, Affine(x, y))
    {
      CompressedParts(c, data, x, y);
    }
    if |data| != 1 + byteLen {
      return None;
    }
    if data[0] != 2 && data[0] != 3 {
      return None;
    }
    var x := Value(data[1..], 256);
    if x >= c.P {
      return None;
    }
    var poly := Cubic(c, x) % c.P;
    ModTwice(Cubic(c, x), c.P);
    var found, y := ModSqrt(poly, c.P);
    if !found {
      Recover.NoRoot(c, x);
      return None;
    }
    Recover.RootOnCurve(c, x, y);
    Ecdsa.NoOrderTwo(c, Affine(x, y));
    Ecdsa.OddParity(c.P, y);
    if y % 2 != data[0] % 2 {
      Ecdsa.Reflect(c, Affine(x, y));
      NegRange(y, c.P);
      y := (-y) % c.P;
    }
    forall y' | IsCompressed(c, data, Affine(x, y')) ensures y' == y {
      Recover.PointByParity(c, Affine(x, y'), Affine(x, y));
    }
    CompressedBack(c, data, x, y);
    return Some((x, y));
  }

  lemma ModTwice(a: int, p: nat)
    requires p > 0
    ensures (a % p) % p == a % p
  {
    CongMod(a, p);
    NoMod(a % p, p);
  }

  lemma NegRange(y: int, p: nat)
    requires 0 < y < p
    ensures (-y) % p == p - y
  {
    NoMod(y, p);
    Recover.NegMod(y, p);
  }

  lemma CompressedParts(c: Params, data: seq<byte>, x: int, y: int)
    requires Curve256(c) && IsCompressed(c, data, Affine(x, y))
    ensures |data| == 33 && data[0] == 2 + y % 2 && x == Value(data[1..], 256)
    ensures 0 <= x < c.P && OnCurve(c, Affine(x, y))
  {
    CompressParts(c, x, y);
  }

  lemma CompressedBack(c: Params, data: seq<byte>, x: nat, y: nat)
    requires Curve256(c) && |data| == 33 && data[0] == 2 + y % 2 && x == Value(data[1..], 256)
    requires OnCurve(c, Affine(x, y))
    ensures IsCompressed(c, data, Affine(x, y))
  {
    hide Value, Digits, Pad, Cong, Cubic, GroupLaw, OnCurve, Pow;
    CurveRange(c, Affine(x, y));
    PadBytes(x, 32);
    ValueInjective(Pad(Bytes(x), 32), data[1..], 256);
    assert data == [data[0]] + data[1..];
  }

  /** A compressed point determines the point. */
  lemma CompressInjective(c: Params, key: seq<byte>, p: Point, q: Point)
    requires Curve256(c) && IsCompressed(c, key, p) && IsCompressed(c, key, q)
    ensures p == q
  {
    CompressParts(c, p.x, p.y);
    CompressParts(c, q.x, q.y);
    Recover.PointByParity(c, p, q);
  }

  // ---------- derivation ----------

  /** The compressed public key of 32 private bytes. */
  ghost function PubBytes(c: Params, k: seq<byte>): seq<byte>
    requires c.P > 0
  {
    PointBytes(Times(c, Value(k, 256), G(c)))
  }

  ghost predicate IsPublicKey(c: Params, key: seq<byte>)
    requires c.P > 0
  {
    exists p :: IsCompressed(c, key, p)
  }

  ghost predicate WellFormed(c: Params, key: Key)
    requires c.P > 0
  {
    && |key.version| == 4 && |key.childNumber| == 4 && |key.fingerPrint| == 4 && |key.chainCode| == 32
    && if key.isPrivate then |key.key| == 32 && 0 < Value(key.key, 256) < c.N else IsPublicKey(c, key.key)
  }

  ghost function KeyPoint(c: Params, key: seq<byte>): Point
    requires c.P > 0 && IsPublicKey(c, key)
  {
    var p :| IsCompressed(c, key, p);
    p
  }

  /** The compressed public key that belongs to an extended key. */
  ghost function PubOf(c: Params, key: Key): seq<byte>
    requires c.P > 0
  {
    if key.isPrivate then PubBytes(c, key.key) else key.key
  }

  function Uint32Bytes(i: nat): seq<byte> { Pad(Bytes(i), 4) }

  ghost function Intermediary(c: Params, h: Hashes, key: Key, idx: nat): (inter: seq<byte>)
    requires c.P > 0 && OutputSizes(h)
    ensures |inter| == 64
  {
    h.hmac(key.chainCode, (if idx >= HARDENED then [0] + key.key else PubOf(c, key)) + Uint32Bytes(idx))
  }

  /** The child key with the given key bytes and all else as derivation has it. */
  ghost function Made(c: Params, h: Hashes, key: Key, idx: nat, keyBytes: seq<byte>): Key
    requires c.P > 0 && OutputSizes(h)
  {
    Key(keyBytes, if key.isPrivate then PRIVATE_VERSION else PUBLIC_VERSION, Uint32Bytes(idx),
        h.hash160(PubOf(c, key))[..4], Intermediary(c, h, key, idx)[32..], (key.depth + 1) % 256, key.isPrivate)
  }

  ghost function Left(c: Params, h: Hashes, key: Key, idx: nat): nat
    requires c.P > 0 && OutputSizes(h)
  {
    Value(Intermediary(c, h, key, idx)[..32], 256)
  }

  /** Child `idx` as BIP-32 derives it (private to private, public to public); none where the index is invalid. */
  ghost function Derived(c: Params, h: Hashes, key: Key, idx: nat): Option<Key>
    requires c.P > 0 && c.N > 0 && OutputSizes(h) && WellFormed(c, key)
  {
    var il := Left(c, h, key, idx);
    if il >= c.N || (!key.isPrivate && idx >= HARDENED) then None
    else if key.isPrivate then
      var k := (il + Value(key.key, 256)) % c.N;
      if k == 0 then None else Some(Made(c, h, key, idx, Pad(Bytes(k), 32)))
    else
      var sum := Plus(c, Times(c, il, G(c)), KeyPoint(c, key.key));
      if sum.Infinity? then None else Some(Made(c, h, key, idx, PointBytes(sum)))
  }

  /** What the code does: it refuses a private key of zero, and points IL G that have no nonzero abscissa. */
  ghost function Child(c: Params, h: Hashes, key: Key, idx: nat): Result<Key, Error>
    requires c.P > 0 && c.N > 0 && OutputSizes(h) && WellFormed(c, key)
  {
    if !key.isPrivate && idx >= HARDENED then Err(HardenedFromPublic)
    else
      var il := Left(c, h, key, idx);
      if key.isPrivate then
        var k := (il + Value(key.key, 256)) % c.N;
        if k == 0 then Err(InvalidPrivateKey) else Ok(Made(c, h, key, idx, Pad(Bytes(k), 32)))
      else
        var p := Times(c, il, G(c));
        if NoAbscissa(p) then Err(InvalidPublicKey)
        else Ok(Made(c, h, key, idx, PointBytes(Plus(c, p, KeyPoint(c, key.key)))))
  }

  predicate NoAbscissa(p: Point) { p.Infinity? || p.x == 0 }

  predicate Agrees(res: Result<Key, Error>, spec: Option<Key>)
  {
    match spec
    case Some(key) => res == Ok(key)
    case None => res.Err?
  }

  /** Where the code gives what BIP-32 gives. */
  ghost predicate Standard(c: Params, h: Hashes, key: Key, idx: nat)
    requires c.P > 0 && c.N > 0 && OutputSizes(h) && WellFormed(c, key)
  {
    var il := Left(c, h, key, idx);
    var p := Times(c, il, G(c));
    if key.isPrivate then il < c.N || (il + Value(key.key, 256)) % c.N == 0
    else if idx >= HARDENED then true
    else if il >= c.N then NoAbscissa(p)
    else il > 0 && (NoAbscissa(p) <==> Plus(c, p, KeyPoint(c, key.key)).Infinity?)
  }

  ghost function Neuter(c: Params, key: Key): Key
    requires c.P > 0
  {
    Key(PubOf(c, key), PUBLIC_VERSION, key.childNumber, key.fingerPrint, key.chainCode, key.depth, false)
  }

  lemma PubBytesCompressed(c: Params, k: seq<byte>)
    requires Curve256(c) && 0 < Value(k, 256) < c.N
    ensures IsCompressed(c, PubBytes(c, k), Times(c, Value(k, 256), G(c)))
  {
    Ecdsa.NoncePoint(c, Value(k, 256));
  }

  /** The public key of the private child is the child of the public key, in every field. The private side fails
      exactly when the new key is zero, the public side exactly when IL gives no point with a nonzero abscissa. */
  ghost predicate Commutes(c: Params, h: Hashes, key: Key, idx: nat)
    requires c.P > 0 && c.N > 0 && OutputSizes(h) && WellFormed(c, key) && WellFormed(c, Neuter(c, key))
  {
    var il := Left(c, h, key, idx);
    var prv, pub := Child(c, h, key, idx), Child(c, h, Neuter(c, key), idx);
    && (prv.Ok? <==> (il + Value(key.key, 256)) % c.N != 0)
    && (pub.Ok? <==> Times(c, il, G(c)).Affine? && Times(c, il, G(c)).x != 0)
    && (prv.Ok? && pub.Ok? ==> WellFormed(c, prv.value) && Neuter(c, prv.value) == pub.value)
  }

  /** The code agrees with BIP-32 exactly here: same key in all fields, or no key. */
  lemma DerivesAsBip32(c: Params, h: Hashes, key: Key, idx: nat)
    requires Curve256(c) && OutputSizes(h) && WellFormed(c, key)
    ensures Agrees(Child(c, h, key, idx), Derived(c, h, key, idx)) <==> Standard(c, h, key, idx)
  {
    hide GroupLaw, OddPrime, Associative, Times, Plus, PointBytes, Value, Pow, Made, Curve256;
    var il := Left(c, h, key, idx);
    if !key.isPrivate && idx < HARDENED && il < c.N {
      if il == 0 {
        Ecdsa.TimesZero(c, G(c));
        PlusInfinity(c, KeyPoint(c, key.key));
      } else {
        Ecdsa.NoncePoint(c, il);
      }
    }
  }

  /** Deriving and neutering commute. */
  lemma NeuterCommutes(c: Params, h: Hashes, key: Key, idx: nat)
    requires Curve256(c) && OutputSizes(h) && WellFormed(c, key) && key.isPrivate && idx < HARDENED
    ensures WellFormed(c, Neuter(c, key)) && Commutes(c, h, key, idx)
  {
    hide GroupLaw, OddPrime, Associative, Times, Plus, PointBytes, IsCompressed, Value, Pow, Intermediary, Pad,
      Uint32Bytes, Curve256;
    NeuterSame(c, h, key, idx);
    var inter := Intermediary(c, h, key, idx);
    var il, k := Value(inter[..32], 256), Value(key.key, 256);
    KeySum(c, il, k);
    ChildKeySize(c, (il + k) % c.N);
    Uint32Size(idx);
  }

  lemma Uint32Size(idx: nat)
    requires idx < 0x1_0000_0000
    ensures |Uint32Bytes(idx)| == 4 && Value(Uint32Bytes(idx), 256) == idx
  {
    assert Pow(256, 4) == 0x1_0000_0000;
    PadBytes(idx, 4);
  }

  lemma ChildKeySize(c: Params, k: nat)
    requires Curve256(c) && k < c.N
    ensures |Pad(Bytes(k), 32)| == 32 && Value(Pad(Bytes(k), 32), 256) == k
  {
    PadBytes(k, 32);
  }

  /** Neutering changes neither the public key nor, below the hardened range, the HMAC output. */
  lemma NeuterSame(c: Params, h: Hashes, key: Key, idx: nat)
    requires Curve256(c) && OutputSizes(h) && WellFormed(c, key) && key.isPrivate && idx < HARDENED
    ensures WellFormed(c, Neuter(c, key)) && PubOf(c, Neuter(c, key)) == PubOf(c, key)
    ensures Intermediary(c, h, Neuter(c, key), idx) == Intermediary(c, h, key, idx)
    ensures KeyPoint(c, PubOf(c, key)) == Times(c, Value(key.key, 256), G(c))
  {
    hide GroupLaw, OddPrime, Associative, Times, Plus, IsCompressed, PointBytes, Value, Pow;
    PubBytesCompressed(c, key.key);
    CompressInjective(c, PubOf(c, key), KeyPoint(c, PubOf(c, key)), Times(c, Value(key.key, 256), G(c)));
  }

  /** The key at the heart of it: IL G + k G is the public key of IL + k mod N. */
  lemma KeySum(c: Params, il: nat, k: nat)
    requires Curve256(c)
    ensures (il + k) % c.N < c.N
    ensures PointBytes(Plus(c, Times(c, il, G(c)), Times(c, k, G(c))))
            == PubBytes(c, Pad(Bytes((il + k) % c.N), 32))
  {
    hide OddPrime, Associative, Times, Plus, PointBytes, Value, Pow, Pad;
    CongMod(il + k, c.N);
    ChildKeySize(c, (il + k) % c.N);
    TimesAdd(c, il, k, G(c));
    TimesMod(c, il + k, G(c));
  }

  /** As BIP-32 has it, deriving and neutering commute with no exception, up to which indices are invalid. */
  lemma NeuterDerived(c: Params, h: Hashes, key: Key, idx: nat)
    requires Curve256(c) && OutputSizes(h) && WellFormed(c, key) && key.isPrivate && idx < HARDENED
    ensures WellFormed(c, Neuter(c, key))
    ensures Derived(c, h, Neuter(c, key), idx) ==
            match Derived(c, h, key, idx) case Some(child) => Some(Neuter(c, child)) case None => None
  {
    hide GroupLaw, OddPrime, Associative, Times, Plus, PointBytes, IsCompressed, Value, Pow, Intermediary, Pad,
      Uint32Bytes, Curve256;
    NeuterSame(c, h, key, idx);
    var il, k := Left(c, h, key, idx), Value(key.key, 256);
    KeySum(c, il, k);
    ChildKeySize(c, (il + k) % c.N);
    SumInfinite(c, il, k);
  }

  lemma SumInfinite(c: Params, il: nat, k: nat)
    requires Curve256(c)
    ensures Plus(c, Times(c, il, G(c)), Times(c, k, G(c))).Infinity? <==> (il + k) % c.N == 0
  {
    hide OddPrime, Associative, Times, Plus;
    TimesAdd(c, il, k, G(c));
    TimesMod(c, il + k, G(c));
    CongMod(il + k, c.N);
    if (il + k) % c.N == 0 {
      Ecdsa.TimesZero(c, G(c));
    } else {
      Ecdsa.NoncePoint(c, (il + k) % c.N);
    }
  }

  // ---------- what is hashed, and the fields of a child ----------

  /** The point whose key an extended key is. */
  ghost function PointOf(c: Params, key: Key): Point
    requires c.P > 0 && WellFormed(c, key)
  {
    if key.isPrivate then Times(c, Value(key.key, 256), G(c)) else KeyPoint(c, key.key)
  }

  /** 37 bytes: zero and the private key, or the compressed public key; then the index in four bytes. */
  ghost predicate IsHashed(c: Params, key: Key, idx: nat, d: seq<byte>)
    requires c.P > 0 && WellFormed(c, key)
  {
    && |d| == 37 && Value(d[33..], 256) == idx
    && if idx >= HARDENED then d[0] == 0 && d[1..33] == key.key else IsCompressed(c, d[..33], PointOf(c, key))
  }

  /** These bytes are determined, and they are what the HMAC is taken of. */
  lemma WhatIsHashed(c: Params, h: Hashes, key: Key, idx: nat) returns (d: seq<byte>)
    requires Curve256(c) && OutputSizes(h) && WellFormed(c, key) && idx < 0x1_0000_0000
    requires idx >= HARDENED ==> key.isPrivate
    ensures IsHashed(c, key, idx, d) && forall d' :: IsHashed(c, key, idx, d') ==> d' == d
    ensures Intermediary(c, h, key, idx) == h.hmac(key.chainCode, d)
  {
    hide GroupLaw, Times, IsCompressed, Value, Pow, Pad, Digits;
    PubOfPoint(c, key);
    Uint32Size(idx);
    var front := if idx >= HARDENED then [0] + key.key else PubOf(c, key);
    if idx < HARDENED { CompressedSize(c, front, PointOf(c, key)); }
    d := front + Uint32Bytes(idx);
    assert d[..33] == front && d[33..] == Uint32Bytes(idx);
    assert idx >= HARDENED ==> d[1..33] == front[1..] == key.key;
    forall d' | IsHashed(c, key, idx, d') ensures d' == d {
      SameHashed(c, key, idx, d, d');
    }
  }

  lemma SameHashed(c: Params, key: Key, idx: nat, d: seq<byte>, d': seq<byte>)
    requires Curve256(c) && WellFormed(c, key) && IsHashed(c, key, idx, d) && IsHashed(c, key, idx, d')
    ensures d' == d
  {
    hide GroupLaw, Times, Value, Pow, WellFormed, PointOf, IsCompressed;
    ValueInjective(d[33..], d'[33..], 256);
    if idx >= HARDENED {
      assert d[..33] == [d[0]] + d[1..33] && d'[..33] == [d'[0]] + d'[1..33];
    } else {
      SameCompressed(c, d[..33], d'[..33], PointOf(c, key));
    }
    assert d == d[..33] + d[33..] && d' == d'[..33] + d'[33..];
  }

  lemma CompressedSize(c: Params, b: seq<byte>, p: Point)
    requires Curve256(c) && IsCompressed(c, b, p)
    ensures |b| == 33
  {
    CompressParts(c, p.x, p.y);
  }

  lemma PubOfPoint(c: Params, key: Key)
    requires Curve256(c) && WellFormed(c, key)
    ensures IsCompressed(c, PubOf(c, key), PointOf(c, key)) && |PubOf(c, key)| == 33
  {
    hide GroupLaw, Times, IsCompressed, Value, Pow;
    if key.isPrivate {
      PubBytesCompressed(c, key.key);
    }
    CompressedSize(c, PubOf(c, key), PointOf(c, key));
  }

  /**
   The fields of a child, whether of the code or of BIP-32: version, index and depth, the fingerprint of the
   parent's compressed point, the right half of the HMAC, and the key that the left half gives.
   */
  ghost predicate IsChild(c: Params, h: Hashes, key: Key, idx: nat, child: Key)
    requires c.P > 0 && c.N > 0 && OutputSizes(h) && WellFormed(c, key)
  {
    && child.isPrivate == key.isPrivate
    && child.version == (if key.isPrivate then [0x04, 0x88, 0xAD, 0xE4] else [0x04, 0x88, 0xB2, 0x1E])
    && |child.childNumber| == 4 && Value(child.childNumber, 256) == idx
    && child.depth == (if key.depth == 255 then 0 else key.depth + 1)
    && (forall pub :: IsCompressed(c, pub, PointOf(c, key)) ==> child.fingerPrint == h.hash160(pub)[..4])
    && (forall d :: IsHashed(c, key, idx, d) ==>
          child.chainCode == h.hmac(key.chainCode, d)[32..]
          && IsChildKey(c, key, Value(h.hmac(key.chainCode, d)[..32], 256), child.key))
  }

  /** IL plus the parent's key modulo N in 32 bytes; or IL G plus the parent's point, and 2 and zeros for infinity. */
  ghost predicate IsChildKey(c: Params, key: Key, il: nat, childKey: seq<byte>)
    requires c.P > 0 && c.N > 0 && WellFormed(c, key)
  {
    if key.isPrivate then |childKey| == 32 && Value(childKey, 256) == (il + Value(key.key, 256)) % c.N
    else
      var sum := Plus(c, Times(c, il, G(c)), KeyPoint(c, key.key));
      if sum.Infinity? then childKey == [2] + Zeros(32) else IsCompressed(c, childKey, sum)
  }

  lemma ChildFields(c: Params, h: Hashes, key: Key, idx: nat, child: Key)
    requires Curve256(c) && OutputSizes(h) && WellFormed(c, key) && idx < 0x1_0000_0000
    requires Child(c, h, key, idx) == Ok(child) || Derived(c, h, key, idx) == Some(child)
    ensures IsChild(c, h, key, idx, child)
  {
    hide GroupLaw, Times, Plus, IsCompressed, Value, Pow, Pad, Digits, PointBytes, IsChildKey, WellFormed, IsHashed;
    var d := WhatIsHashed(c, h, key, idx);
    PubOfPoint(c, key);
    Uint32Size(idx);
    forall pub | IsCompressed(c, pub, PointOf(c, key)) ensures pub == PubOf(c, key) {
      SameCompressed(c, pub, PubOf(c, key), PointOf(c, key));
    }
    ChildKeyIs(c, key, Left(c, h, key, idx));
  }

  lemma SameCompressed(c: Params, a: seq<byte>, b: seq<byte>, p: Point)
    requires c.P > 0 && IsCompressed(c, a, p) && IsCompressed(c, b, p)
    ensures a == b
  {
  }

  lemma ChildKeyIs(c: Params, key: Key, il: nat)
    requires Curve256(c) && WellFormed(c, key)
    ensures key.isPrivate ==> IsChildKey(c, key, il, Pad(Bytes((il + Value(key.key, 256)) % c.N), 32))
    ensures !key.isPrivate ==>
              IsChildKey(c, key, il, PointBytes(Plus(c, Times(c, il, G(c)), KeyPoint(c, key.key))))
  {
    hide GroupLaw, OddPrime, Associative, Times, Plus, Value, Pow, Pad;
    if key.isPrivate {
      CongMod(il + Value(key.key, 256), c.N);
      ChildKeySize(c, (il + Value(key.key, 256)) % c.N);
    } else {
      TimesOnCurve(c, il, G(c));
      PlusOnCurve(c, Times(c, il, G(c)), KeyPoint(c, key.key));
      ZeroPoint();
    }
  }

  lemma ZeroPoint()
    ensures PointBytes(Infinity) == [2] + Zeros(32)
  {
    assert Pad(Bytes(0), 32) == Zeros(32);
  }

  // ---------- where the code departs from BIP-32 ----------

  /** Every number of 32 bytes is the IL of some hash functions. */
  lemma AnyLeft(c: Params, key: Key, idx: nat, il: nat) returns (h: Hashes)
    requires c.P > 0 && il < Pow(256, 32)
    ensures OutputSizes(h) && Left(c, h, key, idx) == il
  {
    hide Pow, Value;
    PadBytes(il, 32);
    h := Hashes((k, d) => Pad(Bytes(il), 32) + Zeros(32), d => Zeros(20), d => Zeros(4));
    assert Intermediary(c, h, key, idx)[..32] == Pad(Bytes(il), 32);
  }

  /** IL = N is invalid in BIP-32, but from every private key the code derives a child, with the parent's key. */
  lemma OrderAccepted(c: Params, h: Hashes, key: Key, idx: nat)
    requires Curve256(c) && OutputSizes(h) && WellFormed(c, key) && key.isPrivate && Left(c, h, key, idx) == c.N
    ensures c.N < Pow(256, 32) && Derived(c, h, key, idx).None?
    ensures Child(c, h, key, idx) == Ok(Made(c, h, key, idx, Pad(Bytes(Value(key.key, 256)), 32)))
  {
    hide OutputSizes, Value, Made, Left, Pad, Digits, GroupLaw, Pow;
    EvenPow(32);
    DivModUnique(1, Value(key.key, 256), c.N);
  }

  lemma EvenPow(k: nat)
    requires k > 0
    ensures Pow(256, k) % 2 == 0
  {
    assert Pow(256, k) == 256 * Pow(256, k - 1);
    hide Pow;
  }

  lemma KeyPointIs(c: Params, key: seq<byte>, p: Point)
    requires Curve256(c) && IsCompressed(c, key, p)
    ensures KeyPoint(c, key) == p
  {
    CompressInjective(c, key, KeyPoint(c, key), p);
  }

  /** For every public key there is an IL whose sum is infinity: the code returns a key with abscissa zero. */
  lemma InfinityAccepted(c: Params, h: Hashes, key: Key, idx: nat, k: nat)
    requires Curve256(c) && OutputSizes(h) && WellFormed(c, key) && !key.isPrivate && idx < HARDENED
    requires 0 < k < c.N && IsCompressed(c, key.key, Times(c, k, G(c))) && Times(c, k, G(c)).x != 0
    requires Left(c, h, key, idx) == c.N - k
    ensures Derived(c, h, key, idx).None? && Child(c, h, key, idx) == Ok(Made(c, h, key, idx, Compress(0, 0)))
  {
    hide GroupLaw, Associative, OddPrime, Times, Plus, Made, Left, Pow, IsCompressed, Compress, OnCurve, OutputSizes,
      Curve256, WellFormed, KeyPoint;
    Ecdsa.OppositeMultiple(c, k);
    KeyPointIs(c, key.key, Times(c, k, G(c)));
    SumInfinite(c, c.N - k, k);
    NoMod(0, c.N);
  }

  /** IL = 0 gives the parent's point in BIP-32, but the code refuses it on the public side. */
  lemma ZeroRefused(c: Params, h: Hashes, key: Key, idx: nat)
    requires Curve256(c) && OutputSizes(h) && WellFormed(c, key) && !key.isPrivate && idx < HARDENED
    requires Left(c, h, key, idx) == 0
    ensures Child(c, h, key, idx) == Err(InvalidPublicKey)
    ensures Derived(c, h, key, idx) == Some(Made(c, h, key, idx, key.key))
  {
    hide GroupLaw, Associative, OddPrime, Times, Plus, Value, Made, Left, Pow;
    Ecdsa.TimesZero(c, G(c));
    PlusInfinity(c, KeyPoint(c, key.key));
  }

  method PublicKeyForPrivateKey(c: Params, key: seq<byte>) returns (pub: seq<byte>)
    requires Curve256(c)
    ensures pub == PubBytes(c, key)
  {
    hide GroupLaw, OddPrime, Associative, Times;
    var x, y := ScalarMult(c, c.Gx, c.Gy, key);
    TimesOnCurve(c, Value(key, 256), G(c));
    pub := CompressPublicKey(x, y);
  }

  method AddPublicKeys(c: Params, key1: seq<byte>, key2: seq<byte>, ghost p: Point, ghost q: Point)
      returns (sum: seq<byte>)
    requires Curve256(c) && IsCompressed(c, key1, p) && IsCompressed(c, key2, q)
    ensures sum == PointBytes(Plus(c, p, q))
  {
    CompressParts(c, p.x, p.y);
    CompressParts(c, q.x, q.y);
    hide OddPrime, Associative, Plus;
    var x1, y1 := ExpandPublicKey(c, key1);
    var x2, y2 := ExpandPublicKey(c, key2);
    var x, y := AddPoints(c, x1, y1, x2, y2, p, q);
    PlusOnCurve(c, p, q);
    sum := CompressPublicKey(x, y);
  }

  function AddPrivateKeys(c: Params, key1: seq<byte>, key2: seq<byte>): seq<byte>
    requires c.N > 0
  {
    Pad(Bytes((Value(key1, 256) + Value(key2, 256)) % c.N), 32)
  }

  /** The source compares the hexadecimal string with zeros and the bytes with those of N. */
  predicate ValidPrivateKey(c: Params, key: seq<byte>)
  {
    |key| == 32 && Value(key, 256) != 0 && Value(key, 256) < c.N
  }

  method NewChildKey(c: Params, h: Hashes, key: Key, idx: nat) returns (res: Result<Key, Error>)
    requires Curve256(c) && OutputSizes(h) && WellFormed(c, key) && idx < 0x1_0000_0000
    ensures res == Child(c, h, key, idx)
    ensures res.Ok? ==> IsChild(c, h, key, idx, res.value)
    ensures Agrees(res, Derived(c, h, key, idx)) <==> Standard(c, h, key, idx)
  {
    hide GroupLaw, OddPrime, Associative, Times, Plus, IsCompressed, PointBytes, Value, Pow, Derived, Standard, Agrees,
      IsChild;
    DerivesAsBip32(c, h, key, idx);
    forall child | Child(c, h, key, idx) == Ok(child) ensures IsChild(c, h, key, idx, child) {
      ChildFields(c, h, key, idx, child);
    }
    if !key.isPrivate && idx >= HARDENED {
      return Err(HardenedFromPublic);
    }
    var pub := key.key;
    if key.isPrivate {
      pub := PublicKeyForPrivateKey(c, key.key);
    }
    var data := if idx >= HARDENED then [0] + key.key else pub;
    data := data + Uint32Bytes(idx);
    var intermediary := h.hmac(key.chainCode, data);
    var fingerprint := h.hash160(pub);
    var depth: byte := (key.depth + 1) % 256;
    var il := intermediary[..32];
    if key.isPrivate {
      var childKey := AddPrivateKeys(c, il, key.key);
      CongMod(Value(il, 256) + Value(key.key, 256), c.N);
      PadBytes((Value(il, 256) + Value(key.key, 256)) % c.N, 32);
      if !ValidPrivateKey(c, childKey) {
        return Err(InvalidPrivateKey);
      }
      return Ok(Key(childKey, PRIVATE_VERSION, Uint32Bytes(idx), fingerprint[..4], intermediary[32..], depth, true));
    } else {
      var keyBytes := PublicKeyForPrivateKey(c, il);
      ghost var p := Times(c, Value(il, 256), G(c));
      TimesOnCurve(c, Value(il, 256), G(c));
      PubForm(c, p);
      var x, y := ExpandPublicKey(c, keyBytes);
      if x == 0 || y == 0 {
        return Err(InvalidPublicKey);
      }
      var sum := AddPublicKeys(c, keyBytes, key.key, p, KeyPoint(c, key.key));
      return Ok(Key(sum, PUBLIC_VERSION, Uint32Bytes(idx), fingerprint[..4], intermediary[32..], depth, false));
    }
  }

  lemma PubForm(c: Params, p: Point)
    requires Curve256(c) && OnCurve(c, p)
    ensures p.Affine? ==> IsCompressed(c, PointBytes(p), p) && p.y != 0
    ensures |PointBytes(p)| > 0
    ensures p.Infinity? ==> Value(PointBytes(p)[1..], 256) == 0
  {
    if p.Affine? {
      Ecdsa.NoOrderTwo(c, p);
    } else {
      CompressParts(c, 0, 0);
    }
  }

  // ---------- serialization ----------

  function Serialize(h: Hashes, key: Key): seq<byte>
  {
    var keyBytes := if key.isPrivate then [0] + key.key else key.key;
    var buffer := key.version + [key.depth] + key.fingerPrint + key.childNumber + key.chainCode + keyBytes;
    buffer + h.checksum(buffer)
  }

  function Deserialize(h: Hashes, data: seq<byte>): Result<Key, Error>
  {
    if |data| != 82 then Err(WrongSize)
    else
      var isPrivate := data[45] == 0;
      var key := Key(if isPrivate then data[46..78] else data[45..78], data[0..4], data[9..13], data[5..9],
                     data[13..45], data[4], isPrivate);
      if h.checksum(data[0..78]) != data[78..] then Err(BadChecksum) else Ok(key)
  }

  /** The shape of an extended key: field lengths, and a public key that does not start with zero. */
  predicate Shaped(key: Key)
  {
    && |key.version| == 4 && |key.childNumber| == 4 && |key.fingerPrint| == 4 && |key.chainCode| == 32
    && if key.isPrivate then |key.key| == 32 else |key.key| == 33 && key.key[0] != 0
  }

  /** Where each field is in the 82 bytes. */
  lemma Layout(h: Hashes, key: Key)
    requires OutputSizes(h) && Shaped(key)
    ensures var data := Serialize(h, key);
            && |data| == 82
            && data[0..4] == key.version && data[4] == key.depth && data[5..9] == key.fingerPrint
            && data[9..13] == key.childNumber && data[13..45] == key.chainCode
            && (if key.isPrivate then data[45] == 0 && data[46..78] == key.key else data[45..78] == key.key)
            && data[78..82] == h.checksum(data[0..78])
  {
    var keyBytes := if key.isPrivate then [0] + key.key else key.key;
    var head := key.version + [key.depth] + key.fingerPrint + key.childNumber + key.chainCode;
    var buffer := head + keyBytes;
    var data := Serialize(h, key);
    assert data == buffer + h.checksum(buffer) && |head| == 45 && |buffer| == 78;
    assert data[0..78] == buffer && data[78..82] == h.checksum(buffer);
    assert data[0..4] == key.version && data[4] == key.depth && data[5..9] == key.fingerPrint;
    assert data[9..13] == key.childNumber && data[13..45] == key.chainCode;
    assert data[45..78] == keyBytes && data[45] == keyBytes[0];
    assert data[46..78] == keyBytes[1..];
    assert key.isPrivate ==> keyBytes[1..] == key.key;
  }

  lemma DeserializeSerialize(h: Hashes, key: Key)
    requires OutputSizes(h) && Shaped(key)
    ensures Deserialize(h, Serialize(h, key)) == Ok(key)
  {
    hide Serialize;
    Layout(h, key);
    var data := Serialize(h, key);
    assert data[78..] == data[78..82];
    assert !key.isPrivate ==> data[45] == data[45..78][0];
  }

  lemma SerializeDeserialize(h: Hashes, data: seq<byte>)
    requires Deserialize(h, data).Ok?
    ensures Shaped(Deserialize(h, data).value) && Serialize(h, Deserialize(h, data).value) == data
  {
    var key := Deserialize(h, data).value;
    var keyBytes := if key.isPrivate then [0] + key.key else key.key;
    assert keyBytes == data[45..78];
    assert data[0..4] + [data[4]] == data[..5];
    assert data[..5] + data[5..9] == data[..9];
    assert data[..9] + data[9..13] == data[..13];
    assert data[..13] + data[13..45] == data[..45];
    assert data[..45] + data[45..78] == data[..78];
    assert data[..78] == data[0..78] && data[..78] + data[78..] == data;
  }

  /** `B58Serialize` and `B58Deserialize`. */
  lemma B58RoundTrip(h: Hashes, key: Key)
    requires OutputSizes(h) && Shaped(key)
    ensures Deserialize(h, Base58.Decoded(Base58.Encoded(Serialize(h, key)))) == Ok(key)
  {
    Base58.DecodeEncode(Serialize(h, key));
    DeserializeSerialize(h, key);
  }

  method B58Serialize(h: Hashes, key: Key) returns (s: seq<byte>)
    requires OutputSizes(h)
    ensures s == Base58.Encoded(Serialize(h, key))
  {
    s := Base58.Encode(Serialize(h, key));
  }

  method B58Deserialize(h: Hashes, s: seq<byte>) returns (res: Result<Key, Error>)
    requires OutputSizes(h)
    ensures forall key :: Shaped(key) && s == Base58.Encoded(Serialize(h, key)) ==> res == Ok(key)
    ensures res.Ok? ==> Shaped(res.value) && Base58.Decoded(s) == Serialize(h, res.value)
  {
    var b := Base58.Decode(s);
    res := Deserialize(h, b);
    forall key | Shaped(key) && s == Base58.Encoded(Serialize(h, key)) ensures res == Ok(key) {
      B58RoundTrip(h, key);
    }
    if res.Ok? { SerializeDeserialize(h, b); }
  }
}
