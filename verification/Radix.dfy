/** Positional notation: the value of a digit string, most significant digit first, in any base. */
module Radix {

  type byte = x: int | 0 <= x < 256

  function Pow(b: nat, e: nat): (p: nat)
    ensures b >= 1 ==> p >= 1
  {
    if e == 0 then 1 else b * Pow(b, e - 1)
  }

  /** The number written by `ds` in base `b`. */
  function Value(ds: seq<nat>, b: nat): nat
  {
    if ds == [] then 0 else Value(ds[..|ds| - 1], b) * b + ds[|ds| - 1]
  }

  /** The shortest digit string for `n`; zero has no digits. */
  function Digits(n: nat, b: nat): (ds: seq<nat>)
    requires b >= 2
    ensures Below(ds, b)
    ensures n == 0 <==> ds == []
    ensures n > 0 ==> ds[0] != 0
  {
    if n == 0 then [] else DivLess(n, b); Digits(n / b, b) + [n % b]
  }

  ghost predicate Below(ds: seq<nat>, b: nat)
  {
    forall i :: 0 <= i < |ds| ==> ds[i] < b
  }

  function Zeros(k: nat): (z: seq<byte>)
    ensures |z| == k && forall i :: 0 <= i < k ==> z[i] == 0
  {
    seq(k, _ => 0)
  }

  lemma MulMono(x: int, y: int, k: nat)
    requires x <= y
    ensures x * k <= y * k
  {
  }

  lemma MulGap(d: int, b: nat)
    ensures d >= 1 ==> d * b >= b
    ensures d <= -1 ==> d * b <= -(b as int)
  {
    if d >= 1 { MulMono(1, d, b); }
    if d <= -1 { MulMono(d, -1, b); }
  }

  lemma DivLess(n: nat, b: nat)
    requires n > 0 && b >= 2
    ensures 0 <= n / b < n && 0 <= n % b < b
    ensures n == (n / b) * b + n % b
  {
    MulMono(2, b, n);
    MulGap(n / b - n, b);
  }

  lemma DivModUnique(q: nat, r: nat, b: nat)
    requires r < b
    ensures (q * b + r) / b == q && (q * b + r) % b == r
  {
    var n := q * b + r;
    assert n == (n / b) * b + n % b;
    assert (n / b - q) * b == r - n % b;
    MulGap(n / b - q, b);
  }

  /** Quotient and remainder. */
  lemma DivMod(n: nat, b: nat)
    requires b > 0
    ensures 0 <= n / b && 0 <= n % b < b && n == (n / b) * b + n % b
  {
    MulGap(n / b, b);
  }

  /** Dividing twice is dividing by the product. */
  lemma DivDivBy(n: nat, b: nat, k: nat)
    requires b > 0 && k > 0
    ensures 0 <= n / b && (n / b) / k == n / (b * k)
  {
    DivMod(n, b);
    DivMod(n / b, k);
    DivUnique(n, b, k, n / b / k, n / b % k, n % b);
  }

  lemma DivUnique(n: nat, b: nat, k: nat, d: nat, x: nat, y: nat)
    requires b > 0 && k > 0 && x < k && y < b && n == (d * k + x) * b + y
    ensures b * k > 0 && n / (b * k) == d
  {
    var r, m := x * b + y, b * k;
    MulMono(x + 1, k, b);
    Expand(x, 1, b);
    MulComm(k, b);
    Expand(d * k, x, b);
    MulAssoc(d, k, b);
    QuotientIs(n, d, r, m);
  }

  lemma QuotientIs(n: nat, q: nat, r: nat, m: nat)
    requires r < m && n == q * m + r
    ensures n / m == q
  {
    DivModUnique(q, r, m);
  }

  lemma Expand(x: int, y: int, b: int)
    ensures (x + y) * b == x * b + y * b
  {
  }

  lemma MulComm(x: int, y: int)
    ensures x * y == y * x
  {
  }

  lemma MulAssoc(x: int, y: int, z: int)
    ensures x * y * z == x * (y * z)
  {
  }

  lemma PowAdd(b: nat, i: nat, j: nat)
    ensures Pow(b, i + j) == Pow(b, i) * Pow(b, j)
  {
    if i > 0 {
      PowAdd(b, i - 1, j);
      MulAssoc(b, Pow(b, i - 1), Pow(b, j));
    }
  }

  lemma PowersOfTwo()
    ensures Pow(2, 0) == 1 && Pow(2, 1) == 2 && Pow(2, 2) == 4 && Pow(2, 3) == 8 && Pow(2, 4) == 16
    ensures Pow(2, 5) == 32 && Pow(2, 6) == 64 && Pow(2, 7) == 128 && Pow(2, 8) == 256 && Pow(2, 11) == 2048
  {
    assert Pow(2, 1) == 2 && Pow(2, 2) == 4 && Pow(2, 3) == 8 && Pow(2, 4) == 16;
    PowAdd(2, 4, 1);
    PowAdd(2, 4, 2);
    PowAdd(2, 4, 3);
    PowAdd(2, 4, 4);
    PowAdd(2, 8, 3);
  }

  lemma {:induction false} PowBits(k: nat)
    ensures Pow(2, 8 * k) == Pow(256, k)
  {
    if k > 0 {
      PowBits(k - 1);
      PowAdd(2, 8, 8 * (k - 1));
      PowersOfTwo();
      assert 8 + 8 * (k - 1) == 8 * k;
    }
  }

  lemma PowMono(b: nat, i: nat, j: nat)
    requires b >= 1 && i <= j
    ensures Pow(b, i) <= Pow(b, j)
  {
    hide Pow;
    PowAdd(b, i, j - i);
    MulMono(1, Pow(b, j - i), Pow(b, i));
  }

  lemma Horner(v: nat, p: nat, w: nat, d: nat, b: nat)
    ensures (v * p + w) * b + d == v * (b * p) + (w * b + d)
  {
    MulAssoc(v, p, b);
  }

  lemma {:induction false} ValueConcat(x: seq<nat>, y: seq<nat>, b: nat)
    ensures Value(x + y, b) == Value(x, b) * Pow(b, |y|) + Value(y, b)
  {
    if y == [] {
      assert x + y == x;
    } else {
      var y' := y[..|y| - 1];
      assert (x + y)[..|x + y| - 1] == x + y';
      ValueConcat(x, y', b);
      Horner(Value(x, b), Pow(b, |y'|), Value(y', b), y[|y| - 1], b);
    }
  }

  lemma HornerBound(v: nat, d: nat, p: nat, b: nat)
    requires v < p && d < b
    ensures v * b + d < b * p
  {
    MulMono(v + 1, p, b);
  }

  lemma {:induction false} ValueBound(ds: seq<nat>, b: nat)
    requires Below(ds, b)
    ensures Value(ds, b) < Pow(b, |ds|)
  {
    if ds != [] {
      ValueBound(ds[..|ds| - 1], b);
      HornerBound(Value(ds[..|ds| - 1], b), ds[|ds| - 1], Pow(b, |ds| - 1), b);
    }
  }

  /** A string without leading zero is at least the power its length names. */
  lemma ValueLower(ds: seq<nat>, b: nat)
    requires ds != [] && ds[0] != 0
    ensures Value(ds, b) >= Pow(b, |ds| - 1)
  {
    assert ds == [ds[0]] + ds[1..];
    ValueConcat([ds[0]], ds[1..], b);
    assert Value([ds[0]], b) == ds[0];
    MulMono(1, ds[0], Pow(b, |ds| - 1));
  }

  lemma {:induction false} ValueZeros(k: nat, ds: seq<nat>, b: nat)
    ensures Value(Zeros(k) + ds, b) == Value(ds, b)
  {
    ValueConcat(Zeros(k), ds, b);
    ZerosValue(k, b);
  }

  lemma {:induction false} ZerosValue(k: nat, b: nat)
    ensures Value(Zeros(k), b) == 0
  {
    if k > 0 {
      assert Zeros(k)[..k - 1] == Zeros(k - 1);
      ZerosValue(k - 1, b);
    }
  }

  lemma {:induction false} DigitsValue(n: nat, b: nat)
    requires b >= 2
    ensures Value(Digits(n, b), b) == n
  {
    if n > 0 {
      DivLess(n, b);
      DigitsValue(n / b, b);
      var ds := Digits(n, b);
      assert ds[..|ds| - 1] == Digits(n / b, b);
    }
  }

  /** Digit strings of one length are told apart by their values. */
  lemma {:induction false} ValueInjective(x: seq<nat>, y: seq<nat>, b: nat)
    requires |x| == |y| && Below(x, b) && Below(y, b)
    requires Value(x, b) == Value(y, b)
    ensures x == y
  {
    if x != [] {
      var n := |x| - 1;
      DivModUnique(Value(x[..n], b), x[n], b);
      DivModUnique(Value(y[..n], b), y[n], b);
      ValueInjective(x[..n], y[..n], b);
      assert x == x[..n] + [x[n]] && y == y[..n] + [y[n]];
    }
  }

  /** The only string without leading zeros that has the value `Value(ds, b)` is `ds`. */
  lemma {:induction false} ValueDigits(ds: seq<nat>, b: nat)
    requires b >= 2 && Below(ds, b)
    requires ds == [] || ds[0] != 0
    ensures Digits(Value(ds, b), b) == ds
  {
    if ds != [] {
      var n := |ds| - 1;
      DivModUnique(Value(ds[..n], b), ds[n], b);
      ValueLower(ds, b);
      ValueDigits(ds[..n], b);
      assert ds == ds[..n] + [ds[n]];
    }
  }

  lemma DigitsLength(n: nat, b: nat, k: nat)
    requires b >= 2
    ensures |Digits(n, b)| <= k <==> n < Pow(b, k)
  {
    var ds := Digits(n, b);
    DigitsValue(n, b);
    ValueBound(ds, b);
    if |ds| <= k {
      PowMono(b, |ds|, k);
    } else {
      ValueLower(ds, b);
      PowMono(b, k, |ds| - 1);
    }
  }

  /** math/big's Bytes and SetBytes. */
  function Bytes(n: nat): (bs: seq<byte>)
    ensures bs == Digits(n, 256)
  {
    var ds := Digits(n, 256);
    assert forall i :: 0 <= i < |ds| ==> 0 <= ds[i] < 256;
    ds
  }

  /** The bit length of a natural number. */
  function BitLen(i: nat): nat { |Digits(i, 2)| }

  /** math/big's FillBytes: the number in exactly `size` bytes. */
  function Fill(n: nat, size: nat): (b: seq<byte>)
    requires |Bytes(n)| <= size
    ensures |b| == size
  {
    Zeros(size - |Bytes(n)|) + Bytes(n)
  }

  lemma FillValue(n: nat, size: nat)
    requires |Bytes(n)| <= size
    ensures Value(Fill(n, size), 256) == n
  {
    ValueZeros(size - |Bytes(n)|, Bytes(n), 256);
    DigitsValue(n, 256);
  }

  lemma BytesValue(n: nat)
    ensures Value(Bytes(n), 256) == n
  {
    DigitsValue(n, 256);
  }

  /** Left padding with zero bytes up to `size`; a longer string is left alone. */
  function Pad(b: seq<byte>, size: nat): seq<byte>
  {
    if |b| < size then Zeros(size - |b|) + b else b
  }

  lemma PadBytes(n: nat, size: nat)
    requires n < Pow(256, size)
    ensures |Pad(Bytes(n), size)| == size && Value(Pad(Bytes(n), size), 256) == n
  {
    DigitsLength(n, 256, size);
    BytesValue(n);
    if |Bytes(n)| < size { ValueZeros(size - |Bytes(n)|, Bytes(n), 256); }
  }
}
