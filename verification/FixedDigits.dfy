/** Digit strings of a fixed length, and regrouping bits into larger digits. */
module FixedDigits {
  import opened Radix

  /** The last `len` digits of `n`. */
  function Fixed(n: nat, b: nat, len: nat): (ds: seq<nat>)
    requires b >= 2
    ensures |ds| == len && Below(ds, b)
  {
    if len == 0 then [] else
      DivMod(n, b);
      Fixed(n / b, b, len - 1) + [n % b]
  }

  lemma {:induction false} FixedValue(n: nat, b: nat, len: nat)
    requires b >= 2 && n < Pow(b, len)
    ensures Value(Fixed(n, b, len), b) == n
  {
    hide Pow, Fixed, Value;
    if len == 0 {
      PowZero(b);
      FixedNone(n, b);
      NoDigits(b);
    } else {
      PowUnfold(b, len);
      QuotientBound(n, b, Pow(b, len - 1));
      FixedValue(n / b, b, len - 1);
      FixedLast(n, b, len);
      ValueSnoc(Fixed(n / b, b, len - 1), n % b, b);
    }
  }

  lemma FixedNone(n: nat, b: nat)
    requires b >= 2
    ensures Fixed(n, b, 0) == []
  {
  }

  lemma FixedLast(n: nat, b: nat, len: nat)
    requires b >= 2 && len > 0
    ensures 0 <= n / b && 0 <= n % b
    ensures Fixed(n, b, len) == Fixed(n / b, b, len - 1) + [n % b]
  {
    DivMod(n, b);
  }

  lemma ValueSnoc(ds: seq<nat>, d: nat, b: nat)
    ensures Value(ds + [d], b) == Value(ds, b) * b + d
  {
    assert (ds + [d])[..|ds|] == ds;
  }

  lemma PowUnfold(b: nat, e: nat)
    requires e > 0
    ensures Pow(b, e) == b * Pow(b, e - 1)
  {
  }

  lemma PowZero(b: nat)
    ensures Pow(b, 0) == 1
  {
  }

  lemma QuotientBound(n: nat, b: nat, p: nat)
    requires b >= 2 && n < b * p
    ensures 0 <= n / b < p && n == (n / b) * b + n % b
  {
    DivMod(n, b);
    MulGap(n / b - p, b);
    assert (n / b - p) * b == (n / b) * b - p * b;
  }

  lemma {:induction false} FixedOfValue(ds: seq<nat>, b: nat)
    requires b >= 2 && Below(ds, b)
    ensures Fixed(Value(ds, b), b, |ds|) == ds
  {
    if ds != [] {
      var n := |ds| - 1;
      DivModUnique(Value(ds[..n], b), ds[n], b);
      FixedOfValue(ds[..n], b);
      assert ds == ds[..n] + [ds[n]];
    }
  }

  /** The first digits are the digits of the number without its last ones. */
  lemma {:induction false} FixedPrefix(n: nat, b: nat, len: nat, k: nat)
    requires b >= 2 && k <= len
    ensures 0 <= n / Pow(b, len - k)
    ensures Fixed(n, b, len)[..k] == Fixed(n / Pow(b, len - k), b, k)
  {
    hide Pow, Fixed;
    if k == len {
      PowZero(b);
      assert n / 1 == n;
    } else {
      FixedLast(n, b, len);
      FixedPrefix(n / b, b, len - 1, k);
      PowUnfold(b, len - k);
      DivDivBy(n, b, Pow(b, len - 1 - k));
      assert len - 1 - k == len - k - 1;
      assert Fixed(n, b, len)[..k] == Fixed(n / b, b, len - 1)[..k];
    }
  }

  /** One digit more at the end. */
  lemma FixedSnoc(n: nat, b: nat, len: nat)
    requires b >= 2
    ensures 0 <= n / b
    ensures Fixed(n, b, len + 1) == Fixed(n / b, b, len) + [n % b]
  {
    DivMod(n, b);
  }

  // ---------- bits ----------

  /** Every digit written out in `k` bits. */
  function Bits(ds: seq<nat>, k: nat): (bs: seq<nat>)
    ensures |bs| == k * |ds| && Below(bs, 2)
  {
    if ds == [] then [] else
      var n := |ds| - 1;
      assert k * |ds| == k * n + k;
      Bits(ds[..n], k) + Fixed(ds[n], 2, k)
  }

  lemma {:induction false} BitsValue(ds: seq<nat>, k: nat)
    requires Below(ds, Pow(2, k))
    ensures Value(Bits(ds, k), 2) == Value(ds, Pow(2, k))
  {
    if ds != [] {
      var n := |ds| - 1;
      BitsValue(ds[..n], k);
      ValueConcat(Bits(ds[..n], k), Fixed(ds[n], 2, k), 2);
      FixedValue(ds[n], 2, k);
    }
  }

  /** Consecutive groups of `k` bits read as digits. */
  function Groups(bs: seq<nat>, k: nat): (ds: seq<nat>)
    requires k > 0 && |bs| % k == 0
    ensures |ds| * k == |bs|
    decreases |bs|
  {
    if bs == [] then [] else
      ShortLength(|bs|, k);
      var init := Groups(bs[..|bs| - k], k);
      PredMul(|init| + 1, k);
      init + [Value(bs[|bs| - k..], 2)]
  }

  lemma ShortLength(n: nat, k: nat)
    requires k > 0 && n > 0 && n % k == 0
    ensures n >= k && (n - k) % k == 0
  {
    var q := n / k;
    MulGap(q, k);
    assert n == q * k;
    PredMul(q, k);
    DivModUnique(q - 1, 0, k);
  }

  lemma PredMul(q: int, k: int)
    ensures (q - 1) * k == q * k - k
  {
  }

  lemma CancelMul(a: int, b: int, k: nat)
    requires k > 0 && a * k == b * k
    ensures a == b
  {
    MulGap(a - b, k);
    assert (a - b) * k == a * k - b * k;
  }

  lemma {:induction false} GroupsValue(bs: seq<nat>, k: nat)
    requires k > 0 && |bs| % k == 0 && Below(bs, 2)
    ensures Below(Groups(bs, k), Pow(2, k))
    ensures Value(Groups(bs, k), Pow(2, k)) == Value(bs, 2)
    decreases |bs|
  {
    hide Pow, Value;
    if bs == [] {
      NoDigits(2);
      NoDigits(Pow(2, k));
    } else {
      ShortLength(|bs|, k);
      var init, last := bs[..|bs| - k], bs[|bs| - k..];
      GroupsValue(init, k);
      ValueConcat(init, last, 2);
      ValueBound(last, 2);
      assert bs == init + last;
      assert Groups(bs, k) == Groups(init, k) + [Value(last, 2)];
      ValueSnoc(Groups(init, k), Value(last, 2), Pow(2, k));
    }
  }

  lemma NoDigits(b: nat)
    ensures Value([], b) == 0
  {
  }

  /** Groups are taken from the front as well as from the back. */
  lemma {:induction false} GroupsFront(g: seq<nat>, bs: seq<nat>, k: nat)
    requires k > 0 && |g| == k && |bs| % k == 0
    ensures |g + bs| % k == 0
    ensures Groups(g + bs, k) == [Value(g, 2)] + Groups(bs, k)
    decreases |bs|
  {
    var q := |bs| / k;
    assert |g + bs| == (q + 1) * k;
    MulGap(q, k);
    DivModUnique(q + 1, 0, k);
    if bs == [] {
      assert g + bs == g;
      assert g[..0] == [] && g[|g| - k..] == g;
    } else {
      ShortLength(|bs|, k);
      var init, last := bs[..|bs| - k], bs[|bs| - k..];
      GroupsFront(g, init, k);
      assert (g + bs)[..|g + bs| - k] == g + init && (g + bs)[|g + bs| - k..] == last;
    }
  }

  lemma TwoPow(k: nat)
    requires k > 0
    ensures Pow(2, k) >= 2
  {
    PowMono(2, 1, k);
    assert Pow(2, 1) == 2;
  }

  /** Both ways: the digits of a bit string's value in base 2^k are its groups of k bits. */
  lemma GroupsAreDigits(bs: seq<nat>, k: nat, m: nat)
    requires k > 0 && |bs| == m * k && Below(bs, 2)
    ensures |bs| % k == 0 && Pow(2, k) >= 2
    ensures Fixed(Value(bs, 2), Pow(2, k), m) == Groups(bs, k)
  {
    hide Value, Pow, Groups, Fixed;
    DivModUnique(m, 0, k);
    TwoPow(k);
    GroupsValue(bs, k);
    CancelMul(|Groups(bs, k)|, m, k);
    FixedOfValue(Groups(bs, k), Pow(2, k));
  }
}
