/**
 Decimal amounts (endpoint/methods_transfers.go): reading a numeral as an integer number of the smallest unit, and
 printing one. A character stands for one byte of a Go string.
 */
module Amounts {
  import opened Wrappers
  import opened Radix
  import opened FixedDigits

  // ---------- decimal text ----------

  predicate IsDigit(c: char) { '0' <= c <= '9' }

  predicate AllDigits(s: string) { forall i :: 0 <= i < |s| ==> IsDigit(s[i]) }

  function DigitOf(c: char): (d: nat)
    requires IsDigit(c)
    ensures d < 10 && CharOf(d) == c
  {
    c as int - '0' as int
  }

  function CharOf(d: nat): (c: char)
    requires d < 10
    ensures IsDigit(c)
  {
    ('0' as int + d) as char
  }

  function Nums(s: string): (ds: seq<nat>)
    requires AllDigits(s)
    ensures |ds| == |s| && Below(ds, 10)
  {
    seq(|s|, i requires 0 <= i < |s| => DigitOf(s[i]))
  }

  /** The number a digit string writes. */
  function Number(s: string): nat
    requires AllDigits(s)
  {
    Value(Nums(s), 10)
  }

  /** math/big's String for a natural number. */
  function Text(n: nat): (s: string)
    ensures |s| > 0 && AllDigits(s)
  {
    if n == 0 then "0" else
      var ds := Digits(n, 10);
      seq(|ds|, i requires 0 <= i < |ds| => CharOf(ds[i]))
  }

  lemma TextNumber(n: nat)
    ensures Number(Text(n)) == n
  {
    if n == 0 {
      assert Nums("0") == [0];
      assert [0][..0] == [];
    } else {
      DigitsValue(n, 10);
      assert Nums(Text(n)) == Digits(n, 10);
    }
  }

  /** The characters of the ten digits. */
  lemma DigitChars(d: nat)
    requires d < 10
    ensures CharOf(d) == "0123456789"[d] && DigitOf("0123456789"[d]) == d
  {
    assert "0123456789"[d] as int == '0' as int + d;
  }

  lemma NoLeadingZero(n: nat)
    ensures Text(n)[0] == '0' ==> Text(n) == "0"
  {
    if n > 0 {
      var ds := Digits(n, 10);
      assert Text(n)[0] == CharOf(ds[0]) && ds[0] != 0;
      assert DigitOf(Text(n)[0]) == ds[0];
    }
  }

  function ZeroText(k: nat): (s: string)
    ensures |s| == k && AllDigits(s)
  {
    seq(k, _ => '0')
  }

  function Signed(sign: string, n: nat): int
  {
    if sign == "-" then -(n as int) else n
  }

  /** math/big's SetString in base 10: an optional sign and at least one digit. */
  function SetString(s: string): Option<int>
  {
    if s == "" then None
    else if s[0] == '-' then
      if |s| > 1 && AllDigits(s[1..]) then Some(Signed("-", Number(s[1..]))) else None
    else if s[0] == '+' then
      if |s| > 1 && AllDigits(s[1..]) then Some(Number(s[1..])) else None
    else if AllDigits(s) then Some(Number(s)) else None
  }

  // ---------- cleaning ----------

  /** strings.Trim with a double quote. */
  function Trim(s: string): string
  {
    if s == "" then ""
    else if s[0] == '"' then Trim(s[1..])
    else if s[|s| - 1] == '"' then Trim(s[..|s| - 1])
    else s
  }

  /** Commas become points; spaces and tabs go. */
  function Squeeze(s: string): string
  {
    if s == "" then "" else
      (if s[0] == ',' then "." else if s[0] == ' ' || s[0] == '\t' then "" else [s[0]]) + Squeeze(s[1..])
  }

  function Clean(s: string): string { Squeeze(Trim(s)) }

  /** The parts around the first point. */
  function Cut(s: string): Option<(string, string)>
  {
    if s == "" then None
    else if s[0] == '.' then Some(("", s[1..]))
    else match Cut(s[1..])
      case None => None
      case Some((hi, lo)) => Some(([s[0]] + hi, lo))
  }

  /** Exactly `decimals` characters: padded with zeros, or cut off. */
  function Fit(lo: string, decimals: nat): (s: string)
    ensures |s| == decimals
  {
    if |lo| < decimals then lo + ZeroText(decimals - |lo|) else lo[..decimals]
  }

  // ---------- the two functions ----------

  function ParseAmount(amount: string, decimals: nat): Option<int>
  {
    var s := Clean(amount);
    match Cut(s)
    case None => SetString(s + ZeroText(decimals))
    case Some((hi, lo)) => if Cut(lo).Some? then None else SetString(hi + Fit(lo, decimals))
  }

  function FormatAmount(balance: int, decimals: nat): string
  {
    var str := if balance < 0 then "-" + Text(-balance) else Text(balance);
    if |str| > decimals
    then str[..|str| - decimals] + "." + str[|str| - decimals..]
    else "0." + ZeroText(decimals - |str|) + str
  }

  // ---------- what they mean ----------

  predicate Plain(s: string)
  {
    forall i :: 0 <= i < |s| ==> s[i] != '"' && s[i] != ',' && s[i] != ' ' && s[i] != '\t'
  }

  lemma {:induction false} PlainSqueeze(s: string)
    requires Plain(s)
    ensures Squeeze(s) == s
  {
    if s != "" {
      PlainSqueeze(s[1..]);
      assert s == [s[0]] + s[1..];
    }
  }

  lemma PlainClean(s: string)
    requires Plain(s)
    ensures Clean(s) == s
  {
    PlainSqueeze(s);
  }

  lemma {:induction false} CutAt(hi: string, lo: string)
    requires '.' !in hi
    ensures Cut(hi + "." + lo) == Some((hi, lo))
  {
    var s := hi + "." + lo;
    if hi == "" {
      assert s[1..] == lo;
    } else {
      CutAt(hi[1..], lo);
      assert s[1..] == hi[1..] + "." + lo;
      assert hi == [hi[0]] + hi[1..];
    }
  }

  lemma {:induction false} NoCut(s: string)
    ensures Cut(s).None? <==> '.' !in s
  {
    if s != "" {
      NoCut(s[1..]);
      assert s == [s[0]] + s[1..];
    }
  }

  lemma DigitsHaveNoPoint(s: string)
    requires AllDigits(s)
    ensures '.' !in s && Plain(s)
  {
  }

  lemma NumsConcat(a: string, b: string)
    requires AllDigits(a) && AllDigits(b)
    ensures AllDigits(a + b) && Nums(a + b) == Nums(a) + Nums(b)
  {
    hide DigitOf, IsDigit;
    assert |Nums(a + b)| == |Nums(a) + Nums(b)|;
  }

  lemma NumberConcat(a: string, b: string)
    requires AllDigits(a) && AllDigits(b)
    ensures AllDigits(a + b) && Number(a + b) == Number(a) * Pow(10, |b|) + Number(b)
  {
    hide Value, Pow, Nums, AllDigits;
    NumsConcat(a, b);
    ValueConcat(Nums(a), Nums(b), 10);
  }

  lemma NumberBound(s: string)
    requires AllDigits(s)
    ensures Number(s) < Pow(10, |s|)
  {
    hide Value, Pow;
    ValueBound(Nums(s), 10);
  }

  lemma ZeroNumber(k: nat)
    ensures Number(ZeroText(k)) == 0
  {
    assert Nums(ZeroText(k)) == Zeros(k);
    ZerosValue(k, 10);
  }

  /** Cleaning works on every character by itself: a comma is a point, a blank and a tab go, all others stay. */
  lemma SqueezeOne(c: char)
    ensures Squeeze([c]) == if c == ',' then "." else if c == ' ' || c == '\t' then "" else [c]
    ensures Squeeze("") == ""
  {
    assert [c][1..] == "";
  }

  lemma {:induction false} SqueezeParts(a: string, b: string)
    ensures Squeeze(a + b) == Squeeze(a) + Squeeze(b)
  {
    hide Squeeze;
    if a == "" {
      SqueezeOne(' ');
      assert a + b == b;
    } else {
      SqueezeParts(a[1..], b);
      SqueezeSplit(a);
      SqueezeSplit(a + b);
      assert (a + b)[1..] == a[1..] + b;
      Concat3(Squeeze([a[0]]), Squeeze(a[1..]), Squeeze(b));
    }
  }

  lemma Concat3(x: string, y: string, z: string)
    ensures x + y + z == x + (y + z)
  {
  }

  lemma SqueezeSplit(s: string)
    requires s != ""
    ensures Squeeze(s) == Squeeze([s[0]]) + Squeeze(s[1..])
  {
    SqueezeOne(s[0]);
  }

  /** And the quotes at both ends go, as many as there are; those inside stay. */
  lemma {:induction false} TrimQuotes(a: string, t: string, b: string)
    requires forall c :: c in a || c in b ==> c == '"'
    requires t != "" ==> t[0] != '"' && t[|t| - 1] != '"'
    ensures Trim(a + t + b) == t
    decreases |a| + |b|
  {
    var s := a + t + b;
    if a != "" {
      assert s[0] == a[0] && a[0] in a && s[1..] == a[1..] + t + b;
      assert forall c :: c in a[1..] ==> c in a;
      TrimQuotes(a[1..], t, b);
    } else if b != "" {
      var n := |b| - 1;
      assert s[|s| - 1] == b[n] && b[n] in b && s[..|s| - 1] == a + t + b[..n];
      assert forall c :: c in b[..n] ==> c in b;
      TrimQuotes(a, t, b[..n]);
      if t == "" {
        assert s[0] == b[0] && b[0] in b;
        assert s[1..] == a + t + b[1..];
        assert forall c :: c in b[1..] ==> c in b;
        TrimQuotes(a, t, b[1..]);
      }
    } else {
      assert s == t;
    }
  }

  /** The printed text: one point, then exactly as many characters as decimals; its digits are those of the amount. */
  lemma Printed(x: int, d: nat) returns (hi: string, lo: string)
    ensures FormatAmount(x, d) == hi + "." + lo && |lo| == d && '.' !in hi && '.' !in lo
    ensures x >= 0 ==> hi != "" && (hi[0] == '0' ==> hi == "0") && AllDigits(hi + lo) && Number(hi + lo) == x
    ensures x < 0 && |Text(-x)| >= d ==> hi + lo == "-" + Text(-x)
    ensures x < 0 && |Text(-x)| < d ==> hi == "0" && lo == ZeroText(d - 1 - |Text(-x)|) + "-" + Text(-x)
  {
    hide Number, Text, AllDigits, SetString, Plain, ZeroText;
    var digits := if x < 0 then Text(-x) else Text(x);
    var str := if x < 0 then "-" + digits else digits;
    SignedText(x);
    NoLeadingZero(if x < 0 then -x else x);
    TextNumber(if x < 0 then -x else x);
    if |str| > d {
      hi, lo := PrintedLong(str, d);
    } else {
      hi, lo := "0", ZeroText(d - |str|) + str;
      PrintedShort(x, str, digits, d - |str|);
    }
  }

  lemma PrintedLong(str: string, d: nat) returns (hi: string, lo: string)
    requires |str| > d && '.' !in str
    ensures hi == str[..|str| - d] && lo == str[|str| - d..] && hi + lo == str && hi[0] == str[0]
    ensures '.' !in hi && '.' !in lo
  {
    hi, lo := str[..|str| - d], str[|str| - d..];
    NoPointIn(str, hi, lo);
  }

  lemma NoPointIn(s: string, a: string, b: string)
    requires a + b == s && '.' !in s
    ensures '.' !in a && '.' !in b
  {
  }

  lemma PrintedShort(x: int, str: string, digits: string, k: nat)
    requires '.' !in str
    ensures '.' !in ZeroText(k) + str
    ensures AllDigits(str) && Number(str) == x ==>
              AllDigits("0" + (ZeroText(k) + str)) && Number("0" + (ZeroText(k) + str)) == x
    ensures "0." + ZeroText(k) + str == "0" + "." + (ZeroText(k) + str)
    ensures str == "-" + digits ==> ZeroText(k) + str == ZeroText(k) + "-" + digits
  {
    hide Number, AllDigits;
    DigitsHaveNoPoint(ZeroText(k));
    assert "0" + (ZeroText(k) + str) == ZeroText(k + 1) + str;
    ZeroNumber(k + 1);
    if AllDigits(str) { NumberConcat(ZeroText(k + 1), str); }
    Concat3("0.", ZeroText(k), str);
    Concat3(ZeroText(k), "-", digits);
  }

  /** Reading what was printed gives the number back; a negative one only if it has no fewer digits than decimals. */
  lemma RoundTrip(x: int, d: nat)
    ensures ParseAmount(FormatAmount(x, d), d)
            == if x >= 0 || |Text(-x)| >= d then Some(x) else None
  {
    hide Number, Text, Clean, Cut, SetString, AllDigits, ParseAmount;
    var str := if x < 0 then "-" + Text(-x) else Text(x);
    SignedText(x);
    if |str| > d {
      var hi, lo := str[..|str| - d], str[|str| - d..];
      assert hi + Fit(lo, d) == str;
      ParsePlain(hi, lo, d);
    } else {
      var lo := ZeroText(d - |str|) + str;
      assert FormatAmount(x, d) == "0" + "." + lo;
      ParsePlain("0", lo, d);
      Padded(x, d - |str|);
      assert "0" + Fit(lo, d) == "0" + ZeroText(d - |str|) + str;
    }
  }

  /** Minus five units with two decimals are printed with the sign behind the point, and not read back. */
  lemma LostSign()
    ensures ParseAmount(FormatAmount(-5, 2), 2) == None
  {
    hide ParseAmount, FormatAmount;
    assert Digits(5, 10) == [5];
    RoundTrip(-5, 2);
  }

  lemma SignedText(x: int)
    ensures var str := if x < 0 then "-" + Text(-x) else Text(x);
            SetString(str) == Some(x) && Plain(str) && '.' !in str
  {
    hide Number, Text, SetString;
    var sign, digits := if x < 0 then "-" else "", if x < 0 then Text(-x) else Text(x);
    TextNumber(if x < 0 then -x else x);
    SignedDigits(sign, digits);
    SignedPlain(sign, digits);
    assert "" + digits == digits;
  }

  lemma SignedPlain(sign: string, s: string)
    requires AllDigits(s) && (sign == "" || sign == "+" || sign == "-")
    ensures Plain(sign + s) && '.' !in sign + s
  {
    forall c | c in sign + s ensures c == '+' || c == '-' || IsDigit(c) {
    }
  }

  lemma Padded(x: int, k: nat)
    ensures var str := if x < 0 then "-" + Text(-x) else Text(x);
            SetString("0" + ZeroText(k) + str) == if x >= 0 then Some(x) else None
  {
    hide Number;
    var zeros := "0" + ZeroText(k);
    if x < 0 {
      var s := zeros + ("-" + Text(-x));
      assert s[|zeros|] == '-' && s[0] == '0';
    } else {
      assert zeros == ZeroText(k + 1);
      ZeroNumber(k + 1);
      NumberConcat(zeros, Text(x));
      TextNumber(x);
    }
  }

  lemma ParsePlain(hi: string, lo: string, d: nat)
    requires Plain(hi) && Plain(lo) && '.' !in hi && '.' !in lo
    ensures ParseAmount(hi + "." + lo, d) == SetString(hi + Fit(lo, d))
  {
    PlainClean(hi + "." + lo);
    ParseClean(hi + "." + lo, hi, lo, d);
  }

  lemma ParseClean(s: string, hi: string, lo: string, d: nat)
    requires Clean(s) == hi + "." + lo && '.' !in hi && '.' !in lo
    ensures ParseAmount(s, d) == SetString(hi + Fit(lo, d))
  {
    CutAt(hi, lo);
    NoCut(lo);
  }

  /** n / 10^places times 10^d, truncated to an integer. */
  function Scaled(n: nat, d: nat, places: nat): nat
  {
    MulGap(n * Pow(10, d) / Pow(10, places), Pow(10, places));
    n * Pow(10, d) / Pow(10, places)
  }

  lemma FitValue(hi: string, lo: string, d: nat)
    requires AllDigits(hi) && AllDigits(lo)
    ensures AllDigits(hi + Fit(lo, d)) && AllDigits(hi + lo)
    ensures Number(hi + Fit(lo, d)) == Scaled(Number(hi + lo), d, |lo|)
  {
    hide Number, Pow;
    NumberConcat(hi, lo);
    if |lo| < d {
      var k := d - |lo|;
      ZeroNumber(k);
      NumberConcat(hi + lo, ZeroText(k));
      assert hi + Fit(lo, d) == (hi + lo) + ZeroText(k);
      PowAdd(10, k, |lo|);
      MulAssoc(Number(hi + lo), Pow(10, k), Pow(10, |lo|));
      DivModUnique(Number(hi + lo) * Pow(10, k), 0, Pow(10, |lo|));
    } else {
      var a, b := lo[..d], lo[d..];
      assert hi + lo == (hi + a) + b;
      NumberConcat(hi, a);
      NumberConcat(hi + a, b);
      NumberBound(b);
      PowAdd(10, |b|, d);
      Truncate(Number(hi + a), Number(b), Pow(10, |b|), Pow(10, d));
    }
  }

  lemma Truncate(q: nat, r: nat, m: nat, p: nat)
    requires r < m && p > 0
    ensures (q * m + r) * p / (m * p) == q
  {
    MulMono(r + 1, m, p);
    MulAssoc(q, m, p);
    assert (q * m + r) * p == q * (m * p) + r * p;
    DivModUnique(q, r * p, m * p);
  }

  /**
   Every numeral, however it is quoted, spaced or pointed: the value times 10^decimals, truncated toward zero. Only
   when neither part has a digit to keep is it refused.
   */
  lemma ParseNumeral(s: string, sign: string, hi: string, lo: string, d: nat)
    requires Clean(s) == sign + hi + "." + lo && AllDigits(hi) && AllDigits(lo)
    requires sign == "" || sign == "+" || sign == "-"
    ensures AllDigits(hi + lo)
    ensures ParseAmount(s, d) ==
            if hi == "" && d == 0 then None
            else Some(Signed(sign, Scaled(Number(hi + lo), d, |lo|)))
  {
    hide Number, Pow, Clean, Cut, Scaled, SetString, Fit, ParseAmount;
    DigitsHaveNoPoint(hi);
    DigitsHaveNoPoint(lo);
    ParseClean(s, sign + hi, lo, d);
    FitValue(hi, lo, d);
    assert sign + hi + Fit(lo, d) == sign + (hi + Fit(lo, d));
    SignedDigits(sign, hi + Fit(lo, d));
  }

  lemma SignedDigits(sign: string, s: string)
    requires AllDigits(s) && (sign == "" || sign == "+" || sign == "-")
    ensures SetString(sign + s) == if s == "" then None else Some(Signed(sign, Number(s)))
  {
    hide Number;
    if sign == "" {
      assert sign + s == s;
    } else {
      assert (sign + s)[1..] == s;
    }
  }

  /** A numeral without a point is a whole number; an empty one counts as zero when there are decimals. */
  lemma ParseWhole(s: string, sign: string, hi: string, d: nat)
    requires Clean(s) == sign + hi && AllDigits(hi)
    requires sign == "" || sign == "+" || sign == "-"
    ensures ParseAmount(s, d) ==
            if hi == "" && d == 0 then None else Some(Signed(sign, Number(hi) * Pow(10, d)))
  {
    hide Number, Pow, Clean, Cut;
    DigitsHaveNoPoint(hi);
    NoCut(sign + hi);
    NumberConcat(hi, ZeroText(d));
    ZeroNumber(d);
    assert sign + hi + ZeroText(d) == sign + (hi + ZeroText(d));
    SignedDigits(sign, hi + ZeroText(d));
  }

  /** Characters past the last decimal are never looked at, so that 1.5xyz is 1.5 with one decimal. */
  lemma TailIgnored(s: string, s': string, hi: string, lo: string, tail: string)
    requires Clean(s) == hi + "." + lo && Clean(s') == hi + "." + (lo + tail)
    requires '.' !in hi && '.' !in lo && '.' !in tail
    ensures ParseAmount(s', |lo|) == ParseAmount(s, |lo|)
  {
    hide Clean, SetString, Cut;
    ParseClean(s, hi, lo, |lo|);
    ParseClean(s', hi, lo + tail, |lo|);
    assert Fit(lo + tail, |lo|) == lo == Fit(lo, |lo|);
  }

  /** What the digits of an accepted amount must be: those that are kept. */
  predicate Kept(s: string)
  {
    AllDigits(if s != "" && (s[0] == '-' || s[0] == '+') then s[1..] else s)
  }

  /** Exactly which amounts are accepted. */
  lemma Accepted(amount: string, d: nat)
    ensures ParseAmount(amount, d).Some? <==>
            match Cut(Clean(amount))
            case None => Kept(Clean(amount)) && (Clean(amount) !in ["", "+", "-"] || d > 0)
            case Some((hi, lo)) =>
              var kept := hi + if |lo| < d then lo else lo[..d];
              '.' !in lo && Kept(kept) && (kept !in ["", "+", "-"] || d > |lo|)
  {
    hide Number, Clean, Cut;
    var s := Clean(amount);
    match Cut(s) {
      case None =>
        PaddedAccepted(s, d);
      case Some((hi, lo)) =>
        NoCut(lo);
        if |lo| < d {
          assert hi + Fit(lo, d) == hi + lo + ZeroText(d - |lo|);
          PaddedAccepted(hi + lo, d - |lo|);
        } else {
          assert hi + lo[..d] + ZeroText(0) == hi + lo[..d];
          PaddedAccepted(hi + lo[..d], 0);
        }
    }
  }

  lemma PaddedAccepted(s: string, k: nat)
    ensures SetString(s + ZeroText(k)).Some? <==> Kept(s) && (s !in ["", "+", "-"] || k > 0)
  {
    hide Number;
    var t := s + ZeroText(k);
    var start := if s != "" && (s[0] == '-' || s[0] == '+') then 1 else 0;
    assert t[start..] == s[start..] + ZeroText(k);
    assert t[0..] == t && s[0..] == s;
    if AllDigits(t[start..]) {
      assert forall i :: 0 <= i < |s[start..]| ==> s[start..][i] == t[start..][i];
    }
    if start == 1 && |s| == 1 {
      assert s == [s[0]];
    }
  }
}
