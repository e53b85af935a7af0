/** common/base58: byte strings as numbers in base 58, leading zero bytes kept as leading ones. */
module Base58 {
  import opened Radix

  /** The alphabet, by its six runs of consecutive characters. */
  function Symbol(d: nat): byte
    requires d < 58
  {
    if d < 9 then '1' as int + d
    else if d < 17 then 'A' as int + d - 9
    else if d < 22 then 'J' as int + d - 17
    else if d < 33 then 'P' as int + d - 22
    else if d < 44 then 'a' as int + d - 33
    else 'm' as int + d - 44
  }

  /** The reverse table; 255 marks bytes outside the alphabet. */
  function Table(ch: byte): byte
  {
    if '1' as int <= ch <= '9' as int then ch - '1' as int
    else if 'A' as int <= ch <= 'H' as int then ch - 'A' as int + 9
    else if 'J' as int <= ch <= 'N' as int then ch - 'J' as int + 17
    else if 'P' as int <= ch <= 'Z' as int then ch - 'P' as int + 22
    else if 'a' as int <= ch <= 'k' as int then ch - 'a' as int + 33
    else if 'm' as int <= ch <= 'z' as int then ch - 'm' as int + 44
    else 255
  }

  lemma TableSymbol(d: nat)
    requires d < 58
    ensures Table(Symbol(d)) == d
  {
  }

  lemma SymbolTable(ch: byte)
    requires Table(ch) != 255
    ensures Table(ch) < 58 && Symbol(Table(ch)) == ch
  {
  }

  /** The alphabet in one string. */
  const ALPHABET: string :=
    "123456789" + "ABCDEFGHJKLMN" + "PQRSTUVWXYZ" + "abcdefghijk" + "mnopqrstuvwxyz"

  lemma Alphabet(d: nat)
    requires d < 58
    ensures |ALPHABET| == 58 && Symbol(d) == ALPHABET[d] as int && Table(ALPHABET[d] as int) == d
  {
    TableSymbol(d);
    AtFive("123456789", "ABCDEFGHJKLMN", "PQRSTUVWXYZ", "abcdefghijk", "mnopqrstuvwxyz", d);
    hide Table;
    if d < 9 { Digits1to9(d); }
    else if d < 22 { LettersAtoN(d - 9); }
    else if d < 33 { LettersPtoZ(d - 22); }
    else if d < 44 { LettersAtoK(d - 33); }
    else { LettersMtoZ(d - 44); }
  }

  lemma AtFive(a: string, b: string, c: string, e: string, f: string, d: nat)
    requires |a| == 9 && |b| == 13 && |c| == 11 && |e| == 11 && |f| == 14 && d < 58
    ensures (a + b + c + e + f)[d] == if d < 9 then a[d] else if d < 22 then b[d - 9] else if d < 33 then c[d - 22]
                                      else if d < 44 then e[d - 33] else f[d - 44]
  {
  }

  lemma Digits1to9(k: nat)
    requires k < 9
    ensures "123456789"[k] as int == '1' as int + k
  {
  }

  lemma LettersAtoN(k: nat)
    requires k < 13
    ensures "ABCDEFGHJKLMN"[k] as int == if k < 8 then 'A' as int + k else 'J' as int + k - 8
  {
  }

  lemma LettersPtoZ(k: nat)
    requires k < 11
    ensures "PQRSTUVWXYZ"[k] as int == 'P' as int + k
  {
  }

  lemma LettersAtoK(k: nat)
    requires k < 11
    ensures "abcdefghijk"[k] as int == 'a' as int + k
  {
  }

  lemma LettersMtoZ(k: nat)
    requires k < 14
    ensures "mnopqrstuvwxyz"[k] as int == 'm' as int + k
  {
  }

  predicate InAlphabet(s: seq<byte>)
  {
    forall i :: 0 <= i < |s| ==> Table(s[i]) != 255
  }

  /** How many of the first elements equal `b`. */
  function Leading(s: seq<byte>, b: byte): (n: nat)
    ensures n <= |s| && (forall i :: 0 <= i < n ==> s[i] == b) && (n < |s| ==> s[n] != b)
  {
    if s == [] || s[0] != b then 0 else 1 + Leading(s[1..], b)
  }

  function Symbols(ds: seq<nat>): (s: seq<byte>)
    requires Below(ds, 58)
    ensures |s| == |ds| && forall i :: 0 <= i < |s| ==> s[i] == Symbol(ds[i])
  {
    seq(|ds|, i requires 0 <= i < |ds| => Symbol(ds[i]))
  }

  function Numerals(s: seq<byte>): (ds: seq<nat>)
    requires InAlphabet(s)
    ensures |ds| == |s| && Below(ds, 58) && forall i :: 0 <= i < |s| ==> ds[i] == Table(s[i])
  {
    seq(|s|, i requires 0 <= i < |s| => (SymbolTable(s[i]); Table(s[i])))
  }

  function Ones(k: nat): seq<byte> { seq(k, _ => '1' as int) }

  /** What `Encode` computes. */
  function Encoded(b: seq<byte>): seq<byte>
  {
    Ones(Leading(b, 0)) + Symbols(Digits(Value(b, 256), 58))
  }

  /** What `Decode` computes; a byte outside the alphabet makes the result empty. */
  function Decoded(s: seq<byte>): seq<byte>
  {
    if !InAlphabet(s) then []
    else Zeros(Leading(s, '1' as int)) + Bytes(Value(Numerals(s), 58))
  }

  /** An encoding: a 1 for every leading zero byte, and the number in base 58 with the first digit leading. */
  lemma EncodedValue(b: seq<byte>)
    ensures var z, s := Leading(b, 0), Encoded(b);
            && z <= |s| && (forall i :: 0 <= i < z ==> s[i] == '1' as int)
            && InAlphabet(s[z..]) && Value(Numerals(s[z..]), 58) == Value(b, 256)
            && (z < |s| ==> s[z] != '1' as int)
  {
    hide Value;
    var z, ds := Leading(b, 0), Digits(Value(b, 256), 58);
    assert Encoded(b)[z..] == Symbols(ds);
    NumeralsOf(ds);
    DigitsValue(Value(b, 256), 58);
    if ds != [] {
      TableSymbol(ds[0]);
      SymbolOne();
    }
  }

  lemma NumeralsOf(ds: seq<nat>)
    requires Below(ds, 58)
    ensures InAlphabet(Symbols(ds)) && Numerals(Symbols(ds)) == ds
  {
    hide Symbol, Table;
    forall i | 0 <= i < |ds| ensures Table(Symbols(ds)[i]) == ds[i] {
      TableSymbol(ds[i]);
    }
  }

  // ---------- the two are inverse ----------

  lemma {:induction false} LeadingOf(k: nat, s: seq<byte>, b: byte)
    requires s == [] || s[0] != b
    ensures Leading(seq(k, _ => b) + s, b) == k
  {
    var t := seq(k, _ => b) + s;
    if k == 0 {
      assert t == s;
    } else {
      assert t[1..] == seq(k - 1, _ => b) + s;
      LeadingOf(k - 1, s, b);
    }
  }

  /** A string without its leading zeros is the digit string of its value. */
  lemma Stripped(ds: seq<nat>, k: nat, b: nat)
    requires b >= 2 && k <= |ds| && Below(ds, b)
    requires (forall i :: 0 <= i < k ==> ds[i] == 0) && (k < |ds| ==> ds[k] != 0)
    ensures Digits(Value(ds, b), b) == ds[k..]
  {
    var z: seq<nat> := Zeros(k);
    assert ds == z + ds[k..];
    ValueZeros(k, ds[k..], b);
    ValueDigits(ds[k..], b);
  }

  lemma DecodeEncode(b: seq<byte>)
    ensures Decoded(Encoded(b)) == b
  {
    hide Digits, Value, Table, Symbol, Leading, Pow;
    var k, n := Leading(b, 0), Value(b, 256);
    var ds := Digits(n, 58);
    var s := Encoded(b);
    TableSymbol(0);
    SymbolOne();
    forall i | 0 <= i < |s| ensures Table(s[i]) == if i < k then 0 else ds[i - k] {
      if i >= k { TableSymbol(ds[i - k]); }
    }
    assert ds != [] ==> s[k] != '1' as int by { if ds != [] { TableSymbol(ds[0]); } }
    LeadingOf(k, Symbols(ds), '1' as int);
    var z: seq<nat> := Zeros(k);
    assert InAlphabet(s) && Numerals(s) == z + ds;
    ValueZeros(k, ds, 58);
    DigitsValue(n, 58);
    Stripped(b, k, 256);
    assert Zeros(k) + b[k..] == b;
  }

  lemma SymbolOne()
    ensures Symbol(0) == '1' as int && Table('1' as int) == 0
  {
  }

  lemma EncodeDecode(s: seq<byte>)
    requires InAlphabet(s)
    ensures Encoded(Decoded(s)) == s
  {
    hide Digits, Value, Table, Symbol, Leading, Pow;
    var k := Leading(s, '1' as int);
    var ds, b := Numerals(s), Decoded(s);
    var n := Value(ds, 58);
    SymbolOne();
    forall i | 0 <= i < |s| ensures Symbol(Table(s[i])) == s[i] && (ds[i] == 0 <==> s[i] == '1' as int) {
      SymbolTable(s[i]);
    }
    LeadingOf(k, Bytes(n), 0);
    assert Zeros(k) == seq(k, _ => 0);
    ValueZeros(k, Bytes(n), 256);
    DigitsValue(n, 256);
    Stripped(ds, k, 58);
    assert Ones(k) + Symbols(ds[k..]) == s;
  }

  // ---------- the loops ----------

  method Encode(b: seq<byte>) returns (s: seq<byte>)
    ensures s == Encoded(b)
  {
    hide Symbol, Symbols, Value, Digits;
    var x := Value(b, 256);
    var answer: seq<byte> := [];
    ghost var n := x;
    while x > 0
      invariant Symbols(Digits(n, 58)) == Symbols(Digits(x, 58)) + Reversed(answer)
      decreases x
    {
      var mod := x % 58;
      DivLess(x, 58);
      LastSymbol(x);
      ReversedSnoc(answer, Symbol(mod));
      x := x / 58;
      answer := answer + [Symbol(mod)];
    }
    ghost var digits := answer;
    NoSymbols();
    var i := 0;
    while i < |b| && b[i] == 0
      invariant 0 <= i <= |b| && forall j :: 0 <= j < i ==> b[j] == 0
      invariant answer == digits + Ones(i)
    {
      answer := answer + ['1' as int];
      i := i + 1;
    }
    assert i == Leading(b, 0);
    ReversedOnes(digits, i);
    s := ReverseInPlace(answer);
  }

  /** The swapping loop at the end of `Encode`. */
  method ReverseInPlace(start: seq<byte>) returns (answer: seq<byte>)
    ensures answer == Reversed(start)
  {
    answer := start;
    var alen := |answer|;
    var i := 0;
    while i < alen / 2
      invariant 0 <= i <= alen / 2 && |answer| == alen
      invariant forall k :: 0 <= k < i ==> answer[k] == start[alen - 1 - k] && answer[alen - 1 - k] == start[k]
      invariant forall k :: i <= k < alen - i ==> answer[k] == start[k]
    {
      answer := answer[i := answer[alen - 1 - i]][alen - 1 - i := answer[i]];
      i := i + 1;
    }
  }

  function Reversed(s: seq<byte>): seq<byte>
  {
    seq(|s|, i requires 0 <= i < |s| => s[|s| - 1 - i])
  }

  lemma ReversedSnoc(s: seq<byte>, b: byte)
    ensures Reversed(s + [b]) == [b] + Reversed(s)
  {
  }

  lemma ReversedOnes(s: seq<byte>, k: nat)
    ensures Reversed(s + Ones(k)) == Ones(k) + Reversed(s)
  {
  }

  lemma SymbolsSnoc(ds: seq<nat>, d: nat)
    requires Below(ds, 58) && d < 58
    ensures Below(ds + [d], 58) && Symbols(ds + [d]) == Symbols(ds) + [Symbol(d)]
  {
    hide Symbol;
  }

  lemma LastSymbol(x: nat)
    requires x > 0
    ensures Symbols(Digits(x, 58)) == Symbols(Digits(x / 58, 58)) + [Symbol(x % 58)]
  {
    hide Symbol, Symbols;
    SymbolsSnoc(Digits(x / 58, 58), x % 58);
  }

  /** The decoding loop has read everything right of index `i`. */
  ghost predicate ReadFrom(b: seq<byte>, i: int, answer: int, j: int)
  {
    -1 <= i < |b| && InAlphabet(b[i + 1..])
    && answer == Value(Numerals(b[i + 1..]), 58) && j == Pow(58, |b| - 1 - i)
  }

  lemma ReadStart(b: seq<byte>)
    ensures ReadFrom(b, |b| - 1, 0, 1)
  {
    assert b[|b|..] == [];
    NoNumerals();
  }

  lemma ReadTurn(b: seq<byte>, i: int, answer: int, j: int)
    requires i >= 0 && ReadFrom(b, i, answer, j) && Table(b[i]) != 255
    ensures ReadFrom(b, i - 1, answer + j * Table(b[i]), j * 58)
  {
    hide Table, Value, Pow, InAlphabet, Numerals;
    assert b[i..] == [b[i]] + b[i + 1..];
    FirstNumeral(b[i], b[i + 1..]);
  }

  method Decode(b: seq<byte>) returns (val: seq<byte>)
    ensures val == Decoded(b)
  {
    hide ReadFrom, Table, Value, Pow;
    var answer: int, j: int := 0, 1;
    var i := |b| - 1;
    ReadStart(b);
    while i >= 0
      invariant -1 <= i < |b| && ReadFrom(b, i, answer, j)
    {
      var tmp: int := Table(b[i]);
      if tmp == 255 {
        return [];
      }
      ReadTurn(b, i, answer, j);
      answer := answer + j * tmp;
      j := j * 58;
      i := i - 1;
    }
    ReadAll(b, answer, j);
    var tmpval := Bytes(answer);
    var numZeros := 0;
    while numZeros < |b| && b[numZeros] == '1' as int
      invariant 0 <= numZeros <= |b| && forall k :: 0 <= k < numZeros ==> b[k] == '1' as int
    {
      numZeros := numZeros + 1;
    }
    assert numZeros == Leading(b, '1' as int);
    val := Zeros(numZeros) + tmpval;
  }

  lemma ReadAll(b: seq<byte>, answer: int, j: int)
    requires ReadFrom(b, -1, answer, j)
    ensures InAlphabet(b) && answer == Value(Numerals(b), 58)
  {
    assert b[0..] == b;
  }

  lemma NumeralsCons(ch: byte, s: seq<byte>)
    requires InAlphabet(s) && Table(ch) != 255
    ensures InAlphabet([ch] + s) && Table(ch) < 58
    ensures Numerals([ch] + s) == [Table(ch) as nat] + Numerals(s)
  {
    SymbolTable(ch);
    hide Table;
    assert forall i :: 0 <= i < |[ch] + s| ==> ([ch] + s)[i] == if i == 0 then ch else s[i - 1];
  }

  lemma ValueCons(d: nat, ds: seq<nat>)
    ensures Value([d] + ds, 58) == Value(ds, 58) + Pow(58, |ds|) * d
  {
    hide Value, Pow;
    ValueConcat([d], ds, 58);
    OneDigit(d);
  }

  /** One turn of the decoding loop, which works from the right. */
  lemma FirstNumeral(ch: byte, s: seq<byte>)
    requires InAlphabet(s) && Table(ch) != 255
    ensures InAlphabet([ch] + s)
    ensures Value(Numerals([ch] + s), 58) == Value(Numerals(s), 58) + Pow(58, |s|) * Table(ch)
    ensures Pow(58, |s| + 1) == Pow(58, |s|) * 58
  {
    hide Table, Value, Pow, InAlphabet, Numerals;
    NumeralsCons(ch, s);
    ValueCons(Table(ch), Numerals(s));
    PowStep(|s|);
  }

  lemma PowStep(k: nat)
    ensures Pow(58, k + 1) == Pow(58, k) * 58
  {
  }

  lemma OneDigit(d: nat)
    ensures Value([d], 58) == d
  {
  }

  lemma NoSymbols()
    ensures Symbols(Digits(0, 58)) == []
  {
  }

  lemma NoNumerals()
    ensures Value(Numerals([]), 58) == 0 && Pow(58, 0) == 1
  {
  }
}
