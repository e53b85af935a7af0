/**
 BIP-39 mnemonics with big integers (common/bip39). The first byte of SHA-256 is a parameter. A sentence is
 a sequence of words.
 */
module Mnemonic {
  import opened Wrappers
  import opened Radix
  import opened FixedDigits

  // ---------- the word list ----------

  ghost predicate Dictionary(list: seq<string>, index: map<string, nat>)
  {
    && |list| == 2048
    && (forall i :: 0 <= i < |list| ==> list[i] in index && index[list[i]] == i)
    && (forall w :: w in index ==> index[w] < |list| && list[index[w]] == w)
  }

  method SetWordList(list: seq<string>) returns (index: map<string, nat>)
    requires |list| == 2048 && forall i, j :: 0 <= i < j < |list| ==> list[i] != list[j]
    ensures Dictionary(list, index)
  {
    index := map[];
    var i := 0;
    while i < |list|
      invariant 0 <= i <= |list|
      invariant forall k :: 0 <= k < i ==> list[k] in index && index[list[k]] == k
      invariant forall w :: w in index ==> index[w] < i && list[index[w]] == w
    {
      index := index[list[i] := i];
      i := i + 1;
    }
  }

  function Words(list: seq<string>, ixs: seq<nat>): (ws: seq<string>)
    requires |list| == 2048 && Below(ixs, 2048)
    ensures |ws| == |ixs| && forall i :: 0 <= i < |ws| ==> ws[i] == list[ixs[i]]
  {
    seq(|ixs|, i requires 0 <= i < |ixs| => list[ixs[i]])
  }

  predicate Known(index: map<string, nat>, ws: seq<string>)
  {
    forall i :: 0 <= i < |ws| ==> ws[i] in index
  }

  function Indices(index: map<string, nat>, ws: seq<string>): (ixs: seq<nat>)
    requires Known(index, ws)
    ensures |ixs| == |ws| && forall i :: 0 <= i < |ixs| ==> ixs[i] == index[ws[i]]
  {
    seq(|ws|, i requires 0 <= i < |ws| => index[ws[i]])
  }

  lemma WordsInverse(list: seq<string>, index: map<string, nat>, ixs: seq<nat>)
    requires Dictionary(list, index) && Below(ixs, 2048)
    ensures Known(index, Words(list, ixs)) && Indices(index, Words(list, ixs)) == ixs
  {
  }

  lemma IndicesInverse(list: seq<string>, index: map<string, nat>, ws: seq<string>)
    requires Dictionary(list, index) && Known(index, ws)
    ensures Below(Indices(index, ws), 2048) && Words(list, Indices(index, ws)) == ws
  {
  }

  // ---------- what the sentence of an entropy is ----------

  /** The sizes BIP-39 allows, 16 to 32 bytes, and the counts of words they take. */
  predicate StandardSize(bytes: nat) { bytes % 4 == 0 && 16 <= bytes <= 32 }

  predicate StandardCount(words: nat) { words % 3 == 0 && 12 <= words <= 24 }

  /** The sizes the format itself makes sense for: at most one byte of checksum. */
  predicate WholeSize(bytes: nat) { bytes % 4 == 0 && bytes <= 32 }

  predicate WholeCount(words: nat) { words % 3 == 0 && words <= 24 }

  /** The leading `cs` bits of the checksum byte. */
  function Checksum(sha: seq<byte> -> byte, e: seq<byte>, cs: nat): nat
    requires cs <= 8
  {
    sha(e) as nat / Pow(2, 8 - cs)
  }

  /** Entropy and checksum as one number of 33 bits for every 4 bytes. */
  function Checked(sha: seq<byte> -> byte, e: seq<byte>): nat
    requires WholeSize(|e|)
  {
    Value(e, 256) * Pow(2, |e| / 4) + Checksum(sha, e, |e| / 4)
  }

  /** Its digits in base 2048 are the word indices. */
  function Sentence(sha: seq<byte> -> byte, e: seq<byte>): (ixs: seq<nat>)
    requires WholeSize(|e|)
    ensures |ixs| == |e| / 4 * 3 && Below(ixs, 2048)
  {
    Fixed(Checked(sha, e), 2048, |e| / 4 * 3)
  }

  /** The entropy bytes that a sentence of standard length carries, before the checksum is compared. */
  function Carried(ixs: seq<nat>): seq<byte>
  {
    Pad(Bytes(Value(ixs, 2048) / Pow(2, |ixs| / 3)), |ixs| / 3 * 4)
  }

  function EntropyOf(sha: seq<byte> -> byte, ixs: seq<nat>): Option<seq<byte>>
    requires WholeCount(|ixs|)
  {
    var e := Carried(ixs);
    if Value(ixs, 2048) % Pow(2, |ixs| / 3) == Checksum(sha, e, |ixs| / 3) then Some(e) else None
  }

  lemma PowLog(cs: nat)
    ensures Pow(2, 8) == 256 && Pow(2, 11) == 2048
    ensures Pow(256, 4 * cs) * Pow(2, cs) == Pow(2048, 3 * cs)
  {
    hide Pow;
    PowersOfTwo();
    if cs == 0 {
      PowZero(256);
      PowZero(2);
      PowZero(2048);
    } else {
      PowLog(cs - 1);
      PowBlock();
      PowAdd(256, 4, 4 * (cs - 1));
      PowAdd(2048, 3, 3 * (cs - 1));
      PowUnfold(2, cs);
      assert 4 + 4 * (cs - 1) == 4 * cs && 3 + 3 * (cs - 1) == 3 * cs;
      PowStepTwo(Pow(256, 4 * (cs - 1)), Pow(2, cs - 1), Pow(2048, 3 * (cs - 1)));
    }
  }

  /** Four bytes and a bit are three words. */
  lemma PowBlock()
    ensures Pow(256, 4) == 0x1_0000_0000 && Pow(2048, 3) == 0x2_0000_0000
  {
    assert Pow(2048, 1) == 2048 && Pow(256, 1) == 256;
    assert Pow(2048, 2) == 0x40_0000 && Pow(256, 2) == 0x1_0000;
    PowAdd(2048, 1, 2);
    PowAdd(256, 2, 2);
  }

  lemma PowStepTwo(x: nat, y: nat, z: nat)
    requires x * y == z
    ensures (0x1_0000_0000 * x) * (2 * y) == 0x2_0000_0000 * z
  {
    assert (0x1_0000_0000 * x) * (2 * y) == 0x2_0000_0000 * (x * y);
  }

  lemma ChecksumBound(sha: seq<byte> -> byte, e: seq<byte>, cs: nat)
    requires cs <= 8
    ensures Checksum(sha, e, cs) < Pow(2, cs)
  {
    PowersOfTwo();
    PowAdd(2, cs, 8 - cs);
    hide Pow;
    DivBound(sha(e), Pow(2, cs), Pow(2, 8 - cs));
  }

  lemma DivBound(n: nat, x: nat, y: nat)
    requires n < x * y && y > 0
    ensures 0 <= n / y < x
  {
    MulGap(n / y, y);
    MulGap(n / y - x, y);
    assert (n / y - x) * y == (n / y) * y - x * y;
  }

  lemma CheckedBound(sha: seq<byte> -> byte, e: seq<byte>)
    requires WholeSize(|e|)
    ensures Checked(sha, e) < Pow(2048, |e| / 4 * 3)
  {
    hide Value, Pow;
    var cs := |e| / 4;
    ChecksumBound(sha, e, cs);
    ValueBound(e, 256);
    PowLog(cs);
    HornerBound(Value(e, 256), Checksum(sha, e, cs), Pow(256, 4 * cs), Pow(2, cs));
  }

  /**
   The bits of a sentence, eleven for a word, are those of the entropy followed by the first ones of the checksum
   byte, one for every four bytes.
   */
  lemma SentenceBits(sha: seq<byte> -> byte, e: seq<byte>)
    requires WholeSize(|e|)
    ensures var cs := |e| / 4;
            && |Sentence(sha, e)| * 11 == |e| * 8 + cs
            && Value(Sentence(sha, e), 2048) == Value(e, 256) * Pow(2, cs) + sha(e) as nat / Pow(2, 8 - cs)
  {
    hide Value, Pow, Fixed;
    CheckedBound(sha, e);
    FixedValue(Checked(sha, e), 2048, |e| / 4 * 3);
  }

  /** Decoding the sentence of an entropy gives the entropy back. */
  lemma EntropyOfSentence(sha: seq<byte> -> byte, e: seq<byte>)
    requires WholeSize(|e|)
    ensures WholeCount(|Sentence(sha, e)|) && EntropyOf(sha, Sentence(sha, e)) == Some(e)
  {
    hide Value, Pow, Fixed, Digits, Pad;
    var cs := |e| / 4;
    CheckedBound(sha, e);
    FixedValue(Checked(sha, e), 2048, 3 * cs);
    ChecksumBound(sha, e, cs);
    DivModUnique(Value(e, 256), Checksum(sha, e, cs), Pow(2, cs));
    PadValue(e);
  }

  /** A byte string is its value padded to its length. */
  lemma PadValue(e: seq<byte>)
    ensures Pad(Bytes(Value(e, 256)), |e|) == e
  {
    hide Value, Digits, Pad;
    ValueBound(e, 256);
    PadBytes(Value(e, 256), |e|);
    ValueInjective(Pad(Bytes(Value(e, 256)), |e|), e, 256);
  }

  /** Every sentence that decodes is the sentence of what it decodes to. */
  lemma SentenceOfEntropy(sha: seq<byte> -> byte, ixs: seq<nat>)
    requires WholeCount(|ixs|) && Below(ixs, 2048) && EntropyOf(sha, ixs).Some?
    ensures var e := EntropyOf(sha, ixs).value;
            WholeSize(|e|) && Sentence(sha, e) == ixs
  {
    hide Value, Pow, Fixed, Digits, Pad;
    var cs, v := |ixs| / 3, Value(ixs, 2048);
    CarriedValue(ixs);
    FixedOfValue(ixs, 2048);
    DivMod(v, Pow(2, cs));
  }

  lemma CarriedValue(ixs: seq<nat>)
    requires |ixs| % 3 == 0 && Below(ixs, 2048)
    ensures |Carried(ixs)| == |ixs| / 3 * 4
    ensures Value(Carried(ixs), 256) == Value(ixs, 2048) / Pow(2, |ixs| / 3)
  {
    hide Value, Pow, Digits, Pad;
    var cs, v := |ixs| / 3, Value(ixs, 2048);
    ValueBound(ixs, 2048);
    PowLog(cs);
    DivBound(v, Pow(256, 4 * cs), Pow(2, cs));
    PadBytes(v / Pow(2, cs), 4 * cs);
  }

  // ---------- big integers: common/bip39 ----------

  /** `addChecksum`: shifts in the checksum bits one by one. */
  method AddChecksum(sha: seq<byte> -> byte, data: seq<byte>) returns (res: seq<byte>)
    requires StandardSize(|data|)
    ensures Value(res, 256) == Checked(sha, data)
  {
    hide Value, Pow, Digits;
    var first: nat := sha(data);
    var checksumBitLength := |data| / 4;
    var dataBigInt := Value(data, 256);
    var i := 0;
    ShiftStart(dataBigInt, first);
    while i < checksumBitLength
      invariant 0 <= i <= checksumBitLength
      invariant dataBigInt == Value(data, 256) * Pow(2, i) + first / Pow(2, 8 - i)
    {
      ShiftTurn(Value(data, 256), first, i);
      dataBigInt := dataBigInt * 2;
      // bit 7 - i of the checksum byte
      if first / Pow(2, 7 - i) % 2 > 0 {
        dataBigInt := dataBigInt + 1;
      }
      i := i + 1;
    }
    BytesValue(dataBigInt);
    res := Bytes(dataBigInt);
  }

  lemma ShiftStart(d: nat, first: nat)
    requires first < 256
    ensures d == d * Pow(2, 0) + first / Pow(2, 8)
  {
    PowersOfTwo();
  }

  lemma ShiftTurn(d: nat, first: nat, i: nat)
    requires i < 8
    ensures (d * Pow(2, i) + first / Pow(2, 8 - i)) * 2 + first / Pow(2, 7 - i) % 2
            == d * Pow(2, i + 1) + first / Pow(2, 7 - i)
    ensures 0 <= first / Pow(2, 8 - i) && 0 <= first / Pow(2, 7 - i)
  {
    hide Pow;
    PowUnfold(2, i + 1);
    PowUnfold(2, 8 - i);
    var p := Pow(2, 7 - i);
    DivDivBy(first, p, 2);
    assert p * 2 == 2 * p;
    MulAssoc(d, Pow(2, i), 2);
    MulGap(first / (2 * p), 2 * p);
  }

  method NewMnemonic(list: seq<string>, sha: seq<byte> -> byte, entropy: seq<byte>)
      returns (res: Option<seq<string>>)
    requires |list| == 2048
    ensures res == if StandardSize(|entropy|) then Some(Words(list, Sentence(sha, entropy))) else None
  {
    hide Value, Fixed, Checked;
    var entropyBitLength := |entropy| * 8;
    var checksumBitLength := entropyBitLength / 32;
    var sentenceLength := (entropyBitLength + checksumBitLength) / 11;
    if entropyBitLength % 32 != 0 || entropyBitLength < 128 || entropyBitLength > 256 {
      return None;
    }
    assert sentenceLength == |entropy| / 4 * 3;
    var withSum := AddChecksum(sha, entropy);
    var entropyInt := Value(withSum, 256);
    ghost var ixs := Sentence(sha, entropy);
    var words := new string[sentenceLength](_ => "");
    var i := sentenceLength - 1;
    while i >= 0
      invariant -1 <= i < sentenceLength
      invariant ixs[..i + 1] == Fixed(entropyInt, 2048, i + 1)
      invariant forall k :: i < k < sentenceLength ==> words[k] == list[ixs[k]]
    {
      var word := entropyInt % 2048;
      FixedSnoc(entropyInt, 2048, i);
      assert ixs[..i + 1][..i] == ixs[..i] && ixs[..i + 1][i] == ixs[i];
      entropyInt := entropyInt / 2048;
      words[i] := list[word];
      i := i - 1;
    }
    assert words[..] == Words(list, ixs);
    return Some(words[..]);
  }

  function ChecksumMask(words: nat): nat
  {
    if words == 12 then 15 else if words == 15 then 31 else if words == 18 then 63
    else if words == 21 then 127 else 255
  }

  function ChecksumShift(words: nat): (s: nat)
    ensures s > 0
  {
    if words == 12 then 16 else if words == 15 then 8 else if words == 18 then 4 else 2
  }

  lemma MaskIs(words: nat)
    requires StandardCount(words)
    ensures ChecksumMask(words) + 1 == Pow(2, words / 3)
    ensures words != 24 ==> ChecksumShift(words) == Pow(2, 8 - words / 3)
    ensures words == 24 ==> Pow(2, 8 - words / 3) == 1
  {
    PowersOfTwo();
  }

  method EntropyFromMnemonic(
      list: seq<string>, index: map<string, nat>, sha: seq<byte> -> byte, mnemonic: seq<string>)
      returns (res: Option<seq<byte>>)
    requires Dictionary(list, index)
    ensures res == if StandardCount(|mnemonic|) && Known(index, mnemonic)
                   then EntropyOf(sha, Indices(index, mnemonic)) else None
  {
    hide Value, Pow, Digits, Pad;
    if |mnemonic| % 3 != 0 || |mnemonic| < 12 || |mnemonic| > 24 {
      return None;
    }
    var b: nat := 0;
    var i := 0;
    NoDigits(2048);
    while i < |mnemonic|
      invariant 0 <= i <= |mnemonic| && Known(index, mnemonic[..i])
      invariant b == Value(Indices(index, mnemonic[..i]), 2048)
    {
      var w := mnemonic[i];
      if w !in index {
        return None;
      }
      IndicesSnoc(index, mnemonic, i);
      b := b * 2048;
      b := b + index[w];
      i := i + 1;
    }
    assert mnemonic[..|mnemonic|] == mnemonic;
    MaskIs(|mnemonic|);
    var checksumMask := ChecksumMask(|mnemonic|);
    var checksum := b % (checksumMask + 1);
    b := b / (checksumMask + 1);
    var entropy := Pad(Bytes(b), |mnemonic| / 3 * 4);
    var entropyChecksum: nat := sha(entropy);
    if |mnemonic| != 24 {
      entropyChecksum := entropyChecksum / ChecksumShift(|mnemonic|);
    }
    if checksum != entropyChecksum {
      return None;
    }
    return Some(entropy);
  }

  lemma IndicesSnoc(index: map<string, nat>, ws: seq<string>, i: nat)
    requires i < |ws| && Known(index, ws[..i]) && ws[i] in index
    ensures Known(index, ws[..i + 1])
    ensures Indices(index, ws[..i + 1]) == Indices(index, ws[..i]) + [index[ws[i]]]
    ensures Value(Indices(index, ws[..i + 1]), 2048) == Value(Indices(index, ws[..i]), 2048) * 2048 + index[ws[i]]
  {
    var ixs := Indices(index, ws[..i]);
    assert ws[..i + 1] == ws[..i] + [ws[i]];
    assert (ixs + [index[ws[i]]])[..i] == ixs;
  }
}
