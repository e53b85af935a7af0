/** BIP-39 mnemonics with bit arrays (common/seedphrase), and how far they agree with those of common/bip39. */
module SeedPhrase {
  import opened Wrappers
  import opened Radix
  import opened FixedDigits
  import opened Mnemonic

  /** What decoding can end in: more than one byte of checksum makes the source panic. */
  datatype Outcome = Entropy(data: seq<byte>) | Invalid | Panic

  // ---------- bits ----------

  /** Bit `i` from the left of a number of `len` bits. */
  lemma BitAt(n: nat, len: nat, i: nat)
    requires i < len
    ensures 0 <= n / Pow(2, len - 1 - i)
    ensures Fixed(n, 2, len)[i] == n / Pow(2, len - 1 - i) % 2
  {
    FixedPrefix(n, 2, len, i + 1);
    var q := n / Pow(2, len - (i + 1));
    assert len - (i + 1) == len - 1 - i;
    hide Pow;
    assert Fixed(n, 2, len)[i] == Fixed(n, 2, len)[..i + 1][i] == Fixed(q, 2, i + 1)[i];
  }

  lemma {:induction false} FixedSuffix(n: nat, b: nat, len: nat, k: nat)
    requires b >= 2 && k <= len
    ensures Fixed(n, b, len)[len - k..] == Fixed(n, b, k)
  {
    if k > 0 {
      FixedLast(n, b, len);
      FixedLast(n, b, k);
      FixedSuffix(n / b, b, len - 1, k - 1);
    }
  }

  lemma BitsSnoc(ds: seq<nat>, k: nat, i: nat)
    requires i < |ds|
    ensures Bits(ds[..i + 1], k) == Bits(ds[..i], k) + Fixed(ds[i], 2, k)
  {
    assert ds[..i + 1][..i] == ds[..i];
  }

  method BytesToBitArray(data: seq<byte>) returns (out: seq<nat>)
    ensures out == Bits(data, 8)
  {
    hide Pow, Bits, Fixed;
    out := [];
    EmptyBits(8);
    for k := 0 to |data|
      invariant out == Bits(data[..k], 8)
    {
      ghost var start := out;
      var b: nat := data[k];
      for i := 0 to 8
        invariant out == start + Fixed(b, 2, 8)[..i]
      {
        BitAt(b, 8, i);
        var bit := b / Pow(2, 7 - i) % 2;
        out := out + [bit];
      }
      BitsSnoc(data, 8, k);
    }
    assert data[..|data|] == data;
  }

  lemma EmptyBits(k: nat)
    ensures Bits([], k) == []
  {
  }

  function Octets(bits: seq<nat>): (bs: seq<byte>)
    requires Below(bits, 2) && |bits| % 8 == 0
    ensures bs == Groups(bits, 8) && |bs| * 8 == |bits|
  {
    GroupsValue(bits, 8);
    PowersOfTwo();
    Groups(bits, 8)
  }

  lemma OctetsSnoc(bits: seq<nat>, i: nat)
    requires Below(bits, 2) && i % 8 == 0 && i + 8 <= |bits|
    ensures Below(bits[..i + 8], 2) && Below(bits[..i], 2)
    ensures Octets(bits[..i + 8]) == Octets(bits[..i]) + [Value(bits[i..i + 8], 2)]
  {
    var b := bits[..i + 8];
    assert b[..|b| - 8] == bits[..i] && b[|b| - 8..] == bits[i..i + 8];
  }

  /** The source reads past the end of a bit string that is not a whole number of bytes. */
  method BitArrayToBytes(bitArray: seq<nat>) returns (out: seq<byte>)
    requires Below(bitArray, 2) && |bitArray| % 8 == 0
    ensures out == Octets(bitArray)
  {
    hide Value, Pow, Groups, Octets;
    out := [];
    var i := 0;
    assert Octets(bitArray[..0]) == [];
    while i < |bitArray|
      invariant i <= |bitArray| && i % 8 == 0
      invariant Below(bitArray[..i], 2) && out == Octets(bitArray[..i])
    {
      var b: nat := 0;
      NoBits();
      assert bitArray[i..i + 0] == [];
      for j := 0 to 8
        invariant b == Value(bitArray[i..i + j], 2) < Pow(2, j)
      {
        ByteShift(bitArray, i, j, b);
        b := b * 2 % 256;
        b := b + bitArray[i + j];
      }
      PowersOfTwo();
      OctetsSnoc(bitArray, i);
      out := out + [b];
      i := i + 8;
    }
    assert bitArray[..|bitArray|] == bitArray;
  }

  lemma NoBits()
    ensures Value([], 2) == 0 && Pow(2, 0) == 1
  {
  }

  /** Shifting in the next bit of a byte loses nothing. */
  lemma ByteShift(bits: seq<nat>, i: nat, j: nat, b: nat)
    requires Below(bits, 2) && i + 8 <= |bits| && j < 8 && b == Value(bits[i..i + j], 2) < Pow(2, j)
    ensures b * 2 % 256 + bits[i + j] == Value(bits[i..i + j + 1], 2) < Pow(2, j + 1)
  {
    PowMono(2, j, 7);
    PowersOfTwo();
    PowUnfold(2, 8);
    PowUnfold(2, j + 1);
    hide Pow;
    var ds := bits[i..i + j + 1];
    assert ds[..|ds| - 1] == bits[i..i + j] && ds[|ds| - 1] == bits[i + j];
  }

  method Uint16ToBitArray(index: nat) returns (bits: seq<nat>)
    requires index < 0x10000
    ensures bits == Fixed(index, 2, 16)
  {
    hide Pow, Fixed;
    var indexBits := new nat[16];
    var n := index;
    ghost var all := Fixed(index, 2, 16);
    for i := 0 to 16
      invariant all[..16 - i] == Fixed(n, 2, 16 - i)
      invariant forall k :: 16 - i <= k < 16 ==> indexBits[k] == all[k]
    {
      FixedSnoc(n, 2, 15 - i);
      assert all[..16 - i][..15 - i] == all[..15 - i] && all[..16 - i][15 - i] == all[15 - i];
      indexBits[15 - i] := n % 2;
      n := n / 2;
    }
    bits := indexBits[..];
    assert bits == all;
  }

  // ---------- entropy to words ----------

  /** Data bits followed by the first bits of the checksum byte. */
  function SignedBits(sha: seq<byte> -> byte, data: seq<byte>): (bits: seq<nat>)
    requires WholeSize(|data|)
  {
    Bits(data, 8) + Fixed(sha(data), 2, 8)[..|data| / 4]
  }

  /** The checksum bits are the checksum number. */
  lemma ChecksumBits(sha: seq<byte> -> byte, data: seq<byte>, cs: nat)
    requires cs <= 8
    ensures Below(Fixed(sha(data), 2, 8)[..cs], 2)
    ensures Value(Fixed(sha(data), 2, 8)[..cs], 2) == Checksum(sha, data, cs)
  {
    hide Value, Pow, Fixed;
    FixedPrefix(sha(data), 2, 8, cs);
    ChecksumBound(sha, data, cs);
    FixedValue(Checksum(sha, data, cs), 2, cs);
  }

  /** The bit string is the number that common/bip39 builds. */
  lemma SignedBitsValue(sha: seq<byte> -> byte, data: seq<byte>)
    requires WholeSize(|data|)
    ensures |SignedBits(sha, data)| == |data| / 4 * 33 && Below(SignedBits(sha, data), 2)
    ensures Value(SignedBits(sha, data), 2) == Checked(sha, data)
  {
    hide Value, Pow, Fixed, Bits, Checksum;
    var cs := |data| / 4;
    PowersOfTwo();
    BitsValue(data, 8);
    ChecksumBits(sha, data, cs);
    ValueConcat(Bits(data, 8), Fixed(sha(data), 2, 8)[..cs], 2);
  }

  method AddChecksumBits(sha: seq<byte> -> byte, data: seq<byte>) returns (bits: seq<nat>)
    requires WholeSize(|data|)
    ensures bits == SignedBits(sha, data)
  {
    hide Pow, Fixed;
    var checksumBitLength := |data| / 4;
    var dataBits := BytesToBitArray(data);
    var checksumBits := BytesToBitArray([sha(data)]);
    OneByte(sha(data));
    if |checksumBits| > checksumBitLength {
      checksumBits := checksumBits[..checksumBitLength];
    }
    bits := dataBits + checksumBits;
  }

  lemma OneByte(b: byte)
    ensures Bits([b], 8) == Fixed(b, 2, 8)
  {
    assert [b][..0] == [];
    assert Bits([b], 8) == Bits([], 8) + Fixed(b, 2, 8);
  }

  /** Eleven bits, padded to sixteen, read back as a big-endian integer. */
  method ReadIndex(indexBits: seq<nat>) returns (index: nat)
    requires |indexBits| == 11 && Below(indexBits, 2)
    ensures index == Value(indexBits, 2) < 2048
  {
    hide Value, Pow, Groups;
    var padded: seq<nat> := seq(16 - |indexBits|, _ => 0) + indexBits;
    var pair := BitArrayToBytes(padded);
    PowersOfTwo();
    GroupsValue(padded, 8);
    ValueBound(indexBits, 2);
    assert padded == Zeros(5) + indexBits;
    ValueZeros(5, indexBits, 2);
    PairValue(pair);
    var high: nat, low: nat := pair[0], pair[1];
    index := high * 256 + low;
  }

  lemma PairValue(pair: seq<nat>)
    requires |pair| == 2
    ensures Value(pair, 256) == pair[0] * 256 + pair[1]
  {
    assert pair[..1][..0] == [];
    assert Value(pair[..1], 256) == Value([], 256) * 256 + pair[0];
  }

  /** Word for word what `NewMnemonic` of common/bip39 returns. */
  method Bytes2Mnemonic(list: seq<string>, sha: seq<byte> -> byte, data: seq<byte>)
      returns (res: Option<seq<string>>)
    requires |list| == 2048
    ensures res == if StandardSize(|data|) then Some(Words(list, Sentence(sha, data))) else None
  {
    hide Value, Pow, Groups, Fixed, Bits, SignedBits, Checked;
    var dataBitLength := |data| * 8;
    var checksumBitLength := dataBitLength / 32;
    var sentenceLength := (dataBitLength + checksumBitLength) / 11;
    if dataBitLength % 32 != 0 || dataBitLength < 128 || dataBitLength > 256 {
      return None;
    }
    assert sentenceLength == |data| / 4 * 3;
    var dataSignedBits := AddChecksumBits(sha, data);
    SignedBitsValue(sha, data);
    if |dataSignedBits| % 11 != 0 {
      assert false;
    }
    ghost var ixs := Sentence(sha, data);
    PowersOfTwo();
    GroupsAreDigits(dataSignedBits, 11, sentenceLength);
    var mnemonic: seq<string> := [];
    for i := 0 to sentenceLength
      invariant |dataSignedBits| == (sentenceLength - i) * 11 && Below(dataSignedBits, 2)
      invariant Groups(dataSignedBits, 11) == ixs[i..]
      invariant |mnemonic| == i && forall k :: 0 <= k < i ==> mnemonic[k] == list[ixs[k]]
    {
      var indexBits := dataSignedBits[..11];
      var rest := dataSignedBits[11..];
      assert dataSignedBits == indexBits + rest;
      GroupsFront(indexBits, rest, 11);
      dataSignedBits := rest;
      var index := ReadIndex(indexBits);
      assert ixs[i..] == [index] + Groups(rest, 11);
      assert ixs[i..][1..] == ixs[i + 1..];
      mnemonic := mnemonic + [list[index]];
    }
    assert mnemonic == Words(list, ixs);
    return Some(mnemonic);
  }

  // ---------- words to entropy ----------

  /** The word counts that `validateMnemonicWordCount` lets pass. */
  lemma WordCounts(m: nat)
    ensures 11 * m % 32 == 11 * m / 32 <==> m % 3 == 0 && m < 96
  {
    if m % 3 == 0 && m < 96 {
      assert 11 * m == 33 * (m / 3);
    }
  }

  /** The bits of a sentence before its checksum: whole octets. */
  function DataBits(ixs: seq<nat>): (bits: seq<nat>)
    requires |ixs| % 3 == 0
    ensures |bits| == 32 * (|ixs| / 3) && |bits| % 8 == 0 && Below(bits, 2)
  {
    ElevenBits(ixs);
    Bits(ixs, 11)[..32 * (|ixs| / 3)]
  }

  /** The checksum bits of a sentence, one for every three words. */
  function SumBits(ixs: seq<nat>): (bits: seq<nat>)
    requires |ixs| % 3 == 0
    ensures |bits| == |ixs| / 3 && Below(bits, 2)
  {
    ElevenBits(ixs);
    Bits(ixs, 11)[32 * (|ixs| / 3)..]
  }

  lemma ElevenBits(ixs: seq<nat>)
    requires |ixs| % 3 == 0
    ensures |Bits(ixs, 11)| == 33 * (|ixs| / 3) && 32 * (|ixs| / 3) % 8 == 0
  {
    assert 32 * (|ixs| / 3) == 8 * (4 * (|ixs| / 3));
  }

  lemma BothParts(ixs: seq<nat>)
    requires |ixs| % 3 == 0
    ensures Bits(ixs, 11) == DataBits(ixs) + SumBits(ixs)
  {
    hide Bits, Below;
    ElevenBits(ixs);
    Rejoin(Bits(ixs, 11), |DataBits(ixs)|);
  }

  lemma Rejoin(bits: seq<nat>, k: nat)
    requires k <= |bits|
    ensures bits == bits[..k] + bits[k..]
  {
  }

  /** What the bit arrays say about a sentence, as numbers. */
  lemma SentenceBits(ixs: seq<nat>)
    requires WholeCount(|ixs|) && Below(ixs, 2048)
    ensures Octets(DataBits(ixs)) == Carried(ixs)
    ensures Value(SumBits(ixs), 2) == Value(ixs, 2048) % Pow(2, |ixs| / 3)
  {
    hide Value, Pow, Fixed, Bits, Carried, Groups, DataBits, SumBits;
    var cs, hi, lo := |ixs| / 3, DataBits(ixs), SumBits(ixs);
    PowersOfTwo();
    BitsValue(ixs, 11);
    BothParts(ixs);
    ValueConcat(hi, lo, 2);
    ValueBound(lo, 2);
    DivModUnique(Value(hi, 2), Value(lo, 2), Pow(2, cs));
    CarriedValue(ixs);
    GroupsValue(hi, 8);
    ValueInjective(Octets(hi), Carried(ixs), 256);
  }

  /** The verdict on a bit string: `None` when the comparison would read past the checksum byte. */
  method ValidateChecksumBits(sha: seq<byte> -> byte, signedBits: seq<nat>) returns (ok: Option<bool>)
    requires Below(signedBits, 2)
    ensures var cs := |signedBits| / 32;
            var data := signedBits[..|signedBits| - cs];
            && Below(data, 2)
            && (|data| % 8 != 0 ==> ok == Some(false))
            && (|data| % 8 == 0 ==> ok == if cs > 8 then None else
                 Some(signedBits[|data|..] == Fixed(sha(Octets(data)), 2, 8)[..cs]))
  {
    hide Pow, Fixed, Octets, Groups, Bits;
    var checksumBitLength := |signedBits| / 32;
    var dataBits := signedBits[..|signedBits| - checksumBitLength];
    var checksumBits := signedBits[|signedBits| - checksumBitLength..];
    if |dataBits| % 8 != 0 {
      return Some(false);
    }
    var bytes := BitArrayToBytes(dataBits);
    var checksumByte := sha(bytes);
    var calculated := BytesToBitArray([checksumByte]);
    OneByte(checksumByte);
    if checksumBitLength > |calculated| {
      return None;
    }
    calculated := calculated[..checksumBitLength];
    for i := 0 to |checksumBits|
      invariant checksumBits[..i] == calculated[..i]
    {
      if checksumBits[i] != calculated[i] {
        return Some(false);
      }
    }
    assert checksumBits == checksumBits[..|checksumBits|] == calculated[..|checksumBits|] == calculated;
    return Some(true);
  }

  function DecodedBits(index: map<string, nat>, sha: seq<byte> -> byte, ws: seq<string>): Outcome
    requires forall w :: w in index ==> index[w] < 2048
  {
    if |ws| % 3 != 0 || |ws| >= 96 || !Known(index, ws) then Invalid
    else if |ws| > 24 then Panic
    else match EntropyOf(sha, Indices(index, ws)) case Some(e) => Entropy(e) case None => Invalid
  }

  /** The checksum bits match exactly when the checksum numbers do. */
  lemma ChecksumAgrees(sha: seq<byte> -> byte, ixs: seq<nat>)
    requires WholeCount(|ixs|) && Below(ixs, 2048)
    ensures var data := Octets(DataBits(ixs));
            EntropyOf(sha, ixs)
            == if SumBits(ixs) == Fixed(sha(data), 2, 8)[..|ixs| / 3] then Some(data) else None
  {
    hide Value, Pow, Fixed, Bits, Carried, Groups, Octets, Checksum, DataBits, SumBits;
    var cs, data, lo := |ixs| / 3, Octets(DataBits(ixs)), SumBits(ixs);
    SentenceBits(ixs);
    var want := Fixed(sha(data), 2, 8)[..cs];
    ChecksumBits(sha, data, cs);
    if Value(lo, 2) == Value(want, 2) {
      ValueInjective(lo, want, 2);
    }
  }

  /** The bits of all the words, or the first unknown word's error. */
  method WordBits(
      list: seq<string>, index: map<string, nat>, mnemonic: seq<string>) returns (res: Option<seq<nat>>)
    requires Dictionary(list, index)
    ensures res == if Known(index, mnemonic) then Some(Bits(Indices(index, mnemonic), 11)) else None
  {
    hide Pow, Fixed, Bits;
    var bitsArray: seq<nat> := [];
    EmptyBits(11);
    for i := 0 to |mnemonic|
      invariant Known(index, mnemonic[..i]) && bitsArray == Bits(Indices(index, mnemonic[..i]), 11)
    {
      var word := mnemonic[i];
      if word !in index {
        return None;
      }
      var indexBits := Uint16ToBitArray(index[word]);
      indexBits := indexBits[5..];
      FixedSuffix(index[word], 2, 16, 11);
      IndicesSnoc(index, mnemonic, i);
      BitsAppend(Indices(index, mnemonic[..i]), index[word], 11);
      bitsArray := bitsArray + indexBits;
    }
    assert mnemonic[..|mnemonic|] == mnemonic;
    return Some(bitsArray);
  }

  method Mnemonic2Bytes(
      list: seq<string>, index: map<string, nat>, sha: seq<byte> -> byte, mnemonic: seq<string>)
      returns (res: Outcome)
    requires Dictionary(list, index)
    ensures res == DecodedBits(index, sha, mnemonic)
  {
    hide Pow, Fixed, Bits, Octets, Groups, EntropyOf, Known, DataBits, SumBits;
    var dataBitsLen := |mnemonic| * 11;
    var payloadBitLen := dataBitsLen / 32 * 32;
    var crcBitLen := dataBitsLen - payloadBitLen;
    WordCounts(|mnemonic|);
    if crcBitLen != payloadBitLen / 32 {
      return Invalid;
    }
    var bits := WordBits(list, index, mnemonic);
    if bits.None? {
      return Invalid;
    }
    var bitsArray := bits.value;
    ghost var ixs := Indices(index, mnemonic);
    IndicesInverse(list, index, mnemonic);
    ElevenBits(ixs);
    BothParts(ixs);
    var dataLen := |bitsArray| - |bitsArray| / 32;
    assert |bitsArray| / 32 == |mnemonic| / 3 && dataLen == |DataBits(ixs)|;
    assert bitsArray[..dataLen] == DataBits(ixs) && bitsArray[dataLen..] == SumBits(ixs);
    if |mnemonic| <= 24 {
      ChecksumAgrees(sha, ixs);
    }
    var ok := ValidateChecksumBits(sha, bitsArray);
    if ok.None? {
      return Panic;
    }
    if !ok.value {
      return Invalid;
    }
    var data := BitArrayToBytes(bitsArray[..dataLen]);
    return Entropy(data);
  }

  lemma BitsAppend(ds: seq<nat>, d: nat, k: nat)
    ensures Bits(ds + [d], k) == Bits(ds, k) + Fixed(d, 2, k)
  {
    assert (ds + [d])[..|ds|] == ds;
  }

  // ---------- the two implementations ----------

  /** What `EntropyFromMnemonic` of common/bip39 returns. */
  function DecodedNumber(index: map<string, nat>, sha: seq<byte> -> byte, ws: seq<string>): Option<seq<byte>>
    requires forall w :: w in index ==> index[w] < 2048
  {
    if StandardCount(|ws|) && Known(index, ws) then EntropyOf(sha, Indices(index, ws)) else None
  }

  ghost predicate Agree(index: map<string, nat>, sha: seq<byte> -> byte, ws: seq<string>)
    requires forall w :: w in index ==> index[w] < 2048
  {
    DecodedBits(index, sha, ws)
    == match DecodedNumber(index, sha, ws) case Some(e) => Entropy(e) case None => Invalid
  }

  ghost predicate AgreeOn(list: seq<string>, index: map<string, nat>, sha: seq<byte> -> byte, n: nat)
    requires Dictionary(list, index)
  {
    forall ws: seq<string> :: |ws| == n ==> Agree(index, sha, ws)
  }

  /**
   The two decoders agree on all sentences of `n` words exactly when n is a standard count or one both
   refuse. On 0, 3, 6 and 9 words common/seedphrase accepts sentences that common/bip39 refuses; on 27, 30, ...
   93 known words it panics.
   */
  lemma AgreeExactly(list: seq<string>, index: map<string, nat>, sha: seq<byte> -> byte, n: nat)
    requires Dictionary(list, index)
    ensures AgreeOn(list, index, sha, n) <==> n % 3 != 0 || StandardCount(n) || n >= 96
  {
    hide EntropyOf, Sentence;
    if n % 3 == 0 && n < 12 {
      var e := Zeros(n / 3 * 4);
      EntropyOfSentence(sha, e);
      WordsInverse(list, index, Sentence(sha, e));
      assert !Agree(index, sha, Words(list, Sentence(sha, e)));
    } else if n % 3 == 0 && 24 < n < 96 {
      var ws := seq(n, i => list[0]);
      assert Known(index, ws);
      assert !Agree(index, sha, ws);
    }
  }

  /** Each decoder undoes each encoder, and no sentence but the encoder's own decodes to an entropy. */
  lemma MnemonicRoundTrip(list: seq<string>, index: map<string, nat>, sha: seq<byte> -> byte,
                          e: seq<byte>, ws: seq<string>)
    requires Dictionary(list, index) && StandardSize(|e|)
    ensures DecodedNumber(index, sha, ws) == Some(e) <==> ws == Words(list, Sentence(sha, e))
    ensures DecodedBits(index, sha, ws) == Entropy(e) <==> ws == Words(list, Sentence(sha, e))
  {
    hide EntropyOf, Sentence;
    EntropyOfSentence(sha, e);
    WordsInverse(list, index, Sentence(sha, e));
    if WholeCount(|ws|) && Known(index, ws) {
      IndicesInverse(list, index, ws);
      var ixs := Indices(index, ws);
      if EntropyOf(sha, ixs) == Some(e) {
        SentenceOfEntropy(sha, ixs);
      }
    }
  }
}
