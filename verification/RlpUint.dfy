/** The unsigned integer codecs of common/rlp: `putint`, `intsize`, `AppendUint64`, `SplitUint64`. */
module RlpUint {
  import opened Wrappers
  import opened Radix
  import opened RlpSpec
  import opened RlpRaw

  /** Go's conversion to byte. */
  function ToByte(i: nat): byte { i % 256 }

  /** The bytes `putint` stores, one branch per length. */
  function PutIntBytes(i: uint64): seq<byte>
  {
    if i < 0x100 then [ToByte(i)]
    else if i < 0x1_0000 then [ToByte(i / 0x100), ToByte(i)]
    else if i < 0x100_0000 then [ToByte(i / 0x1_0000), ToByte(i / 0x100), ToByte(i)]
    else if i < 0x1_0000_0000 then
      [ToByte(i / 0x100_0000), ToByte(i / 0x1_0000), ToByte(i / 0x100), ToByte(i)]
    else if i < 0x100_0000_0000 then
      [ToByte(i / 0x1_0000_0000), ToByte(i / 0x100_0000), ToByte(i / 0x1_0000), ToByte(i / 0x100),
       ToByte(i)]
    else if i < 0x1_0000_0000_0000 then
      [ToByte(i / 0x100_0000_0000), ToByte(i / 0x1_0000_0000), ToByte(i / 0x100_0000),
       ToByte(i / 0x1_0000), ToByte(i / 0x100), ToByte(i)]
    else if i < 0x100_0000_0000_0000 then
      [ToByte(i / 0x1_0000_0000_0000), ToByte(i / 0x100_0000_0000), ToByte(i / 0x1_0000_0000),
       ToByte(i / 0x100_0000), ToByte(i / 0x1_0000), ToByte(i / 0x100), ToByte(i)]
    else
      [ToByte(i / 0x100_0000_0000_0000), ToByte(i / 0x1_0000_0000_0000), ToByte(i / 0x100_0000_0000),
       ToByte(i / 0x1_0000_0000), ToByte(i / 0x100_0000), ToByte(i / 0x1_0000), ToByte(i / 0x100),
       ToByte(i)]
  }

  lemma PutIntStep(i: uint64)
    requires i >= 0x100
    ensures PutIntBytes(i) == PutIntBytes(i / 0x100) + [ToByte(i)]
  {
    DivDivBy(i, 256, 0x100);
    DivDivBy(i, 256, 0x1_0000);
    DivDivBy(i, 256, 0x100_0000);
    DivDivBy(i, 256, 0x1_0000_0000);
    DivDivBy(i, 256, 0x100_0000_0000);
    DivDivBy(i, 256, 0x1_0000_0000_0000);
    PutIntStepBy(i, i / 0x100);
  }

  lemma PutIntStepBy(i: uint64, q: uint64)
    requires i >= 0x100 && q == i / 0x100
    requires q / 0x100 == i / 0x1_0000
    requires q / 0x1_0000 == i / 0x100_0000
    requires q / 0x100_0000 == i / 0x1_0000_0000
    requires q / 0x1_0000_0000 == i / 0x100_0000_0000
    requires q / 0x100_0000_0000 == i / 0x1_0000_0000_0000
    requires q / 0x1_0000_0000_0000 == i / 0x100_0000_0000_0000
    ensures PutIntBytes(i) == PutIntBytes(q) + [ToByte(i)]
  {
    if i < 0x1_0000 {
    } else if i < 0x100_0000 {
    } else if i < 0x1_0000_0000 {
    } else if i < 0x100_0000_0000 {
    } else if i < 0x1_0000_0000_0000 {
    } else if i < 0x100_0000_0000_0000 {
    } else {
    }
  }

  /** `putint` stores the shortest big-endian form of every positive integer. */
  lemma {:induction false} PutIntIsBytes(i: uint64)
    requires i > 0
    ensures PutIntBytes(i) == Bytes(i)
  {
    if i >= 0x100 {
      PutIntStep(i);
      PutIntIsBytes(i / 0x100);
    } else {
      assert Digits(i / 256, 256) == [];
    }
  }

  method IntSize(i: uint64) returns (size: nat)
    ensures i > 0 ==> size == |Bytes(i)|
    ensures i == 0 ==> size == 1
  {
    size := 1;
    var rest: nat := i / 256;
    while rest != 0
      invariant i > 0 ==> size + |Bytes(rest)| == |Bytes(i)|
      invariant i == 0 ==> rest == 0 && size == 1
      decreases rest
    {
      size := size + 1;
      rest := rest / 256;
    }
  }

  method HeadSize(size: uint64) returns (n: nat)
    ensures n == |StrHead(size)| == |ListHead(size)|
  {
    if size < 56 { return 1; }
    n := IntSize(size);
    n := n + 1;
  }

  /** raw.go's IntSize: the length of the encoding of an integer. */
  method EncodedIntSize(x: uint64) returns (n: nat)
    ensures n == |EncodeUint(x)|
  {
    if x < 0x80 {
      UintSmall(x);
      return 1;
    }
    n := IntSize(x);
    UintLong(x);
    BytesLength(x);
    n := n + 1;
  }

  method StringSize(s: seq<byte>) returns (n: nat)
    requires |s| < TWO64
    ensures n == |Encode(Str(s))|
  {
    if |s| == 0 {
      return 1;
    } else if |s| == 1 {
      return if s[0] <= 0x7f then 1 else 2;
    } else {
      n := HeadSize(|s|);
      n := n + |s|;
    }
  }

  method ListSize(contentSize: uint64) returns (n: nat)
    ensures n == |ListHead(contentSize)| + contentSize
  {
    n := HeadSize(contentSize);
    n := n + contentSize;
  }

  /** The bytes that `AppendUint64` appends, branch by branch. */
  function AppendedBytes(i: uint64): seq<byte>
  {
    if i == 0 then [0x80]
    else if i < 128 then [ToByte(i)]
    else if i < 0x100 then [0x81, ToByte(i)]
    else if i < 0x1_0000 then [0x82, ToByte(i / 0x100), ToByte(i)]
    else if i < 0x100_0000 then [0x83, ToByte(i / 0x1_0000), ToByte(i / 0x100), ToByte(i)]
    else if i < 0x1_0000_0000 then
      [0x84, ToByte(i / 0x100_0000), ToByte(i / 0x1_0000), ToByte(i / 0x100), ToByte(i)]
    else if i < 0x100_0000_0000 then
      [0x85, ToByte(i / 0x1_0000_0000), ToByte(i / 0x100_0000), ToByte(i / 0x1_0000),
       ToByte(i / 0x100), ToByte(i)]
    else if i < 0x1_0000_0000_0000 then
      [0x86, ToByte(i / 0x100_0000_0000), ToByte(i / 0x1_0000_0000), ToByte(i / 0x100_0000),
       ToByte(i / 0x1_0000), ToByte(i / 0x100), ToByte(i)]
    else if i < 0x100_0000_0000_0000 then
      [0x87, ToByte(i / 0x1_0000_0000_0000), ToByte(i / 0x100_0000_0000),
       ToByte(i / 0x1_0000_0000), ToByte(i / 0x100_0000), ToByte(i / 0x1_0000), ToByte(i / 0x100),
       ToByte(i)]
    else
      [0x88, ToByte(i / 0x100_0000_0000_0000), ToByte(i / 0x1_0000_0000_0000),
       ToByte(i / 0x100_0000_0000), ToByte(i / 0x1_0000_0000), ToByte(i / 0x100_0000),
       ToByte(i / 0x1_0000), ToByte(i / 0x100), ToByte(i)]
  }

  function AppendUint64(b: seq<byte>, i: uint64): seq<byte> { b + AppendedBytes(i) }

  lemma UintSmall(i: nat)
    requires i < 128
    ensures EncodeUint(i) == if i == 0 then [0x80] else [i]
  {
    if i > 0 {
      assert Digits(i / 256, 256) == [];
      assert Bytes(i) == [i];
    }
  }

  lemma UintLong(i: nat)
    requires 128 <= i
    ensures !Single(Bytes(i))
    ensures EncodeUint(i) == StrHead(|Bytes(i)|) + Bytes(i)
  {
    if i < 256 {
      assert Digits(i / 256, 256) == [];
      assert Bytes(i) == [i];
    } else {
      BytesLength(i);
    }
  }

  lemma AppendShape(i: uint64)
    requires i >= 128
    ensures |PutIntBytes(i)| <= 8
    ensures AppendedBytes(i) == [0x80 + |PutIntBytes(i)|] + PutIntBytes(i)
  {
    hide ToByte;
    if i < 0x100 {
    } else if i < 0x1_0000 {
    } else if i < 0x100_0000 {
    } else if i < 0x1_0000_0000 {
    } else if i < 0x100_0000_0000 {
    } else if i < 0x1_0000_0000_0000 {
    } else if i < 0x100_0000_0000_0000 {
    } else {
    }
  }

  /** `AppendUint64` appends the canonical encoding, in every one of its ten branches. */
  lemma AppendUint64Canonical(b: seq<byte>, i: uint64)
    ensures AppendUint64(b, i) == b + EncodeUint(i)
  {
    if i < 128 {
      UintSmall(i);
    } else {
      UintLong(i);
      PutIntIsBytes(i);
      AppendShape(i);
    }
  }

  /** `SplitUint64` accepts exactly canonical encodings of 64-bit integers, and returns the integer. */
  lemma SplitUint64Iff(b: seq<byte>, x: nat, rest: seq<byte>)
    ensures SplitUint64(b) == Ok((x, rest)) <==> x < TWO64 && b == EncodeUint(x) + rest
  {
    if SplitUint64(b) == Ok((x, rest)) {
      SplitUint64Sound(b);
    }
    if x < TWO64 && b == EncodeUint(x) + rest {
      SplitUint64Complete(x, rest);
    }
  }

  lemma OneByte(v: byte)
    ensures Bytes(v) == if v == 0 then [] else [v]
  {
    assert Digits(v / 256, 256) == [];
  }

  lemma SplitUint64Sound(b: seq<byte>)
    requires SplitUint64(b).Ok?
    ensures SplitUint64(b).value.0 < TWO64
    ensures b == EncodeUint(SplitUint64(b).value.0) + SplitUint64(b).value.1
  {
    hide Bytes, Encode, ReadSize, Split;
    SplitCanonical(b);
    var (k, content, rest) := Split(b).value;
    if |content| <= 1 {
      OneByte(if content == [] then 0 else content[0]);
      assert content == [] || content == [content[0]];
    } else {
      ReadSizeCanonical(content, |content|);
      assert content[..|content|] == content;
    }
  }

  lemma SplitUint64Complete(x: uint64, rest: seq<byte>)
    ensures SplitUint64(EncodeUint(x) + rest) == Ok((x, rest))
  {
    var c := Bytes(x);
    BytesLength(x);
    SplitWrap(KindOf(Str(c)), c, rest);
    SplitUint64Content(x);
  }

  /** What `SplitUint64` does with the content of a canonical integer. */
  lemma SplitUint64Content(x: uint64)
    ensures x < 256 ==> Bytes(x) == if x == 0 then [] else [x]
    ensures x >= 256 ==> 2 <= |Bytes(x)| <= 8 && ReadSize(Bytes(x), |Bytes(x)|) == Ok(x)
  {
    if x < 256 {
      OneByte(x);
    } else {
      BytesLength(x);
      ReadSizeBytes(x, []);
      assert Bytes(x) + [] == Bytes(x);
    }
  }
}
