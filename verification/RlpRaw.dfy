/** The slice reader of common/rlp/raw.go, and the tree parser that follows from it. */
module RlpRaw {
  import opened Wrappers
  import opened Radix
  import opened RlpSpec

  /** The shifted sums of `readSize`, one per length. */
  function Shifted(d: seq<nat>): nat
    requires 1 <= |d| <= 8
  {
    match |d|
    case 1 => d[0]
    case 2 => d[0] * 0x100 + d[1]
    case 3 => d[0] * 0x1_0000 + d[1] * 0x100 + d[2]
    case 4 => d[0] * 0x100_0000 + d[1] * 0x1_0000 + d[2] * 0x100 + d[3]
    case 5 => d[0] * 0x1_0000_0000 + d[1] * 0x100_0000 + d[2] * 0x1_0000 + d[3] * 0x100 + d[4]
    case 6 => d[0] * 0x100_0000_0000 + d[1] * 0x1_0000_0000 + d[2] * 0x100_0000 + d[3] * 0x1_0000
      + d[4] * 0x100 + d[5]
    case 7 => d[0] * 0x1_0000_0000_0000 + d[1] * 0x100_0000_0000 + d[2] * 0x1_0000_0000
      + d[3] * 0x100_0000 + d[4] * 0x1_0000 + d[5] * 0x100 + d[6]
    case _ =>
      d[0] * 0x100_0000_0000_0000 + d[1] * 0x1_0000_0000_0000 + d[2] * 0x100_0000_0000
      + d[3] * 0x1_0000_0000 + d[4] * 0x100_0000 + d[5] * 0x1_0000 + d[6] * 0x100 + d[7]
  }

  function ReadSize(b: seq<byte>, slen: byte): Result<nat, Error>
    requires 1 <= slen <= 8
  {
    if slen > |b| then Err(UnexpectedEOF)
    else
      var s := Shifted(b[..slen]);
      if s < 56 || b[0] == 0 then Err(CanonSize) else Ok(s)
  }

  /** Kind, tag size and content size of the value at the front of `buf`. */
  function ReadKind(buf: seq<byte>): (r: Result<(Kind, nat, nat), Error>)
    ensures r.Ok? ==> r.value.1 + r.value.2 <= |buf| && r.value.1 + r.value.2 >= 1
    ensures r.Ok? && r.value.0 != Byte ==> r.value.1 >= 1
  {
    if |buf| == 0 then Err(UnexpectedEOF)
    else
      var b := buf[0];
      var head: Result<(Kind, nat, nat), Error> :=
        if b < 0x80 then Ok((Byte, 0, 1))
        else if b < 0xB8 then
          if b - 0x80 == 1 && |buf| > 1 && buf[1] < 128 then Err(CanonSize)
          else Ok((String, 1, b - 0x80))
        else if b < 0xC0 then
          match ReadSize(buf[1..], b - 0xB7)
          case Ok(size) => Ok((String, b - 0xB7 + 1, size))
          case Err(e) => Err(e)
        else if b < 0xF8 then Ok((ListKind, 1, b - 0xC0))
        else
          match ReadSize(buf[1..], b - 0xF7)
          case Ok(size) => Ok((ListKind, b - 0xF7 + 1, size))
          case Err(e) => Err(e);
      if head.Ok? && head.value.2 > |buf| - head.value.1 then Err(ValueTooLarge) else head
  }

  /** First value of `b`: its kind, its content and the bytes after it. */
  function Split(b: seq<byte>): (r: Result<(Kind, seq<byte>, seq<byte>), Error>)
    ensures r.Ok? ==> |r.value.2| < |b| && |r.value.1| + |r.value.2| <= |b|
    ensures r.Ok? && r.value.0 == ListKind ==> |r.value.1| < |b|
  {
    match ReadKind(b)
    case Err(e) => Err(e)
    case Ok((k, ts, cs)) => Ok((k, b[ts..ts + cs], b[ts + cs..]))
  }

  function SplitString(b: seq<byte>): Result<(seq<byte>, seq<byte>), Error>
  {
    match Split(b)
    case Err(e) => Err(e)
    case Ok((k, content, rest)) => if k == ListKind then Err(ExpectedString) else Ok((content, rest))
  }

  function SplitUint64(b: seq<byte>): Result<(nat, seq<byte>), Error>
  {
    match SplitString(b)
    case Err(e) => Err(e)
    case Ok((content, rest)) =>
      if |content| == 0 then Ok((0, rest))
      else if |content| == 1 then
        if content[0] == 0 then Err(CanonInt) else Ok((content[0], rest))
      else if |content| > 8 then Err(UintOverflow)
      else
        match ReadSize(content, |content|)
        case Err(_) => Err(CanonInt)
        case Ok(x) => Ok((x, rest))
  }

  /** The item tree at the front of `b`, obtained by splitting every list recursively. */
  function ParseItem(b: seq<byte>): (r: Option<(Item, seq<byte>)>)
    ensures r.Some? ==> |r.value.1| < |b|
    decreases |b|, 0
  {
    match Split(b)
    case Err(_) => None
    case Ok((k, content, rest)) =>
      if k == ListKind then
        match ParseAll(content)
        case None => None
        case Some(ts) => Some((List(ts), rest))
      else Some((Str(content), rest))
  }

  function ParseAll(b: seq<byte>): Option<seq<Item>>
    decreases |b|, 1
  {
    if b == [] then Some([])
    else
      match ParseItem(b)
      case None => None
      case Some((t, rest)) =>
        match ParseAll(rest)
        case None => None
        case Some(ts) => Some([t] + ts)
  }

  // ---------- sizes ----------

  lemma {:induction false} ShiftedValue(d: seq<nat>)
    requires 1 <= |d| <= 8
    ensures Shifted(d) == Value(d, 256)
  {
    if |d| > 1 {
      ShiftedValue(d[..|d| - 1]);
    }
  }

  /** `readSize` reads a big-endian number and refuses exactly the sizes that are too small or start
      with a zero byte. */
  lemma ReadSizeValue(b: seq<byte>, slen: byte)
    requires 1 <= slen <= 8 && slen <= |b|
    ensures ReadSize(b, slen) ==
            if Value(b[..slen], 256) < 56 || b[0] == 0 then Err(CanonSize) else Ok(Value(b[..slen], 256))
  {
    ShiftedValue(b[..slen]);
  }

  lemma ReadSizeOf(d: seq<byte>, rest: seq<byte>)
    requires 1 <= |d| <= 8 && d[0] != 0 && Value(d, 256) >= 56
    ensures ReadSize(d + rest, |d|) == Ok(Value(d, 256))
  {
    assert (d + rest)[..|d|] == d;
    ReadSizeValue(d + rest, |d|);
  }

  /** Reading back the long form of a header. */
  lemma ReadSizeBytes(n: nat, rest: seq<byte>)
    requires 56 <= n < TWO64
    ensures 1 <= |Bytes(n)| <= 8
    ensures ReadSize(Bytes(n) + rest, |Bytes(n)|) == Ok(n)
  {
    BytesLength(n);
    DigitsValue(n, 256);
    ReadSizeOf(Bytes(n), rest);
  }

  /** A size that was read is the canonical big-endian form of itself. */
  lemma ReadSizeCanonical(b: seq<byte>, slen: byte)
    requires 1 <= slen <= 8 && ReadSize(b, slen).Ok?
    ensures 56 <= ReadSize(b, slen).value < TWO64
    ensures b[..slen] == Bytes(ReadSize(b, slen).value)
  {
    ReadSizeValue(b, slen);
    ValueDigits(b[..slen], 256);
    BytesLength(Value(b[..slen], 256));
  }

  // ---------- split against the encoding ----------

  /** The bytes of a value of kind `k` with content `c`. */
  function Wrap(k: Kind, c: seq<byte>): seq<byte>
  {
    if k == ListKind then ListHead(|c|) + c else Encode(Str(c))
  }

  function KindOf(t: Item): Kind
  {
    match t
    case Str(s) => if Single(s) then Byte else String
    case List(_) => ListKind
  }

  lemma ReadKindShort(k: Kind, n: nat, tail: seq<byte>)
    requires n < 56 && k != Byte && n <= |tail|
    requires k == String && n == 1 ==> tail[0] >= 128
    ensures ReadKind([if k == ListKind then 0xC0 + n else 0x80 + n] + tail) == Ok((k, 1, n))
  {
  }

  lemma ReadKindLong(k: Kind, n: nat, tail: seq<byte>)
    requires 56 <= n < TWO64 && k != Byte && n <= |tail|
    ensures 1 <= |Bytes(n)| <= 8
    ensures ReadKind([(if k == ListKind then 0xF7 else 0xB7) + |Bytes(n)|] + Bytes(n) + tail)
            == Ok((k, 1 + |Bytes(n)|, n))
  {
    ReadSizeBytes(n, tail);
    var b: seq<byte> := [(if k == ListKind then 0xF7 else 0xB7) + |Bytes(n)|] + Bytes(n) + tail;
    assert b[1..] == Bytes(n) + tail;
  }

  function HeadOf(k: Kind, n: nat): seq<byte>
  {
    if k == ListKind then ListHead(n) else StrHead(n)
  }

  lemma HeadForm(k: Kind, n: nat)
    requires n < TWO64
    ensures n < 56 ==> HeadOf(k, n) == [if k == ListKind then 0xC0 + n else 0x80 + n]
    ensures n >= 56 ==> |Bytes(n)| <= 8
    ensures n >= 56 ==> HeadOf(k, n) == [(if k == ListKind then 0xF7 else 0xB7) + |Bytes(n)|] + Bytes(n)
  {
    BytesLength(n);
  }

  lemma ReadKindHead(k: Kind, n: nat, tail: seq<byte>)
    requires k != Byte && n <= |tail| && n < TWO64
    requires k == String && n == 1 ==> tail[0] >= 128
    ensures ReadKind(HeadOf(k, n) + tail) == Ok((k, |HeadOf(k, n)|, n))
  {
    HeadForm(k, n);
    hide HeadOf, Digits, ReadKind;
    var h := HeadOf(k, n);
    if n < 56 {
      ReadKindShort(k, n, tail);
    } else {
      ReadKindLong(k, n, tail);
    }
  }

  lemma Parts(h: seq<byte>, c: seq<byte>, rest: seq<byte>)
    ensures (h + (c + rest))[|h|..|h| + |c|] == c
    ensures (h + (c + rest))[|h| + |c|..] == rest
    ensures h + c + rest == h + (c + rest)
  {
  }

  lemma SplitHead(k: Kind, c: seq<byte>, rest: seq<byte>)
    requires |c| < TWO64
    requires k == ListKind || (k == String && !Single(c))
    ensures Split(Wrap(k, c) + rest) == Ok((k, c, rest))
  {
    hide Head;
    ReadKindHead(k, |c|, c + rest);
    Parts(HeadOf(k, |c|), c, rest);
  }

  lemma SplitWrap(k: Kind, c: seq<byte>, rest: seq<byte>)
    requires |c| < TWO64
    requires k == Byte <==> k != ListKind && Single(c)
    ensures Split(Wrap(k, c) + rest) == Ok((k, c, rest))
  {
    if k == Byte {
      var b := c + rest;
      assert ReadKind(b) == Ok((Byte, 0, 1));
      assert b[0..1] == c && b[1..] == rest;
    } else {
      SplitHead(k, c, rest);
    }
  }

  /** The tag of an accepted value is the canonical header of its size. */
  lemma ReadKindCanonical(b: seq<byte>)
    requires ReadKind(b).Ok? && ReadKind(b).value.0 != Byte
    ensures var (k, ts, cs) := ReadKind(b).value;
            cs < TWO64 && b[..ts] == HeadOf(k, cs)
  {
    hide Shifted, Digits, Value;
    var (k, ts, cs) := ReadKind(b).value;
    var large := if k == ListKind then 0xF7 else 0xB7;
    if b[0] > large {
      ReadSizeCanonical(b[1..], b[0] - large);
      assert b[..ts] == [b[0]] + b[1..][..b[0] - large];
    } else {
      assert b[..ts] == [b[0]];
    }
  }

  lemma SplitCanonical(b: seq<byte>)
    requires Split(b).Ok?
    ensures var (k, c, rest) := Split(b).value;
            && |c| < TWO64
            && (k == Byte <==> k != ListKind && Single(c))
            && b == Wrap(k, c) + rest
  {
    hide ReadSize, Digits;
    var (k, ts, cs) := ReadKind(b).value;
    var c := b[ts..ts + cs];
    assert b == b[..ts] + c + b[ts + cs..];
    if k == Byte {
      assert c == [b[0]] && b[..ts] == [];
    } else {
      ReadKindCanonical(b);
    }
  }

  /** `Split` accepts exactly the byte strings that begin with a canonically wrapped value. */
  lemma SplitIff(b: seq<byte>, k: Kind, c: seq<byte>, rest: seq<byte>)
    ensures Split(b) == Ok((k, c, rest)) <==>
            |c| < TWO64 && (k == Byte <==> k != ListKind && Single(c)) && b == Wrap(k, c) + rest
  {
    if Split(b) == Ok((k, c, rest)) {
      SplitCanonical(b);
    }
    if |c| < TWO64 && (k == Byte <==> k != ListKind && Single(c)) && b == Wrap(k, c) + rest {
      SplitWrap(k, c, rest);
    }
  }

  // ---------- the tree parser inverts the encoding ----------

  /** Canonicity: whatever parses is the encoding of what it parses to. */
  lemma {:induction false} ParseSound(b: seq<byte>)
    requires ParseItem(b).Some?
    ensures b == Encode(ParseItem(b).value.0) + ParseItem(b).value.1
    decreases |b|, 0
  {
    SplitCanonical(b);
    var (k, c, rest) := Split(b).value;
    if k == ListKind { ParseAllSound(c); }
  }

  lemma {:induction false} ParseAllSound(b: seq<byte>)
    requires ParseAll(b).Some?
    ensures b == EncodeAll(ParseAll(b).value)
    decreases |b|, 1
  {
    if b != [] {
      var (t, rest) := ParseItem(b).value;
      ParseSound(b);
      ParseAllSound(rest);
      var ts := ParseAll(rest).value;
      assert ([t] + ts)[1..] == ts;
    }
  }

  /** Round trip: an encoding parses back to its item, whatever follows it. */
  lemma {:induction false} ParseEncode(t: Item, rest: seq<byte>)
    requires |Encode(t)| < TWO64
    ensures ParseItem(Encode(t) + rest) == Some((t, rest))
    decreases t, 0
  {
    match t
    case Str(s) =>
      SplitWrap(KindOf(t), s, rest);
    case List(ts) =>
      var c := EncodeAll(ts);
      SplitWrap(ListKind, c, rest);
      ParseAllEncode(ts);
  }

  lemma {:induction false} ParseAllEncode(ts: seq<Item>)
    requires |EncodeAll(ts)| < TWO64
    ensures ParseAll(EncodeAll(ts)) == Some(ts)
    decreases ts, 1
  {
    if ts != [] {
      ParseEncode(ts[0], EncodeAll(ts[1..]));
      ParseAllEncode(ts[1..]);
      assert [ts[0]] + ts[1..] == ts;
    }
  }

  /** Encodings are prefix free, so the encoder is injective. */
  lemma EncodeInjective(t: Item, u: Item, x: seq<byte>, y: seq<byte>)
    requires |Encode(t)| < TWO64 && |Encode(u)| < TWO64
    requires Encode(t) + x == Encode(u) + y
    ensures t == u && x == y
  {
    ParseEncode(t, x);
    ParseEncode(u, y);
  }

  // ---------- counting ----------

  /** `CountValues` walks a concatenation of wrapped values; it does not look inside lists. */
  function Count(b: seq<byte>): Result<nat, Error>
    decreases |b|
  {
    if b == [] then Ok(0)
    else
      match ReadKind(b)
      case Err(e) => Err(e)
      case Ok((_, ts, cs)) =>
        match Count(b[ts + cs..])
        case Err(e) => Err(e)
        case Ok(n) => Ok(n + 1)
  }

  method CountValues(b: seq<byte>) returns (r: Result<nat, Error>)
    ensures r == Count(b)
  {
    hide Count, ReadKind;
    CountUnfold(b);
    var i, rest := 0, b;
    while |rest| > 0
      invariant Count(b) == match Count(rest) case Ok(n) => Ok(n + i) case Err(e) => Err(e)
      decreases |rest|
    {
      CountUnfold(rest);
      match ReadKind(rest) {
        case Err(e) => return Err(e);
        case Ok((_, tagsize, size)) =>
          rest := rest[tagsize + size..];
          i := i + 1;
      }
    }
    CountUnfold(rest);
    return Ok(i);
  }

  lemma CountUnfold(b: seq<byte>)
    ensures Count(b) == if b == [] then Ok(0) else
              match ReadKind(b)
              case Err(e) => Err(e)
              case Ok((_, ts, cs)) =>
                match Count(b[ts + cs..])
                case Err(e) => Err(e)
                case Ok(n) => Ok(n + 1)
  {
  }

  lemma {:induction false} CountEncodeAll(ts: seq<Item>)
    requires |EncodeAll(ts)| < TWO64
    ensures Count(EncodeAll(ts)) == Ok(|ts|)
  {
    if ts != [] {
      var b, rest := EncodeAll(ts), EncodeAll(ts[1..]);
      match ts[0] {
        case Str(s) => SplitWrap(KindOf(ts[0]), s, rest);
        case List(us) => SplitWrap(ListKind, EncodeAll(us), rest);
      }
      assert Split(b).Ok? && Split(b).value.2 == rest;
      CountEncodeAll(ts[1..]);
    }
  }

  /** Whenever a count comes back, the input was that many wrapped values laid end to end. */
  lemma {:induction false} CountSound(b: seq<byte>) returns (vs: seq<(Kind, seq<byte>)>)
    requires Count(b).Ok?
    ensures |vs| == Count(b).value && b == WrapAll(vs)
    decreases |b|
  {
    if b == [] {
      vs := [];
    } else {
      SplitCanonical(b);
      var (k, c, rest) := Split(b).value;
      vs := CountSound(rest);
      vs := [(k, c)] + vs;
    }
  }

  function WrapAll(vs: seq<(Kind, seq<byte>)>): seq<byte>
  {
    if vs == [] then [] else Wrap(vs[0].0, vs[0].1) + WrapAll(vs[1..])
  }
}
