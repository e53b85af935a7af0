/**
 Recursive Length Prefix as the Ethereum Yellow Paper (Appendix B) defines it: item trees and the
 nested byte strings they stand for. The machines of the other Rlp modules are proved against it.
 */
module RlpSpec {
  import opened Radix

  const TWO64: nat := 0x1_0000_0000_0000_0000
  type uint64 = x: int | 0 <= x < 0x1_0000_0000_0000_0000

  datatype Item = Str(s: seq<byte>) | List(items: seq<Item>)

  datatype Kind = Byte | String | ListKind

  datatype Error =
    | EOF | EOL | UnexpectedEOF
    | CanonSize | CanonInt | ValueTooLarge | ElemTooLarge
    | ExpectedString | ExpectedList | UintOverflow
    | NotInList | NotAtEOL | MoreThanOneValue


  /** The header of a string or list of `size` content bytes; tag arithmetic is on bytes. */
  function Head(small: byte, large: byte, size: nat): (h: seq<byte>)
    ensures |h| >= 1
  {
    if size < 56 then [(small + size) % 256]
    else [(large + |Bytes(size)|) % 256] + Bytes(size)
  }

  function StrHead(size: nat): seq<byte> { Head(0x80, 0xB7, size) }

  function ListHead(size: nat): seq<byte> { Head(0xC0, 0xF7, size) }

  predicate Single(s: seq<byte>) { |s| == 1 && s[0] < 0x80 }

  function Encode(t: Item): (b: seq<byte>)
    ensures |b| >= 1
  {
    match t
    case Str(s) => if Single(s) then s else StrHead(|s|) + s
    case List(ts) => ListHead(|EncodeAll(ts)|) + EncodeAll(ts)
  }

  function EncodeAll(ts: seq<Item>): seq<byte>
  {
    if ts == [] then [] else Encode(ts[0]) + EncodeAll(ts[1..])
  }

  /** Integers are encoded as the string of their shortest big-endian form. */
  function EncodeUint(n: nat): seq<byte> { Encode(Str(Bytes(n))) }

  /** The kinds of headers with their tag bytes, as the format describes them. */
  lemma StringHeaders(s: seq<byte>)
    ensures |s| == 1 && s[0] <= 0x7F ==> Encode(Str(s)) == s
    ensures |s| <= 55 && !(|s| == 1 && s[0] <= 0x7F) ==> Encode(Str(s)) == [0x80 + |s|] + s
    ensures 56 <= |s| < TWO64 ==> |Bytes(|s|)| <= 8 && Encode(Str(s)) == [0xB7 + |Bytes(|s|)|] + Bytes(|s|) + s
  {
    hide Head;
    HeadIs(0x80, 0xB7, |s|);
  }

  lemma ListHeaders(ts: seq<Item>)
    ensures var n := |EncodeAll(ts)|;
            && (n <= 55 ==> Encode(List(ts)) == [0xC0 + n] + EncodeAll(ts))
            && (56 <= n < TWO64 ==>
                  |Bytes(n)| <= 8 && Encode(List(ts)) == [0xF7 + |Bytes(n)|] + Bytes(n) + EncodeAll(ts))
  {
    HeadIs(0xC0, 0xF7, |EncodeAll(ts)|);
    assert Encode(List(ts)) == ListHead(|EncodeAll(ts)|) + EncodeAll(ts);
    hide Head, Bytes, EncodeAll, Encode;
  }

  /** The content of a list: the encodings of its items in order. */
  lemma Content(ts: seq<Item>)
    ensures EncodeAll([]) == [] && (ts != [] ==> EncodeAll(ts) == Encode(ts[0]) + EncodeAll(ts[1..]))
  {
  }

  lemma HeadIs(small: byte, large: byte, size: nat)
    requires small <= 0xC0 && large <= 0xF7
    ensures size <= 55 ==> Head(small, large, size) == [small + size]
    ensures 56 <= size < TWO64 ==>
              |Bytes(size)| <= 8 && Head(small, large, size) == [large + |Bytes(size)|] + Bytes(size)
  {
    BytesLength(size);
    hide Bytes;
  }

  /** A string of 1024 bytes is encoded as B9 04 00 followed by the string; the integer 1024 as 82 04 00. */
  lemma Examples(s: seq<byte>)
    requires |s| == 1024
    ensures Encode(Str(s)) == [0xB9, 0x04, 0x00] + s
    ensures EncodeUint(1024) == [0x82, 0x04, 0x00] && EncodeUint(0) == [0x80]
  {
    TwoDigits();
    hide Encode, Digits;
    StringHeaders(s);
    StringHeaders([4, 0]);
    StringHeaders([]);
    assert Bytes(1024) == [4, 0] && Bytes(0) == [];
    assert [0xB7 + 2] + [4, 0] == [0xB9, 0x04, 0x00];
    assert [0x80 + 2] + [4, 0] == [0x82, 0x04, 0x00];
    assert [0x80 + 0] + [] == [0x80];
  }

  lemma TwoDigits()
    ensures Digits(1024, 256) == [4, 0]
  {
    assert Digits(4, 256) == [4];
  }

  lemma {:induction false} EncodeAllConcat(ts: seq<Item>, us: seq<Item>)
    ensures EncodeAll(ts + us) == EncodeAll(ts) + EncodeAll(us)
  {
    hide Encode, EncodeAll;
    Content(ts);
    Content(ts + us);
    if ts == [] {
      assert ts + us == us;
    } else {
      EncodeAllConcat(ts[1..], us);
      assert (ts + us)[1..] == ts[1..] + us;
      assert Encode(ts[0]) + EncodeAll(ts[1..]) + EncodeAll(us) == Encode(ts[0]) + (EncodeAll(ts[1..]) + EncodeAll(us));
    }
  }

  lemma BytesLength(n: nat)
    ensures n < TWO64 <==> |Bytes(n)| <= 8
    ensures n >= 1 ==> |Bytes(n)| >= 1
    ensures n >= 256 ==> |Bytes(n)| >= 2
  {
    DigitsLength(n, 256, 8);
    assert Pow(256, 8) == TWO64 by {
      PowAdd(256, 4, 4);
      assert Pow(256, 4) == 0x1_0000_0000;
    }
    DigitsLength(n, 256, 1);
  }
}
