/** The third way out of an encoder buffer, `encReader` of common/rlp/encbuffer.go, and `writeBigInt`. */
module RlpReader {
  import opened Wrappers
  import opened Radix
  import opened RlpSpec
  import opened RlpUint
  import opened RlpEncBuffer

  /** The part of `all` still to be delivered: an unfinished piece and what the buffer still holds. */
  ghost predicate Pending(
      all: seq<byte>, piece: Option<seq<byte>>, str: seq<byte>, heads: seq<Header>, i: nat, pos: nat)
  {
    match piece
    case None => Produced(all, [], str, heads, i, pos)
    case Some(p) => p != [] && p <= all && Produced(all[|p|..], [], str, heads, i, pos)
  }

  lemma PendingNext(all: seq<byte>, p: seq<byte>, str: seq<byte>, heads: seq<Header>, i: nat, pos: nat)
    requires p != [] && Produced(all, p, str, heads, i, pos)
    ensures p <= all && Pending(all, Some(p), str, heads, i, pos)
  {
    assert [] + Render(str, heads[i..], pos) == Render(str, heads[i..], pos);
  }

  /** Delivering `nn` bytes of the current piece. */
  lemma PendingTake(
      all: seq<byte>, p: seq<byte>, nn: nat, str: seq<byte>, heads: seq<Header>, i: nat, pos: nat)
    requires nn <= |p| && Pending(all, Some(p), str, heads, i, pos)
    ensures nn <= |all| && all[..nn] == p[..nn]
    ensures Pending(all[nn..], if nn < |p| then Some(p[nn..]) else None, str, heads, i, pos)
  {
    if nn < |p| {
      assert all[nn..][|p[nn..]|..] == all[|p|..];
    }
  }

  lemma HeadStep(all: seq<byte>, str: seq<byte>, heads: seq<Header>, i: nat, pos: nat)
    requires i < |heads| && Produced(all, [], str, heads, i, pos)
    ensures pos <= heads[i].offset <= |str| && heads[i].size < TWO64
    ensures Produced(all, str[pos..heads[i].offset], str, heads, i, heads[i].offset)
    ensures pos == heads[i].offset ==> Produced(all, ListHead(heads[i].size), str, heads, i + 1, pos)
  {
    hide ListHead, Head;
    PlacedHead(heads[i..], pos, |str|);
    RenderFrom(str, heads[i..], pos, heads[i].offset);
    assert heads[i..][1..] == heads[i + 1..];
    assert str[pos..pos] == [];
  }

  class EncReader {
    var buf: EncBuffer?
    var lhpos: nat
    var strpos: nat
    var piece: Option<seq<byte>>
    ghost var rest: seq<byte>  // what this reader has not delivered yet

    ghost predicate Valid()
      reads this, buf
    {
      if buf == null then rest == []
      else buf.sizebuf.Length == 9 && Pending(rest, piece, buf.str, buf.lheads, lhpos, strpos)
    }

    constructor (buf: EncBuffer)
      requires buf.Valid() && buf.open == []
      ensures Valid() && rest == buf.frames[0] && this.buf == buf
    {
      this.buf, lhpos, strpos, piece, rest := buf, 0, 0, None, buf.frames[0];
      new;
      ProducedStart(buf.str, buf.lheads);
    }

    method Next() returns (p: Option<seq<byte>>)
      requires Valid()
      modifies this, if buf == null then {} else {buf.sizebuf}
      ensures buf == old(buf) && rest == old(rest) && piece == old(piece)
      ensures p == None ==> rest == []
      ensures p.Some? ==> buf != null && p.value != [] && buf.sizebuf.Length == 9
      ensures p.Some? ==> Pending(rest, p, buf.str, buf.lheads, lhpos, strpos)
    {
      if buf == null {
        return None;
      } else if piece.Some? {
        return piece;
      } else if lhpos < |buf.lheads| {
        var head := buf.lheads[lhpos];
        HeadStep(rest, buf.str, buf.lheads, lhpos, strpos);
        HeadLength(0xC0, 0xF7, head.size);
        hide *;
        var sizebefore := head.offset - strpos;
        if sizebefore > 0 {
          p := Some(buf.str[strpos..head.offset]);
          strpos := strpos + sizebefore;
          PendingNext(rest, p.value, buf.str, buf.lheads, lhpos, strpos);
          return;
        }
        lhpos := lhpos + 1;
        var k := EncodeHead(head, buf.sizebuf, 0);
        assert buf.sizebuf[..k] == ListHead(head.size);
        p := Some(buf.sizebuf[..k]);
        PendingNext(rest, p.value, buf.str, buf.lheads, lhpos, strpos);
      } else if strpos < |buf.str| {
        p := Some(buf.str[strpos..]);
        TailStep(rest, buf.str, buf.lheads, lhpos, strpos);
        strpos := |buf.str|;
        PendingNext(rest, p.value, buf.str, buf.lheads, lhpos, strpos);
      } else {
        TailStep(rest, buf.str, buf.lheads, lhpos, strpos);
        return None;
      }
    }

    /** Fills `b` from the front. A read that stops before the end of the output has filled `b`. */
    method Read(b: array<byte>) returns (n: nat, eof: bool)
      requires Valid() && (buf != null ==> b != buf.sizebuf)
      modifies this, b, if buf == null then {} else {buf.sizebuf}
      ensures Valid() && n <= b.Length
      ensures old(rest) == b[..n] + rest
      ensures !eof ==> n == b.Length
      ensures eof ==> rest == [] && buf == null
    {
      n := 0;
      ghost var all, buf0, got := rest, buf, [];
      while true
        invariant Valid() && n <= b.Length && got == b[..n] && all == got + rest
        invariant buf == buf0
        decreases |rest|
      {
        var p := Next();
        piece := p;
        if p.None? {
          if buf != null {
            buf := null;
          }
          return n, true;
        }
        var nn := if |p.value| < b.Length - n then |p.value| else b.Length - n;
        hide *;
        PendingTake(rest, p.value, nn, buf.str, buf.lheads, lhpos, strpos);
        SplitRest(all, got, rest, nn);
        var copied := Copy(b, n, p.value[..nn]);
        n := n + nn;
        got := got + rest[..nn];
        assert got == b[..n];
        rest := rest[nn..];
        piece := if nn < |p.value| then Some(p.value[nn..]) else None;
        ValidIf();
        if nn < |p.value| {
          // the piece did not fit
          return n, false;
        }
      }
    }

    lemma ValidIf()
      requires buf != null && buf.sizebuf.Length == 9
      requires Pending(rest, piece, buf.str, buf.lheads, lhpos, strpos)
      ensures Valid()
    {
    }
  }

  lemma SplitRest(all: seq<byte>, got: seq<byte>, rest: seq<byte>, k: nat)
    requires k <= |rest| && all == got + rest
    ensures all == got + rest[..k] + rest[k..]
  {
  }

  lemma TailStep(all: seq<byte>, str: seq<byte>, heads: seq<Header>, i: nat, pos: nat)
    requires i >= |heads| && Produced(all, [], str, heads, i, pos)
    ensures pos <= |str|
    ensures pos < |str| ==> Produced(all, str[pos..], str, heads, i, |str|)
    ensures pos == |str| ==> all == []
  {
    assert heads[i..] == [];
  }

  // ---------- big integers ----------

  const WORD: nat := TWO64

  /** math/big's Bits: 64-bit words, least significant first. */
  function Words(i: nat): (ws: seq<nat>)
    ensures forall k :: 0 <= k < |ws| ==> ws[k] < WORD
  {
    if i == 0 then [] else [i % WORD] + Words(i / WORD)
  }

  function WordsValue(ws: seq<nat>): nat
  {
    if ws == [] then 0 else ws[0] + WORD * WordsValue(ws[1..])
  }

  lemma {:induction false} WordsValueOf(i: nat)
    ensures WordsValue(Words(i)) == i
  {
    if i > 0 {
      WordsValueOf(i / WORD);
      assert Words(i)[1..] == Words(i / WORD);
    }
  }

  /** The byte length of a number is its bit length rounded up to whole bytes. */
  lemma ByteLen(i: nat)
    ensures (BitLen(i) + 7) / 8 == |Bytes(i)|
  {
    var k := |Bytes(i)|;
    ByteBits(i, k);
    if k > 0 { ByteBits(i, k - 1); }
  }

  lemma ByteBits(i: nat, k: nat)
    ensures |Bytes(i)| <= k <==> BitLen(i) <= 8 * k
  {
    DigitsLength(i, 256, k);
    DigitsLength(i, 2, 8 * k);
    PowBits(k);
  }

  /** The byte loop of `writeBigInt`: fills `length` bytes from the end, word by word. */
  method FillBytes(i: nat, length: nat) returns (out: array<byte>)
    requires length == |Bytes(i)|
    ensures fresh(out) && out[..] == Bytes(i)
  {
    out := new byte[length](_ => 0);
    var index, bits := length, Words(i);
    WordsValueOf(i);
    var w := 0;
    assert bits[0..] == bits && Bytes(i)[..length] == Bytes(i);
    while w < |bits|
      invariant 0 <= w <= |bits| && 0 <= index <= length
      invariant Bytes(i)[..index] == Bytes(WordsValue(bits[w..]))
      invariant forall k :: index <= k < length ==> out[k] == Bytes(i)[k]
    {
      assert bits[w..][1..] == bits[w + 1..];
      index := FillWord(i, out, index, bits[w], WordsValue(bits[w + 1..]));
      w := w + 1;
    }
    assert bits[|bits|..] == [];
    assert index == 0;
  }

  /** One word: at most eight bytes, fewer when the array is full. */
  method FillWord(i: nat, out: array<byte>, start: nat, word: nat, ghost tail: nat) returns (index: nat)
    requires out.Length == |Bytes(i)| && start <= out.Length && word < WORD
    requires Bytes(i)[..start] == Bytes(word + WORD * tail)
    requires forall k :: start <= k < out.Length ==> out[k] == Bytes(i)[k]
    modifies out
    ensures index <= out.Length
    ensures Bytes(i)[..index] == Bytes(tail)
    ensures forall k :: index <= k < out.Length ==> out[k] == Bytes(i)[k]
  {
    PowWord();
    index := start;
    var d: nat, j := word, 0;
    hide *;
    while j < 8 && index > 0
      invariant 0 <= j <= 8 && 0 <= index <= out.Length == |Bytes(i)|
      invariant d < Pow(256, 8 - j)
      invariant Bytes(i)[..index] == Bytes(d + Pow(256, 8 - j) * tail)
      invariant forall k :: index <= k < out.Length ==> out[k] == Bytes(i)[k]
    {
      LowByte(d, 7 - j, tail);
      DropByte(Bytes(i), index, d + Pow(256, 8 - j) * tail);
      index := index - 1;
      out[index] := d % 256;
      d := d / 256;
      j := j + 1;
    }
    WordDone(d, 8 - j, tail, Bytes(i)[..index]);
  }

  lemma PowWord()
    ensures Pow(256, 8) == WORD
  {
    PowAdd(256, 4, 4);
    assert Pow(256, 4) == 0x1_0000_0000;
  }

  lemma DropByte(b: seq<byte>, k: nat, n: nat)
    requires 0 < k <= |b| && b[..k] == Bytes(n)
    ensures b[..k - 1] == Bytes(n / 256) && b[k - 1] == n % 256
  {
    assert b[..k - 1] == b[..k][..k - 1];
  }

  /** The byte loop stops because the word is used up or because the array is full. */
  lemma WordDone(d: nat, k: nat, tail: nat, b: seq<byte>)
    requires d < Pow(256, k) && b == Bytes(d + Pow(256, k) * tail)
    requires k == 0 || b == []
    ensures b == Bytes(tail)
  {
    if k == 0 {
      assert Pow(256, 0) == 1;
    } else {
      TailZero(d, Pow(256, k), tail);
    }
  }

  lemma TailZero(d: nat, p: nat, t: nat)
    requires p >= 1 && d + p * t == 0
    ensures d == 0 && t == 0
  {
    MulMono(1, p, t);
  }

  lemma LowByte(d: nat, k: nat, t: nat)
    requires d < Pow(256, k + 1)
    ensures (d + Pow(256, k + 1) * t) % 256 == d % 256
    ensures (d + Pow(256, k + 1) * t) / 256 == d / 256 + Pow(256, k) * t
    ensures d / 256 < Pow(256, k)
  {
    var p := Pow(256, k);
    MulAssoc(256, p, t);
    assert Pow(256, k + 1) == 256 * p;
    hide *;
    Shifted(d, p * t);
    Below(d, p);
  }

  lemma Shifted(d: nat, x: nat)
    ensures (d + 256 * x) % 256 == d % 256 && (d + 256 * x) / 256 == d / 256 + x
  {
  }

  lemma Below(d: nat, p: nat)
    requires d < 256 * p
    ensures d / 256 < p
  {
  }

  /** `writeBigInt`: words of a natural number of any size become the canonical integer encoding. */
  method WriteBigInt(buf: EncBuffer, i: nat)
    requires buf.Valid()
    requires |Bytes(i)| < TWO64
    modifies buf, buf.sizebuf
    ensures buf.Valid() && buf.open == old(buf.open)
    ensures buf.frames == Append(old(buf.frames), EncodeUint(i))
  {
    var bitlen := BitLen(i);
    ByteLen(i);
    BytesLength(i);
    assert buf.frames != [];
    hide Refines, Append, BitLen;
    if bitlen <= 64 {
      buf.WriteUint64(i);
      return;
    }
    var length := (bitlen + 7) / 8;
    assert EncodeUint(i) == StrHead(length) + Bytes(i);
    hide *;
    buf.EncodeStringHeader(length);
    ghost var mid := buf.frames;
    var bytesBuf := FillBytes(i, length);
    buf.Write(bytesBuf[..]);
    AppendTwice(old(buf.frames), StrHead(length), Bytes(i));
  }

  lemma AppendTwice(frames: seq<seq<byte>>, x: seq<byte>, y: seq<byte>)
    requires frames != []
    ensures Append(frames, x) != []
    ensures Append(Append(frames, x), y) == Append(frames, x + y)
  {
    var top := frames[|frames| - 1];
    Assoc(top, x, y);
  }
}
