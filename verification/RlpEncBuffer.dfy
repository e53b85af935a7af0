/**
 The encoder of common/rlp/encbuffer.go. All payload bytes go to one flat string, list headers are
 kept beside it with their offsets, and they meet only when the buffer is read out. The ghost field
 `frames` is the naive encoder this replaces: a stack with one byte string per open list.
 */
module RlpEncBuffer {
  import opened Radix
  import opened RlpSpec
  import opened RlpUint

  datatype Header = Header(offset: nat, size: nat)

  // ---------- what a finished buffer denotes ----------

  ghost predicate Placed(heads: seq<Header>, from: nat, to: nat)
  {
    from <= to &&
    (heads != [] ==>
      from <= heads[0].offset && heads[0].size < TWO64 && Placed(heads[1..], heads[0].offset, to))
  }

  /** The string from `from` on, with every header spliced in at its offset. */
  ghost function Render(str: seq<byte>, heads: seq<Header>, from: nat): seq<byte>
    requires Placed(heads, from, |str|)
  {
    if heads == [] then str[from..]
    else
      PlacedHead(heads, from, |str|);
      str[from..heads[0].offset] + ListHead(heads[0].size) + Render(str, heads[1..], heads[0].offset)
  }

  ghost function HeadBytes(heads: seq<Header>): nat
  {
    if heads == [] then 0 else |ListHead(heads[0].size)| + HeadBytes(heads[1..])
  }

  lemma PlacedHead(heads: seq<Header>, from: nat, to: nat)
    requires heads != [] && Placed(heads, from, to)
    ensures from <= heads[0].offset <= to && heads[0].size < TWO64
  {
  }

  lemma {:induction false} RenderLength(str: seq<byte>, heads: seq<Header>, from: nat)
    requires Placed(heads, from, |str|)
    ensures |Render(str, heads, from)| == |str| - from + HeadBytes(heads)
  {
    hide ListHead, Head;
    if heads != [] {
      PlacedHead(heads, from, |str|);
      RenderLength(str, heads[1..], heads[0].offset);
    }
  }

  lemma {:induction false} RenderAppend(
      str: seq<byte>, s: seq<byte>, heads: seq<Header>, hs: seq<Header>, from: nat)
    requires Placed(heads, from, |str|) && Placed(hs, |str|, |str + s|)
    ensures Placed(heads + hs, from, |str + s|)
    ensures Render(str + s, heads + hs, from) == Render(str, heads, from) + Render(str + s, hs, |str|)
    ensures HeadBytes(heads + hs) == HeadBytes(heads) + HeadBytes(hs)
  {
    hide ListHead, Head;
    if heads == [] {
      assert heads + hs == hs;
      RenderFrom(str + s, hs, from, |str|);
      assert (str + s)[from..|str|] == str[from..];
    } else {
      PlacedHead(heads, from, |str|);
      var h, all := heads[0], heads + hs;
      RenderAppend(str, s, heads[1..], hs, h.offset);
      assert all[0] == h && all[1..] == heads[1..] + hs;
      var p := str[from..h.offset] + ListHead(h.size);
      assert (str + s)[from..h.offset] == str[from..h.offset];
      assert Render(str + s, all, from) == p + Render(str + s, heads[1..] + hs, h.offset);
      Assoc(p, Render(str, heads[1..], h.offset), Render(str + s, hs, |str|));
    }
  }

  /** Starting earlier only adds the string in between. */
  lemma RenderFrom(str: seq<byte>, heads: seq<Header>, from: nat, mid: nat)
    requires from <= mid && Placed(heads, mid, |str|)
    ensures Placed(heads, from, |str|)
    ensures Render(str, heads, from) == str[from..mid] + Render(str, heads, mid)
  {
    hide ListHead, Head;
    if heads == [] {
      assert str[from..] == str[from..mid] + str[mid..];
    } else {
      PlacedHead(heads, mid, |str|);
      var o := heads[0].offset;
      var x, y, tail := str[from..mid], str[mid..o], Render(str, heads[1..], o);
      assert str[from..o] == x + y;
      assert x + y + ListHead(heads[0].size) + tail == x + (y + ListHead(heads[0].size) + tail);
    }
  }

  // ---------- the flat buffer refines the stack of open lists ----------

  /** The buffer cut at its innermost open header is the buffer as it was before that list began;
      what follows the header renders to the innermost frame. */
  ghost predicate Refines(
      str: seq<byte>, heads: seq<Header>, lhsize: nat, open: seq<nat>, frames: seq<seq<byte>>)
    decreases |open|
  {
    && |frames| == |open| + 1
    && var n := |open|;
       if open == [] then
         && Placed(heads, 0, |str|)
         && frames[0] == Render(str, heads, 0)
         && lhsize == HeadBytes(heads)
       else
         var o := open[n - 1];
         && o < |heads|
         && var h, inner := heads[o], heads[o + 1..];
         && Placed(inner, h.offset, |str|)
         && frames[n] == Render(str, inner, h.offset)
         && lhsize == h.size + HeadBytes(inner)
         && h.offset <= |str|
         && Refines(str[..h.offset], heads[..o], h.size, open[..n - 1], frames[..n])
  }

  ghost function Append(frames: seq<seq<byte>>, s: seq<byte>): seq<seq<byte>>
    requires frames != []
  {
    frames[|frames| - 1 := frames[|frames| - 1] + s]
  }

  lemma RefinesExtend(
      str: seq<byte>, s: seq<byte>, heads: seq<Header>, hs: seq<Header>, lhsize: nat, open: seq<nat>,
      frames: seq<seq<byte>>)
    requires Refines(str, heads, lhsize, open, frames)
    requires Placed(hs, |str|, |str + s|)
    ensures Refines(str + s, heads + hs, lhsize + HeadBytes(hs), open,
                    Append(frames, Render(str + s, hs, |str|)))
  {
    hide ListHead, Head, Placed, Render, HeadBytes;
    var n := |open|;
    if open == [] {
      RenderAppend(str, s, heads, hs, 0);
    } else {
      var o := open[n - 1];
      RenderAppend(str, s, heads[o + 1..], hs, heads[o].offset);
      assert (heads + hs)[o + 1..] == heads[o + 1..] + hs;
      assert (heads + hs)[..o] == heads[..o];
      assert (str + s)[..heads[o].offset] == str[..heads[o].offset];
      assert Append(frames, Render(str + s, hs, |str|))[..n] == frames[..n];
    }
  }

  /** Closing the innermost list: its header gets the length of the frame, and the frame moves, behind
      that header, to the end of the frame below. */
  lemma RefinesClose(
      str: seq<byte>, heads: seq<Header>, lhsize: nat, open: seq<nat>, frames: seq<seq<byte>>)
    requires open != [] && Refines(str, heads, lhsize, open, frames)
    requires |str| + lhsize < TWO64
    ensures var n := |open|;
            var o, top := open[n - 1], frames[n];
            var h := heads[o];
            && |str| + lhsize - h.offset - h.size == |top|
            && Refines(str, heads[o := Header(h.offset, |top|)], lhsize + |ListHead(|top|)|,
                       open[..n - 1], Append(frames[..n], ListHead(|top|) + top))
  {
    hide ListHead, Head, Placed, Render, HeadBytes;
    var n := |open|;
    var o, top := open[n - 1], frames[n];
    var h, inner := heads[o], heads[o + 1..];
    RenderLength(str, inner, h.offset);
    CloseExtend(str, heads, h, inner, o, open[..n - 1], frames[..n], top);
  }

  lemma CloseExtend(
      str: seq<byte>, heads: seq<Header>, h: Header, inner: seq<Header>, o: nat, open: seq<nat>,
      frames: seq<seq<byte>>, top: seq<byte>)
    requires o < |heads| && heads[o] == h && inner == heads[o + 1..]
    requires h.offset <= |str| && |top| < TWO64
    requires Refines(str[..h.offset], heads[..o], h.size, open, frames)
    requires Placed(inner, h.offset, |str|) && top == Render(str, inner, h.offset)
    ensures Refines(str, heads[o := Header(h.offset, |top|)], h.size + HeadBytes(inner) + |ListHead(|top|)|,
                    open, Append(frames, ListHead(|top|) + top))
  {
    hide ListHead, Head, Placed, Render, HeadBytes, Refines;
    var h' := Header(h.offset, |top|);
    CloseRender(str, h', inner);
    var base, s := str[..h.offset], str[h.offset..];
    assert base + s == str;
    RefinesExtend(base, s, heads[..o], [h'] + inner, h.size, open, frames);
    assert heads[..o] + ([h'] + inner) == heads[o := h'];
  }

  lemma CloseRender(str: seq<byte>, h: Header, inner: seq<Header>)
    requires Placed(inner, h.offset, |str|) && h.size < TWO64
    ensures Placed([h] + inner, h.offset, |str|)
    ensures Render(str, [h] + inner, h.offset) == ListHead(h.size) + Render(str, inner, h.offset)
    ensures HeadBytes([h] + inner) == |ListHead(h.size)| + HeadBytes(inner)
  {
    hide ListHead, Head;
    var hs := [h] + inner;
    assert hs[1..] == inner;
    assert str[h.offset..h.offset] == [];
  }

  /** The reading loops have produced `out`; header `i` and the string from `pos` on are still to come. */
  ghost predicate Produced(
      all: seq<byte>, out: seq<byte>, str: seq<byte>, heads: seq<Header>, i: nat, pos: nat)
  {
    i <= |heads| && Placed(heads[i..], pos, |str|) && all == out + Render(str, heads[i..], pos)
  }

  lemma ProducedStart(str: seq<byte>, heads: seq<Header>)
    requires Placed(heads, 0, |str|)
    ensures Produced(Render(str, heads, 0), [], str, heads, 0, 0)
    ensures |Render(str, heads, 0)| == |str| + HeadBytes(heads)
  {
    assert heads[0..] == heads;
    RenderLength(str, heads, 0);
  }

  /** One turn: the string before the header, then the header. */
  lemma ProducedStep(
      all: seq<byte>, out: seq<byte>, str: seq<byte>, heads: seq<Header>, i: nat, pos: nat)
    requires i < |heads| && Produced(all, out, str, heads, i, pos)
    ensures pos <= heads[i].offset <= |str| && heads[i].size < TWO64
    ensures Produced(all, out + str[pos..heads[i].offset] + ListHead(heads[i].size), str, heads, i + 1,
                     heads[i].offset)
    ensures |out| + (heads[i].offset - pos) + |ListHead(heads[i].size)| <= |all|
  {
    hide ListHead, Head;
    PlacedHead(heads[i..], pos, |str|);
    assert heads[i..][1..] == heads[i + 1..];
    var h := heads[i];
    var x, y, z := str[pos..h.offset], ListHead(h.size), Render(str, heads[i + 1..], h.offset);
    assert out + (x + y + z) == out + x + y + z;
  }

  lemma Assoc(x: seq<byte>, y: seq<byte>, z: seq<byte>)
    ensures x + y + z == x + (y + z)
  {
  }

  lemma ProducedEnd(
      all: seq<byte>, out: seq<byte>, str: seq<byte>, heads: seq<Header>, pos: nat)
    requires Produced(all, out, str, heads, |heads|, pos)
    ensures pos <= |str| && all == out + str[pos..]
  {
    assert heads[|heads|..] == [];
  }

  lemma EmptyList()
    ensures ListHead(0) + [] == [0xC0]
  {
  }

  lemma EncodeAllStep(ts: seq<Item>, i: nat)
    requires i < |ts|
    ensures EncodeAll(ts[..i + 1]) == EncodeAll(ts[..i]) + Encode(ts[i])
    ensures |EncodeAll(ts[..i])| + |Encode(ts[i])| <= |EncodeAll(ts)|
  {
    EncodeAllConcat(ts[..i], ts[i..]);
    assert ts[..i] + ts[i..] == ts;
    assert ts[..i + 1] == ts[..i] + [ts[i]];
    EncodeAllConcat(ts[..i], [ts[i]]);
    assert EncodeAll([ts[i]]) == Encode(ts[i]);
  }

  // ---------- headers in byte arrays ----------

  /** What `putint` stores: the shortest form, except that zero takes one byte. */
  function IntBytes(i: nat): seq<byte> { if i == 0 then [0] else Bytes(i) }

  method PutInt(buf: array<byte>, off: nat, i: uint64) returns (size: nat)
    requires off + |IntBytes(i)| <= buf.Length
    modifies buf
    ensures size == |IntBytes(i)|
    ensures forall j :: 0 <= j < size ==> buf[off + j] == IntBytes(i)[j]
    ensures forall j :: 0 <= j < off || off + size <= j < buf.Length ==> buf[j] == old(buf[j])
  {
    if i > 0 { PutIntIsBytes(i); }
    hide PutIntBytes, Bytes;
    var s := PutIntBytes(i);
    size := |s|;
    forall j | 0 <= j < |s| {
      buf[off + j] := s[j];
    }
  }

  /** A tag byte that carries the length of the integer stored behind it. */
  function Tagged(tag: byte, i: nat): seq<byte> { [ToByte(tag + |IntBytes(i)|)] + IntBytes(i) }

  lemma UintTagged(i: uint64)
    requires i >= 128
    ensures EncodeUint(i) == Tagged(0x80, i) && |Tagged(0x80, i)| <= 9
  {
    hide Bytes, EncodeUint;
    UintLong(i);
    BytesLength(i);
  }

  /** The pair of statements by which the encoder puts an integer and then its tag before it. */
  method PutTagged(buf: array<byte>, off: nat, tag: byte, i: uint64) returns (n: nat)
    requires off + |Tagged(tag, i)| <= buf.Length
    modifies buf
    ensures n == |Tagged(tag, i)|
    ensures buf[..off + n] == old(buf[..off]) + Tagged(tag, i)
  {
    hide IntBytes, ToByte;
    var size := PutInt(buf, off + 1, i);
    buf[off] := ToByte(tag + size);
    return size + 1;
  }

  method PutHead(buf: array<byte>, off: nat, small: byte, large: byte, size: uint64) returns (n: nat)
    requires off + |Head(small, large, size)| <= buf.Length
    modifies buf
    ensures n == |Head(small, large, size)|
    ensures buf[..off + n] == old(buf[..off]) + Head(small, large, size)
  {
    hide Bytes;
    assert size < 56 ==> Head(small, large, size) == [ToByte(small + size)];
    assert size >= 56 ==> Head(small, large, size) == Tagged(large, size);
    hide Head, Tagged, ToByte;
    if size < 56 {
      buf[off] := ToByte(small + size);
      return 1;
    }
    n := PutTagged(buf, off, large, size);
  }

  /** Go's `copy` into `dst[pos:]`. */
  method Copy(dst: array<byte>, pos: nat, src: seq<byte>) returns (n: nat)
    requires pos + |src| <= dst.Length
    modifies dst
    ensures n == |src|
    ensures dst[..pos + n] == old(dst[..pos]) + src
  {
    n := |src|;
    forall j | 0 <= j < n {
      dst[pos + j] := src[j];
    }
  }

  /** `listhead.encode` into `buf[off:]`. */
  method EncodeHead(h: Header, buf: array<byte>, off: nat) returns (n: nat)
    requires h.size < TWO64 && off + |ListHead(h.size)| <= buf.Length
    modifies buf
    ensures n == |ListHead(h.size)|
    ensures buf[..off + n] == old(buf[..off]) + ListHead(h.size)
  {
    hide Head;
    n := PutHead(buf, off, 0xC0, 0xF7, h.size);
  }

  /** One turn of the loop of `copyTo`: string data before the header, then the header. */
  method CopyTurn(dst: array<byte>, str: seq<byte>, heads: seq<Header>, i: nat, strpos: nat, pos: nat,
                  ghost all: seq<byte>)
      returns (strpos': nat, pos': nat)
    requires i < |heads| && pos <= dst.Length == |all|
    requires Produced(all, dst[..pos], str, heads, i, strpos)
    modifies dst
    ensures pos' <= dst.Length
    ensures Produced(all, dst[..pos'], str, heads, i + 1, strpos')
  {
    hide *;
    var head := heads[i];
    ProducedStep(all, dst[..pos], str, heads, i, strpos);
    var n := Copy(dst, pos, str[strpos..head.offset]);
    var k := EncodeHead(head, dst, pos + n);
    return strpos + n, pos + n + k;
  }

  lemma HeadSizes(n: nat)
    ensures |ListHead(n)| == if n < 56 then 1 else 1 + |Bytes(n)|
  {
  }

  lemma HeadLength(small: byte, large: byte, size: nat)
    requires size < TWO64
    ensures |Head(small, large, size)| <= 9
  {
    BytesLength(size);
  }

  // ---------- writing piece by piece ----------

  ghost function Flat(pieces: seq<seq<byte>>): seq<byte>
  {
    if pieces == [] then [] else pieces[0] + Flat(pieces[1..])
  }

  ghost function Part(s: seq<byte>): seq<seq<byte>> { if s == [] then [] else [s] }

  /** What the writer is handed, call by call: the headers, and before each and at the end the string if any. */
  ghost function Pieces(str: seq<byte>, heads: seq<Header>, from: nat): seq<seq<byte>>
    requires Placed(heads, from, |str|)
  {
    if heads == [] then Part(str[from..])
    else
      PlacedHead(heads, from, |str|);
      Part(str[from..heads[0].offset])
      + ([ListHead(heads[0].size)] + Pieces(str, heads[1..], heads[0].offset))
  }

  lemma {:induction false} FlatAppend(a: seq<seq<byte>>, b: seq<seq<byte>>)
    ensures Flat(a + b) == Flat(a) + Flat(b)
  {
    if a == [] {
      assert a + b == b;
    } else {
      assert (a + b)[1..] == a[1..] + b;
      FlatAppend(a[1..], b);
      Assoc(a[0], Flat(a[1..]), Flat(b));
    }
  }

  /** The pieces join to the rendered buffer; there are at most two for a header, and one more. */
  lemma {:induction false} PiecesJoin(str: seq<byte>, heads: seq<Header>, from: nat)
    requires Placed(heads, from, |str|)
    ensures Flat(Pieces(str, heads, from)) == Render(str, heads, from)
    ensures |Pieces(str, heads, from)| <= 2 * |heads| + 1
  {
    hide ListHead, Head;
    if heads == [] {
      FlatPart(str[from..]);
    } else {
      PlacedHead(heads, from, |str|);
      var s, h, more := str[from..heads[0].offset], ListHead(heads[0].size), Pieces(str, heads[1..], heads[0].offset);
      PiecesJoin(str, heads[1..], heads[0].offset);
      FlatAppend(Part(s), [h] + more);
      FlatAppend([h], more);
      FlatPart(s);
      FlatPart(h);
      Assoc(s, h, Flat(more));
      HeadSizes(heads[0].size);
    }
  }

  lemma FlatPart(s: seq<byte>)
    ensures Flat(Part(s)) == s
    ensures Flat([s]) == s
  {
    assert [s][1..] == [];
  }

  /** What a writer took, what it will do next, and whether every call succeeded. */
  datatype Outcome = Outcome(data: seq<byte>, script: seq<nat>, ok: bool)

  /** The calls up to and including the first that fails. */
  function Send(data: seq<byte>, script: seq<nat>, pieces: seq<seq<byte>>): Outcome
    decreases |pieces|
  {
    if pieces == [] then Outcome(data, script, true)
    else if script == [] then Outcome(data, [], false)
    else if script[0] <= |pieces[0]| then Outcome(data + pieces[0][..script[0]], script, false)
    else Send(data + pieces[0], script[1..], pieces[1..])
  }

  /** Every call succeeds if and only if each has room; then all is taken, and otherwise a prefix. */
  lemma {:induction false} SendIff(data: seq<byte>, script: seq<nat>, pieces: seq<seq<byte>>)
    ensures var end := Send(data, script, pieces);
            && (end.ok <==>
                |pieces| <= |script| && forall i :: 0 <= i < |pieces| ==> |pieces[i]| < script[i])
            && (end.ok ==> end.data == data + Flat(pieces) && end.script == script[|pieces|..])
            && data <= end.data <= data + Flat(pieces)
    decreases |pieces|
  {
    if pieces != [] && script != [] {
      var p, more := pieces[0], pieces[1..];
      if |p| < script[0] {
        SendIff(data + p, script[1..], more);
        Assoc(data, p, Flat(more));
        var room := |more| <= |script[1..]| && forall i :: 0 <= i < |more| ==> |more[i]| < script[1..][i];
        if room {
          forall i | 0 <= i < |pieces| ensures |pieces[i]| < script[i] {
            if i > 0 { assert pieces[i] == more[i - 1] && script[i] == script[1..][i - 1]; }
          }
        }
        if |pieces| <= |script| && forall i :: 0 <= i < |pieces| ==> |pieces[i]| < script[i] {
          forall i | 0 <= i < |more| ensures |more[i]| < script[1..][i] {
            assert pieces[i + 1] == more[i] && script[i + 1] == script[1..][i];
          }
        }
      }
    }
  }

  lemma {:induction false} PieceSize(pieces: seq<seq<byte>>, i: nat)
    requires i < |pieces|
    ensures |pieces[i]| <= |Flat(pieces)|
  {
    if i > 0 {
      PieceSize(pieces[1..], i - 1);
    }
  }

  /** One call, and then the others if it succeeds. */
  lemma SendNext(data: seq<byte>, script: seq<nat>, piece: seq<byte>, more: seq<seq<byte>>)
    ensures Send(data, script, [piece] + more) ==
            if script != [] && script[0] > |piece| then Send(data + piece, script[1..], more)
            else Outcome(data + piece[..if script == [] then 0 else script[0]], script, false)
  {
    assert ([piece] + more)[1..] == more;
    assert data + piece[..0] == data;
  }

  // ---------- readers and writers ----------

  /**
   An io.Writer. The next call takes everything and succeeds if `script` starts with a larger number than it is
   given bytes; otherwise it takes that many bytes, or none, and fails.
   */
  class Writer {
    var data: seq<byte>
    var script: seq<nat>

    constructor (script: seq<nat>)
      ensures data == [] && this.script == script
    {
      data := [];
      this.script := script;
    }

    method Write(p: seq<byte>) returns (ok: bool)
      modifies this
      ensures ok <==> old(script) != [] && old(script)[0] > |p|
      ensures ok ==> data == old(data) + p && script == old(script)[1..]
      ensures !ok ==> script == old(script)
                      && data == old(data) + p[..if script == [] then 0 else script[0]]
      ensures forall more ::
                Send(old(data), old(script), [p] + more)
                == if ok then Send(data, script, more) else Outcome(data, script, false)
    {
      ok := script != [] && script[0] > |p|;
      forall more {
        SendNext(data, script, p, more);
      }
      hide Send;
      if ok {
        data := data + p;
        script := script[1..];
      } else if script != [] {
        data := data + p[..script[0]];
      } else {
        assert data + p[..0] == data;
      }
    }
  }

  class EncBuffer {
    var str: seq<byte>
    var lheads: seq<Header>
    var lhsize: nat
    const sizebuf: array<byte>
    ghost var open: seq<nat>
    ghost var frames: seq<seq<byte>>

    ghost predicate Valid()
      reads this
    {
      sizebuf.Length == 9 && Refines(str, lheads, lhsize, open, frames)
    }

    /** What has been written since the innermost list was opened. */
    ghost function Top(): seq<byte>
      requires Valid()
      reads this
    {
      frames[|frames| - 1]
    }

    lemma FrameCount()
      requires Valid()
      ensures |frames| == |open| + 1
      ensures open != [] ==> open[|open| - 1] < |lheads|
    {
    }

    lemma ValidIf()
      requires sizebuf.Length == 9 && Refines(str, lheads, lhsize, open, frames)
      ensures Valid()
    {
    }

    constructor ()
      ensures Valid() && fresh(sizebuf)
      ensures open == [] && frames == [[]]
      ensures |str| + lhsize == 0
    {
      str, lheads, lhsize := [], [], 0;
      sizebuf := new byte[9];
      open, frames := [], [[]];
    }

    method Reset()
      requires Valid()
      modifies this
      ensures Valid() && open == [] && frames == [[]] && |str| + lhsize == 0
    {
      lhsize, str, lheads := 0, [], [];
      open, frames := [], [[]];
    }

    method Size() returns (n: nat)
      requires Valid()
      ensures n == |str| + lhsize
      ensures open == [] ==> n == |frames[0]|
    {
      if open == [] { RenderLength(str, lheads, 0); }
      return |str| + lhsize;
    }

    method Write(b: seq<byte>)
      requires Valid()
      modifies this
      ensures Valid() && open == old(open)
      ensures frames == Append(old(frames), b)
      ensures |str| + lhsize == old(|str| + lhsize) + |b|
    {
      RefinesExtend(str, b, lheads, [], lhsize, open, frames);
      assert lheads + [] == lheads && (str + b)[|str|..] == b;
      str := str + b;
      frames := Append(frames, b);
    }

    method EncodeStringHeader(size: uint64)
      requires Valid()
      modifies this, sizebuf
      ensures Valid() && open == old(open)
      ensures frames == Append(old(frames), StrHead(size))
      ensures |str| + lhsize == old(|str| + lhsize) + |StrHead(size)|
    {
      hide Bytes;
      assert size < 56 ==> StrHead(size) == [ToByte(0x80 + size)];
      assert size >= 56 ==> StrHead(size) == Tagged(0xB7, size);
      HeadLength(0x80, 0xB7, size);
      hide Head, StrHead, Tagged, ToByte, Refines;
      if size < 56 {
        Write([ToByte(0x80 + size)]);
      } else {
        var n := PutTagged(sizebuf, 0, 0xB7, size);
        assert sizebuf[..n] == [] + Tagged(0xB7, size) == Tagged(0xB7, size);
        Write(sizebuf[..n]);
      }
    }

    method WriteBytes(b: seq<byte>)
      requires Valid() && |b| < TWO64
      modifies this, sizebuf
      ensures Valid() && open == old(open)
      ensures frames == Append(old(frames), Encode(Str(b)))
      ensures |str| + lhsize == old(|str| + lhsize) + |Encode(Str(b))|
    {
      if |b| == 1 && b[0] <= 0x7F {
        Write([b[0]]);
        assert [b[0]] == b;
      } else {
        EncodeStringHeader(|b|);
        Write(b);
        assert old(Top()) + StrHead(|b|) + b == old(Top()) + (StrHead(|b|) + b);
      }
    }

    method WriteUint64(i: uint64)
      requires Valid()
      modifies this, sizebuf
      ensures Valid() && open == old(open)
      ensures frames == Append(old(frames), EncodeUint(i))
      ensures |str| + lhsize == old(|str| + lhsize) + |EncodeUint(i)|
    {
      if i < 128 { UintSmall(i); } else { UintTagged(i); }
      hide EncodeUint, Tagged, Refines;
      if i == 0 {
        Write([0x80]);
      } else if i < 128 {
        Write([ToByte(i)]);
      } else {
        var n := PutTagged(sizebuf, 0, 0x80, i);
        assert sizebuf[..n] == [] + Tagged(0x80, i) == Tagged(0x80, i);
        Write(sizebuf[..n]);
      }
    }

    method List() returns (index: nat)
      requires Valid()
      modifies this
      ensures Valid() && open == old(open) + [index]
      ensures frames == old(frames) + [[]]
      ensures |str| + lhsize == old(|str| + lhsize)
    {
      var h := Header(|str|, lhsize);
      ghost var n := |open|;
      assert (lheads + [h])[|lheads| + 1..] == [] && (lheads + [h])[..|lheads|] == lheads;
      assert str[..|str|] == str && str[|str|..] == [];
      assert (open + [|lheads|])[..n] == open && (frames + [[]])[..n + 1] == frames;
      open, frames := open + [|lheads|], frames + [[]];
      lheads := lheads + [h];
      return |lheads| - 1;
    }

    /** `index` must be the innermost list still open: lists are closed in the reverse order. */
    method ListEnd(index: nat)
      requires Valid() && open != [] && index == open[|open| - 1]
      requires |str| + lhsize < TWO64
      modifies this
      ensures Valid() && open == old(open)[..|old(open)| - 1]
      ensures var p := old(Top());
              && frames == Append(old(frames)[..|old(open)|], ListHead(|p|) + p)
              && |str| + lhsize == old(|str| + lhsize) + |ListHead(|p|)|
    {
      hide Refines, Append, ListHead, Bytes;
      FrameCount();
      ghost var p := Top();
      ghost var closed := Append(frames[..|open|], ListHead(|p|) + p);
      RefinesClose(str, lheads, lhsize, open, frames);
      HeadSizes(|p|);
      var lh := lheads[index];
      var size := |str| + lhsize;
      var n := size - lh.offset - lh.size;
      lheads := lheads[index := Header(lh.offset, n)];
      if n < 56 {
        lhsize := lhsize + 1;
      } else {
        var k := IntSize(n);
        lhsize := lhsize + 1 + k;
      }
      frames := closed;
      open := open[..|open| - 1];
      ValidIf();
    }

    /** The reflective writers on item trees: `writeBytes` for strings, the slice writer for lists. */
    method EncodeItem(t: Item)
      requires Valid()
      requires |str| + lhsize + |Encode(t)| < TWO64
      modifies this, sizebuf
      ensures Valid() && open == old(open)
      ensures frames == Append(old(frames), Encode(t))
      ensures |str| + lhsize == old(|str| + lhsize) + |Encode(t)|
      decreases t
    {
      hide Refines, ListHead;
      FrameCount();
      match t
      case Str(s) =>
        WriteBytes(s);
      case List(ts) =>
        if |ts| == 0 {
          Write([0xC0]);
          EmptyList();
          assert ts == [];
          return;
        }
        ghost var start := frames;
        var listOffset := List();
        var i := 0;
        assert ts[..0] == [] && ts[..|ts|] == ts;
        while i < |ts|
          invariant 0 <= i <= |ts|
          invariant Valid() && open == old(open) + [listOffset]
          invariant frames == start + [EncodeAll(ts[..i])]
          invariant |str| + lhsize == old(|str| + lhsize) + |EncodeAll(ts[..i])|
        {
          EncodeAllStep(ts, i);
          EncodeItem(ts[i]);
          i := i + 1;
        }
        ListEnd(listOffset);
    }

    // ---------- the three ways out ----------

    method CopyTo(dst: array<byte>)
      requires Valid() && open == [] && dst != sizebuf
      requires dst.Length == |str| + lhsize
      modifies dst
      ensures dst[..] == frames[0]
    {
      ghost var all := frames[0];
      ProducedStart(str, lheads);
      var strpos: nat, pos: nat, i := 0, 0, 0;
      hide *;
      while i < |lheads|
        invariant 0 <= i <= |lheads| && pos <= dst.Length == |all|
        invariant Produced(all, dst[..pos], str, lheads, i, strpos)
      {
        strpos, pos := CopyTurn(dst, str, lheads, i, strpos, pos, all);
        i := i + 1;
      }
      ProducedEnd(all, dst[..pos], str, lheads, strpos);
      var n := Copy(dst, pos, str[strpos..]);
      assert dst[..] == dst[..dst.Length];
    }

    method MakeBytes() returns (out: array<byte>)
      requires Valid() && open == []
      requires |str| + lhsize < TWO64
      ensures fresh(out) && out[..] == frames[0]
    {
      var n := Size();
      out := new byte[n];
      CopyTo(out);
    }

    /** Encodes one header into the scratch buffer and writes it. */
    method WriteHead(w: Writer, head: Header) returns (ok: bool)
      requires sizebuf.Length == 9 && head.size < TWO64
      modifies w, sizebuf
      ensures forall more ::
                Send(old(w.data), old(w.script), [ListHead(head.size)] + more)
                == if ok then Send(w.data, w.script, more) else Outcome(w.data, w.script, false)
    {
      HeadLength(0xC0, 0xF7, head.size);
      hide Head, Send;
      var k := EncodeHead(head, sizebuf, 0);
      assert sizebuf[..k] == ListHead(head.size);
      ok := w.Write(sizebuf[..k]);
    }

    /** One turn of the loop of `WriteTo`. */
    method WriteTurn(w: Writer, i: nat, pos: nat) returns (ok: bool, strpos: nat)
      requires sizebuf.Length == 9 && i < |lheads| && Placed(lheads[i..], pos, |str|)
      modifies w, sizebuf
      ensures Placed(lheads[i + 1..], strpos, |str|)
      ensures Send(old(w.data), old(w.script), Pieces(str, lheads[i..], pos))
              == if ok then Send(w.data, w.script, Pieces(str, lheads[i + 1..], strpos))
                 else Outcome(w.data, w.script, false)
    {
      hide Send, ListHead, Head;
      strpos := pos;
      var head := lheads[i];
      PlacedHead(lheads[i..], pos, |str|);
      assert lheads[i..][1..] == lheads[i + 1..];
      ghost var s, rest := str[pos..head.offset], [ListHead(head.size)] + Pieces(str, lheads[i + 1..], head.offset);
      assert Pieces(str, lheads[i..], pos) == (if s == [] then rest else [s] + rest);
      hide Placed, Pieces;
      if head.offset - strpos > 0 {
        ok := w.Write(str[strpos..head.offset]);
        if !ok {
          return false, head.offset;
        }
        strpos := head.offset;
      }
      ok := WriteHead(w, head);
    }

    /**
     Writes the output piece by piece, until a write fails: what the writer holds, what it will do next and the
     result are exactly those of the calls.
     */
    method WriteTo(w: Writer) returns (ok: bool)
      requires Valid() && open == []
      modifies w, sizebuf
      ensures Outcome(w.data, w.script, ok) == Send(old(w.data), old(w.script), Pieces(str, lheads, 0))
      ensures ok ==> w.data == old(w.data) + frames[0]
      ensures old(w.data) <= w.data <= old(w.data) + frames[0]
      ensures (2 * |lheads| < |old(w.script)|
               && forall i :: 0 <= i < |old(w.script)| ==> |frames[0]| < old(w.script)[i]) ==> ok
    {
      PiecesJoin(str, lheads, 0);
      SendIff(w.data, w.script, Pieces(str, lheads, 0));
      forall i | 0 <= i < |Pieces(str, lheads, 0)| ensures |Pieces(str, lheads, 0)[i]| <= |frames[0]| {
        PieceSize(Pieces(str, lheads, 0), i);
      }
      hide Send, Pieces, Placed, Render;
      var strpos: nat, i := 0, 0;
      assert lheads[0..] == lheads;
      while i < |lheads|
        invariant 0 <= i <= |lheads|
        invariant Placed(lheads[i..], strpos, |str|)
        invariant Send(w.data, w.script, Pieces(str, lheads[i..], strpos))
                  == Send(old(w.data), old(w.script), Pieces(str, lheads, 0))
      {
        ok, strpos := WriteTurn(w, i, strpos);
        if !ok {
          return false;
        }
        i := i + 1;
      }
      ok := WriteTail(w, strpos);
    }

    /** String data after the last header. */
    method WriteTail(w: Writer, strpos: nat) returns (ok: bool)
      requires Placed([], strpos, |str|)
      modifies w
      ensures Outcome(w.data, w.script, ok) == Send(old(w.data), old(w.script), Pieces(str, [], strpos))
    {
      ok := true;
      if strpos < |str| {
        ok := w.Write(str[strpos..]);
        assert [str[strpos..]] + [] == [str[strpos..]];
      }
    }
  }

  /** The encoder as its callers see it. */
  method EncodeToBytes(t: Item) returns (out: array<byte>)
    requires |Encode(t)| < TWO64
    ensures fresh(out) && out[..] == Encode(t)
  {
    var buf := new EncBuffer();
    buf.EncodeItem(t);
    assert [] + Encode(t) == Encode(t);
    out := buf.MakeBytes();
  }
}
