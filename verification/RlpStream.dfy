/**
 The decoding machine of common/rlp/decode.go: a cached kind and size, the number of bytes left, and a
 stack with the bytes left in every open list. Lengths are Go's uint64, so the frame of a list whose
 element is too long wraps around below zero.
 */
module RlpStream {
  import opened Wrappers
  import opened Radix
  import opened RlpSpec
  import opened RlpRaw

  /** Go slices are shorter than this. */
  const MAXLEN: nat := 0x8000_0000_0000_0000

  /** Subtraction of uint64 values. */
  function Sub64(a: uint64, b: uint64): uint64
  {
    if a >= b then a - b else a - b + TWO64
  }

  /** The header at the front of `b`, before anything is known about the content behind it: kind,
      length of the tag and declared size. A single byte is all tag. */
  function Tag(b: seq<byte>): (r: Option<(Kind, nat, uint64)>)
    ensures r.Some? ==> 1 <= r.value.1 <= 9 && r.value.1 <= |b|
    ensures r.Some? && r.value.0 == Byte ==> r.value.1 == 1 && r.value.2 == 0
  {
    if b == [] then None
    else if b[0] < 0x80 then Some((Byte, 1, 0))
    else if b[0] < 0xB8 then Some((String, 1, b[0] - 0x80))
    else if b[0] < 0xC0 then LongTag(String, b, b[0] - 0xB7)
    else if b[0] < 0xF8 then Some((ListKind, 1, b[0] - 0xC0))
    else LongTag(ListKind, b, b[0] - 0xF7)
  }

  function LongTag(k: Kind, b: seq<byte>, n: nat): (r: Option<(Kind, nat, uint64)>)
    requires b != [] && 1 <= n <= 8
    ensures r.Some? ==> r.value.1 == 1 + n <= |b|
  {
    match ReadSize(b[1..], n)
    case Ok(size) =>
      ReadSizeCanonical(b[1..], n);
      Some((k, 1 + n, size))
    case Err(_) => None
  }

  /** The stack after `n` bytes of the innermost list were used up, without or with wrap-around. */
  function Eat(stack: seq<uint64>, n: uint64): seq<uint64>
  {
    if stack == [] then [] else stack[|stack| - 1 := Sub64(stack[|stack| - 1], n)]
  }

  predicate CanEat(stack: seq<uint64>, n: nat)
  {
    stack == [] || n <= stack[|stack| - 1]
  }

  /** What the machine lets through although the list limit forbids it: for a list it compares the tag
      and the payload with the limit one after the other, not their sum. */
  predicate Fits(stack: seq<uint64>, t: Item, consumed: nat)
  {
    match t
    case Str(_) => CanEat(stack, consumed)
    case List(ts) =>
      var size := |EncodeAll(ts)|;
      size <= consumed && CanEat(stack, size) && CanEat(stack, consumed - size)
  }

  /** A header that `Kind` accepts: it is checked against the limit as it was before the tag, and against
      the input. */
  function Opens(b: seq<byte>, stack: seq<uint64>): (r: Option<(Kind, nat, uint64)>)
    ensures r.Some? ==> 1 <= r.value.1 && r.value.1 + r.value.2 <= |b| && CanEat(stack, r.value.1)
  {
    match Tag(b)
    case None => None
    case Some((k, t, n)) =>
      if t + n <= |b| && CanEat(stack, t) && CanEat(stack, n) then Some((k, t, n)) else None
  }

  /** The rest of decoding an item, once its header has been read. */
  function ItemContent(k: Kind, n: uint64, byteval: byte, input: seq<byte>, stack: seq<uint64>)
      : (r: Option<(Item, seq<byte>)>)
    requires n <= |input|
    ensures r.Some? ==> |r.value.1| <= |input|
  {
    match k
    case Byte => Some((Str([byteval]), input))
    case String =>
      if CanEat(stack, n) && !Single(input[..n]) then Some((Str(input[..n]), input[n..])) else None
    case ListKind =>
      match ParseAll(input[..n])
      case None => None
      case Some(ts) => Some((Item.List(ts), input[n..]))
  }

  /** The rest of decoding an integer. */
  function UintContent(k: Kind, n: uint64, byteval: byte, input: seq<byte>, stack: seq<uint64>)
      : (r: Option<(nat, seq<byte>)>)
    requires n <= |input|
    ensures r.Some? ==> |r.value.1| <= |input|
  {
    match k
    case Byte => if byteval == 0 then None else Some((byteval, input))
    case String =>
      if CanEat(stack, n) && !Single(input[..n]) && (n > 0 ==> input[0] != 0) then
        Some((Value(input[..n], 256), input[n..]))
      else None
    case ListKind => None
  }

  /** What decoding one item at the front of `b` gives: the parse, as far as the limits admit it. */
  function Decoded(b: seq<byte>, stack: seq<uint64>): (r: Option<(Item, seq<byte>)>)
    ensures r.Some? ==> |r.value.1| < |b|
  {
    match ParseItem(b)
    case None => None
    case Some((t, rest)) => if Fits(stack, t, |b| - |rest|) then Some((t, rest)) else None
  }

  /** The limit of the innermost list has room for the head and for the content of the first value of `b`. */
  predicate Admits(stack: seq<uint64>, b: seq<byte>, first: (Kind, seq<byte>, seq<byte>))
    requires |first.2| + |first.1| <= |b|
  {
    var n := if first.0 == Byte then 0 else |first.1|;
    CanEat(stack, |b| - |first.2| - n) && CanEat(stack, n)
  }

  /** A header that has been read, and what is left of the input and the limits behind it. */
  datatype Front = Front(kind: Kind, size: uint64, byteval: byte, input: seq<byte>, stack: seq<uint64>)

  class Stream {
    var input: seq<byte>
    var remaining: uint64
    var size: uint64
    var kinderr: Option<Error>
    var stack: seq<uint64>
    var kind: Option<Kind>  // None is Go's -1: nothing is cached
    var byteval: byte
    var limited: bool

    /** The stream has not failed: the limit on the input agrees with the input. */
    ghost predicate Live()
      reads this
    {
      && |input| < MAXLEN
      && if limited then remaining == |input| else input == []
    }

    /** Live, with a cached size that the input has room for; or with a cached error. */
    ghost predicate Valid()
      reads this
    {
      if kind.Some? && kinderr.Some? then kinderr != Some(EOL)
      else Live() && (kind.Some? ==> size <= |input|)
    }

    /** The innermost list is used up, and no header is cached. */
    ghost predicate AtEnd()
      reads this
    {
      kind == None && stack != [] && stack[|stack| - 1] == 0
    }

    /** The next header: the cached one, or the one that `Kind` would read. */
    ghost function Next(): (f: Option<Front>)
      requires Valid()
      reads this
      ensures f.Some? ==> f.value.size <= |f.value.input| < MAXLEN
      ensures AtEnd() ==> f == None
    {
      if kind.Some? then
        if kinderr == None then Some(Front(kind.value, size, byteval, input, stack)) else None
      else
        match Opens(input, stack)
        case None => None
        case Some((k, t, n)) => Some(Front(k, n, if k == Byte then input[0] else 0, input[t..], Eat(stack, t)))
    }

    /**
     The slice reader and the stream see the same first value: the same kind, content and remainder. What `Split`
     refuses and `Next` does not is one byte below 128 with a string header; what `Next` refuses and `Split` does
     not is a head or a content above the limit of the innermost list.
     */
    lemma SplitIsNext()
      requires Valid() && kind == None
      ensures match Next()
              case None => Split(input).Err? || !Admits(stack, input, Split(input).value)
              case Some(f) =>
                var content := if f.kind == Byte then [f.byteval] else f.input[..f.size];
                if f.kind == String && Single(content) then Split(input).Err?
                else Split(input) == Ok((f.kind, content, f.input[f.size..]))
                     && Admits(stack, input, Split(input).value)
    {
      hide RlpRaw.ReadKind, Tag;
      TagReadKind(input);
      match Tag(input)
      case None =>
      case Some((k, t, n)) =>
        if t + n <= |input| {
          Slices(input, t, n);
          if k == Byte { assert input[0..1] == [input[0]]; }
        }
    }

    /** A kind has been read and its value has not been consumed yet. */
    ghost predicate Ahead(k: Kind, n: uint64)
      reads this
    {
      kind == Some(k) && size == n && kinderr == None
    }

    /** `Reset` as `DecodeBytes` calls it: an empty input leaves the stream without a limit. */
    constructor (b: seq<byte>)
      requires |b| < MAXLEN
      ensures Valid() && Live() && input == b && stack == [] && kind == None
    {
      input := b;
      remaining := |b|;
      limited := |b| > 0;
      size, kinderr, stack, kind, byteval := 0, None, [], None, 0;
    }

    method WillRead(n: uint64) returns (err: Option<Error>)
      modifies this`remaining, this`stack, this`kind
      ensures kind == None
      ensures err == None <==> CanEat(old(stack), n) && (limited ==> n <= old(remaining))
      ensures err == None ==> stack == Eat(old(stack), n)
      ensures err == None ==> remaining == if limited then old(remaining) - n else old(remaining)
      ensures err != Some(EOL)
    {
      kind := None;
      if |stack| > 0 {
        var limit := stack[|stack| - 1];
        if n > limit {
          return Some(ElemTooLarge);
        }
        stack := stack[|stack| - 1 := limit - n];
      }
      if limited {
        if n > remaining {
          return Some(ValueTooLarge);
        }
        remaining := remaining - n;
      }
      return None;
    }

    /** `readFull` and, for one byte, `readByte`. */
    method ReadFull(n: uint64) returns (r: Result<seq<byte>, Error>)
      requires Live()
      modifies this`input, this`remaining, this`stack, this`kind
      ensures r.Ok? <==> CanEat(old(stack), n) && n <= |old(input)|
      ensures r.Ok? ==> r.value == old(input)[..n] && input == old(input)[n..]
      ensures r.Ok? ==> Live() && stack == Eat(old(stack), n) && kind == None
      ensures r != Err(EOL)
    {
      var err := WillRead(n);
      if err.Some? {
        return Err(err.value);
      }
      if n > |input| {
        return Err(UnexpectedEOF);
      }
      r := Ok(input[..n]);
      input := input[n..];
    }

    method ReadUint(n: nat) returns (r: Result<uint64, Error>)
      requires Live() && n <= 8
      modifies this`input, this`remaining, this`stack, this`kind
      ensures n > 0 ==>
        (r.Ok? <==> n <= |old(input)| && CanEat(old(stack), n) && (n > 1 ==> old(input)[0] != 0))
      ensures n > 0 && r.Ok? ==> r.value == Value(old(input)[..n], 256)
      ensures n > 0 && r.Ok? ==> input == old(input)[n..] && stack == Eat(old(stack), n)
      ensures n == 0 ==> r == Ok(0) && input == old(input) && stack == old(stack)
      ensures r.Ok? ==> Live() && kind == None
      ensures r != Err(EOL)
    {
      if n == 0 {
        kind := None;
        return Ok(0);
      }
      var buffer := ReadFull(n);
      match buffer
      case Err(e) => return Err(e);
      case Ok(bs) =>
        if n > 1 && bs[0] == 0 {
          return Err(CanonSize);
        }
        BytesBound(bs);
        return Ok(Value(bs, 256));
    }

    method ReadKind() returns (r: Result<(Kind, uint64), Error>)
      requires Live()
      modifies this`input, this`remaining, this`stack, this`kind, this`byteval
      ensures r.Ok? <==> Tag(old(input)).Some? && CanEat(old(stack), Tag(old(input)).value.1)
      ensures r.Ok? ==>
        var (k, t, n) := Tag(old(input)).value;
        && Live() && r.value == (k, n)
        && input == old(input)[t..] && stack == Eat(old(stack), t)
        && byteval == (if k == Byte then old(input)[0] else 0)
      ensures r != Err(EOL)
    {
      var first := ReadFull(1);
      if first.Err? {
        return Err(if |stack| == 0 then EOF else first.error);
      }
      var b := first.value[0];
      byteval := 0;
      if b < 0x80 {
        byteval := b;
        return Ok((Byte, 0));
      } else if b < 0xB8 {
        return Ok((String, b - 0x80));
      } else if 0xC0 <= b < 0xF8 {
        return Ok((ListKind, b - 0xC0));
      } else {
        var k := if b < 0xC0 then String else ListKind;
        var n := if b < 0xC0 then b - 0xB7 else b - 0xF7;
        var size := ReadUint(n);
        LongTagValue(k, old(input), n);
        EatMore(old(stack), 1, n);
        match size
        case Err(e) => return Err(e);
        case Ok(s) =>
          if s < 56 {
            return Err(CanonSize);
          }
          return Ok((k, s));
      }
    }

    /** `Kind`: end of list first, then the tag, then the declared size against the list limit as it
        was before the tag and against the input. */
    method Kind() returns (r: Result<(Kind, uint64), Error>)
      requires Valid()
      modifies this
      ensures Valid()
      ensures r == Err(EOL) <==> old(AtEnd())
      ensures old(kind).Some? || r == Err(EOL) ==> unchanged(this)
      ensures old(kind).Some? ==>
        r == if old(kinderr) == None then Ok((old(kind).value, old(size))) else Err(old(kinderr).value)
      ensures r.Ok? <==> old(Next()).Some?
      ensures r.Ok? ==> Live() && Ahead(r.value.0, r.value.1) && Next() == old(Next())
      ensures r.Ok? && old(kind) == None ==>
        var (k, t, n) := Opens(old(input), old(stack)).value;
        && r.value == (k, n) && input == old(input)[t..] && stack == Eat(old(stack), t)
        && byteval == (if k == Byte then old(input)[0] else 0)
    {
      if kind.Some? {
        return if kinderr == None then Ok((kind.value, size)) else Err(kinderr.value);
      }
      var inList, listLimit := |stack| > 0, if |stack| > 0 then stack[|stack| - 1] else 0;
      if inList && listLimit == 0 {
        return Err(EOL);
      }
      var head := ReadKind();
      match head {
        case Err(e) =>
          kind, size, kinderr := Some(Byte), 0, Some(e);
        case Ok((k, n)) =>
          kind, size, kinderr := Some(k), n, None;
          if inList && size > listLimit {
            kinderr := Some(ElemTooLarge);
          } else if limited && size > remaining {
            kinderr := Some(ValueTooLarge);
          }
      }
      return if kinderr == None then Ok((kind.value, size)) else Err(kinderr.value);
    }

    method Bytes() returns (r: Result<seq<byte>, Error>)
      requires Valid()
      modifies this
      ensures r == Err(EOL) <==> old(AtEnd())
      ensures match old(Next())
              case None => r.Err?
              case Some(f) =>
                && (r.Ok? <==> f.kind == Byte
                               || (f.kind == String && CanEat(f.stack, f.size) && !Single(f.input[..f.size])))
                && (r.Ok? ==> Live() && kind == None)
                && (r.Ok? && f.kind == Byte ==> r.value == [f.byteval] && input == f.input && stack == f.stack)
                && (r.Ok? && f.kind == String ==> r.value == f.input[..f.size] && input == f.input[f.size..]
                                                  && stack == Eat(f.stack, f.size))
    {
      var head := Kind();
      if head.Err? {
        return Err(head.error);
      }
      var (k, n) := head.value;
      match k
      case Byte =>
        kind := None;
        return Ok([byteval]);
      case String =>
        r := ReadFull(n);
        if r.Ok? && n == 1 && r.value[0] < 128 {
          return Err(CanonSize);
        }
      case ListKind =>
        return Err(ExpectedString);
    }

    /** `List` takes the whole list off the enclosing frame, in uint64 arithmetic, and pushes its size. */
    method List() returns (r: Result<uint64, Error>)
      requires Valid()
      modifies this
      ensures r == Err(EOL) <==> old(AtEnd())
      ensures match old(Next())
              case None => r.Err?
              case Some(f) =>
                && (r.Ok? <==> f.kind == ListKind)
                && (r.Ok? ==> Live() && r == Ok(f.size) && kind == None && input == f.input
                              && stack == Eat(f.stack, f.size) + [f.size])
    {
      var head := Kind();
      if head.Err? {
        return Err(head.error);
      }
      var (k, n) := head.value;
      if k != ListKind {
        return Err(ExpectedList);
      }
      if |stack| > 0 {
        stack := stack[|stack| - 1 := Sub64(stack[|stack| - 1], n)];
      }
      stack := stack + [n];
      kind, size := None, 0;
      return Ok(n);
    }

    method ListEnd() returns (err: Option<Error>)
      modifies this`stack, this`kind, this`size
      ensures err == None <==> old(stack) != [] && old(stack)[|old(stack)| - 1] == 0
      ensures err == None ==> stack == old(stack)[..|old(stack)| - 1] && kind == None
      ensures err != None ==> unchanged(this)
      ensures err != Some(EOL)
    {
      if |stack| == 0 {
        return Some(NotInList);
      } else if stack[|stack| - 1] > 0 {
        return Some(NotAtEOL);
      }
      stack := stack[..|stack| - 1];
      kind, size := None, 0;
      return None;
    }

    /** Decoding into an interface value. It accepts what the slice reader parses, as far as the list
        limits let it through, and it consumes exactly that. */
    method DecodeInterface() returns (r: Result<Item, Error>)
      requires Valid()
      modifies this
      ensures r == Err(EOL) <==> old(AtEnd())
      ensures r == Err(EOL) ==> unchanged(this)
      ensures match old(Next())
              case None => r.Err?
              case Some(f) =>
                match ItemContent(f.kind, f.size, f.byteval, f.input, f.stack)
                case None => r.Err?
                case Some((t, rest)) =>
                  && r == Ok(t) && input == rest && Live() && kind == None
                  && stack == Eat(f.stack, |f.input| - |rest|)
      ensures old(kind) == None && r != Err(EOL) ==>
        match Decoded(old(input), old(stack))
        case None => r.Err?
        case Some((t, rest)) =>
          && r == Ok(t) && input == rest && Live() && kind == None
          && stack == Eat(old(stack), |old(input)| - |rest|)
      decreases |input|, if kind == None then 0 else 4
    {
      hide Decoded, ItemContent, Opens, Tag, Eat, CanEat;
      ghost var uncached := kind == None;
      if uncached { DecodedByTag(input, stack); }
      var head := Kind();
      if head.Err? {
        return Err(head.error);
      }
      ghost var rest := input;
      r := ItemAhead();
      if uncached && r.Ok? {
        EatTotal(old(stack), old(input), Opens(old(input), old(stack)).value.1, rest, input);
      }
    }

    /** `decodeInterface` after its call of `Kind`. */
    method ItemAhead() returns (r: Result<Item, Error>)
      requires Live() && kind.Some? && kinderr == None && size <= |input|
      modifies this
      ensures r != Err(EOL)
      ensures match ItemContent(old(kind).value, old(size), old(byteval), old(input), old(stack))
              case None => r.Err?
              case Some((t, rest)) =>
                && r == Ok(t) && input == rest && Live() && kind == None
                && stack == Eat(old(stack), |old(input)| - |rest|)
      decreases |input|, 3
    {
      hide ParseAll, Single, CanEat, Eat;
      EatNone(stack);
      if kind == Some(ListKind) {
        var items := DecodeListSlice();
        match items {
          case Err(e) => return Err(e);
          case Ok(ts) => return Ok(Item.List(ts));
        }
      } else {
        var bs := Bytes();
        match bs {
          case Err(e) => return Err(e);
          case Ok(s) => return Ok(Str(s));
        }
      }
    }

    /** `uint` for 8, 16, 32 or 64 bits. */
    method Uint(maxbytes: nat) returns (r: Result<uint64, Error>)
      requires Valid() && 1 <= maxbytes <= 8
      modifies this
      ensures r == Err(EOL) <==> old(AtEnd())
      ensures match old(Next())
              case None => r.Err?
              case Some(f) =>
                match UintContent(f.kind, f.size, f.byteval, f.input, f.stack)
                case None => r.Err?
                case Some((v, rest)) =>
                  if f.kind == String && f.size > maxbytes then r.Err?
                  else
                    && r == Ok(v) && input == rest && Live() && kind == None
                    && stack == Eat(f.stack, |f.input| - |rest|)
      ensures old(kind) == None && r != Err(EOL) ==>
        match DecodedUint(old(input), old(stack), Some(Pow(256, maxbytes)))
        case None => r.Err?
        case Some((v, rest)) =>
          && r == Ok(v) && input == rest && Live() && kind == None
          && stack == Eat(old(stack), |old(input)| - |rest|)
    {
      hide DecodedUint, UintContent, Opens, Tag, Eat, CanEat, Pow;
      ghost var uncached := kind == None;
      if uncached { UintByTag(input, stack, maxbytes); }
      var head := Kind();
      if head.Err? {
        return Err(head.error);
      }
      ghost var rest := input;
      r := UintAhead(maxbytes);
      if uncached && r.Ok? {
        EatTotal(old(stack), old(input), Opens(old(input), old(stack)).value.1, rest, input);
      }
    }

    /** `uint` after its call of `Kind`. */
    method UintAhead(maxbytes: nat) returns (r: Result<uint64, Error>)
      requires Live() && kind.Some? && kinderr == None && size <= |input|
      requires maxbytes <= 8
      modifies this
      ensures r != Err(EOL)
      ensures match UintContent(old(kind).value, old(size), old(byteval), old(input), old(stack))
              case None => r.Err?
              case Some((v, rest)) =>
                if old(kind) == Some(String) && old(size) > maxbytes then r.Err?
                else
                  && r == Ok(v) && input == rest && Live() && kind == None
                  && stack == Eat(old(stack), |old(input)| - |rest|)
    {
      hide Value, CanEat, Eat;
      EatNone(stack);
      SmallContent(input[..size]);
      var head := Kind();
      var (k, n) := head.value;
      match k
      case Byte =>
        if byteval == 0 {
          return Err(CanonInt);
        }
        kind := None;
        return Ok(byteval);
      case String =>
        if n > maxbytes {
          return Err(UintOverflow);
        }
        r := ReadUint(n);
        if r.Err? {
          return Err(if r.error == CanonSize then CanonInt else r.error);
        } else if n > 0 && r.value < 128 {
          return Err(CanonSize);
        }
      case ListKind =>
        return Err(ExpectedString);
    }

    /** `decodeBigInt`: no bound on the size. */
    method DecodeBigInt() returns (r: Result<nat, Error>)
      requires Valid()
      modifies this
      ensures r == Err(EOL) <==> old(AtEnd())
      ensures match old(Next())
              case None => r.Err?
              case Some(f) =>
                match UintContent(f.kind, f.size, f.byteval, f.input, f.stack)
                case None => r.Err?
                case Some((v, rest)) =>
                  && r == Ok(v) && input == rest && Live() && kind == None
                  && stack == Eat(f.stack, |f.input| - |rest|)
      ensures old(kind) == None && r != Err(EOL) ==>
        match DecodedUint(old(input), old(stack), None)
        case None => r.Err?
        case Some((v, rest)) =>
          && r == Ok(v) && input == rest && Live() && kind == None
          && stack == Eat(old(stack), |old(input)| - |rest|)
    {
      hide DecodedUint, UintContent, Opens, Tag, Eat, CanEat;
      ghost var uncached := kind == None;
      if uncached { BigIntByTag(input, stack); }
      var head := Kind();
      if head.Err? {
        return Err(head.error);
      }
      ghost var rest := input;
      r := BigIntAhead();
      if uncached && r.Ok? {
        EatTotal(old(stack), old(input), Opens(old(input), old(stack)).value.1, rest, input);
      }
    }

    /** `decodeBigInt` after its call of `Kind`. */
    method BigIntAhead() returns (r: Result<nat, Error>)
      requires Live() && kind.Some? && kinderr == None && size <= |input|
      modifies this
      ensures r != Err(EOL)
      ensures match UintContent(old(kind).value, old(size), old(byteval), old(input), old(stack))
              case None => r.Err?
              case Some((v, rest)) =>
                && r == Ok(v) && input == rest && Live() && kind == None
                && stack == Eat(old(stack), |old(input)| - |rest|)
    {
      hide Value, CanEat, Eat;
      EatNone(stack);
      SmallContent(input[..size]);
      SmallContent([byteval]);
      var head := Kind();
      var (k, n) := head.value;
      var buffer: seq<byte> := [];
      if k == ListKind {
        return Err(ExpectedString);
      } else if k == Byte {
        buffer := [byteval];
        kind := None;
      } else if n == 0 {
        kind := None;
        assert input[..0] == buffer;
      } else {
        var bs := ReadFull(n);
        match bs {
          case Err(e) => return Err(e);
          case Ok(content) => buffer := content;
        }
        if n == 1 && buffer[0] < 128 {
          return Err(CanonSize);
        }
      }
      if |buffer| > 0 && buffer[0] == 0 {
        return Err(CanonInt);
      }
      return Ok(Value(buffer, 256));
    }

    method DecodeListSlice() returns (r: Result<seq<Item>, Error>)
      requires Valid()
      modifies this
      ensures r == Err(EOL) <==> old(AtEnd())
      ensures match old(Next())
              case None => r.Err?
              case Some(f) =>
                && (r.Ok? <==> f.kind == ListKind && ParseAll(f.input[..f.size]).Some?)
                && (r.Ok? ==> ParseAll(f.input[..f.size]) == Some(r.value) && Live() && kind == None
                              && input == f.input[f.size..] && stack == Eat(f.stack, f.size))
      decreases |input|, 2
    {
      hide ParseAll, ParseItem, Opens, Tag, Eat, Single, CanEat;
      EmptyList();
      ghost var f := Next();
      var start := List();
      if start.Err? {
        return Err(start.error);
      }
      var n := start.value;
      ghost var outer := Eat(f.value.stack, n);
      assert outer + [n] == stack && stack[..|outer|] == outer;
      if n == 0 {
        assert input[..0] == [] && input[0..] == input;
        var end := ListEnd();
        match end {
          case None => return Ok([]);
          case Some(e) => return Err(e);
        }
      }
      r := DecodeSliceElems();
      if r.Ok? {
        assert stack[..|outer|] == outer;
        var end := ListEnd();
        match end {
          case None =>
          case Some(e) => return Err(e);
        }
      }
    }

    /** Elements until the end of the list. The only way out without an error is a limit of exactly
        zero, and a frame that has wrapped around never gets there. */
    method DecodeSliceElems() returns (r: Result<seq<Item>, Error>)
      requires Live() && kind == None && stack != [] && stack[|stack| - 1] <= |input|
      modifies this
      ensures var n := old(stack)[|old(stack)| - 1];
              && (r.Ok? <==> ParseAll(old(input)[..n]).Some?)
              && (r.Ok? ==> ParseAll(old(input)[..n]) == Some(r.value) && Live() && kind == None
                            && input == old(input)[n..] && stack == old(stack)[|old(stack)| - 1 := 0])
      ensures r != Err(EOL)
      decreases |input|, 1
    {
      hide ParseAll, ParseItem, Decoded, Prepend, Opens, ItemContent, Tag;
      var val: seq<Item> := [];
      ghost var top := |stack| - 1;
      ghost var window := input[..stack[top]];
      ghost var wrapped := false;
      PrependNil(ParseAll(window));
      assert input[..|window|] == window;
      while true
        invariant Live() && kind == None && |stack| == |old(stack)| && stack[..top] == old(stack)[..top]
        invariant |input| <= |old(input)|
        invariant !wrapped ==> stack[top] <= |input|
        invariant !wrapped ==> input[stack[top]..] == old(input)[|window|..]
        invariant !wrapped ==> ParseAll(window) == Prepend(val, ParseAll(input[..stack[top]]))
        invariant wrapped ==> stack[top] > |input| && ParseAll(window) == None
        decreases |input|
      {
        ghost var before, limit, frames := input, stack[top], stack;
        var elem := DecodeInterface();
        match elem {
          case Err(e) =>
            if e == EOL {
              break;
            }
            if !wrapped {
              WindowReject(before, frames, limit);
              PrependNone(val, ParseAll(before[..limit]));
            }
            return Err(e);
          case Ok(t) =>
            if !wrapped {
              ElementRead(window, val, before, frames, limit, t, input);
              wrapped := |before| - |input| > limit;
            }
            val := val + [t];
        }
      }
      assert input[..0] == [];
      PrependEmpty(val);
      return Ok(val);
    }
  }

  // ---------- integers ----------

  /** What decoding an integer of less than `bound` gives: a string item whose content is the shortest
      form of its value. */
  function DecodedUint(b: seq<byte>, stack: seq<uint64>, bound: Option<nat>)
      : (r: Option<(nat, seq<byte>)>)
    ensures r.Some? ==> |r.value.1| < |b|
  {
    match Decoded(b, stack)
    case Some((Str(s), rest)) =>
      var v := Value(s, 256);
      if Bytes(v) == s && (bound.Some? ==> v < bound.value) then Some((v, rest)) else None
    case _ => None
  }

  /** The content of a string is the shortest form of its value unless it starts with a zero byte. */
  lemma Shortest(s: seq<byte>)
    ensures Bytes(Value(s, 256)) == s <==> s == [] || s[0] != 0
  {
    if s == [] || s[0] != 0 { ValueDigits(s, 256); }
  }

  lemma BigIntByTag(b: seq<byte>, stack: seq<uint64>)
    requires |b| < MAXLEN
    ensures match Opens(b, stack)
            case None => DecodedUint(b, stack, None) == None
            case Some((k, t, n)) =>
              DecodedUint(b, stack, None) == UintContent(k, n, if k == Byte then b[0] else 0, b[t..], Eat(stack, t))
  {
    DecodedByTag(b, stack);
    hide Decoded, Bytes, Digits;
    if Opens(b, stack).Some? {
      var (k, t, n) := Opens(b, stack).value;
      hide Opens;
      Shortest([b[0]]);
      assert Value([b[0]], 256) == b[0];
      Shortest(b[t..][..n]);
      hide Value;
    }
  }

  lemma UintByTag(b: seq<byte>, stack: seq<uint64>, maxbytes: nat)
    requires |b| < MAXLEN && 1 <= maxbytes
    ensures var bounded := DecodedUint(b, stack, Some(Pow(256, maxbytes)));
      match Opens(b, stack)
      case None => bounded == None
      case Some((k, t, n)) =>
        bounded == if k == String && n > maxbytes then None
                   else UintContent(k, n, if k == Byte then b[0] else 0, b[t..], Eat(stack, t))
  {
    BigIntByTag(b, stack);
    hide Decoded, Bytes, Digits, Pow, Value;
    if Opens(b, stack).Some? {
      var (k, t, n) := Opens(b, stack).value;
      hide Opens;
      PowMono(256, 1, maxbytes);
      PowMono(256, 0, maxbytes);
      PowSmall();
      var s := b[t..][..n];
      SmallContent(s);
      if k == String && n > 0 && s[0] != 0 {
        WithinBits(s, maxbytes);
      }
    }
  }

  lemma EatNone(stack: seq<uint64>)
    ensures Eat(stack, 0) == stack && CanEat(stack, 0)
  {
  }

  /** Only a one-byte string can hold a number below 128. */
  lemma SmallContent(s: seq<byte>)
    ensures s == [] ==> Value(s, 256) == 0
    ensures |s| == 1 ==> Value(s, 256) == s[0]
    ensures |s| == 1 ==> (Value(s, 256) < 128 <==> Single(s)) && (Value(s, 256) == 0 ==> Single(s))
    ensures |s| > 1 && s[0] != 0 ==> Value(s, 256) >= 128
  {
    if |s| > 1 && s[0] != 0 { ValueLower(s, 256); PowMono(256, 1, |s| - 1); PowSmall(); }
  }

  lemma PowSmall()
    ensures Pow(256, 1) == 256 && Pow(256, 0) == 1
  {
  }

  lemma WithinBits(s: seq<byte>, k: nat)
    requires s != [] && s[0] != 0
    ensures |s| <= k <==> Value(s, 256) < Pow(256, k)
  {
    ValueDigits(s, 256);
    DigitsLength(Value(s, 256), 256, k);
  }

  /** The integer decoders accept exactly canonical encodings of the integers in range. */
  lemma DecodedUintIff(b: seq<byte>, bound: Option<nat>, v: nat, rest: seq<byte>)
    requires |b| < MAXLEN
    ensures DecodedUint(b, [], bound) == Some((v, rest)) <==>
            b == EncodeUint(v) + rest && (bound.Some? ==> v < bound.value)
  {
    DecodedWhole(b);
    DigitsValue(v, 256);
    if DecodedUint(b, [], bound) == Some((v, rest)) {
      ParseSound(b);
    }
    if b == EncodeUint(v) + rest {
      ParseEncode(Str(Bytes(v)), rest);
    }
  }

  function Prepend(val: seq<Item>, rest: Option<seq<Item>>): Option<seq<Item>>
  {
    match rest
    case None => None
    case Some(ts) => Some(val + ts)
  }

  lemma EmptyList()
    ensures ParseAll([]) == Some([])
  {
  }

  lemma PrependNone(val: seq<Item>, rest: Option<seq<Item>>)
    requires rest == None
    ensures Prepend(val, rest) == None
  {
  }

  lemma PrependEmpty(val: seq<Item>)
    ensures Prepend(val, ParseAll([])) == Some(val)
  {
    assert val + [] == val;
  }

  lemma PrependNil(rest: Option<seq<Item>>)
    ensures Prepend([], rest) == rest
  {
    if rest.Some? { assert [] + rest.value == rest.value; }
  }

  lemma BytesBound(bs: seq<byte>)
    requires |bs| <= 8
    ensures Value(bs, 256) < TWO64
  {
    ValueBound(bs, 256);
    PowMono(256, |bs|, 8);
    PowAdd(256, 4, 4);
    assert Pow(256, 4) == 0x1_0000_0000;
  }

  lemma EatMore(stack: seq<uint64>, a: uint64, b: uint64)
    requires CanEat(stack, a) && a + b < TWO64
    ensures Eat(Eat(stack, a), b) == Eat(stack, a + b)
    ensures CanEat(Eat(stack, a), b) <==> CanEat(stack, a + b)
  {
  }

  lemma EatTotal(stack: seq<uint64>, b: seq<byte>, t: nat, mid: seq<byte>, rest: seq<byte>)
    requires t <= |b| < MAXLEN && mid == b[t..] && |rest| <= |mid| && CanEat(stack, t)
    ensures Eat(Eat(stack, t), |mid| - |rest|) == Eat(stack, |b| - |rest|)
  {
    EatMore(stack, t, |mid| - |rest|);
  }

  lemma Slices(b: seq<byte>, t: nat, n: nat)
    requires t + n <= |b|
    ensures b[t..][..n] == b[t..t + n] && b[t..][n..] == b[t + n..]
  {
  }

  lemma LongTagValue(k: Kind, b: seq<byte>, n: nat)
    requires b != [] && 1 <= n <= 8
    ensures LongTag(k, b, n).Some? <==>
            n <= |b[1..]| && (n > 1 ==> b[1] != 0) && Value(b[1..][..n], 256) >= 56
    ensures LongTag(k, b, n).Some? ==> LongTag(k, b, n).value == (k, 1 + n, Value(b[1..][..n], 256))
  {
    if n <= |b[1..]| {
      ReadSizeValue(b[1..], n);
      if n == 1 { assert b[1..][..1] == [b[1]]; }
    }
  }

  /** The slice reader in terms of the tag: the content has to be there, and a byte below 128 must not
      be wrapped as a string. */
  lemma TagReadKind(b: seq<byte>)
    ensures Tag(b) == None ==> ReadKind(b).Err?
    ensures Tag(b).Some? ==>
      var (k, t, n) := Tag(b).value;
      if k == Byte then ReadKind(b) == Ok((Byte, 0, 1)) && t == 1 && n == 0
      else if t + n > |b| || (k == String && Single(b[t..t + n])) then ReadKind(b).Err?
      else ReadKind(b) == Ok((k, t, n))
  {
    if b != [] && (0xB8 <= b[0] < 0xC0 || b[0] >= 0xF8) {
      var n := if b[0] < 0xC0 then b[0] - 0xB7 else b[0] - 0xF7;
      if ReadSize(b[1..], n).Ok? { ReadSizeCanonical(b[1..], n); }
      hide ReadSize, Digits, Bytes;
    }
  }

  lemma ParseByTag(b: seq<byte>)
    ensures ParseItem(b).Some? ==> Tag(b).Some?
    ensures Tag(b).Some? ==> ParseOfTag(b) == ParseItem(b)
  {
    hide ReadKind, Tag;
    TagReadKind(b);
    if b != [] { assert b[0..1] == [b[0]]; }
  }

  /** What parsing gives once the tag is known. */
  function ParseOfTag(b: seq<byte>): Option<(Item, seq<byte>)>
    requires Tag(b).Some?
  {
    var (k, t, n) := Tag(b).value;
    if k == Byte then Some((Str([b[0]]), b[1..]))
    else if t + n > |b| then None
    else
      var content, rest := b[t..t + n], b[t + n..];
      if k == String then if Single(content) then None else Some((Str(content), rest))
      else
        match ParseAll(content)
        case None => None
        case Some(ts) => Some((Item.List(ts), rest))
  }

  /** The same in the order in which the machine works: tag, limits, content. */
  lemma DecodedByTag(b: seq<byte>, stack: seq<uint64>)
    requires |b| < MAXLEN
    ensures match Opens(b, stack)
            case None => Decoded(b, stack) == None
            case Some((k, t, n)) =>
              Decoded(b, stack) == ItemContent(k, n, if k == Byte then b[0] else 0, b[t..], Eat(stack, t))
  {
    hide ParseItem, Tag;
    ParseByTag(b);
    if Tag(b).Some? {
      var (k, t, n) := Tag(b).value;
      if t + n <= |b| {
        Slices(b, t, n);
        if CanEat(stack, t) { EatMore(stack, t, n); }
        if k == ListKind && ParseAll(b[t..t + n]).Some? { ParseAllSound(b[t..t + n]); }
      }
    }
  }

  /** Parsing inside a window agrees with parsing the whole input whenever the value ends inside. */
  lemma WindowParse(b: seq<byte>, limit: nat)
    requires |b| < MAXLEN && limit <= |b|
    ensures ParseItem(b[..limit]).Some? <==>
            ParseItem(b).Some? && |b| - |ParseItem(b).value.1| <= limit
    ensures ParseItem(b[..limit]).Some? ==>
            ParseItem(b[..limit]) == Some((ParseItem(b).value.0, b[|b| - |ParseItem(b).value.1|..limit]))
  {
    hide ParseItem, Encode;
    var w := b[..limit];
    if ParseItem(w).Some? {
      ParseSound(w);
      var (y, q) := ParseItem(w).value;
      assert b == Encode(y) + (q + b[limit..]);
      ParseEncode(y, q + b[limit..]);
      assert q == b[|b| - |q + b[limit..]|..limit];
    }
    if ParseItem(b).Some? && |b| - |ParseItem(b).value.1| <= limit {
      ParseSound(b);
      var (y, q) := ParseItem(b).value;
      var c := |b| - |q|;
      assert w == Encode(y) + b[c..limit];
      ParseEncode(y, b[c..limit]);
    }
  }

  /** A parsed list is its header and its payload. */
  lemma ConsumedBytes(b: seq<byte>, t: Item, rest: seq<byte>)
    requires |b| < MAXLEN && ParseItem(b) == Some((t, rest))
    ensures |b| - |rest| == |Encode(t)| && rest == b[|Encode(t)|..]
    ensures t.List? ==> |EncodeAll(t.items)| < |Encode(t)| <= |EncodeAll(t.items)| + 9
  {
    ParseSound(b);
    if t.List? { BytesLength(|EncodeAll(t.items)|); }
  }

  lemma WindowReject(b: seq<byte>, stack: seq<uint64>, limit: uint64)
    requires |b| < MAXLEN && 0 < limit <= |b|
    requires stack != [] && stack[|stack| - 1] == limit && Decoded(b, stack) == None
    ensures ParseAll(b[..limit]) == None
  {
    WindowParse(b, limit);
    if ParseItem(b[..limit]).Some? {
      var (t, rest) := ParseItem(b).value;
      ConsumedBytes(b, t, rest);
      assert false;
    }
  }

  lemma WindowStep(window: seq<byte>, val: seq<Item>, b: seq<byte>, limit: nat, t: Item, rest: seq<byte>)
    requires |b| < MAXLEN && limit <= |b|
    requires ParseItem(b) == Some((t, rest)) && |b| - |rest| <= limit
    requires ParseAll(window) == Prepend(val, ParseAll(b[..limit]))
    ensures ParseAll(window) == Prepend(val + [t], ParseAll(rest[..limit - (|b| - |rest|)]))
  {
    hide ParseItem, Encode;
    var c := |b| - |rest|;
    WindowParse(b, limit);
    ConsumedBytes(b, t, rest);
    assert b[c..limit] == rest[..limit - c];
    var tail := ParseAll(rest[..limit - c]);
    if tail.Some? { assert val + ([t] + tail.value) == val + [t] + tail.value; }
  }

  /** One turn of the element loop. Either the element ended inside the list, or it was a list that ran
      past the end: then nothing in this window parses and the frame is larger than any input. */
  lemma ElementRead(
      window: seq<byte>, val: seq<Item>, b: seq<byte>, stack: seq<uint64>, limit: uint64, t: Item,
      rest: seq<byte>)
    requires |b| < MAXLEN && 0 < limit <= |b|
    requires stack != [] && stack[|stack| - 1] == limit && Decoded(b, stack) == Some((t, rest))
    requires ParseAll(window) == Prepend(val, ParseAll(b[..limit]))
    ensures var c := |b| - |rest|;
            if c > limit then Sub64(limit, c) > |rest| && ParseAll(window) == None
            else ParseAll(window) == Prepend(val + [t], ParseAll(rest[..limit - c]))
                 && rest[limit - c..] == b[limit..]
  {
    hide ParseItem, Encode;
    WindowParse(b, limit);
    ConsumedBytes(b, t, rest);
    if |b| - |rest| <= limit {
      WindowStep(window, val, b, limit, t, rest);
    }
  }

  /** `DecodeBytes` into an interface value. It succeeds exactly on encodings, so it is the inverse of
      the encoder and no two inputs decode to one item. */
  method DecodeBytes(b: seq<byte>) returns (r: Result<Item, Error>)
    requires |b| < MAXLEN
    ensures r.Ok? ==> Encode(r.value) == b
    ensures forall t :: Encode(t) == b ==> r == Ok(t)
  {
    var s := new Stream(b);
    r := s.DecodeInterface();
    DecodedWhole(b);
    hide *;
    if r.Ok? && |s.input| > 0 {
      return Err(MoreThanOneValue);
    }
  }

  lemma DecodedWhole(b: seq<byte>)
    requires |b| < MAXLEN
    ensures Decoded(b, []) == ParseItem(b)
    ensures ParseItem(b).Some? && ParseItem(b).value.1 == [] ==> Encode(ParseItem(b).value.0) == b
    ensures forall t :: Encode(t) == b ==> ParseItem(b) == Some((t, []))
  {
    if ParseItem(b).Some? {
      var (t, rest) := ParseItem(b).value;
      ParseSound(b);
      ConsumedBytes(b, t, rest);
    }
    forall t | Encode(t) == b ensures ParseItem(b) == Some((t, [])) {
      ParseEncode(t, []);
      assert Encode(t) + [] == b;
    }
  }
}
