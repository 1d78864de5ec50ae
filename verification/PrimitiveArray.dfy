/** DTXPrimitiveArray: tagged values under a length-prefixed header. Floats are kept as their bit patterns. */
module PrimitiveArray {
  import opened Bytes

  const ARRAY_HEADER_SIZE := 0x10
  const DEFAULT_CAPACITY := 0x1F0
  const EMPTY_KEY: uint32 := 10

  datatype Value = Null
                 | String(bytes: seq<byte>)
                 | Buffer(bytes: seq<byte>)
                 | SignedInt32(half: uint32)
                 | SignedInt64(bits: uint64)
                 | Float32(half: uint32)
                 | Float64(bits: uint64)
                 | Integer(bits: uint64)
                 | EmptyKey
  {
    function TypeCode(): uint32 {
      match this
      case Null => 0
      case String(_) => 1
      case Buffer(_) => 2
      case SignedInt32(_) => 3
      case SignedInt64(_) => 4
      case Float32(_) => 5
      case Float64(_) => 6
      case Integer(_) => 9
      case EmptyKey => EMPTY_KEY
    }

    function Size(): nat {
      match this
      case Null | EmptyKey => 0
      case String(bytes) => |bytes|
      case Buffer(bytes) => |bytes|
      case SignedInt32(_) | Float32(_) => 4
      case SignedInt64(_) | Float64(_) | Integer(_) => 8
    }

    predicate HasLengthField() {
      String? || Buffer?
    }

    /** A string or buffer of no bytes, the case the two directions of the codec disagree on. */
    predicate IsEmptyBytes() {
      HasLengthField() && Size() == 0
    }
  }

  /** strncpy: the bytes up to the first NUL, then zeros up to the same length. */
  function CopyString(s: seq<byte>): (r: seq<byte>)
    ensures |r| == |s|
    decreases |s|
  {
    if s == [] then []
    else if s[0] == 0 then [0] + CopyString(seq(|s| - 1, i => 0))
    else [s[0]] + CopyString(s[1..])
  }

  lemma {:induction false} CopyStringTwice(s: seq<byte>)
    ensures CopyString(CopyString(s)) == CopyString(s)
    decreases |s|
  {
    if s == [] {
    } else {
      var rest := if s[0] == 0 then seq(|s| - 1, i => 0) else s[1..];
      CopyStringTwice(rest);
      assert CopyString(s)[1..] == CopyString(rest);
      if s[0] == 0 {
        CopyOfZeros(|s| - 1);
      }
    }
  }

  lemma {:induction false} CopyOfZeros(n: nat)
    ensures CopyString(seq(n, i => 0)) == seq(n, i => 0)
  {
    if n == 0 {
    } else {
      CopyOfZeros(n - 1);
    }
  }

  /** What the constructors can build, with sizes that fit the 32-bit length field. */
  ghost predicate Constructed(v: Value) {
    && (v.HasLengthField() ==> v.Size() < TWO_TO_THE_32)
    && (v.String? ==> CopyString(v.bytes) == v.bytes)
  }

  // ---- encoding ----

  function PayloadChunks(v: Value): seq<seq<byte>> {
    match v
    case Null | EmptyKey => []
    case String(bytes) => [LittleEndian(|bytes|, 4), bytes]
    case Buffer(bytes) => [LittleEndian(|bytes|, 4), bytes]
    case SignedInt32(half) => [LittleEndian(half, 4)]
    case Float32(half) => [LittleEndian(half, 4)]
    case SignedInt64(bits) => [LittleEndian(bits, 8)]
    case Float64(bits) => [LittleEndian(bits, 8)]
    case Integer(bits) => [LittleEndian(bits, 8)]
  }

  /** The serializer calls for one item. */
  function ItemChunks(asDict: bool, v: Value): seq<seq<byte>> {
    if v.Null? then [] else
    (if asDict then [LittleEndian(EMPTY_KEY, 4)] else [])
    + [LittleEndian(v.TypeCode(), 4)]
    + if v.Size() == 0 then [] else PayloadChunks(v)
  }

  function BodyChunks(asDict: bool, items: seq<Value>): seq<seq<byte>> {
    if items == [] then [] else
    ItemChunks(asDict, items[0]) + BodyChunks(asDict, items[1..])
  }

  function ItemLength(asDict: bool, v: Value): nat {
    if v.Null? then 0 else
    (if asDict then 4 else 0) + 4 + (if v.HasLengthField() then 4 else 0) + v.Size()
  }

  function BodyLength(asDict: bool, items: seq<Value>): nat {
    if items == [] then 0 else
    ItemLength(asDict, items[0]) + BodyLength(asDict, items[1..])
  }

  function LengthOf(asDict: bool, items: seq<Value>): nat {
    if items == [] then 0 else ARRAY_HEADER_SIZE + BodyLength(asDict, items)
  }

  /** The size field; for an array without items the subtraction wraps around. */
  function SizeField(asDict: bool, items: seq<Value>): uint64 {
    (LengthOf(asDict, items) + (TWO_TO_THE_64 - ARRAY_HEADER_SIZE)) % TWO_TO_THE_64
  }

  /** (v + 0x20F) & ~0x20F on 64 bits: 0x210 is no power of two, so the mask clears bits 0 to 3 and bit 9. */
  function Capacity(size: uint64): uint64 {
    var v := ((if size < DEFAULT_CAPACITY then DEFAULT_CAPACITY else size) + 0x20F) % TWO_TO_THE_64;
    v - v % 0x10 - v / 0x200 % 2 * 0x200
  }

  function ArrayChunks(asDict: bool, items: seq<Value>): seq<seq<byte>> {
    var size := SizeField(asDict, items);
    [LittleEndian(Capacity(size), 8), LittleEndian(size, 8)] + BodyChunks(asDict, items)
  }

  // ---- decoding ----

  datatype DecodeError = OutOfBounds | UnknownType

  datatype TokenStep = Token(value: Value, size: nat) | Bad(error: DecodeError)

  /** The value at the front of some bytes; OutOfBounds stands for a read past the end of the buffer. */
  function NextToken(b: seq<byte>): (t: TokenStep)
    ensures t.Token? ==> 4 <= t.size <= |b| && !t.value.Null?
  {
    if |b| < 4 then Bad(OutOfBounds) else
    match ReadUint32(b, 0)
    case 1 => (match BytesAt(b) case None => Bad(OutOfBounds) case Some(bytes) => Token(String(bytes), 8 + |bytes|))
    case 2 => (match BytesAt(b) case None => Bad(OutOfBounds) case Some(bytes) => Token(Buffer(bytes), 8 + |bytes|))
    case 3 => if |b| < 8 then Bad(OutOfBounds) else Token(SignedInt32(ReadUint32(b, 4)), 8)
    case 5 => if |b| < 8 then Bad(OutOfBounds) else Token(Float32(ReadUint32(b, 4)), 8)
    case 4 => if |b| < 12 then Bad(OutOfBounds) else Token(SignedInt64(ReadUint64(b, 4)), 12)
    case 6 => if |b| < 12 then Bad(OutOfBounds) else Token(Float64(ReadUint64(b, 4)), 12)
    case 9 => if |b| < 12 then Bad(OutOfBounds) else Token(Integer(ReadUint64(b, 4)), 12)
    case 10 => Token(EmptyKey, 4)
    case _ => Bad(UnknownType)
  }

  /** The bytes behind a type and a length field. */
  function BytesAt(b: seq<byte>): (r: Option<seq<byte>>)
    requires |b| >= 4
    ensures r.Some? ==> 8 + |r.value| <= |b|
  {
    if |b| < 8 || |b| < 8 + ReadUint32(b, 4) then None else Some(b[8..8 + ReadUint32(b, 4)])
  }

  datatype TokenList = Tokens(values: seq<Value>) | Broken(error: DecodeError) {
    function Behind(earlier: seq<Value>): TokenList {
      match this
      case Tokens(values) => Tokens(earlier + values)
      case Broken(_) => this
    }
  }

  /** All values of a body, keys included, as they stand in the bytes. */
  function ParseTokens(b: seq<byte>): TokenList
    decreases |b|
  {
    if b == [] then Tokens([]) else
    match NextToken(b)
    case Bad(error) => Broken(error)
    case Token(value, size) => ParseTokens(b[size..]).Behind([value])
  }

  /** What the array keeps of the values read: no keys, and strings as their constructor copies them. */
  function Kept(tokens: seq<Value>): seq<Value> {
    if tokens == [] then [] else KeptOne(tokens[0]) + Kept(tokens[1..])
  }

  function KeptOne(v: Value): seq<Value> {
    if v.EmptyKey? || v.Null? then []
    else if v.String? then [String(CopyString(v.bytes))]
    else [v]
  }

  /** Deserialize: a null pointer, an array with its items, or a read the code does not check. */
  datatype Decoded = NullPointer | Items(items: seq<Value>) | Undefined(error: DecodeError)

  function DecodeArray(b: seq<byte>): Decoded {
    if |b| < ARRAY_HEADER_SIZE then NullPointer
    else if (ReadUint64(b, 8) + ARRAY_HEADER_SIZE) % TWO_TO_THE_64 != |b| then NullPointer
    else
      match ParseTokens(b[ARRAY_HEADER_SIZE..])
      case Tokens(values) => Items(Kept(values))
      case Broken(error) => Undefined(error)
  }

  // ---- the class ----

  class DTXPrimitiveArray {
    const asDict: bool
    var items: seq<Value>

    constructor (asDict: bool)
      ensures this.asDict == asDict && items == []
    {
      this.asDict, items := asDict, [];
    }

    method Append(item: Value)
      modifies this
      ensures items == old(items) + [item]
    {
      items := items + [item];
    }

    /** Assignment through operator[]. */
    method Set(index: nat, item: Value)
      requires index < |items|
      modifies this
      ensures items == old(items)[index := item]
    {
      items := items[index := item];
    }

    method SerializedLength() returns (length: nat)
      ensures length == LengthOf(asDict, items)
    {
      if items == [] {
        return 0;
      }
      length := ARRAY_HEADER_SIZE;
      var i := 0;
      assert items[0..] == items;
      while i < |items|
        invariant i <= |items|
        invariant length + BodyLength(asDict, items[i..]) == LengthOf(asDict, items)
      {
        var item := items[i];
        assert items[i..][1..] == items[i + 1..];
        i := i + 1;
        if item.Null? {
          continue;
        }
        if asDict {
          length := length + 4;
        }
        length := length + 4;
        if item.Buffer? || item.String? {
          length := length + 4;
        }
        length := length + item.Size();
      }
    }

    /** The calls of the serializer callback, in order. */
    method SerializeTo() returns (chunks: seq<seq<byte>>)
      ensures chunks == ArrayChunks(asDict, items)
    {
      hide BodyChunks;
      hide PayloadChunks;
      hide LittleEndian;
      hide Capacity;
      var length := SerializedLength();
      var size := (length + (TWO_TO_THE_64 - ARRAY_HEADER_SIZE)) % TWO_TO_THE_64;
      chunks := [LittleEndian(Capacity(size), 8), LittleEndian(size, 8)];
      var i := 0;
      assert items[0..] == items;
      while i < |items|
        invariant i <= |items|
        invariant chunks + BodyChunks(asDict, items[i..]) == ArrayChunks(asDict, items)
      {
        var item := items[i];
        ghost var before, later := chunks, BodyChunks(asDict, items[i + 1..]);
        BodyStep(asDict, items, i);
        if !item.Null? {
          if asDict {
            chunks := chunks + [LittleEndian(EMPTY_KEY, 4)];
          }
          chunks := chunks + [LittleEndian(item.TypeCode(), 4)];
          if item.Size() != 0 {
            chunks := chunks + PayloadChunks(item);
          }
        }
        assert chunks == before + ItemChunks(asDict, item);
        ConcatAssociates(before, ItemChunks(asDict, item), later);
        i := i + 1;
      }
      assert items[i..] == [];
      BodyOfNothing(asDict);
      EmptyEnds(chunks);
    }

    /** `error` is set where the code would read past the buffer or meet a type it only asserts against. */
    static method Deserialize(buffer: seq<byte>) returns (result: DTXPrimitiveArray?, error: Option<DecodeError>)
      ensures result == null || fresh(result)
      ensures match DecodeArray(buffer)
              case NullPointer => result == null && error == None
              case Items(items) => result != null && result.asDict && result.items == items && error == None
              case Undefined(e) => error == Some(e)
    {
      hide ParseTokens;
      hide NextToken;
      hide Kept;
      hide CopyString;
      hide ReadUint64;
      if |buffer| < ARRAY_HEADER_SIZE {
        return null, None;
      }
      if (ReadUint64(buffer, 8) + ARRAY_HEADER_SIZE) % TWO_TO_THE_64 != |buffer| {
        return null, None;
      }
      result := new DTXPrimitiveArray(true);
      error := None;
      var offset := ARRAY_HEADER_SIZE;
      ghost var body, tokens := buffer[ARRAY_HEADER_SIZE..], [];
      NothingBehind(ParseTokens(body));
      NothingToRead();
      while offset < |buffer|
        invariant ARRAY_HEADER_SIZE <= offset <= |buffer| && fresh(result) && result.asDict
        invariant result.items == Kept(tokens)
        invariant ParseTokens(body) == ParseTokens(buffer[offset..]).Behind(tokens)
        decreases |buffer| - offset
      {
        match NextToken(buffer[offset..]) {
          case Bad(e) =>
            BadStops(buffer[offset..]);
            return result, Some(e);
          case Token(value, size) =>
            OneTokenBehind(buffer[offset..], tokens);
            DropOfDrop(buffer, offset, size);
            KeptSnoc(tokens, value);
            tokens := tokens + [value];
            if value.String? {
              result.Append(String(CopyString(value.bytes)));
            } else if !value.EmptyKey? {
              result.Append(value);
            }
            offset := offset + size;
        }
      }
      assert buffer[offset..] == [];
      EmptyEnds(tokens);
    }
  }

  lemma BodyOfNothing(asDict: bool)
    ensures BodyChunks(asDict, []) == []
  {
  }

  lemma BodyStep(asDict: bool, items: seq<Value>, i: nat)
    requires i < |items|
    ensures BodyChunks(asDict, items[i..]) == ItemChunks(asDict, items[i]) + BodyChunks(asDict, items[i + 1..])
  {
    hide ItemChunks;
    assert items[i..][1..] == items[i + 1..];
  }

  lemma NothingToRead()
    ensures ParseTokens([]) == Tokens([]) && Kept([]) == []
  {
  }

  lemma BadStops(b: seq<byte>)
    requires b != [] && NextToken(b).Bad?
    ensures ParseTokens(b) == Broken(NextToken(b).error)
  {
  }

  lemma NothingBehind(t: TokenList)
    ensures t.Behind([]) == t
  {
    if t.Tokens? {
      EmptyEnds(t.values);
    }
  }

  lemma OneTokenBehind(b: seq<byte>, tokens: seq<Value>)
    requires b != [] && NextToken(b).Token?
    ensures ParseTokens(b).Behind(tokens)
            == ParseTokens(b[NextToken(b).size..]).Behind(tokens + [NextToken(b).value])
  {
    hide NextToken;
    var rest := ParseTokens(b[NextToken(b).size..]);
    if rest.Tokens? {
      ConcatAssociates(tokens, [NextToken(b).value], rest.values);
    }
  }

  lemma {:induction false} KeptSnoc(tokens: seq<Value>, v: Value)
    ensures Kept(tokens + [v]) == Kept(tokens) + KeptOne(v)
    decreases |tokens|
  {
    hide KeptOne;
    if tokens == [] {
      EmptyEnds([v]);
      assert Kept([v]) == KeptOne(v) + Kept([v][1..]);
      EmptyEnds(KeptOne(v));
    } else {
      KeptSnoc(tokens[1..], v);
      DropOfConcat(tokens, [v], 1);
      ConcatAssociates(KeptOne(tokens[0]), Kept(tokens[1..]), KeptOne(v));
    }
  }
}

