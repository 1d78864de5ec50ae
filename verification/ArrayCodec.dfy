/** What the array codec promises: lengths, round trips and the canonical form. */
module ArrayCodec {
  import opened Bytes
  import opened PrimitiveArray

  // ---- the two directions of the codec ----

  /** The values as they stand in the bytes: no nulls, and a key in front of each in a dictionary. */
  function TokensOf(asDict: bool, items: seq<Value>): seq<Value> {
    if items == [] then [] else
    (if items[0].Null? then [] else (if asDict then [EmptyKey] else []) + [items[0]]) + TokensOf(asDict, items[1..])
  }

  function TokenBytes(v: Value): seq<byte> {
    Flatten(ItemChunks(false, v))
  }

  function EncodeTokens(tokens: seq<Value>): seq<byte> {
    if tokens == [] then [] else TokenBytes(tokens[0]) + EncodeTokens(tokens[1..])
  }

  /** A value that reads back as itself: not null, lengths that fit, no empty bytes. */
  ghost predicate Readable(v: Value) {
    && !v.Null?
    && !v.IsEmptyBytes()
    && (v.HasLengthField() ==> v.Size() < TWO_TO_THE_32)
  }

  /** The bytes of a readable value: its type, its length if it has that field, and its bytes. */
  function Spelled(v: Value): seq<byte> {
    LittleEndian(v.TypeCode(), 4)
    + match v
      case Null | EmptyKey => []
      case String(bytes) => LittleEndian(|bytes|, 4) + bytes
      case Buffer(bytes) => LittleEndian(|bytes|, 4) + bytes
      case SignedInt32(half) => LittleEndian(half, 4)
      case Float32(half) => LittleEndian(half, 4)
      case SignedInt64(bits) => LittleEndian(bits, 8)
      case Float64(bits) => LittleEndian(bits, 8)
      case Integer(bits) => LittleEndian(bits, 8)
  }

  lemma TokenBytesAreSpelled(v: Value)
    requires Readable(v)
    ensures TokenBytes(v) == Spelled(v)
  {
    hide LittleEndian;
    var code := LittleEndian(v.TypeCode(), 4);
    match v
    case EmptyKey =>
      FlattenOne(code);
      assert ItemChunks(false, v) == [code];
    case String(bytes) =>
      FlattenThree(code, LittleEndian(|bytes|, 4), bytes);
      assert ItemChunks(false, v) == [code, LittleEndian(|bytes|, 4), bytes];
    case Buffer(bytes) =>
      FlattenThree(code, LittleEndian(|bytes|, 4), bytes);
      assert ItemChunks(false, v) == [code, LittleEndian(|bytes|, 4), bytes];
    case SignedInt32(half) =>
      FlattenTwo(code, LittleEndian(half, 4));
      assert ItemChunks(false, v) == [code, LittleEndian(half, 4)];
    case Float32(half) =>
      FlattenTwo(code, LittleEndian(half, 4));
      assert ItemChunks(false, v) == [code, LittleEndian(half, 4)];
    case SignedInt64(bits) =>
      FlattenTwo(code, LittleEndian(bits, 8));
      assert ItemChunks(false, v) == [code, LittleEndian(bits, 8)];
    case Float64(bits) =>
      FlattenTwo(code, LittleEndian(bits, 8));
      assert ItemChunks(false, v) == [code, LittleEndian(bits, 8)];
    case Integer(bits) =>
      FlattenTwo(code, LittleEndian(bits, 8));
      assert ItemChunks(false, v) == [code, LittleEndian(bits, 8)];
  }

  /** An encoded integer reads back where it stands. */
  lemma ReadUint32Back(before: seq<byte>, v: uint32, after: seq<byte>)
    ensures ReadUint32(before + (LittleEndian(v, 4) + after), |before|) == v
  {
    PowersOf256();
    ConcatAssociates(before, LittleEndian(v, 4), after);
    ReadBack(before, v, 4, after, before + (LittleEndian(v, 4) + after));
  }

  lemma ReadUint64Back(before: seq<byte>, v: uint64, after: seq<byte>)
    ensures ReadUint64(before + (LittleEndian(v, 8) + after), |before|) == v
  {
    PowersOf256();
    ConcatAssociates(before, LittleEndian(v, 8), after);
    ReadBack(before, v, 8, after, before + (LittleEndian(v, 8) + after));
  }

  lemma ReadFirst(v: uint32, after: seq<byte>)
    ensures ReadUint32(LittleEndian(v, 4) + after, 0) == v
  {
    ReadUint32Back([], v, after);
    EmptyEnds(LittleEndian(v, 4) + after);
  }

  lemma NextOfSpelled(v: Value, rest: seq<byte>)
    requires Readable(v)
    ensures NextToken(Spelled(v) + rest) == Token(v, |Spelled(v)|)
  {
    hide LittleEndian;
    hide ReadUint32;
    hide ReadUint64;
    var code := LittleEndian(v.TypeCode(), 4);
    match v
    case EmptyKey =>
      assert Spelled(v) + rest == code + rest;
      ReadFirst(v.TypeCode(), rest);
    case String(bytes) => NextOfBytes(v, rest);
    case Buffer(bytes) => NextOfBytes(v, rest);
    case SignedInt32(half) => NextOfHalf(v.TypeCode(), half, rest);
    case Float32(half) => NextOfHalf(v.TypeCode(), half, rest);
    case SignedInt64(bits) => NextOfBits(v.TypeCode(), bits, rest);
    case Float64(bits) => NextOfBits(v.TypeCode(), bits, rest);
    case Integer(bits) => NextOfBits(v.TypeCode(), bits, rest);
  }

  lemma NextOfHalf(code: uint32, half: uint32, rest: seq<byte>)
    ensures var b := (LittleEndian(code, 4) + LittleEndian(half, 4)) + rest;
            ReadUint32(b, 0) == code && ReadUint32(b, 4) == half
  {
    hide LittleEndian;
    hide ReadUint32;
    ConcatAssociates(LittleEndian(code, 4), LittleEndian(half, 4), rest);
    ReadFirst(code, LittleEndian(half, 4) + rest);
    ReadUint32Back(LittleEndian(code, 4), half, rest);
  }

  lemma NextOfBits(code: uint32, bits: uint64, rest: seq<byte>)
    ensures var b := (LittleEndian(code, 4) + LittleEndian(bits, 8)) + rest;
            ReadUint32(b, 0) == code && ReadUint64(b, 4) == bits
  {
    hide LittleEndian;
    hide ReadUint32;
    hide ReadUint64;
    ConcatAssociates(LittleEndian(code, 4), LittleEndian(bits, 8), rest);
    ReadFirst(code, LittleEndian(bits, 8) + rest);
    ReadUint64Back(LittleEndian(code, 4), bits, rest);
  }

  lemma NextOfBytes(v: Value, rest: seq<byte>)
    requires Readable(v) && v.HasLengthField()
    ensures NextToken(Spelled(v) + rest) == Token(v, |Spelled(v)|)
  {
    hide LittleEndian;
    hide ReadUint32;
    var b := Spelled(v) + rest;
    var code, length := LittleEndian(v.TypeCode(), 4), LittleEndian(|v.bytes|, 4);
    assert b == (code + length) + (v.bytes + rest);
    NextOfHalf(v.TypeCode(), |v.bytes|, v.bytes + rest);
    assert b[8..8 + |v.bytes|] == v.bytes;
  }

  /** Encoded readable values in front of anything are read back first. */
  lemma {:induction false} ParseOfEncodeThen(tokens: seq<Value>, rest: seq<byte>)
    requires forall i | 0 <= i < |tokens| :: Readable(tokens[i])
    ensures ParseTokens(EncodeTokens(tokens) + rest) == ParseTokens(rest).Behind(tokens)
    decreases |tokens|
  {
    hide TokenBytes, Spelled, NextToken;
    if tokens == [] {
      EmptyEnds(rest);
      NothingBehind(ParseTokens(rest));
    } else {
      ParseOfEncodeThen(tokens[1..], rest);
      FirstTokenRead(tokens[0], EncodeTokens(tokens[1..]), rest);
      BehindBehind(ParseTokens(rest), [tokens[0]], tokens[1..]);
      assert [tokens[0]] + tokens[1..] == tokens;
    }
  }

  /** Reading a readable value in front of `later` and `rest`. */
  lemma FirstTokenRead(v: Value, later: seq<byte>, rest: seq<byte>)
    requires Readable(v)
    ensures ParseTokens((TokenBytes(v) + later) + rest) == ParseTokens(later + rest).Behind([v])
    ensures TokenBytes(v) != []
  {
    hide Spelled, NextToken, TokenBytes;
    TokenBytesAreSpelled(v);
    NextOfSpelled(v, later + rest);
    ConcatAssociates(Spelled(v), later, rest);
    TakeAndDrop(Spelled(v), later + rest);
    assert |Spelled(v)| >= 4;
  }

  lemma BehindBehind(t: TokenList, first: seq<Value>, second: seq<Value>)
    ensures t.Behind(second).Behind(first) == t.Behind(first + second)
  {
    if t.Tokens? {
      ConcatAssociates(first, second, t.values);
    }
  }

  /** Encoding readable values and parsing gives the values back. */
  lemma ParseOfEncode(tokens: seq<Value>)
    requires forall i | 0 <= i < |tokens| :: Readable(tokens[i])
    ensures ParseTokens(EncodeTokens(tokens)) == Tokens(tokens)
  {
    hide EncodeTokens;
    ParseOfEncodeThen(tokens, []);
    EmptyEnds(EncodeTokens(tokens));
    EmptyEnds(tokens);
    NothingToRead();
  }

  /** What is read, unless it is empty bytes, is spelled by the bytes it was read from. */
  lemma SpelledAsRead(b: seq<byte>)
    requires NextToken(b).Token? && !NextToken(b).value.IsEmptyBytes()
    ensures Readable(NextToken(b).value)
    ensures Spelled(NextToken(b).value) == b[..NextToken(b).size]
  {
    hide LittleEndian;
    hide FromLittleEndian;
    hide Pow256;
    var n := NextToken(b).size;
    EncodeOfDecode(b[0..4]);
    if n >= 8 {
      EncodeOfDecode(b[4..8]);
      JoinSlices(b, 4, 8);
    }
    if n >= 12 {
      EncodeOfDecode(b[4..12]);
      JoinSlices(b, 4, 12);
    }
    if NextToken(b).value.HasLengthField() {
      assert b[0..4] + (b[4..8] + b[8..n]) == b[..n];
    }
    assert b[0..4] == b[..4];
  }

  lemma {:induction false} EncodeOfParse(b: seq<byte>)
    requires ParseTokens(b).Tokens?
    requires forall i | 0 <= i < |ParseTokens(b).values| :: !ParseTokens(b).values[i].IsEmptyBytes()
    ensures EncodeTokens(ParseTokens(b).values) == b
    ensures forall i | 0 <= i < |ParseTokens(b).values| :: Readable(ParseTokens(b).values[i])
    decreases |b|
  {
    hide TokenBytes;
    hide Spelled;
    hide NextToken;
    hide Readable;
    if b == [] {
    } else {
      var t := NextToken(b);
      var tokens, later := ParseTokens(b).values, ParseTokens(b[t.size..]).values;
      assert tokens == [t.value] + later;
      assert tokens[0] == t.value && tokens[1..] == later;
      forall i | 0 <= i < |later| ensures !later[i].IsEmptyBytes() {
        assert later[i] == tokens[i + 1];
      }
      EncodeOfParse(b[t.size..]);
      SpelledAsRead(b);
      TokenBytesAreSpelled(t.value);
      JoinSlices(b, t.size, |b|);
    }
  }

  lemma EmptyKeyIsSpelled()
    ensures TokenBytes(EmptyKey) == LittleEndian(EMPTY_KEY, 4)
  {
    TokenBytesAreSpelled(EmptyKey);
    EmptyEnds(LittleEndian(EMPTY_KEY, 4));
  }

  /** The bytes after the array header are the encoded tokens. */
  lemma {:induction false} BodyIsTokens(asDict: bool, items: seq<Value>)
    ensures Flatten(BodyChunks(asDict, items)) == EncodeTokens(TokensOf(asDict, items))
    decreases |items|
  {
    hide TokenBytes;
    if items == [] {
    } else {
      var v := items[0];
      var chunks, tokens := BodyChunks(asDict, items[1..]), TokensOf(asDict, items[1..]);
      BodyIsTokens(asDict, items[1..]);
      FlattenConcat(ItemChunks(asDict, v), chunks);
      ItemBytes(asDict, v, tokens);
    }
  }

  lemma ItemBytes(asDict: bool, v: Value, tokens: seq<Value>)
    ensures Flatten(ItemChunks(asDict, v)) + EncodeTokens(tokens)
            == EncodeTokens((if v.Null? then [] else (if asDict then [EmptyKey] else []) + [v]) + tokens)
  {
    EmptyEnds(tokens);
    EmptyEnds(EncodeTokens(tokens));
    if !v.Null? {
      assert ([v] + tokens)[1..] == tokens;
      if asDict {
        EmptyKeyIsSpelled();
        ConcatAssociates([EmptyKey], [v], tokens);
        assert ([EmptyKey] + ([v] + tokens))[1..] == [v] + tokens;
        var key := LittleEndian(EMPTY_KEY, 4);
        assert ItemChunks(true, v) == [key] + ItemChunks(false, v);
        FlattenConcat([key], ItemChunks(false, v));
        FlattenOne(key);
        ConcatAssociates(key, TokenBytes(v), EncodeTokens(tokens));
      } else {
        assert ItemChunks(false, v) == ItemChunks(asDict, v);
      }
    }
  }

  function EmptyCount(items: seq<Value>): nat {
    if items == [] then 0 else (if items[0].IsEmptyBytes() then 1 else 0) + EmptyCount(items[1..])
  }

  /** Every empty string or buffer makes the announced length four bytes longer than what is written. */
  lemma {:induction false} LengthAccounting(asDict: bool, items: seq<Value>)
    ensures |Flatten(BodyChunks(asDict, items))| + 4 * EmptyCount(items) == BodyLength(asDict, items)
    decreases |items|
  {
    if items == [] {
    } else {
      LengthAccounting(asDict, items[1..]);
      FlattenConcat(ItemChunks(asDict, items[0]), BodyChunks(asDict, items[1..]));
      ItemLengthAccounting(asDict, items[0]);
    }
  }

  lemma ItemLengthAccounting(asDict: bool, v: Value)
    ensures |Flatten(ItemChunks(asDict, v))| + (if v.IsEmptyBytes() then 4 else 0) == ItemLength(asDict, v)
  {
    hide LittleEndian;
    if !v.Null? {
      var code := LittleEndian(v.TypeCode(), 4);
      var payload := if v.Size() == 0 then [] else PayloadChunks(v);
      PayloadLength(v);
      FlattenConcat([code], payload);
      FlattenOne(code);
      if asDict {
        var key := LittleEndian(EMPTY_KEY, 4);
        assert ItemChunks(asDict, v) == [key] + ([code] + payload);
        FlattenConcat([key], [code] + payload);
        FlattenOne(key);
      } else {
        assert ItemChunks(asDict, v) == [code] + payload;
      }
    }
  }

  lemma PayloadLength(v: Value)
    ensures v.Size() > 0 ==>
              |Flatten(PayloadChunks(v))| == v.Size() + if v.HasLengthField() then 4 else 0
  {
    hide LittleEndian;
    match v
    case Null | EmptyKey =>
    case String(bytes) => FlattenTwo(LittleEndian(|bytes|, 4), bytes);
    case Buffer(bytes) => FlattenTwo(LittleEndian(|bytes|, 4), bytes);
    case SignedInt32(half) => FlattenOne(LittleEndian(half, 4));
    case Float32(half) => FlattenOne(LittleEndian(half, 4));
    case SignedInt64(bits) => FlattenOne(LittleEndian(bits, 8));
    case Float64(bits) => FlattenOne(LittleEndian(bits, 8));
    case Integer(bits) => FlattenOne(LittleEndian(bits, 8));
  }

  /** The items a receiver can get back. */
  function WithoutNullsAndKeys(items: seq<Value>): seq<Value> {
    if items == [] then [] else
    (if items[0].Null? || items[0].EmptyKey? then [] else [items[0]]) + WithoutNullsAndKeys(items[1..])
  }

  ghost predicate AllConstructed(items: seq<Value>) {
    forall i | 0 <= i < |items| :: Constructed(items[i])
  }

  lemma {:induction false} KeptOfTokens(asDict: bool, items: seq<Value>)
    requires AllConstructed(items)
    ensures Kept(TokensOf(asDict, items)) == WithoutNullsAndKeys(items)
    decreases |items|
  {
    if items == [] {
    } else {
      var v, tokens := items[0], TokensOf(asDict, items[1..]);
      KeptOfTokens(asDict, items[1..]);
      KeptBehind(asDict, v, tokens);
    }
  }

  lemma KeptBehind(asDict: bool, v: Value, tokens: seq<Value>)
    requires Constructed(v)
    ensures Kept((if v.Null? then [] else (if asDict then [EmptyKey] else []) + [v]) + tokens)
            == (if v.Null? || v.EmptyKey? then [] else [v]) + Kept(tokens)
  {
    hide CopyString;
    EmptyEnds(tokens);
    EmptyEnds(Kept(tokens));
    assert ([v] + tokens)[1..] == tokens;
    if asDict && !v.Null? {
      ConcatAssociates([EmptyKey], [v], tokens);
      assert ([EmptyKey] + ([v] + tokens))[1..] == [v] + tokens;
      EmptyEnds(Kept([v] + tokens));
    }
  }

  ghost predicate NoEmptyBytes(items: seq<Value>) {
    forall i | 0 <= i < |items| :: !items[i].IsEmptyBytes()
  }

  lemma {:induction false} NoEmptyBytesIsCountZero(items: seq<Value>)
    ensures NoEmptyBytes(items) <==> EmptyCount(items) == 0
  {
    if items == [] {
    } else {
      NoEmptyBytesIsCountZero(items[1..]);
      if NoEmptyBytes(items[1..]) && !items[0].IsEmptyBytes() {
        forall i | 0 <= i < |items| ensures !items[i].IsEmptyBytes() {
          if i > 0 {
            assert items[i] == items[1..][i - 1];
          }
        }
      }
    }
  }

  lemma {:induction false} TokensAreReadable(asDict: bool, items: seq<Value>)
    requires AllConstructed(items) && NoEmptyBytes(items)
    ensures forall i | 0 <= i < |TokensOf(asDict, items)| :: Readable(TokensOf(asDict, items)[i])
    decreases |items|
  {
    hide CopyString;
    if items == [] {
    } else {
      TokensAreReadable(asDict, items[1..]);
    }
  }

  /** The serialized array. */
  function ArrayBytes(asDict: bool, items: seq<Value>): seq<byte> {
    Flatten(ArrayChunks(asDict, items))
  }

  lemma ArrayBytesParts(asDict: bool, items: seq<Value>)
    ensures var b := ArrayBytes(asDict, items);
            && |b| == ARRAY_HEADER_SIZE + |Flatten(BodyChunks(asDict, items))|
            && ReadUint64(b, 8) == SizeField(asDict, items)
            && b[ARRAY_HEADER_SIZE..] == Flatten(BodyChunks(asDict, items))
  {
    hide LittleEndian;
    hide SizeField;
    hide Capacity;
    hide ReadUint64;
    var size := SizeField(asDict, items);
    var first, second := LittleEndian(Capacity(size), 8), LittleEndian(size, 8);
    var body := BodyChunks(asDict, items);
    FlattenConcat([first, second], body);
    FlattenTwo(first, second);
    ConcatAssociates(first, second, Flatten(body));
    ReadUint64Back(first, size, Flatten(body));
    TakeAndDrop(first + second, Flatten(body));
  }

  /**
   Decoding what was encoded gives back the items, without nulls and keys, exactly when there are items at all and
   none of them is an empty string or buffer.
   */
  lemma ArrayRoundTripIff(asDict: bool, items: seq<Value>)
    requires AllConstructed(items) && LengthOf(asDict, items) < TWO_TO_THE_64
    ensures DecodeArray(ArrayBytes(asDict, items)) == Items(WithoutNullsAndKeys(items))
            <==> items != [] && NoEmptyBytes(items)
    ensures items == [] || !NoEmptyBytes(items) ==> DecodeArray(ArrayBytes(asDict, items)) == NullPointer
  {
    hide ArrayBytes;
    hide ParseTokens;
    hide Kept;
    hide TokensOf;
    hide EncodeTokens;
    hide BodyChunks;
    hide Readable;
    hide Flatten;
    hide Constructed;
    hide ReadUint64;
    ArrayBytesParts(asDict, items);
    LengthAccounting(asDict, items);
    NoEmptyBytesIsCountZero(items);
    if items != [] && NoEmptyBytes(items) {
      BodyIsTokens(asDict, items);
      TokensAreReadable(asDict, items);
      ParseOfEncode(TokensOf(asDict, items));
      KeptOfTokens(asDict, items);
    }
  }

  // ---- decoding, then encoding ----

  /** Each value behind one key, and nothing else: the form the serializer writes. */
  ghost predicate Canonical(tokens: seq<Value>) {
    tokens != [] ==>
      && |tokens| >= 2
      && tokens[0].EmptyKey?
      && !tokens[1].EmptyKey?
      && KeptOne(tokens[1]) == [tokens[1]]
      && Canonical(tokens[2..])
  }

  /** Items read from bytes are such as can be written: constructed, no nulls, keys or empty bytes. */
  lemma {:induction false} KeptIsWritable(tokens: seq<Value>)
    requires forall i | 0 <= i < |tokens| :: Readable(tokens[i])
    ensures AllConstructed(Kept(tokens)) && NoEmptyBytes(Kept(tokens))
    ensures WithoutNullsAndKeys(Kept(tokens)) == Kept(tokens)
  {
    hide CopyString;
    if tokens == [] {
    } else {
      var v := tokens[0];
      KeptIsWritable(tokens[1..]);
      if v.String? {
        CopyStringTwice(v.bytes);
      }
      if !v.EmptyKey? {
        var item, later := KeptOne(v)[0], Kept(tokens[1..]);
        assert Kept(tokens) == [item] + later;
        assert ([item] + later)[1..] == later;
        assert Constructed(item) && !item.IsEmptyBytes() && !item.Null? && !item.EmptyKey?;
      } else {
        EmptyEnds(Kept(tokens[1..]));
      }
    }
  }

  /** Writing items out always puts a key first and a value second. */
  lemma TokensOfStart(items: seq<Value>)
    requires WithoutNullsAndKeys(items) == items
    ensures var tokens := TokensOf(true, items);
            tokens != [] ==> |tokens| >= 2 && tokens[0].EmptyKey? && !tokens[1].EmptyKey?
  {
    if items != [] {
      FirstIsAValue(items);
    }
  }

  lemma FirstIsAValue(items: seq<Value>)
    requires WithoutNullsAndKeys(items) == items && items != []
    ensures !items[0].Null? && !items[0].EmptyKey?
  {
    if items[0].Null? || items[0].EmptyKey? {
      FilterDoesNotGrow(items[1..]);
    }
  }

  lemma {:induction false} FilterDoesNotGrow(items: seq<Value>)
    ensures |WithoutNullsAndKeys(items)| <= |items|
  {
    if items == [] {
    } else {
      FilterDoesNotGrow(items[1..]);
    }
  }

  lemma {:induction false} WrittenAsReadIff(tokens: seq<Value>)
    requires forall i | 0 <= i < |tokens| :: Readable(tokens[i])
    ensures TokensOf(true, Kept(tokens)) == tokens <==> Canonical(tokens)
    decreases |tokens|
  {
    hide KeptOne;
    hide Kept;
    hide TokensOf;
    NothingKept();
    KeptIsWritable(tokens);
    TokensOfStart(Kept(tokens));
    if |tokens| >= 2 && tokens[0].EmptyKey? && !tokens[1].EmptyKey? {
      WrittenAsReadIff(tokens[2..]);
      PairWrittenAsRead(tokens);
      var v, later := KeptOne(tokens[1])[0], TokensOf(true, Kept(tokens[2..]));
      assert KeptOne(tokens[1]) == [v];
      assert ([EmptyKey, v] + later)[2..] == later;
      assert tokens == [tokens[0], tokens[1]] + tokens[2..];
    }
  }

  lemma NothingKept()
    ensures TokensOf(true, Kept([])) == []
  {
  }

  lemma PairWrittenAsRead(tokens: seq<Value>)
    requires |tokens| >= 2 && tokens[0].EmptyKey? && !tokens[1].EmptyKey? && !tokens[1].Null?
    ensures |KeptOne(tokens[1])| == 1
    ensures TokensOf(true, Kept(tokens)) == [EmptyKey, KeptOne(tokens[1])[0]] + TokensOf(true, Kept(tokens[2..]))
  {
    hide CopyString;
    var v, later := KeptOne(tokens[1])[0], Kept(tokens[2..]);
    assert tokens[1..][1..] == tokens[2..];
    EmptyEnds(Kept(tokens[1..]));
    assert Kept(tokens) == [v] + later;
    assert ([v] + later)[1..] == later;
  }

  /**
   Re-encoding what was decoded gives the same bytes exactly when every value stands behind one key, there are no
   other keys, and no string has bytes after a NUL.
   */
  lemma ReencodingIsIdentityIff(body: seq<byte>)
    requires ParseTokens(body).Tokens? && NoEmptyBytes(ParseTokens(body).values)
    ensures var tokens := ParseTokens(body).values;
            Flatten(BodyChunks(true, Kept(tokens))) == body <==> Canonical(tokens)
  {
    hide ParseTokens;
    hide EncodeTokens;
    hide TokensOf;
    hide Kept;
    hide BodyChunks;
    hide Canonical;
    hide Readable;
    hide Flatten;
    hide WithoutNullsAndKeys;
    hide Constructed;
    var tokens := ParseTokens(body).values;
    EncodeOfParse(body);
    KeptIsWritable(tokens);
    BodyIsTokens(true, Kept(tokens));
    TokensAreReadable(true, Kept(tokens));
    ParseOfEncode(TokensOf(true, Kept(tokens)));
    WrittenAsReadIff(tokens);
  }

  /** And whatever the input looked like, the items survive being encoded and decoded once more. */
  lemma ReencodingKeepsItems(b: seq<byte>)
    requires DecodeArray(b).Items? && DecodeArray(b).items != []
    requires NoEmptyBytes(ParseTokens(b[ARRAY_HEADER_SIZE..]).values)
    requires LengthOf(true, DecodeArray(b).items) < TWO_TO_THE_64
    ensures DecodeArray(ArrayBytes(true, DecodeArray(b).items)) == DecodeArray(b)
  {
    hide ParseTokens;
    hide Kept;
    hide ArrayBytes;
    hide LengthOf;
    hide Readable;
    hide Constructed;
    hide WithoutNullsAndKeys;
    var tokens := ParseTokens(b[ARRAY_HEADER_SIZE..]).values;
    EncodeOfParse(b[ARRAY_HEADER_SIZE..]);
    KeptIsWritable(tokens);
    ArrayRoundTripIff(true, Kept(tokens));
  }
}
