/**
 Messages with empty string or buffer arguments, seen by a receiver that finds more bytes behind them: their
 announced length reaches past what was written, and what it reaches is read as the missing length fields.
 */
module EmptyArguments {
  import opened Bytes
  import opened PrimitiveArray
  import opened ArrayCodec
  import opened DtxMessage
  import opened MessageCodec

  // ---- the array ----

  /** A value as it can stand in a token list: readable or empty bytes. */
  ghost predicate Written(v: Value) {
    Readable(v) || v.IsEmptyBytes()
  }

  /** What is read from the encoded tokens and `tail` is not what was written. */
  ghost predicate Misread(tokens: seq<Value>, tail: seq<byte>) {
    match ParseTokens(EncodeTokens(tokens) + tail)
    case Broken(_) => true
    case Tokens(values) => Kept(values) != Kept(tokens)
  }

  ghost predicate StartsWithZeros(b: seq<byte>) {
    |b| >= 4 && forall i | 0 <= i < 4 :: b[i] == 0
  }

  lemma ZeroIsZeros(b: seq<byte>)
    requires |b| >= 4 && ReadUint32(b, 0) == 0
    ensures StartsWithZeros(b)
  {
    EncodeOfDecode(b[0..4]);
    assert LittleEndian(0, 4) == [0, 0, 0, 0];
    assert forall i | 0 <= i < 4 :: b[i] == b[0..4][i];
  }

  lemma EmptyTokenBytes(v: Value)
    requires v.IsEmptyBytes()
    ensures TokenBytes(v) == LittleEndian(v.TypeCode(), 4)
  {
    FlattenOne(LittleEndian(v.TypeCode(), 4));
    assert ItemChunks(false, v) == [LittleEndian(v.TypeCode(), 4)];
  }

  lemma SpelledStarts(v: Value)
    ensures |Spelled(v)| >= 4 && Spelled(v) == LittleEndian(v.TypeCode(), 4) + Spelled(v)[4..]
  {
    hide LittleEndian;
    assert Spelled(v)[..4] == LittleEndian(v.TypeCode(), 4);
  }

  lemma TokenStarts(v: Value) returns (rest: seq<byte>)
    requires Written(v)
    ensures TokenBytes(v) == LittleEndian(v.TypeCode(), 4) + rest
  {
    hide LittleEndian, TokenBytes, Spelled;
    if v.IsEmptyBytes() {
      EmptyTokenBytes(v);
      EmptyEnds(LittleEndian(v.TypeCode(), 4));
      rest := [];
    } else {
      TokenBytesAreSpelled(v);
      SpelledStarts(v);
      rest := Spelled(v)[4..];
    }
  }

  /** Every token starts with its type, which is never zero. */
  lemma TokensStartNonZero(tokens: seq<Value>, tail: seq<byte>)
    requires tokens != [] && Written(tokens[0])
    ensures var b := EncodeTokens(tokens) + tail; |b| >= 4 && ReadUint32(b, 0) == tokens[0].TypeCode() != 0
  {
    hide LittleEndian, ReadUint32, TokenBytes;
    var v, later := tokens[0], EncodeTokens(tokens[1..]);
    var code := LittleEndian(v.TypeCode(), 4);
    var rest := TokenStarts(v);
    ConcatAssociates(code + rest, later, tail);
    ConcatAssociates(code, rest, later + tail);
    ReadFirst(v.TypeCode(), rest + (later + tail));
  }

  /** An empty value at the front takes the bytes behind its type for its length. */
  lemma EmptyFirst(v: Value, behind: seq<byte>)
    requires v.IsEmptyBytes()
    ensures var t := NextToken(LittleEndian(v.TypeCode(), 4) + behind);
            t.Token? ==> |behind| >= 4 && t.value.HasLengthField() && t.value.Size() == ReadUint32(behind, 0)
  {
    hide LittleEndian, FromLittleEndian;
    var code := LittleEndian(v.TypeCode(), 4);
    ReadFirst(v.TypeCode(), behind);
    if |behind| >= 4 {
      assert (code + behind)[4..8] == behind[0..4];
    }
  }

  lemma KeptDiffers(first: Value, later: seq<Value>, first': Value, later': seq<Value>)
    requires first.HasLengthField() && first'.HasLengthField() && first.Size() != first'.Size()
    ensures Kept([first] + later) != Kept([first'] + later')
  {
    hide CopyString;
    assert ([first] + later)[1..] == later && ([first'] + later')[1..] == later';
    assert Kept([first] + later)[0].Size() == first.Size();
    assert Kept([first'] + later')[0].Size() == first'.Size();
  }

  lemma KeptBehindSame(v: Value, values: seq<Value>, values': seq<Value>)
    requires Kept(values) != Kept(values')
    ensures Kept([v] + values) != Kept([v] + values')
  {
    hide CopyString;
    assert ([v] + values)[1..] == values && ([v] + values')[1..] == values';
    var a, b := Kept([v] + values), Kept([v] + values');
    assert a[|KeptOne(v)|..] == Kept(values) && b[|KeptOne(v)|..] == Kept(values');
  }

  /** An empty value before the end takes the type of the next for its length, and is not empty any more. */
  lemma EmptyFirstIsMisread(tokens: seq<Value>, tail: seq<byte>)
    requires tokens != [] && tokens[0].IsEmptyBytes()
    requires var behind := EncodeTokens(tokens[1..]) + tail; |behind| >= 4 ==> ReadUint32(behind, 0) != 0
    ensures Misread(tokens, tail)
  {
    hide LittleEndian, ReadUint32, Kept, NextToken, TokenBytes;
    var v := tokens[0];
    var behind := EncodeTokens(tokens[1..]) + tail;
    var b := LittleEndian(v.TypeCode(), 4) + behind;
    EmptyTokenBytes(v);
    ConcatAssociates(TokenBytes(v), EncodeTokens(tokens[1..]), tail);
    EmptyFirst(v, behind);
    assert |b| >= 4;
    var t := NextToken(b);
    if t.Token? && ParseTokens(b[t.size..]).Tokens? {
      KeptDiffers(t.value, ParseTokens(b[t.size..]).values, v, tokens[1..]);
      assert tokens == [v] + tokens[1..];
    }
  }

  lemma MisreadLater(tokens: seq<Value>, tail: seq<byte>)
    requires tokens != [] && Readable(tokens[0]) && Misread(tokens[1..], tail)
    ensures Misread(tokens, tail)
  {
    hide Kept, TokenBytes, Readable;
    var v, later := tokens[0], EncodeTokens(tokens[1..]);
    FirstTokenRead(v, later, tail);
    var t := ParseTokens(later + tail);
    if t.Tokens? {
      KeptBehindSame(v, t.values, tokens[1..]);
      assert tokens == [v] + tokens[1..];
    }
  }

  /**
   A token list with empty bytes in it is misread, unless the only empty one stands at the end and the bytes behind
   it are the zero length that was not written.
   */
  lemma {:induction false} EmptyIsMisread(tokens: seq<Value>, tail: seq<byte>)
    requires forall i | 0 <= i < |tokens| :: Written(tokens[i])
    requires EmptyCount(tokens) > 0
    ensures Misread(tokens, tail)
            || (EmptyCount(tokens) == 1 && tokens[|tokens| - 1].IsEmptyBytes() && StartsWithZeros(tail))
    decreases |tokens|
  {
    hide Misread, Readable;
    if tokens[0].IsEmptyBytes() {
      var behind := EncodeTokens(tokens[1..]) + tail;
      if |tokens| == 1 {
        assert tokens[1..] == [];
        EmptyEnds(tail);
        if |tail| >= 4 && ReadUint32(tail, 0) == 0 {
          ZeroIsZeros(tail);
        } else {
          EmptyFirstIsMisread(tokens, tail);
        }
      } else {
        TokensStartNonZero(tokens[1..], tail);
        EmptyFirstIsMisread(tokens, tail);
      }
    } else {
      EmptyIsMisread(tokens[1..], tail);
      if Misread(tokens[1..], tail) {
        MisreadLater(tokens, tail);
      }
    }
  }

  lemma {:induction false} TokensAreWritten(asDict: bool, items: seq<Value>)
    requires AllConstructed(items)
    ensures forall i | 0 <= i < |TokensOf(asDict, items)| :: Written(TokensOf(asDict, items)[i])
    ensures EmptyCount(TokensOf(asDict, items)) == EmptyCount(items)
    decreases |items|
  {
    hide CopyString;
    if items == [] {
    } else {
      var v, later := items[0], TokensOf(asDict, items[1..]);
      TokensAreWritten(asDict, items[1..]);
      CountBehind(asDict, v, later);
    }
  }

  lemma CountBehind(asDict: bool, v: Value, tokens: seq<Value>)
    ensures EmptyCount((if v.Null? then [] else (if asDict then [EmptyKey] else []) + [v]) + tokens)
            == (if v.IsEmptyBytes() then 1 else 0) + EmptyCount(tokens)
  {
    EmptyEnds(tokens);
    assert ([v] + tokens)[1..] == tokens;
    if asDict {
      ConcatAssociates([EmptyKey], [v], tokens);
      assert ([EmptyKey] + ([v] + tokens))[1..] == [v] + tokens;
    } else {
      EmptyEnds([v]);
    }
  }

  /** An array with empty bytes, as a receiver reads it that takes its announced length of what follows. */
  lemma LengthenedArrayIsMisread(asDict: bool, items: seq<Value>, tail: seq<byte>)
    requires AllConstructed(items) && LengthOf(asDict, items) < TWO_TO_THE_64
    requires EmptyCount(items) > 0 && |tail| == 4 * EmptyCount(items)
    ensures DecodeArray(ArrayBytes(asDict, items) + tail) != Items(WithoutNullsAndKeys(items))
            || (EmptyCount(items) == 1 && StartsWithZeros(tail))
  {
    hide ParseTokens, Kept, TokensOf, EncodeTokens, BodyChunks, ReadUint64, Flatten, Constructed, ArrayBytes, Written;
    hide WithoutNullsAndKeys, SizeField;
    var tokens, b := TokensOf(asDict, items), ArrayBytes(asDict, items);
    ArrayBytesParts(asDict, items);
    DropOfConcat(b, tail, ARRAY_HEADER_SIZE);
    BodyIsTokens(asDict, items);
    KeptOfTokens(asDict, items);
    TokensAreWritten(asDict, items);
    EmptyIsMisread(tokens, tail);
  }

  // ---- the message ----

  ghost predicate NoZeros(b: seq<byte>) {
    forall i | 0 <= i < |b| :: b[i] != 0
  }

  /** If zeros stand in front of the payload and its shift is itself, it is all zeros. */
  lemma {:induction false} ZerosSpread(payload: seq<byte>, x: seq<byte>, i: nat)
    requires |x| == 4 && StartsWithZeros(payload + x) && (payload + x)[4..] == payload && i < |payload| + 4
    ensures (payload + x)[i] == 0
  {
    if i < 4 {
    } else {
      ZerosSpread(payload, x, i - 4);
      assert (payload + x)[i] == (payload + x)[4..][i - 4] == payload[i - 4];
    }
  }

  lemma LastIsNonZero(payload: seq<byte>, x: seq<byte>)
    requires |x| == 4 && NoZeros(x)
    ensures (payload + x)[|payload| + 3] != 0
  {
  }

  lemma ShiftedPayloadDiffers(payload: seq<byte>, x: seq<byte>)
    requires |x| == 4 && NoZeros(x) && StartsWithZeros(payload + x)
    ensures (payload + x)[4..] != payload
  {
    LastIsNonZero(payload, x);
    if (payload + x)[4..] == payload {
      ZerosSpread(payload, x, |payload| + 3);
      assert false;
    }
  }

  lemma StartOfStart(b: seq<byte>, n: nat)
    requires 4 <= n <= |b| && StartsWithZeros(b[..n])
    ensures StartsWithZeros(b)
  {
    assert forall i | 0 <= i < 4 :: b[..n][i] == b[i];
  }

  /** Where the parts of a lengthened message lie. */
  lemma LengthenedParts(header: seq<byte>, arguments: seq<byte>, payload: seq<byte>, x: seq<byte>)
    ensures var b := (header + (arguments + payload)) + x;
            var cut := |header| + |arguments| + |x|;
            && b == header + ((arguments + payload) + x)
            && b[|header|..cut] == arguments + (payload + x)[..|x|]
            && b[cut..cut + |payload|] == (payload + x)[|x|..]
  {
    var b := (header + (arguments + payload)) + x;
    ConcatAssociates(header, arguments + payload, x);
    ConcatAssociates(arguments, payload, x);
    ConcatAssociates(header, arguments, payload + x);
    var front := header + arguments;
    assert b == front + (payload + x);
    assert b[|header|..|front| + |x|] == arguments + (payload + x)[..|x|];
    assert b[|front| + |x|..] == (payload + x)[|x|..];
  }

  /**
   A message with an empty string or buffer argument whose receiver takes the missing bytes from what follows: it is
   not what was sent, if the first four bytes that follow are not zero, as they are not at the start of a frame.
   */
  lemma LengthenedMessageIsMisread(c: Content, x: seq<byte>)
    requires WithinLimits(c) && c.arguments.Some? && EmptyCount(c.arguments.value) > 0
    requires |x| == 4 * EmptyCount(c.arguments.value) && NoZeros(x[..4])
    ensures DecodeMessage(MessageBytes(c) + x) != Decoded(c.messageType, ReceivedArguments(c), c.payload)
  {
    hide MessageBytes, HeaderBytes, ReadUint32, ReadUint64, DecodeArray, ArrayBytes, AllConstructed, BodyLength;
    hide WithoutNullsAndKeys, StartsWithZeros, NoZeros;
    var items := c.arguments.value;
    assert items != [];
    var b, t := MessageBytes(c) + x, (c.payload + x)[..|x|];
    MessageBytesParts(c);
    MessageLengthAccounting(c);
    LengthenedParts(HeaderBytes(c), ArgumentBytes(c), c.payload, x);
    HeaderReads(c, (ArgumentBytes(c) + c.payload) + x);
    LengthenedArrayIsMisread(c.asDict, items, t);
    if EmptyCount(items) == 1 && StartsWithZeros(t) {
      assert x[..4] == x;
      StartOfStart(c.payload + x, |x|);
      ShiftedPayloadDiffers(c.payload, x);
    }
  }
}
