/** What the message codec promises: lengths and the round trip. */
module MessageCodec {
  import opened Bytes
  import opened PrimitiveArray
  import opened ArrayCodec
  import opened DtxMessage

  /** The arguments are values that constructors build, and the lengths fit their fields. */
  ghost predicate WithinLimits(c: Content) {
    && (c.arguments.Some? ==> AllConstructed(c.arguments.value))
    && c.ArgumentLength() < TWO_TO_THE_32
    && c.ArgumentLength() + |c.payload| < TWO_TO_THE_64
  }

  ghost predicate NoEmptyArguments(c: Content) {
    c.arguments.Some? ==> NoEmptyBytes(c.arguments.value)
  }

  /** The argument list as it is written: nothing for a missing or empty one. */
  function ArgumentBytes(c: Content): seq<byte> {
    if c.ArgumentLength() > 0 then ArrayBytes(c.asDict, c.arguments.value) else []
  }

  function HeaderBytes(c: Content): seq<byte> {
    (LittleEndian(c.messageType, 4) + LittleEndian(c.ArgumentLength() % TWO_TO_THE_32, 4))
    + LittleEndian((c.ArgumentLength() % TWO_TO_THE_32 + |c.payload|) % TWO_TO_THE_64, 8)
  }

  /** The serialized message. */
  function MessageBytes(c: Content): seq<byte> {
    Flatten(c.Chunks())
  }

  lemma MessageBytesParts(c: Content)
    requires WithinLimits(c)
    ensures MessageBytes(c) == HeaderBytes(c) + (ArgumentBytes(c) + c.payload)
    ensures |HeaderBytes(c)| == PAYLOAD_HEADER_SIZE
  {
    hide LittleEndian;
    hide LengthOf;
    hide ArrayChunks;
    hide AllConstructed;
    var argumentLength := c.ArgumentLength() % TWO_TO_THE_32;
    var a, b := LittleEndian(c.messageType, 4), LittleEndian(argumentLength, 4);
    var t := LittleEndian((argumentLength + |c.payload|) % TWO_TO_THE_64, 8);
    var list := if argumentLength > 0 then ArrayChunks(c.asDict, c.arguments.value) else [];
    var payload := if c.payload != [] then [c.payload] else [];
    FlattenThree(a, b, t);
    ConcatAssociates(a, b, t);
    FlattenOne(c.payload);
    FlattenConcat([a, b, t], list);
    FlattenConcat([a, b, t] + list, payload);
    ConcatAssociates(Flatten([a, b, t]), Flatten(list), Flatten(payload));
    assert c.Chunks() == [a, b, t] + list + payload;
  }

  /** Reading the header of a serialized message. */
  lemma HeaderReads(c: Content, rest: seq<byte>)
    requires WithinLimits(c)
    ensures var b := HeaderBytes(c) + rest;
            && ReadUint32(b, 0) == c.messageType
            && ReadUint32(b, 4) == c.ArgumentLength()
            && ReadUint64(b, 8) == c.ArgumentLength() + |c.payload|
  {
    hide LittleEndian;
    hide LengthOf;
    hide ReadUint32;
    hide ReadUint64;
    hide AllConstructed;
    var a, b := LittleEndian(c.messageType, 4), LittleEndian(c.ArgumentLength(), 4);
    var t := LittleEndian(c.ArgumentLength() + |c.payload|, 8);
    ConcatAssociates(a + b, t, rest);
    ConcatAssociates(a, b, t + rest);
    NextOfHalf(c.messageType, c.ArgumentLength(), t + rest);
    ReadUint64Back(a + b, c.ArgumentLength() + |c.payload|, rest);
  }

  /** Bytes written and bytes announced differ by four for every empty string or buffer argument. */
  lemma MessageLengthAccounting(c: Content)
    requires WithinLimits(c)
    ensures |MessageBytes(c)| + 4 * (if c.arguments.Some? then EmptyCount(c.arguments.value) else 0) == c.Length()
    ensures |MessageBytes(c)| == c.Length() <==> NoEmptyArguments(c)
  {
    hide MessageBytes;
    hide HeaderBytes;
    hide AllConstructed;
    hide ArrayBytes;
    hide BodyChunks;
    hide BodyLength;
    hide NoEmptyBytes;
    MessageBytesParts(c);
    if c.arguments.Some? {
      ArrayBytesParts(c.asDict, c.arguments.value);
      LengthAccounting(c.asDict, c.arguments.value);
      NoEmptyBytesIsCountZero(c.arguments.value);
    }
  }

  /** The serializer never pushes an empty chunk. */
  lemma ChunksAreNonEmpty(c: Content)
    ensures forall i | 0 <= i < |c.Chunks()| :: c.Chunks()[i] != []
  {
    hide LittleEndian;
    hide LengthOf;
    hide BodyChunks;
    if c.arguments.Some? {
      BodyChunksAreNonEmpty(c.asDict, c.arguments.value);
    }
  }

  lemma {:induction false} BodyChunksAreNonEmpty(asDict: bool, items: seq<Value>)
    ensures forall i | 0 <= i < |BodyChunks(asDict, items)| :: BodyChunks(asDict, items)[i] != []
    decreases |items|
  {
    hide LittleEndian;
    if items == [] {
    } else {
      BodyChunksAreNonEmpty(asDict, items[1..]);
    }
  }

  /** What a receiver should get of the arguments: an empty list is not sent at all. */
  function ReceivedArguments(c: Content): Option<seq<Value>> {
    if c.arguments.None? || c.arguments.value == [] then None
    else Some(WithoutNullsAndKeys(c.arguments.value))
  }

  /**
   Deserializing a serialized message restores type, arguments and payload exactly when no argument is an empty
   string or buffer; otherwise its announced length reaches past its end, which the code does not check.
   */
  lemma MessageRoundTripIff(c: Content)
    requires WithinLimits(c)
    ensures DecodeMessage(MessageBytes(c)) == Decoded(c.messageType, ReceivedArguments(c), c.payload)
            <==> NoEmptyArguments(c)
    ensures !NoEmptyArguments(c) ==> DecodeMessage(MessageBytes(c)).Unchecked?
  {
    hide MessageBytes;
    hide HeaderBytes;
    hide ReadUint32;
    hide ReadUint64;
    hide DecodeArray;
    hide ArrayBytes;
    hide AllConstructed;
    hide NoEmptyBytes;
    hide BodyLength;
    hide WithoutNullsAndKeys;
    hide EmptyCount;
    var b := MessageBytes(c);
    MessageBytesParts(c);
    HeaderReads(c, ArgumentBytes(c) + c.payload);
    MessageLengthAccounting(c);
    if NoEmptyArguments(c) {
      SliceParts(HeaderBytes(c), ArgumentBytes(c), c.payload);
      if c.ArgumentLength() > 0 {
        ArrayRoundTripIff(c.asDict, c.arguments.value);
      }
    }
  }

  lemma SliceParts(header: seq<byte>, arguments: seq<byte>, payload: seq<byte>)
    ensures var b := header + (arguments + payload);
            && b[|header|..|header| + |arguments|] == arguments
            && b[|header| + |arguments|..|header| + |arguments| + |payload|] == payload
  {
  }
}
