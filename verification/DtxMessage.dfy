/** DTXMessage: a type, an argument list with placeholders for objects to be archived, and a payload. */
module DtxMessage {
  import opened Bytes
  import opened PrimitiveArray

  const PAYLOAD_HEADER_SIZE := 0x10

  /** Items with every placeholder replaced by the archive of the object appended there. */
  function Filled<O>(items: seq<Value>, objects: map<nat, O>, archive: O -> seq<byte>): (r: seq<Value>)
    ensures |r| == |items|
  {
    seq(|items|, i requires 0 <= i < |items| => if i in objects then Buffer(archive(objects[i])) else items[i])
  }

  lemma NothingToFill<O>(items: seq<Value>, archive: O -> seq<byte>)
    ensures Filled(items, map[], archive) == items
  {
  }

  /** What a message says, independently of what has been archived yet; `arguments` is None without an argument list. */
  datatype Content = Content(messageType: uint32, asDict: bool, arguments: Option<seq<Value>>, payload: seq<byte>) {
    function ArgumentLength(): nat {
      if arguments.None? then 0 else LengthOf(asDict, arguments.value)
    }

    function Length(): nat {
      PAYLOAD_HEADER_SIZE + ArgumentLength() + |payload|
    }

    /** The serializer calls; the two length fields truncate to their widths. */
    function Chunks(): seq<seq<byte>> {
      var argumentLength := ArgumentLength() % TWO_TO_THE_32;
      [LittleEndian(messageType, 4), LittleEndian(argumentLength, 4),
       LittleEndian((argumentLength + |payload|) % TWO_TO_THE_64, 8)]
      + (if argumentLength > 0 then ArrayChunks(asDict, arguments.value) else [])
      + (if payload != [] then [payload] else [])
    }
  }

  /** Deserialize; Unchecked stands for a read past the end, which the code does not guard against. */
  datatype DecodedMessage = Decoded(messageType: uint32, arguments: Option<seq<Value>>, payload: seq<byte>)
                          | Unchecked(error: DecodeError)

  function DecodeArguments(b: seq<byte>, length: nat): Decoded {
    if length == 0 then NullPointer
    else if PAYLOAD_HEADER_SIZE + length > |b| then Undefined(OutOfBounds)
    else DecodeArray(b[PAYLOAD_HEADER_SIZE..PAYLOAD_HEADER_SIZE + length])
  }

  function DecodeMessage(b: seq<byte>): DecodedMessage {
    if |b| < PAYLOAD_HEADER_SIZE then Unchecked(OutOfBounds) else
    var argumentLength, totalLength := ReadUint32(b, 4), ReadUint64(b, 8);
    var payloadLength := (totalLength + TWO_TO_THE_64 - argumentLength) % TWO_TO_THE_64;
    var payloadStart := PAYLOAD_HEADER_SIZE + argumentLength;
    var arguments := DecodeArguments(b, argumentLength);
    if arguments.Undefined? then Unchecked(arguments.error)
    else if payloadLength > 0 && payloadStart + payloadLength > |b| then Unchecked(OutOfBounds)
    else
      Decoded(ReadUint32(b, 0), if arguments.Items? then Some(arguments.items) else None,
              if payloadLength > 0 then b[payloadStart..payloadStart + payloadLength] else [])
  }

  /** `archive` is the foreign archiver, a deterministic function from objects to bytes. */
  class DTXMessage<O(!new)> {
    const archive: O -> seq<byte>
    var messageType: uint32
    var auxiliary: DTXPrimitiveArray?
    var auxiliaryObjects: map<nat, O>
    var payloadObject: Option<O>
    var payloadBuffer: Option<seq<byte>>

    /** Objects wait only at positions of the argument list. */
    ghost predicate Valid()
      reads this, auxiliary
    {
      forall i | i in auxiliaryObjects :: auxiliary != null && i < |auxiliary.items|
    }

    ghost function Payload(): seq<byte>
      reads this
    {
      if payloadBuffer.Some? then payloadBuffer.value
      else if payloadObject.Some? then archive(payloadObject.value)
      else []
    }

    ghost function View(): Content
      reads this, auxiliary
    {
      if auxiliary == null then Content(messageType, true, None, Payload())
      else Content(messageType, auxiliary.asDict, Some(Filled(auxiliary.items, auxiliaryObjects, archive)), Payload())
    }

    constructor (archive: O -> seq<byte>, messageType: uint32)
      ensures Valid() && View() == Content(messageType, true, None, []) && auxiliary == null
      ensures this.archive == archive
    {
      this.archive, this.messageType := archive, messageType;
      auxiliary, auxiliaryObjects := null, map[];
      payloadObject, payloadBuffer := None, None;
    }

    /** Gives the message its argument list; objects still waiting will be filled in at their positions of it. */
    method SetAuxiliary(list: DTXPrimitiveArray)
      requires Valid() && forall i | i in auxiliaryObjects :: i < |list.items|
      modifies this`auxiliary
      ensures Valid() && auxiliary == list
      ensures View() == old(View()).(asDict := list.asDict,
                                     arguments := Some(Filled(list.items, auxiliaryObjects, archive)))
      ensures auxiliaryObjects == map[] ==> View().arguments == Some(list.items)
    {
      auxiliary := list;
      NothingToFill(list.items, archive);
    }

    method SetPayloadBuffer(bytes: seq<byte>)
      requires Valid()
      modifies this`payloadBuffer
      ensures Valid() && View() == old(View()).(payload := bytes)
    {
      payloadBuffer := Some(bytes);
    }

    /** A payload object counts only while there is no payload buffer. */
    method SetPayloadObject(obj: O)
      requires Valid()
      modifies this`payloadObject
      ensures Valid()
      ensures View() == if payloadBuffer.Some? then old(View()) else old(View()).(payload := archive(obj))
    {
      payloadObject := Some(obj);
    }

    /** Appending a primitive argument. */
    method AppendAuxiliaryValue(value: Value)
      requires Valid() && auxiliary != null
      modifies auxiliary
      ensures Valid() && auxiliary == old(auxiliary)
      ensures View() == old(View()).(arguments := Some(old(View()).arguments.value + [value]))
    {
      auxiliary.Append(value);
      assert Filled(auxiliary.items, auxiliaryObjects, archive)
             == old(Filled(auxiliary.items, auxiliaryObjects, archive)) + [value];
    }

    /** Appending an object: a placeholder now, its archive at the same position later. */
    method AppendAuxiliaryObject(obj: O)
      requires Valid() && auxiliary != null
      modifies this`auxiliaryObjects, auxiliary
      ensures Valid() && auxiliary == old(auxiliary)
      ensures View() == old(View()).(arguments := Some(old(View()).arguments.value + [Buffer(archive(obj))]))
    {
      var index := |auxiliary.items|;
      auxiliary.Append(Null);
      auxiliaryObjects := auxiliaryObjects[index := obj];
      assert Filled(auxiliary.items, auxiliaryObjects, archive)
             == old(Filled(auxiliary.items, auxiliaryObjects, archive)) + [Buffer(archive(obj))];
    }

    /** Replaces the placeholders; the map is visited in no particular order and the outcome does not depend on it. */
    method MaybeSerializeAuxiliaryObjects()
      requires Valid()
      modifies this`auxiliaryObjects, auxiliary
      ensures Valid() && auxiliary == old(auxiliary) && auxiliaryObjects == map[]
      ensures View() == old(View())
      ensures auxiliary != null ==> auxiliary.items == old(Filled(auxiliary.items, auxiliaryObjects, archive))
    {
      if auxiliaryObjects != map[] {
        ghost var before := auxiliary.items;
        var pending := auxiliaryObjects.Keys;
        while pending != {}
          invariant Valid() && auxiliary == old(auxiliary) && |auxiliary.items| == |before|
          invariant auxiliaryObjects == old(auxiliaryObjects) && pending <= auxiliaryObjects.Keys
          invariant forall i | 0 <= i < |before| ::
                      auxiliary.items[i]
                      == if i in auxiliaryObjects && i !in pending then Buffer(archive(auxiliaryObjects[i]))
                         else before[i]
          decreases pending
        {
          var index :| index in pending;
          auxiliary.Set(index, Buffer(archive(auxiliaryObjects[index])));
          pending := pending - {index};
        }
        auxiliaryObjects := map[];
      }
      if auxiliary != null {
        assert auxiliary.items == old(Filled(auxiliary.items, auxiliaryObjects, archive));
        assert Filled(auxiliary.items, auxiliaryObjects, archive) == auxiliary.items;
      }
    }

    method MaybeSerializePayloadObject() returns (payload: seq<byte>)
      requires Valid()
      modifies this`payloadBuffer
      ensures Valid() && View() == old(View()) && payload == View().payload
    {
      if payloadBuffer.None? && payloadObject.Some? {
        payloadBuffer := Some(archive(payloadObject.value));
      }
      payload := if payloadBuffer.Some? then payloadBuffer.value else [];
    }

    /** The length that goes into the fragment headers; asking for it changes nothing a receiver will see. */
    method SerializedLength() returns (length: nat)
      requires Valid()
      modifies this`auxiliaryObjects, this`payloadBuffer, auxiliary
      ensures Valid() && auxiliary == old(auxiliary) && View() == old(View())
      ensures length == View().Length()
    {
      hide Filled;
      hide LengthOf;
      length := PAYLOAD_HEADER_SIZE;
      MaybeSerializeAuxiliaryObjects();
      if auxiliary != null {
        NothingToFill(auxiliary.items, archive);
        var argumentLength := auxiliary.SerializedLength();
        length := length + argumentLength;
      }
      var payload := MaybeSerializePayloadObject();
      length := length + |payload|;
    }

    /** The calls of the serializer callback, in order. */
    method SerializeTo() returns (chunks: seq<seq<byte>>)
      requires Valid()
      modifies this`auxiliaryObjects, this`payloadBuffer, auxiliary
      ensures Valid() && auxiliary == old(auxiliary) && View() == old(View())
      ensures chunks == View().Chunks()
    {
      hide Filled;
      hide LengthOf;
      hide ArrayChunks;
      hide LittleEndian;
      MaybeSerializeAuxiliaryObjects();
      var argumentLength := 0;
      if auxiliary != null {
        NothingToFill(auxiliary.items, archive);
        argumentLength := auxiliary.SerializedLength();
        argumentLength := argumentLength % TWO_TO_THE_32;
      }
      var payload := MaybeSerializePayloadObject();
      chunks := [LittleEndian(messageType, 4), LittleEndian(argumentLength, 4),
                 LittleEndian((argumentLength + |payload|) % TWO_TO_THE_64, 8)];
      if argumentLength > 0 {
        var arrayChunks := auxiliary.SerializeTo();
        chunks := chunks + arrayChunks;
      }
      if |payload| > 0 {
        chunks := chunks + [payload];
      }
    }

    /** Reads a message; the payload is kept as bytes. `error` is set where the code would read past the end. */
    static method Deserialize(archive: O -> seq<byte>, bytes: seq<byte>)
      returns (message: DTXMessage<O>, error: Option<DecodeError>)
      ensures fresh(message) && message.Valid()
      ensures match DecodeMessage(bytes)
              case Decoded(messageType, arguments, payload) =>
                && error == None
                && message.View() == Content(messageType, true, arguments, payload)
              case Unchecked(e) => error == Some(e)
    {
      message := new DTXMessage(archive, 0);
      error := None;
      if |bytes| < PAYLOAD_HEADER_SIZE {
        return message, Some(OutOfBounds);
      }
      message.messageType := ReadUint32(bytes, 0);
      var argumentLength, totalLength := ReadUint32(bytes, 4), ReadUint64(bytes, 8);
      var payloadLength := (totalLength + TWO_TO_THE_64 - argumentLength) % TWO_TO_THE_64;
      if argumentLength > 0 {
        if PAYLOAD_HEADER_SIZE + argumentLength > |bytes| {
          return message, Some(OutOfBounds);
        }
        var list;
        list, error := DTXPrimitiveArray.Deserialize(bytes[PAYLOAD_HEADER_SIZE..PAYLOAD_HEADER_SIZE + argumentLength]);
        if error.Some? {
          return;
        }
        if list != null {
          message.SetAuxiliary(list);
        }
      }
      if payloadLength > 0 {
        var start := PAYLOAD_HEADER_SIZE + argumentLength;
        if start + payloadLength > |bytes| {
          return message, Some(OutOfBounds);
        }
        message.SetPayloadBuffer(bytes[start..start + payloadLength]);
      }
    }
  }
}
