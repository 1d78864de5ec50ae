# The DTX message layer, modelled and proved

This project models how the library speaks DTX, the message protocol of Apple's instrument services: how a message is
encoded, cut into fragments, buffered and sent, how incoming bytes become messages again, and how a connection gives
out identifiers and routes replies. Objects that the code updates in place are classes (`BufferMemory`,
`DTXMessageParser`, `DTXMessageTransmitter`, `DTXPrimitiveArray`, `DTXMessage`, `BufferedDTXTransport`,
`DTXConnection`); each of their methods is tied to a function of bytes, values or states, and the laws of the protocol
are lemmas about these functions. The threads of a connection are two step machines, one for the way from the
transport to the router and one for identifiers and handlers, whose steps interleave freely.

| file | content |
|---|---|
| `Bytes`, `MessageHeader` | little-endian integers, slices, the 32-byte frame header |
| `WireLayout`, `ValueLayout` | the wire format in literal bytes and offsets: headers, values, arrays, messages |
| `FrameParsing`, `ChunkedParsing` | the frame parser as a function; feeding it piece by piece |
| `IncomingFrames` | what the parser refuses, waits for and takes, by the bytes of a frame |
| `BufferMemory`, `MessageParser` | the growing buffer and the parser that works in it |
| `FragmentCount`, `Fragmenting` | the single-precision fragment count; the fragmenting transmitter |
| `Reassembly`, `RoundTrip`, `CountConvention` | interleaved fragments; what is sent is what arrives; for which fragment counts |
| `ShortMessages` | messages that announce more bytes than they bring |
| `PrimitiveArray`, `ArrayCodec` | the tagged value list and its laws |
| `DtxMessage`, `MessageCodec`, `EmptyArguments` | the message with its placeholders and its laws; how empty arguments are misread |
| `BufferedTransport`, `SendPath`, `Letters`, `EndToEnd` | the buffered sender; from a message object to the transport; from message to receiver; to the router |
| `ReceivePipeline`, `PipelineAsWritten` | receive thread, queue and parsing thread; which runs of the code are the repaired ones |
| `ReplyRouting`, `ConnectionRuns`, `ConnectionObject`, `ReplyIdentifiers` | identifiers, handlers, channels: the machine, its runs, the object, its replies |
| `ChannelRouting` | which messages channels get, by what was done to the channels |

## Where the code departs from what it says

The model keeps the code's behaviour and offers the evident repair behind a flag. The flag `false` is always the code.

- `clears`: the parser's comment says that the buffer is empty once everything is consumed
  (src/instrument/dtxmessageparser.cpp:43-45), but its size is only reset when something is left over (102-106), so the
  next call parses the old frames again. `FeedAsWrittenAgreesIff` and `ParserAsWrittenAgreesIff` say exactly when the
  code's parser agrees with the repair: when no call ends on the end of a frame. `RunAgreesIff` says the same of every
  run of the threads around it, and `NextCallIsRightIff` what a call that does end on a frame costs the next one:
  complete messages are routed again (`CompleteFramesPendingAgain`), unfinished ones get their pieces twice
  (`PiecesCollectedTwice`). `MessageDeliveredTwice` and `RoutedTwiceAsWritten` are runs of it.
- `countsHeader`: the transmitter puts the number of data fragments into the header and numbers them from 1, so the
  last index equals the count (src/instrument/dtxmessagetransmitter.cpp:47-53, as the headers expected in
  test/instrument/dtxmessagetransmitter_test.cpp:172-220 also say); the parser stops at count minus 1
  (src/instrument/dtxmessageparser.cpp:139). `MessageArrivesIff` says for every count field when a message comes
  through, `RoundTripAsWrittenIff` that only unfragmented ones do as written, `CodeCountTruncates` what arrives
  otherwise: all but the last fragment's bytes, and then a stray fragment of which only the header is skipped.
- `bounded`: while taking a chunk the transmitter looks at the chunk's full size and not at what is left of it
  (src/instrument/dtxmessagetransmitter.cpp:83-84). A chunk that crosses a fragment boundary and ends inside a later
  fragment before the end of the message is read past its end; `TransmitMessage` states exactly when. Where the code
  would do that, the model stops.
- The fragmented path returns false although everything was sent (src/instrument/dtxmessagetransmitter.cpp:93); the
  send thread then disconnects.
- `registersFirst`: a reply handler is registered after its message is queued
  (src/instrument/dtxconnection.cpp:132-138). `ReplyIsHandledIff` says when the handler is found,
  `ReplyDroppedAsWritten` is a run in which it is not.
- `keepsIdentifier`: a reply is given the identifier of the message it answers (src/instrument/dtxmessage.cpp:45), but
  sending replaces it by a fresh one (src/instrument/dtxconnection.cpp:126). `ReplyCarriesIdentifierIff` and
  `ReplyFindsItsHandlerIff` say that as written a reply reaches the handler that waits for it exactly when the counter
  happens to stand at the answered identifier, and repaired always; `InterleavedReplyIff` says it among other threads'
  steps, `AnsweredUnderAnotherIdentifier` is an input.
- Empty strings and buffers are counted with a length field (src/instrument/dtxprimitivearray.cpp:137-140) but written
  without one (170-172). `ArrayRoundTripIff` and `MessageRoundTripIff` say that this is all that breaks the round trip,
  besides the empty array, whose size field wraps around. Such a message announces more than it brings: as a single
  frame it is held, and then swallows the beginning of the next one (`ShortSingle`); as a group its last fragment never
  fills (`ShortMessageHasNoLastFragment`, `ShortGroup`). `LettersArriveIff` says that a list of messages arrives exactly
  when it holds no such message, `IntactPrefixArrives` that those before the first such message do arrive.
- The frame size is a 32-bit sum (src/instrument/dtxmessageparser.cpp:82). Lengths above 2^32-33 wrap, and the parser
  would then read bytes it has not checked to be there; the model reports `Wrapped` and stops.
- The fragment count is a single-precision division (src/instrument/dtxmessagetransmitter.cpp:97-103).
  `ExactnessEndsAt` says that it is the integer ceiling for all fragment sizes up to length 2^24 and no further;
  `DefaultSizeIsExactUpTo` and `DefaultSizeMiscounts` that with the default size it first fails after 257 full
  fragments, `DefaultCountErrsIff` for which lengths it fails then.

## Model

| member | source | states |
|---|---|---|
| MessageHeader.DecodeOfEncode | include/idevice/instrument/dtxmessage.h:14-26 | a header written in front of anything is read back field by field |
| MessageHeader.EncodeOfDecode | include/idevice/instrument/dtxmessage.h:14-26 | reading 32 bytes as a header loses nothing: every 32 bytes are the encoding of what is read |
| WireLayout.HeaderLayout | include/idevice/instrument/dtxmessage.h:14-24 | every field of the header stands at its offset, least significant byte first |
| WireLayout.HeaderIsRead | include/idevice/instrument/dtxmessage.h:14-24 | and is read from there |
| WireLayout.WrittenHeader | src/instrument/dtxmessagetransmitter.cpp:49-58 | a header sent starts with the bytes 79 5B 3D 1F 20 00 00 00, and the numbers and the message's routing follow at their offsets, cut to their widths |
| WireLayout.FramesSent | src/instrument/dtxmessagetransmitter.cpp:43-95 | each frame of a message, by number: what its header says and which bytes it carries |
| FrameParsing.DecisionIsStable | src/instrument/dtxmessageparser.cpp:50-92 | once the parser takes a frame or fails, bytes that arrive later do not change that |
| FrameParsing.ParseInTwoParts | src/instrument/dtxmessageparser.cpp:47-108 | parsing a prefix, and then its leftover with the rest, is parsing the whole; the leftover needs more bytes |
| FrameParsing.WrapsExactlyForHugeLengths | src/instrument/dtxmessageparser.cpp:82-83 | the 32-bit frame size wraps exactly for lengths above 2^32-33, and the frame is then not complete in any buffer below 4 GiB |
| IncomingFrames.BadStartIsRefused | src/instrument/dtxmessageparser.cpp:71-80 | bytes that do not start with the magic are refused, and then those without the header size; nothing of them is used |
| IncomingFrames.MessagesThenRefusal | src/instrument/dtxmessageparser.cpp:49-80 | after any messages sent, followed by such bytes and cut anyhow, exactly the messages are queued and the status is the refusal |
| IncomingFrames.RefusingCallKeepsEverything | src/instrument/dtxmessageparser.cpp:71-80 | a refusing call returns before it shifts the buffer or drops a message |
| IncomingFrames.IncompleteFrameWaits | src/instrument/dtxmessageparser.cpp:50-88 | less than a header, or than a header and the payload it announces, is left alone |
| IncomingFrames.CompleteFrameIsTaken | src/instrument/dtxmessageparser.cpp:90-157 | a complete frame, by its bytes: single, first fragment, fragment of an unknown message, last fragment or another one, each with the bytes used, the message delivered and its fields, and the fragments then open |
| ChunkedParsing.FeedAllIsParse | src/instrument/dtxmessageparser.cpp:8-110 | with the emptied buffer, any sequence of calls computes the pure parse of the concatenated bytes, from any settled state |
| ChunkedParsing.ChunkingIndependence | src/instrument/dtxmessageparser.cpp:8-110 | two ways of cutting a stream give the same messages, open fragments, leftover and status |
| ChunkedParsing.FeedAsWrittenAgreesIff | src/instrument/dtxmessageparser.cpp:95-108 | one call of the code differs from the repair exactly when it consumes everything, the end of a frame |
| ChunkedParsing.ParserAsWrittenAgreesIff | src/instrument/dtxmessageparser.cpp:95-108 | a whole sequence of calls agrees at every call exactly when no call ends on a frame |
| ChunkedParsing.NextIsFrame | src/instrument/dtxmessageparser.cpp:65-92 | a complete frame at the front is taken with the effect of its header and payload |
| ChunkedParsing.ParseFrameFirst | src/instrument/dtxmessageparser.cpp:65-92 | what a complete frame in front of any bytes does to the parse of the stream |
| ChunkedParsing.MessageDeliveredTwice | src/instrument/dtxmessageparser.cpp:95-108 | whatever chunk comes next, the code delivers that message a second time |
| BufferMemory.BufferMemory.Allocate | include/idevice/utils/bytebuffer.h:33-44 | the used part grows by the request and all earlier bytes stay; the block is replaced exactly when there is no room, by one of the needed size rounded up to 128 |
| BufferMemory.BufferMemory.Reserve | include/idevice/utils/bytebuffer.h:69-81 | capacity is rounded up to 128 and the old memory is preserved whole |
| BufferMemory.BufferMemory.ShiftDown | src/instrument/dtxmessageparser.cpp:101-105 | the overlapping left shift leaves exactly the unconsumed suffix |
| MessageParser.DTXMessageParser.ParseIncomingBytes | src/instrument/dtxmessageparser.cpp:8-110 | buffer, open fragments, queue and result are those of the pure parser step; used size stays within capacity |
| MessageParser.DTXMessageParser.ParseBufferedFrames | src/instrument/dtxmessageparser.cpp:47-93 | the loop computes the pure parse of the buffer and consumes no more than the buffer holds |
| MessageParser.DTXMessageParser.ParseNextFrame | src/instrument/dtxmessageparser.cpp:49-93 | one round of the loop takes, waits or fails as the pure frame step does |
| MessageParser.DTXMessageParser.AppendIncoming | src/instrument/dtxmessageparser.cpp:9-20 | the new bytes stand behind the old ones |
| MessageParser.DTXMessageParser.ParseMessage | src/instrument/dtxmessageparser.cpp:112-157 | fragment map, queue and consumed length change as the pure frame effect says |
| MessageParser.DTXMessageParser.PopAllParsedMessages | src/instrument/dtxmessageparser.cpp:159-167 | returns all parsed messages in order and leaves none |
| FragmentCount.RoundsToNearest | src/instrument/dtxmessagetransmitter.cpp:100 | rounding goes to the nearest integer and to the even one on a tie (section 4.3.1 of IEEE 754-2019) |
| FragmentCount.ConversionIsNearest | src/instrument/dtxmessagetransmitter.cpp:100 | a length is converted to the nearest single-precision value: 24 bits, at most half a unit off, even on a tie |
| FragmentCount.QuotientIsNearest | src/instrument/dtxmessagetransmitter.cpp:100 | the quotient of any two numbers is the nearest single-precision value in the same sense (section 4.3.1 of IEEE 754-2019) |
| FragmentCount.CountIsLeast | src/instrument/dtxmessagetransmitter.cpp:97-103 | for every length and size the count is the least integer not below that quotient |
| FragmentCount.IntToFloatIsMonotone | src/instrument/dtxmessagetransmitter.cpp:100 | converting lengths to single precision keeps their order |
| FragmentCount.FittingMessageIsOneFragment | src/instrument/dtxmessagetransmitter.cpp:97-103 | a message of any size that fits one fragment is counted as one |
| FragmentCount.QuotientAtMost | src/instrument/dtxmessagetransmitter.cpp:100 | the rounded quotient does not rise above an integer that bounds the exact one |
| FragmentCount.QuotientAbove | src/instrument/dtxmessagetransmitter.cpp:100 | the rounded quotient does not fall to an integer below the exact one while the gap is representable |
| FragmentCount.CountIsCeiling | src/instrument/dtxmessagetransmitter.cpp:97-103 | for lengths and divisors up to 2^24 the count is the integer ceiling |
| FragmentCount.ExactnessEndsAt | src/instrument/dtxmessagetransmitter.cpp:97-103 | all lengths up to a bound are counted exactly, for all fragment sizes, if and only if the bound is at most 2^24 |
| FragmentCount.DefaultSizeMiscounts | include/idevice/instrument/dtxmessagetransmitter.h:60 | with the default size, length 65504*257+1 is counted one short |
| FragmentCount.DefaultCountIsOfConverted | src/instrument/dtxmessagetransmitter.cpp:100 | with the default size and below 2^29 the count is the exact ceiling for the converted length: only the conversion can err, not the division |
| FragmentCount.DefaultCountErrsIff | src/instrument/dtxmessagetransmitter.cpp:97-103 | with the default size and below 2^29 the count errs exactly for lengths that lie less than half a single-precision spacing, or half of one on the even side, above a multiple of the payload |
| FragmentCount.DefaultSizeIsExactUpTo | src/instrument/dtxmessagetransmitter.cpp:97-103 | with the default size no length up to 65504*257 is miscounted |
| Fragmenting.PiecesJoinToTheMessage | src/instrument/dtxmessagetransmitter.cpp:79-92 | the fragment payloads join to the message |
| Fragmenting.PiecesAreFull | src/instrument/dtxmessagetransmitter.cpp:73-92 | every fragment but the last has exactly the fragment size, none is empty, and there are as many as the ceiling says |
| Fragmenting.DTXMessageTransmitter.TransmitMessage | src/instrument/dtxmessagetransmitter.cpp:43-95 | what is written is the message's frames however the serializer chunks it, cut to whole fragments if less is pushed than announced; the code over-reads exactly when a chunk neither ends the message nor a fragment nor stays inside one; the result is true exactly for single frames |
| Fragmenting.DTXMessageTransmitter.TransmitFragments | src/instrument/dtxmessagetransmitter.cpp:68-93 | the same for the path of multiple fragments |
| Fragmenting.DTXMessageTransmitter.TransmitChunk | src/instrument/dtxmessagetransmitter.cpp:79-92 | one serializer call keeps what is written and buffered a split of the right wire bytes, or over-reads as said |
| Fragmenting.TransmitStaysOnTrack | src/instrument/dtxmessagetransmitter.cpp:23-41 | flushing a full buffer keeps the split of the wire bytes |
| Fragmenting.ShortMessageHasNoLastFragment | src/instrument/dtxmessagetransmitter.cpp:79-92 | when less is pushed than announced, none of the fragments sent, the header counted, is the one that completes the message |
| ShortMessages.ShortSingle | src/instrument/dtxmessageparser.cpp:82-92 | a single frame that announces more than it brings is held until the bytes behind it fill the gap, is then delivered with them as its end, and the parser goes on inside what follows |
| ShortMessages.UnfinishedPieces | src/instrument/dtxmessageparser.cpp:133-150 | fragments without the last one extend the open buffer and deliver nothing |
| ShortMessages.ShortGroup | src/instrument/dtxmessageparser.cpp:82-150 | a group without its last fragment delivers nothing and leaves its pieces open, or is held at its header |
| Fragmenting.EarlyChunksThatFitAreSafe | src/instrument/dtxmessagetransmitter.cpp:82-90 | no over-read if all chunks before the last fit into the first fragment |
| Fragmenting.CodeReadsTooFar | src/instrument/dtxmessagetransmitter.cpp:82-90 | three chunks of 60 at fragment payload 100 are over-read |
| Reassembly.EachDeliveredOnce | src/instrument/dtxmessageparser.cpp:139-148 | in every interleaving each unfinished message is delivered exactly once |
| Reassembly.RestIsOnTheWire | src/instrument/dtxmessageparser.cpp:82-92 | at every point of an interleaving the unsent rest of each open message is still to come on the wire |
| Reassembly.FrameTakesEffect | src/instrument/dtxmessageparser.cpp:118-155 | a frame in its turn extends its own message's buffer only, and the last one delivers the message |
| Reassembly.ParsePlay | src/instrument/dtxmessageparser.cpp:47-157 | from any point of any interleaving the parser reads all remaining frames, in front of any tail, and returns to the fragment buffers it had besides |
| Reassembly.InterleavedReassembly | src/instrument/dtxmessageparser.cpp:82-157 | any interleaving is consumed to the last byte; each message arrives once, whole, in the order of last frames, and no buffer stays open |
| RoundTrip.ParseOfWire | src/instrument/dtxmessagetransmitter.cpp:43-95 | parsing what is sent for any messages yields them in order, with routing and bytes, and nothing left |
| RoundTrip.SentMessagesArrive | src/instrument/dtxmessageparser.cpp:8-157 | the same however the wire bytes are cut into calls |
| RoundTrip.CodeCountTruncates | src/instrument/dtxmessagetransmitter.cpp:47-53 | with the code's count a fragmented message arrives without its last piece, whose bytes are then taken for frames |
| CountConvention.SmallCountTruncates | src/instrument/dtxmessageparser.cpp:133-150 | a group whose count is too small is delivered short |
| CountConvention.LargeCountWaits | src/instrument/dtxmessageparser.cpp:133-150 | a group whose count is too large is not delivered |
| CountConvention.ZeroCountWaits | src/instrument/dtxmessageparser.cpp:133-150 | a group of up to 65536 pieces whose 16-bit count has wrapped around to zero does not arrive, though the index of its last piece wraps around too |
| CountConvention.DeliveredIsBounded | src/instrument/dtxmessageparser.cpp:82-157 | no message delivered is longer than what was open and what came, less a header |
| CountConvention.GroupArrivesIff | src/instrument/dtxmessageparser.cpp:118-156 | a fragmented message arrives whole, leaving nothing behind, exactly when its count is the number of its pieces and one more |
| CountConvention.MessageArrivesIff | src/instrument/dtxmessagetransmitter.cpp:43-103 | for every length below 4 GiB and every fragment size, either convention, with the rounding of the count and its 16-bit field: a message arrives exactly when it is single or the field is the true number of pieces and one more; except where the field wraps around to 1, or to 0 with more than 65536 pieces |
| CountConvention.RoundTripAsWrittenIff | src/instrument/dtxmessagetransmitter.cpp:43-95 | with the code's count a message arrives exactly when it is a single fragment |
| PrimitiveArray.CopyStringTwice | include/idevice/instrument/dtxprimitivearray.h:87-91 | copying a string up to its NUL with zero padding is idempotent |
| ValueLayout.CopyIsUpToNul | include/idevice/instrument/dtxprimitivearray.h:87-91 | the copy a string value keeps is its bytes up to the first NUL and zeros from there on |
| ValueLayout.ItemLayout | src/instrument/dtxprimitivearray.cpp:158-207 | an item on the wire, in literal bytes: empty key in a dictionary, type code, length for strings and buffers with bytes, value; nothing for a null |
| ValueLayout.ValueIsRead | src/instrument/dtxprimitivearray.cpp:58-119 | the value read for each literal type code, with its size, and what is refused |
| ValueLayout.CapacityIs | src/instrument/dtxprimitivearray.cpp:151-152 | the capacity has bits 0 to 3 and bit 9 clear and is otherwise the larger of size and 0x1F0 plus 0x20F; it is 0x1F0 for small arrays and never below the size unless it wraps around |
| ValueLayout.CapacityIsUnique | src/instrument/dtxprimitivearray.cpp:151-152 | there is only one such capacity |
| ValueLayout.ArrayLayout | src/instrument/dtxprimitivearray.cpp:148-210 | an encoded array: at 0 the capacity, at 8 the announced size, at 16 the items |
| ValueLayout.SmallArrayCapacity | src/instrument/dtxprimitivearray.cpp:10-15 | every array of up to 0x1F0 bytes is written with capacity 0x1F0 |
| ValueLayout.ArrayIsRead | src/instrument/dtxprimitivearray.cpp:20-57 | an array is read if its size field covers exactly the bytes behind its header |
| ValueLayout.PlainArrayRoundTrip | src/instrument/dtxprimitivearray.cpp:18-210 | an array of values other than nulls, keys and empty bytes is read back as it is |
| ValueLayout.NullsAndKeysAreLeftOut | src/instrument/dtxprimitivearray.cpp:113-162 | nulls and keys are left out wherever they stand |
| PrimitiveArray.DTXPrimitiveArray.SerializedLength | src/instrument/dtxprimitivearray.cpp:125-146 | the length announced for the items |
| PrimitiveArray.DTXPrimitiveArray.SerializeTo | src/instrument/dtxprimitivearray.cpp:148-210 | the serializer calls, one by one |
| PrimitiveArray.DTXPrimitiveArray.Deserialize | src/instrument/dtxprimitivearray.cpp:18-123 | the offset loop computes the decoding of the bytes, with its null results and its undefined reads |
| ArrayCodec.NextOfSpelled | src/instrument/dtxprimitivearray.cpp:58-119 | reading the spelling of a value, in front of anything, gives the value and its size |
| ArrayCodec.SpelledAsRead | src/instrument/dtxprimitivearray.cpp:58-119 | the bytes a value was read from are its spelling, unless it is an empty string or buffer |
| ArrayCodec.ParseOfEncode | src/instrument/dtxprimitivearray.cpp:58-122 | reading written values gives these values back |
| ArrayCodec.EncodeOfParse | src/instrument/dtxprimitivearray.cpp:58-122 | writing values as they were read restores the bytes, unless one is an empty string or buffer |
| ArrayCodec.BodyIsTokens | src/instrument/dtxprimitivearray.cpp:156-208 | the serializer's output is the spelling of the non-null items, each behind a key in dictionary mode |
| ArrayCodec.LengthAccounting | src/instrument/dtxprimitivearray.cpp:125-210 | bytes written plus 4 for every empty string or buffer make the announced length |
| ArrayCodec.ArrayRoundTripIff | src/instrument/dtxprimitivearray.cpp:18-210 | decoding an encoded array gives the items without nulls and keys exactly when the array is not empty and has no empty string or buffer; otherwise a null pointer |
| ArrayCodec.ReencodingIsIdentityIff | src/instrument/dtxprimitivearray.cpp:158-208 | encoding what was decoded gives the same bytes exactly when each value stands behind one key and is what its constructor keeps |
| ArrayCodec.ReencodingKeepsItems | src/instrument/dtxprimitivearray.cpp:18-210 | decode, encode, decode gives the items of the first decoding |
| DtxMessage.DTXMessage.AppendAuxiliaryObject | src/instrument/dtxmessage.cpp:193-198 | the object's archive is added at the end, behind a placeholder |
| DtxMessage.DTXMessage.MaybeSerializeAuxiliaryObjects | src/instrument/dtxmessage.cpp:160-178 | archives fill their own append positions whatever order the map is walked in; what the message says does not change |
| DtxMessage.DTXMessage.SerializedLength | src/instrument/dtxmessage.cpp:105-117 | the announced length; calling it does not change what is serialized |
| DtxMessage.DTXMessage.SerializeTo | src/instrument/dtxmessage.cpp:119-149 | the serializer calls for what the message says |
| DtxMessage.DTXMessage.Deserialize | src/instrument/dtxmessage.cpp:51-103 | the new message says what the decoding function reads |
| ValueLayout.MessageLayout | src/instrument/dtxmessage.cpp:119-149 | a serialized message: at 0 the type, at 4 the announced length of the arguments, at 8 that and the payload's length, at 16 the arguments and then the payload |
| ValueLayout.MessageIsRead | src/instrument/dtxmessage.cpp:71-103 | a message is read by the same offsets |
| MessageCodec.MessageLengthAccounting | src/instrument/dtxmessage.cpp:105-149 | announced length and bytes written differ by 4 per empty argument, so they agree exactly without any |
| MessageCodec.ChunksAreNonEmpty | src/instrument/dtxmessage.cpp:119-149 | a message never pushes an empty chunk, so the transmitter's loop takes something from every call |
| MessageCodec.MessageRoundTripIff | src/instrument/dtxmessage.cpp:51-149 | type, arguments without nulls and keys, and payload are restored exactly when there is no empty argument |
| EmptyArguments.EmptyIsMisread | src/instrument/dtxprimitivearray.cpp:58-172 | a token list with empty strings or buffers is misread from its own encoding whatever follows, unless the only one ends it and four zeros follow |
| EmptyArguments.LengthenedMessageIsMisread | src/instrument/dtxmessage.cpp:51-149 | a message with empty arguments, lengthened to what it announces by bytes that start like a frame, is not read back |
| BufferedTransport.BufferedDTXTransport.Send | include/idevice/instrument/dtxtransport.h:192-214 | bytes passed down followed by bytes buffered are all bytes sent, in order, and the buffer stays below a non-zero capacity; small data cause no write until the buffer is full and then one of exactly its capacity, large data one of what was buffered and one of their own; a failed call passes down a prefix |
| BufferedTransport.BufferedDTXTransport.Flush | include/idevice/instrument/dtxtransport.h:221-229 | what was buffered is passed down in one write, if there is anything, or, if refused, lost; nothing is retained |
| BufferedTransport.StageStep | include/idevice/instrument/dtxtransport.h:202-212 | one round of the copying loop |
| SendPath.SendBuffered | src/instrument/dtxconnection.cpp:179-184 | any writes followed by the flush reach the transport whole and in order |
| SendPath.SendMessage | src/instrument/dtxconnection.cpp:164-193 | the transport receives the frames of the message's bytes under the length it announces, the real one if no argument is empty; the thread goes on exactly after single-frame messages |
| Letters.IntactLetter | src/instrument/dtxconnection.cpp:164-193 | a message without empty arguments is delivered and read back whatever follows it |
| Letters.OffenderIsLost | src/instrument/dtxconnection.cpp:164-193 | a message with an empty argument is never what is delivered in its place, whatever messages under other identifiers follow |
| Letters.IntactPrefixArrives | src/instrument/dtxconnection.cpp:164-289 | on the wire under announced lengths, the messages before the first with an empty argument are delivered and read back in order, however it is cut |
| Letters.IntactLettersArrive | src/instrument/dtxconnection.cpp:164-289 | a list of messages without empty arguments is delivered and read back in order with routing, type, arguments and payload, and nothing is left |
| Letters.LettersArriveIff | src/instrument/dtxconnection.cpp:164-289 | for messages under the distinct identifiers of a connection, the whole list arrives so exactly when no message has an empty argument |
| EndToEnd.RoutedAreTheLetters | src/instrument/dtxconnection.cpp:164-289 | in every run of the receiving threads, at every moment, the messages routed of any beginning of the wire are the messages sent, in order and read back, as far as those are free of empty arguments |
| EndToEnd.AllLettersAreRouted | src/instrument/dtxconnection.cpp:164-289 | if all are, nothing else is routed, and in the end all of them |
| ReceivePipeline.StepKeepsInvariant | src/instrument/dtxconnection.cpp:207-289 | every step of every thread keeps: received bytes are those parsed, taken, queued and in hand, in order, and what is routed or pending is the parse of those fed |
| ReceivePipeline.RunKeepsInvariant | src/instrument/dtxconnection.cpp:207-289 | so does every run |
| ReceivePipeline.RoutedIsPrefixOfParse | src/instrument/dtxconnection.cpp:207-289 | in every interleaving, disconnects and failures included, the routed messages are a prefix of the parse of the bytes received, and all of it when nothing is under way |
| ReceivePipeline.RoutedTwiceAsWritten | src/instrument/dtxconnection.cpp:257-285 | with the buffer not emptied there is a run that routes a message twice |
| ReceivePipeline.NothingRoutedAfterFailure | src/instrument/dtxconnection.cpp:270-276 | after a parse step that fails nothing is ever routed, not even messages of the same packet |
| PipelineAsWritten.RunAgreesIff | src/instrument/dtxconnection.cpp:257-285 | a run of the code's threads is step by step a run with the emptied buffer exactly when no packet parsed ends on a frame |
| PipelineAsWritten.RoutedIsPrefixAsWritten | src/instrument/dtxconnection.cpp:207-289 | in such a run the code routes a prefix of the parse of the bytes received |
| PipelineAsWritten.NextCallIsRightIff | src/instrument/dtxmessageparser.cpp:95-108 | after a call that ends on a frame, the code does the right thing with whatever comes next exactly when parsing the retained bytes again, with the fragments then open, changes nothing |
| PipelineAsWritten.NextCallAfterCompleteFrames | src/instrument/dtxmessageparser.cpp:95-108 | if the open fragments are as before that call, exactly when it delivered nothing |
| PipelineAsWritten.CompleteFramesPendingAgain | src/instrument/dtxmessageparser.cpp:95-108 | from any state so reached, after a packet that completes frames and leaves the open fragments as they were, the next parse makes all its messages pending again; the routed messages stay a prefix of the parse exactly when the packet delivered none |
| PipelineAsWritten.SinglesPendingAgain | src/instrument/dtxmessageparser.cpp:95-108 | so it is with single-fragment messages |
| PipelineAsWritten.GroupsPendingAgain | src/instrument/dtxmessageparser.cpp:95-157 | and with complete fragment groups, however interleaved |
| PipelineAsWritten.PiecesCollectedTwice | src/instrument/dtxmessageparser.cpp:95-157 | a packet that leaves a group unfinished has the group's pieces collected twice |
| ReplyRouting.KeyIsInjective | include/idevice/common/macro_def.h:92 | two channel and identifier pairs share a packed key only if they are equal |
| ReplyRouting.KeyHalves | include/idevice/common/macro_def.h:92 | the channel is the upper half of the key and the identifier the lower |
| ReplyRouting.IdentifiersStep | src/instrument/dtxconnection.cpp:123-126 | every step keeps issued identifiers increasing, below the counter, and one per thread |
| ReplyRouting.HandlersStep | src/instrument/dtxconnection.cpp:132-138 | every step keeps handlers under their own key, one per identifier, none for a thread still to register |
| ReplyRouting.FiredStep | src/instrument/dtxconnection.cpp:296-307 | every step keeps fired handlers once each, for their own message, and out of the map |
| ReplyRouting.CallsStep | src/instrument/dtxconnection.cpp:123-139 | every step keeps each handler the one of the call that was given its identifier |
| ReplyRouting.RequestsStep | src/instrument/dtxconnection.cpp:123-139 | every step keeps each queued or transmitted request answered, with a handler, or with a thread about to register one |
| ReplyRouting.BatchesStep | include/idevice/common/macro_def.h:55-57 | every step keeps identifiers of finished batches below the counter and the value last seen not above it, spurious failures included |
| ReplyRouting.InvariantStep | src/instrument/dtxconnection.cpp:123-324 | all of these together |
| ReplyRouting.RunKeepsInvariant | src/instrument/dtxconnection.cpp:123-324 | all of these in every run |
| ConnectionRuns.HandlersFireAtMostOnce | src/instrument/dtxconnection.cpp:291-307 | in every run a handler fires at most once, only for a message with its channel and identifier, and it is the one passed with that identifier |
| ConnectionRuns.LaterIdentifiersExceed | src/instrument/dtxconnection.cpp:276-285 | the counter never falls; after a batch is finished every identifier issued exceeds every one received in it and every one issued before |
| ConnectionRuns.IssuedIdentifiersDiffer | src/instrument/dtxconnection.cpp:126 | in every run the identifiers issued are strictly increasing from 1 |
| ConnectionRuns.ReplyIsHandledIff | src/instrument/dtxconnection.cpp:123-139 | the reply to a transmitted, unanswered request finds its handler exactly when no thread is still about to register it, and then the right one |
| ConnectionRuns.RegisteringFirstLosesNoReply | src/instrument/dtxconnection.cpp:132-138 | in the repaired order the handler is always found |
| ConnectionRuns.ReplyDroppedAsWritten | src/instrument/dtxconnection.cpp:132-138 | in the order of the code there is a run that drops the reply and keeps the handler for ever |
| ConnectionRuns.RaisingTakesTheMaximum | include/idevice/common/macro_def.h:55-57 | when the compare-and-swap loop ends the counter is the maximum of its value there and the target; until then the loop does not touch it |
| ConnectionRuns.RaisingEnds | include/idevice/common/macro_def.h:55-57 | alone and without spurious failure the loop ends within two attempts |
| ChannelRouting.GoesToChannelIff | src/instrument/dtxconnection.cpp:308-318 | a message that no reply handler waits for goes to a channel exactly when its code as a signed number is, or is the negated, code of an open channel with a message handler |
| ChannelRouting.GoesToHandlerIff | src/instrument/dtxconnection.cpp:291-323 | it goes to a reply handler exactly when one is registered for it, and is dropped when there is neither |
| ChannelRouting.ChannelsOfRun | src/instrument/dtxconnection.cpp:37-71 | in every run the open channels, and those that listen, are what the latest opening, equipping or closing step of each has made them |
| ChannelRouting.DeliveredOfRun | src/instrument/dtxconnection.cpp:291-324 | in every run the messages given to channels, and those dropped, are in order exactly the messages routed in such states |
| ConnectionObject.SendIsARun | src/instrument/dtxconnection.cpp:123-140 | in either order a call of SendMessageAsync on its own is a run of the machine with the same outcome |
| ConnectionObject.DTXConnection.SendMessageAsync | src/instrument/dtxconnection.cpp:123-140 | the message is queued under the old counter value, expecting a reply exactly with a handler, and its handler stands under its key; the counter moves by one; the call is a run of the machine |
| ConnectionObject.DTXConnection.MakeChannel | src/instrument/dtxconnection.cpp:37-49 | the new channel's code was not in use, and the request for it expects a reply; the call is a run of the machine |
| ConnectionObject.DTXConnection.RouteMessage | src/instrument/dtxconnection.cpp:291-324 | the message goes where routing sends it (`ChannelRouting.GoesToChannelIff`, `GoesToHandlerIff`), and a handler it goes to leaves the map |
| ConnectionObject.DTXConnection.RouteAndReply | src/instrument/dtxconnection.cpp:278-284 | the steps taken are the routing of this message and, if it wants one, its reply: it goes where routing sends it, and the reply goes out on its channel, the next of its conversation, under a fresh identifier or the repaired one |
| ConnectionObject.DTXConnection.ReplyMessage | src/instrument/dtxconnection.cpp:326-329 | the reply is queued without a handler and routes nothing; repaired, no identifier is used up |
| ConnectionObject.DTXConnection.RaiseCounter | include/idevice/common/macro_def.h:55-57 | however often the swap fails spuriously, the loop ends, after exactly these steps, with the counter at the maximum of itself and the target |
| ConnectionObject.DTXConnection.ParsePacket | src/instrument/dtxconnection.cpp:276-285 | the steps taken are, in order, the routing and replies of all messages of the packet and the raising of the counter: handlers, deliveries and drops are those of routing the messages one by one, the replies are queued in order, and the counter is above every identifier of the packet |
| ConnectionObject.HighestIsAttained | src/instrument/dtxconnection.cpp:277-284 | the maximum the counter is raised above is an identifier of the packet |
| ConnectionObject.ExpectingConcat | src/instrument/dtxconnection.cpp:280-282 | the messages answered are those that expect a reply, in order |
| ReplyIdentifiers.RepliesAnswerInOrder | src/instrument/dtxmessage.cpp:41-48 | the k-th reply to a packet answers the k-th message that wants one, on its channel and as the next of its conversation |
| ReplyIdentifiers.ReplyCarriesIdentifierIff | src/instrument/dtxconnection.cpp:123-126 | for every packet answered without other threads in between, a reply carries the answered identifier exactly when the counter stands at it; repaired, always, and the counter does not move |
| ReplyIdentifiers.ReplyFindsItsHandlerIff | src/instrument/dtxconnection.cpp:291-307 | the handler that waits for the reply at the other end is found exactly then |
| ReplyIdentifiers.InterleavedReplyIff | src/instrument/dtxconnection.cpp:123-130 | whatever other threads do meanwhile, a reply goes out under the value the counter had when its identifier was taken, and finds its handler exactly when that is the answered identifier |
| ReplyIdentifiers.AnsweredUnderAnotherIdentifier | src/instrument/dtxconnection.cpp:123-126 | a packet whose reply misses its handler as written |

## Left out

- Fragmenting.DTXMessageTransmitter.TransmitMessage: no more is pushed than announced and no pushed chunk is empty, which `MessageCodec.MessageLengthAccounting` and `MessageCodec.ChunksAreNonEmpty` prove of every message. It also assumes that the transmitter callback accepts every write; the code ignores most refusals.
- Fragmenting.DTXMessageTransmitter.TransmitChunk: what an over-read would append is undefined, so the model reports it and stops.
- SendPath.SendMessage: what reaches the transport is stated for transports that accept every write; the result of the final flush is ignored, as in the code.
- Letters.LettersArriveIff: announced lengths between 1 byte and 4 GiB whose fragment count is right (always so up to 2^24 bytes) and below 65535; that a message with an empty argument is lost needs identifiers that differ, as `ConnectionRuns.IssuedIdentifiersDiffer` proves them.
- RoundTrip.ParseOfWire: the same limits; without them it is false, and `CountConvention.MessageArrivesIff` is the exact condition.
- CountConvention.MessageArrivesIff: says nothing where the count field wraps around to exactly 1, or to 0 with more than 65536 pieces; the parser then takes payload bytes for frames, and what comes of it depends on them.
- FragmentCount.CountIsCeiling: single-precision overflow and subnormal results cannot occur for lengths below 2^64 and divisors below 2^32 and are not modelled.
- FrameParsing.WrapsExactlyForHugeLengths: where the 32-bit frame size wraps, the code reads bytes that may not be there; the model stops.
- PrimitiveArray.DTXPrimitiveArray.Deserialize: lengths that reach past the end and unknown types are reported as errors; the code does not check the former, and copies a string only up to a NUL if there is one before the end, and asserts against the latter.
- DtxMessage.DTXMessage.Deserialize: likewise; and the payload is kept as bytes, without the object unarchived from it.
- ConnectionObject.DTXConnection.SendMessageAsync: the 32-bit wrap-around of the identifier counter is excluded, here, in `ParsePacket`, in `MakeChannel` and in the machine; identifiers are fresh only before it.
- ReplyRouting.InvariantStep: handler and channel maps are read and changed in atomic steps; the code does not lock them. Callbacks do not change the maps while they run. The absolute value of the most negative channel code, which C++ leaves undefined, is taken as its unsigned bit pattern.
- ReceivePipeline.RunKeepsInvariant: pushing to and taking from the blocking queue are atomic steps; its lock and its waiting, and the timeouts of the threads, are not modelled.
- ConnectionObject.DTXConnection.RouteAndReply: a reply's message type, always the interruption type, and its empty content are not part of a request.
- ConnectionObject.DTXConnection.MakeChannel: ends where the code waits for the response. Closing a channel is a step of the machine only.
- BufferedTransport.BufferedDTXTransport.Send: a write passed to the transport below is taken whole or refused; partial writes and the 32-bit actual size are not modelled. The pointer arithmetic of the caller's buffer is an index.
- The object archiver: a parameter, any function from objects to bytes. Property lists and unarchiving are not part of this model.
- The identifier and channel fields of the message class: plain setters; the routing values are parameters of sending.
- Moves, copies and ownership of values and buffers, failing allocation, float items as numbers (they are bit patterns).
- Starting, stopping and joining threads, synchronous sending, transports to devices, services, dumping, compressed messages, and the command-line tools.
