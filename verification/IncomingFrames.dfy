/** What the parser makes of a frame, read off its bytes: what it refuses, what it waits for and what it takes. */
module IncomingFrames {
  import opened Bytes
  import opened MessageHeader
  import opened FrameParsing
  import opened ChunkedParsing
  import opened RoundTrip
  import opened WireLayout

  const FRAME_MAGIC: seq<byte> := [0x79, 0x5B, 0x3D, 0x1F]
  const FRAME_HEADER_SIZE: seq<byte> := [0x20, 0x00, 0x00, 0x00]

  /** A complete header's worth of bytes that is refused, and the reason: the magic is looked at first. */
  ghost predicate Refused(bytes: seq<byte>, reason: Status) {
    && |bytes| >= 32
    && match reason
       case BadMagic => bytes[..4] != FRAME_MAGIC
       case BadHeaderSize => bytes[..4] == FRAME_MAGIC && bytes[4..8] != FRAME_HEADER_SIZE
       case _ => false
  }

  ghost predicate StartsLikeAFrame(bytes: seq<byte>) {
    |bytes| >= 32 && bytes[..4] == FRAME_MAGIC && bytes[4..8] == FRAME_HEADER_SIZE
  }

  lemma SameNumber(a: seq<byte>, b: seq<byte>)
    requires |a| == |b| == 4 && Number4(a, 0) == Number4(b, 0)
    ensures a == b
  {
    hide LittleEndian, FromLittleEndian, Number4;
    ReadDigits4(a);
    ReadDigits4(b);
    Bytes.EncodeOfDecode(a);
    Bytes.EncodeOfDecode(b);
  }

  lemma NumberDecides(bytes: seq<byte>, at: nat, literal: seq<byte>)
    requires at + 4 <= |bytes| && |literal| == 4
    ensures Number4(bytes, at) == Number4(literal, 0) <==> bytes[at..at + 4] == literal
  {
    var part := bytes[at..at + 4];
    assert Number4(part, 0) == Number4(bytes, at);
    if Number4(part, 0) == Number4(literal, 0) {
      SameNumber(part, literal);
    }
  }

  /** The numbers that the parser compares are these bytes. */
  lemma StartDecides(bytes: seq<byte>)
    requires |bytes| >= 32
    ensures Decode(bytes).magic == MAGIC <==> bytes[..4] == FRAME_MAGIC
    ensures Decode(bytes).headerSize == HEADER_SIZE <==> bytes[4..8] == FRAME_HEADER_SIZE
  {
    hide Decode;
    HeaderIsRead(bytes);
    NumberDecides(bytes, 0, FRAME_MAGIC);
    NumberDecides(bytes, 4, FRAME_HEADER_SIZE);
    assert bytes[0..4] == bytes[..4];
    assert Number4(FRAME_MAGIC, 0) == MAGIC && Number4(FRAME_HEADER_SIZE, 0) == HEADER_SIZE;
  }

  // ---- refused ----

  /** Bytes with another magic or header size are refused, and nothing of them is used. */
  lemma BadStartIsRefused(bytes: seq<byte>, open: OpenFragments, reason: Status)
    requires Refused(bytes, reason)
    ensures ParseFrames(bytes, open) == Outcome([], open, 0, reason)
  {
    hide Decode;
    StartDecides(bytes);
  }

  /** So in a stream: the messages before them are delivered, all else is refused, wherever the calls are cut. */
  lemma MessagesThenRefusal(messages: seq<Outgoing>, suggestedSize: nat, bad: seq<byte>, reason: Status,
                            chunks: seq<seq<byte>>)
    requires forall i | 0 <= i < |messages| :: messages[i].Transmittable(suggestedSize)
    requires Refused(bad, reason) && Flatten(chunks) == WireOf(messages, suggestedSize, true) + bad
    ensures var f := FeedAll(true, FRESH, chunks);
            f.status == reason && f.state.queue == ReceivedAll(messages) && f.state.open == map[]
  {
    hide ParseFrames, FeedAll, WireOf, Flatten, Refused;
    var wire := WireOf(messages, suggestedSize, true);
    ParseOfWire(messages, suggestedSize);
    BadStartIsRefused(bad, map[], reason);
    ParseInTwoParts(wire, bad, map[]);
    EmptyEnds(wire);
    EmptyEnds(bad);
    EmptyEnds(ReceivedAll(messages));
    ChunkingIndependence(chunks, chunks);
  }

  /** A refusing call, of the code or repaired, keeps all bytes and all messages it has. */
  lemma RefusingCallKeepsEverything(clears: bool, st: ParserState, chunk: seq<byte>)
    requires Feed(clears, st, chunk).status != Fine
    ensures Feed(clears, st, chunk).state.buffer == st.buffer + chunk
    ensures st.queue <= Feed(clears, st, chunk).state.queue
  {
  }

  // ---- waited for ----

  lemma DecodedStart(bytes: seq<byte>)
    requires StartsLikeAFrame(bytes)
    ensures Decode(bytes) == Header(MAGIC, HEADER_SIZE, Number2(bytes, 8), Number2(bytes, 10), Number4(bytes, 12),
                                    Number4(bytes, 16), Number4(bytes, 20), Number4(bytes, 24), Number4(bytes, 28))
  {
    hide Decode, Number2, Number4;
    StartDecides(bytes);
    HeaderIsRead(bytes);
  }

  lemma NextWaitsFor(bytes: seq<byte>, open: OpenFragments)
    requires |bytes| >= 32 && Decode(bytes).magic == MAGIC && Decode(bytes).headerSize == HEADER_SIZE
    requires Decode(bytes).length <= 0xFFFF_FFDF && |bytes| < 32 + Decode(bytes).length
    ensures NextFrame(bytes, open) == NeedMore
  {
    hide Decode;
  }

  /** Less than a header, or less than a header and its payload, is left alone. */
  lemma IncompleteFrameWaits(bytes: seq<byte>, open: OpenFragments)
    requires |bytes| < 32
             || (StartsLikeAFrame(bytes) && Number4(bytes, 12) <= 0xFFFF_FFDF && |bytes| < 32 + Number4(bytes, 12))
    ensures ParseFrames(bytes, open) == Outcome([], open, 0, Fine)
  {
    hide Decode, Number2, Number4, StartsLikeAFrame;
    if |bytes| >= 32 {
      DecodedStart(bytes);
      NextWaitsFor(bytes, open);
    }
  }

  // ---- taken ----

  /** A complete frame at the front, by its fragment index and count, identifier, length and payload. */
  ghost predicate CompleteFrame(bytes: seq<byte>) {
    StartsLikeAFrame(bytes) && Number4(bytes, 12) <= 0xFFFF_FFDF && 32 + Number4(bytes, 12) <= |bytes|
  }

  /** The message with this body that a frame's header describes. */
  function Described(bytes: seq<byte>, body: seq<byte>): Message
    requires |bytes| >= 32
  {
    Message(Number4(bytes, 16), Number4(bytes, 20), Number4(bytes, 24), Number4(bytes, 28) != 0, body, 32 + |body|)
  }

  /** What a complete frame leads to: how much of it is used, what it delivers and what is open then. */
  lemma CompleteFrameIsTaken(bytes: seq<byte>, open: OpenFragments)
    requires CompleteFrame(bytes)
    ensures var index, count, length, id :=
              Number2(bytes, 8), Number2(bytes, 10), Number4(bytes, 12), Number4(bytes, 16);
            var payload, whole := bytes[32..32 + length], 32 + length;
            ParseFrames(bytes, open)
            == if count == 1 then
                 ParseFrames(bytes[whole..], open).After(whole, [Described(bytes, payload)])
               else if index == 0 then
                 ParseFrames(bytes[32..], if id in open then open else open[id := []]).After(32, [])
               else if id !in open then
                 ParseFrames(bytes[32..], open).After(32, [])
               else if index + 1 == count then
                 ParseFrames(bytes[whole..], open - {id}).After(whole, [Described(bytes, open[id] + payload)])
               else
                 ParseFrames(bytes[whole..], open[id := open[id] + payload]).After(whole, [])
  {
    hide Decode, NextFrame, Number4, Number2, StartsLikeAFrame, ParseFrames, ParseMessageWithHeader;
    DecodedStart(bytes);
    NextOfComplete(bytes, open);
    EffectOfComplete(Decode(bytes), bytes[32..32 + Number4(bytes, 12)], open);
    ParseAfterTaking(bytes, open);
  }

  /** The effect of a frame, case by case. */
  lemma EffectOfComplete(h: Header, payload: seq<byte>, open: OpenFragments)
    ensures ParseMessageWithHeader(h, payload, open)
            == if h.fragmentCount == 1 then FrameEffect(|payload|, [MessageFrom(h, payload)], open)
               else if h.fragmentIndex == 0 then
                 FrameEffect(0, [], if h.identifier in open then open else open[h.identifier := []])
               else if h.identifier !in open then FrameEffect(0, [], open)
               else if h.fragmentIndex + 1 == h.fragmentCount then
                 FrameEffect(|payload|, [MessageFrom(h, open[h.identifier] + payload)], open - {h.identifier})
               else FrameEffect(|payload|, [], open[h.identifier := open[h.identifier] + payload])
  {
  }

  lemma NextTakes(bytes: seq<byte>, open: OpenFragments)
    requires |bytes| >= 32 && Decode(bytes).magic == MAGIC && Decode(bytes).headerSize == HEADER_SIZE
    requires Decode(bytes).length <= 0xFFFF_FFDF && 32 + Decode(bytes).length <= |bytes|
    ensures var e := ParseMessageWithHeader(Decode(bytes), bytes[32..32 + Decode(bytes).length], open);
            NextFrame(bytes, open) == Took(32 + e.used, e.delivered, e.open)
  {
    hide Decode, ParseMessageWithHeader;
  }

  lemma NextOfComplete(bytes: seq<byte>, open: OpenFragments)
    requires CompleteFrame(bytes)
    ensures var length := Number4(bytes, 12);
            var e := ParseMessageWithHeader(Decode(bytes), bytes[32..32 + length], open);
            NextFrame(bytes, open) == Took(32 + e.used, e.delivered, e.open)
  {
    hide Decode, ParseMessageWithHeader, Number2, Number4, StartsLikeAFrame, NextFrame;
    DecodedStart(bytes);
    NextTakes(bytes, open);
  }
}
