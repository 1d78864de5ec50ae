/**
 The frame parser as a function of bytes: what DTXMessageParser has to compute, independently of how the
 bytes are cut into calls and of how they are kept in memory.
 */
module FrameParsing {
  import opened Bytes
  import opened MessageHeader

  /** A parsed message: the routing fields of its last header, its serialized bytes and its cost. */
  datatype Message = Message(
    identifier: uint32,
    conversationIndex: uint32,
    channelCode: uint32,
    expectsReply: bool,
    body: seq<byte>,
    costSize: nat
  )

  /** Bytes collected so far for every message whose fragments are still arriving. */
  type OpenFragments = map<uint32, seq<byte>>

  /**
   Why a call ended. `Wrapped` stands for the 32-bit sum of header size and length wrapping around: the code
   then reads `length` bytes that it has not checked to be there, and the model stops.
   */
  datatype Status = Fine | BadMagic | BadHeaderSize | Wrapped

  function MessageFrom(h: Header, body: seq<byte>): Message {
    Message(h.identifier, h.conversationIndex, h.channelCode, h.expectsReply != 0, body, HEADER_SIZE + |body|)
  }

  /** What one complete frame does: the payload bytes it uses up, the messages it completes, the open buffers. */
  datatype FrameEffect = FrameEffect(used: nat, delivered: seq<Message>, open: OpenFragments)

  function ParseMessageWithHeader(h: Header, data: seq<byte>, open: OpenFragments): (e: FrameEffect)
    ensures e.used == 0 || e.used == |data|
  {
    if h.fragmentCount == 1 then
      FrameEffect(|data|, [MessageFrom(h, data)], open)
    else if h.fragmentIndex == 0 then
      // the first fragment is only a header; a buffer that is already open stays as it is
      FrameEffect(0, [], if h.identifier in open then open else open[h.identifier := []])
    else if h.identifier in open then
      var body := open[h.identifier] + data;
      if h.fragmentIndex == h.fragmentCount - 1 then
        FrameEffect(|data|, [MessageFrom(h, body)], open - {h.identifier})
      else
        FrameEffect(|data|, [], open[h.identifier := body])
    else
      FrameEffect(0, [], open)
  }

  datatype Step = NeedMore | Stop(reason: Status) | Took(size: nat, delivered: seq<Message>, open: OpenFragments)

  /** One round of the parsing loop on the bytes not consumed yet. */
  function NextFrame(bytes: seq<byte>, open: OpenFragments): (s: Step)
    ensures s.Took? ==> HEADER_SIZE <= s.size <= |bytes|
    ensures s.Stop? ==> s.reason != Fine
  {
    if |bytes| < HEADER_SIZE then NeedMore else
    var h := Decode(bytes);
    if h.magic != MAGIC then Stop(BadMagic)
    else if h.headerSize != HEADER_SIZE then Stop(BadHeaderSize)
    else if |bytes| < (HEADER_SIZE + h.length) % TWO_TO_THE_32 then NeedMore
    else if HEADER_SIZE + h.length >= TWO_TO_THE_32 then Stop(Wrapped)
    else
      var e := ParseMessageWithHeader(h, bytes[HEADER_SIZE..HEADER_SIZE + h.length], open);
      Took(HEADER_SIZE + e.used, e.delivered, e.open)
  }

  /** Result of parsing as far as possible; `consumed` counts the bytes of the frames taken. */
  datatype Outcome = Outcome(messages: seq<Message>, open: OpenFragments, consumed: nat, status: Status) {
    /** The outcome of a run that first took `size` bytes and delivered `earlier`. */
    function After(size: nat, earlier: seq<Message>): Outcome {
      this.(messages := earlier + messages, consumed := size + consumed)
    }
  }

  function ParseFrames(bytes: seq<byte>, open: OpenFragments): (r: Outcome)
    ensures r.consumed <= |bytes|
    decreases |bytes|
  {
    match NextFrame(bytes, open)
    case NeedMore => Outcome([], open, 0, Fine)
    case Stop(reason) => Outcome([], open, 0, reason)
    case Took(size, delivered, open') => ParseFrames(bytes[size..], open').After(size, delivered)
  }

  /** No frame is ready: what holds of the retained bytes between two calls. */
  ghost predicate Settled(bytes: seq<byte>, open: OpenFragments) {
    NextFrame(bytes, open).NeedMore?
  }

  /** A decision once made is not changed by bytes that arrive later. */
  lemma DecisionIsStable(bytes: seq<byte>, more: seq<byte>, open: OpenFragments)
    requires !NextFrame(bytes, open).NeedMore?
    ensures NextFrame(bytes + more, open) == NextFrame(bytes, open)
  {
    DecodeOfPrefix(bytes, more);
    var h := Decode(bytes);
    if HEADER_SIZE + h.length < TWO_TO_THE_32 && HEADER_SIZE + h.length <= |bytes| {
      assert (bytes + more)[HEADER_SIZE..HEADER_SIZE + h.length] == bytes[HEADER_SIZE..HEADER_SIZE + h.length];
    }
  }

  lemma ParseOfNothing(open: OpenFragments)
    ensures ParseFrames([], open) == Outcome([], open, 0, Fine)
  {
  }

  lemma AfterAfter(o: Outcome, size: nat, earlier: seq<Message>, size': nat, earlier': seq<Message>)
    ensures o.After(size', earlier').After(size, earlier) == o.After(size + size', earlier + earlier')
  {
    assert earlier + (earlier' + o.messages) == (earlier + earlier') + o.messages;
  }

  lemma ParseAfterTaking(bytes: seq<byte>, open: OpenFragments)
    ensures var step := NextFrame(bytes, open);
            step.Took? ==>
              ParseFrames(bytes, open) == ParseFrames(bytes[step.size..], step.open).After(step.size, step.delivered)
  {
    hide NextFrame;
  }

  /** Parsing a stream is parsing any beginning of it and then going on with what that left over. */
  lemma {:induction false} ParseInTwoParts(bytes: seq<byte>, more: seq<byte>, open: OpenFragments)
    ensures var r := ParseFrames(bytes, open);
            ParseFrames(bytes + more, open)
            == if r.status == Fine then
                 ParseFrames(bytes[r.consumed..] + more, r.open).After(r.consumed, r.messages)
               else r
    ensures var r := ParseFrames(bytes, open);
            r.status == Fine ==> Settled(bytes[r.consumed..], r.open)
    decreases |bytes|
  {
    hide NextFrame;
    var step := NextFrame(bytes, open);
    if step.NeedMore? {
      EmptyEnds(bytes);
      assert ParseFrames(bytes, open) == Outcome([], open, 0, Fine);
    } else {
      DecisionIsStable(bytes, more, open);
      if step.Took? {
        var later := bytes[step.size..];
        DropOfConcat(bytes, more, step.size);
        ParseInTwoParts(later, more, step.open);
        ParseAfterTaking(bytes, open);
        ParseAfterTaking(bytes + more, open);
        hide ParseFrames;
        var rest := ParseFrames(later, step.open);
        DropOfDrop(bytes, step.size, rest.consumed);
        if rest.status == Fine {
          AfterAfter(ParseFrames(later[rest.consumed..] + more, rest.open), step.size, step.delivered,
                     rest.consumed, rest.messages);
        }
      }
    }
  }

  /** The 32-bit frame size is the real one exactly for lengths up to 2^32 - 33; beyond, the payload is not there. */
  lemma WrapsExactlyForHugeLengths(bytes: seq<byte>, open: OpenFragments)
    requires HEADER_SIZE <= |bytes|
    requires Decode(bytes).magic == MAGIC && Decode(bytes).headerSize == HEADER_SIZE
    ensures NextFrame(bytes, open) == Stop(Wrapped) <==> Decode(bytes).length > TWO_TO_THE_32 - 33
    ensures NextFrame(bytes, open) == Stop(Wrapped) && |bytes| < TWO_TO_THE_32
            ==> |bytes| < HEADER_SIZE + Decode(bytes).length
  {
  }
}
