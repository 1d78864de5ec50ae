/**
 Parsing call by call. `clears` selects what happens when a call uses up the whole buffer: `false` is the code,
 which leaves the buffer full of parsed frames, `true` is what its comment promises, an empty buffer.
 */
module ChunkedParsing {
  import opened Bytes
  import opened MessageHeader
  import opened FrameParsing

  datatype ParserState = ParserState(buffer: seq<byte>, open: OpenFragments, queue: seq<Message>)

  const FRESH := ParserState([], map[], [])

  datatype FeedResult = FeedResult(state: ParserState, status: Status)

  /** The buffer after `consumed` of its bytes were used up. */
  function Retained(clears: bool, buffer: seq<byte>, consumed: nat): seq<byte>
    requires consumed <= |buffer|
  {
    if consumed == |buffer| && !clears then buffer else buffer[consumed..]
  }

  /** One call of ParseIncomingBytes; a call that fails keeps its messages and leaves the buffer as it is. */
  function Feed(clears: bool, st: ParserState, chunk: seq<byte>): FeedResult {
    var buffer := st.buffer + chunk;
    var r := ParseFrames(buffer, st.open);
    var retained := if r.status == Fine then Retained(clears, buffer, r.consumed) else buffer;
    FeedResult(ParserState(retained, r.open, st.queue + r.messages), r.status)
  }

  /** Calls on one chunk after the other, up to the first that fails. */
  function FeedAll(clears: bool, st: ParserState, chunks: seq<seq<byte>>): FeedResult
    decreases |chunks|
  {
    if chunks == [] then FeedResult(st, Fine) else
    var first := Feed(clears, st, chunks[0]);
    if first.status == Fine then FeedAll(clears, first.state, chunks[1..]) else first
  }

  /** What FeedAll goes through: the result of every call it makes. */
  function FeedTrace(clears: bool, st: ParserState, chunks: seq<seq<byte>>): seq<FeedResult>
    decreases |chunks|
  {
    if chunks == [] then [] else
    var first := Feed(clears, st, chunks[0]);
    [first] + if first.status == Fine then FeedTrace(clears, first.state, chunks[1..]) else []
  }

  /** `f` is what one pure parse of `bytes` yields, seen from a parser that had delivered `earlier`. */
  ghost predicate IsParseOf(f: FeedResult, earlier: seq<Message>, bytes: seq<byte>, open: OpenFragments) {
    var r := ParseFrames(bytes, open);
    && f.status == r.status
    && f.state.open == r.open
    && f.state.queue == earlier + r.messages
    && (r.status == Fine ==> f.state.buffer == bytes[r.consumed..])
  }

  /** A result that parses what a call left over, followed by `later`, parses the whole of it. */
  lemma ParseAcrossCalls(st: ParserState, chunk: seq<byte>, later: seq<byte>, f: FeedResult)
    requires var first := Feed(true, st, chunk);
             if first.status == Fine then
               IsParseOf(f, first.state.queue, first.state.buffer + later, first.state.open)
             else f == first
    ensures IsParseOf(f, st.queue, st.buffer + (chunk + later), st.open)
  {
    hide ParseFrames;
    var buffer := st.buffer + chunk;
    ConcatAssociates(st.buffer, chunk, later);
    ParseInTwoParts(buffer, later, st.open);
    var r := ParseFrames(buffer, st.open);
    if r.status == Fine {
      var kept := buffer[r.consumed..];
      var tail := ParseFrames(kept + later, r.open);
      ConcatAssociates(st.queue, r.messages, tail.messages);
      DropOfConcat(buffer, later, r.consumed);
      DropOfDrop(buffer + later, r.consumed, tail.consumed);
      EmptyEnds(buffer);
    }
  }

  /** However the stream is cut, the emptied-buffer parser computes the parse of the whole stream. */
  lemma {:induction false} FeedAllIsParse(st: ParserState, chunks: seq<seq<byte>>)
    requires Settled(st.buffer, st.open)
    ensures IsParseOf(FeedAll(true, st, chunks), st.queue, st.buffer + Flatten(chunks), st.open)
    decreases |chunks|
  {
    hide NextFrame;
    if chunks == [] {
      EmptyEnds(st.buffer);
      EmptyEnds(st.queue);
    } else {
      hide ParseFrames;
      var first := Feed(true, st, chunks[0]);
      if first.status == Fine {
        ParseInTwoParts(st.buffer + chunks[0], [], st.open);
        FeedAllIsParse(first.state, chunks[1..]);
      }
      ParseAcrossCalls(st, chunks[0], Flatten(chunks[1..]), FeedAll(true, st, chunks));
    }
  }

  /** Two ways of cutting one stream end alike: same verdict, messages, open fragments and leftover. */
  lemma ChunkingIndependence(chunks: seq<seq<byte>>, chunks': seq<seq<byte>>)
    requires Flatten(chunks) == Flatten(chunks')
    ensures IsParseOf(FeedAll(true, FRESH, chunks), [], Flatten(chunks), map[])
    ensures var f, f' := FeedAll(true, FRESH, chunks), FeedAll(true, FRESH, chunks');
            && f.status == f'.status
            && f.state.open == f'.state.open
            && f.state.queue == f'.state.queue
            && (f.status == Fine ==> f == f' && Settled(f.state.buffer, f.state.open))
  {
    assert Settled(FRESH.buffer, FRESH.open);
    hide ParseFrames;
    hide NextFrame;
    hide FeedAll;
    hide Flatten;
    FeedAllIsParse(FRESH, chunks);
    FeedAllIsParse(FRESH, chunks');
    EmptyEnds(Flatten(chunks));
    EmptyEnds(ParseFrames(Flatten(chunks), map[]).messages);
    ParseInTwoParts(Flatten(chunks), [], map[]);
  }

  /** The retained bytes followed by `bytes` are complete frames, nothing over. */
  ghost predicate EndsOnFrame(st: ParserState, bytes: seq<byte>) {
    var all := st.buffer + bytes;
    var r := ParseFrames(all, st.open);
    r.status == Fine && all != [] && r.consumed == |all|
  }

  ghost predicate NoCallEndsOnFrame(st: ParserState, chunks: seq<seq<byte>>) {
    forall k | 1 <= k <= |chunks| :: !EndsOnFrame(st, Flatten(chunks[..k]))
  }

  /** One call as the code has it keeps exactly the unconsumed bytes unless the bytes end on a frame. */
  lemma FeedAsWrittenAgreesIff(st: ParserState, chunk: seq<byte>)
    ensures Feed(false, st, chunk) == Feed(true, st, chunk) <==> !EndsOnFrame(st, chunk)
  {
    var buffer := st.buffer + chunk;
    var r := ParseFrames(buffer, st.open);
    if r.consumed == |buffer| {
      assert buffer[r.consumed..] == [];
    }
  }

  /** Where a later call ends is not changed by the calls before it, as long as they keep what is unconsumed. */
  lemma EndsOnFrameLater(st: ParserState, chunk: seq<byte>, more: seq<byte>)
    requires !EndsOnFrame(st, chunk)
    requires Feed(true, st, chunk).status == Fine
    ensures EndsOnFrame(st, chunk + more) <==> EndsOnFrame(Feed(true, st, chunk).state, more)
  {
    hide ParseFrames;
    var buffer := st.buffer + chunk;
    var r := ParseFrames(buffer, st.open);
    ParseInTwoParts(buffer, more, st.open);
    ConcatAssociates(st.buffer, chunk, more);
    if buffer != [] {
      assert r.consumed < |buffer|;
    }
  }

  /** No call of a longer list ends on a frame when its first does not and none of the later ones does. */
  lemma NoCallEndsOnFrameLater(st: ParserState, chunks: seq<seq<byte>>)
    requires chunks != [] && !EndsOnFrame(st, chunks[0])
    requires Feed(true, st, chunks[0]).status == Fine
    ensures NoCallEndsOnFrame(st, chunks) <==> NoCallEndsOnFrame(Feed(true, st, chunks[0]).state, chunks[1..])
  {
    var later, next := chunks[1..], Feed(true, st, chunks[0]).state;
    forall k | 0 <= k <= |later|
      ensures EndsOnFrame(st, Flatten(chunks[..k + 1])) <==> EndsOnFrame(next, Flatten(later[..k]))
    {
      assert chunks[..k + 1][1..] == later[..k];
      EndsOnFrameLater(st, chunks[0], Flatten(later[..k]));
    }
    assert later[..0] == [] && chunks[..1] == [chunks[0]];
    assert Flatten([chunks[0]]) == chunks[0] + Flatten([]) == chunks[0];
    if NoCallEndsOnFrame(next, later) {
      forall k | 1 <= k <= |chunks| ensures !EndsOnFrame(st, Flatten(chunks[..k])) {
        assert EndsOnFrame(st, Flatten(chunks[..k - 1 + 1])) <==> EndsOnFrame(next, Flatten(later[..k - 1]));
      }
    }
    if NoCallEndsOnFrame(st, chunks) {
      forall k | 1 <= k <= |later| ensures !EndsOnFrame(next, Flatten(later[..k])) {
        assert !EndsOnFrame(st, Flatten(chunks[..k + 1]));
      }
    }
  }

  /** After a failing call nothing further can end on a frame. */
  lemma NothingEndsOnFrameAfterFailure(st: ParserState, chunks: seq<seq<byte>>)
    requires chunks != [] && Feed(true, st, chunks[0]).status != Fine
    ensures NoCallEndsOnFrame(st, chunks)
  {
    hide ParseFrames;
    forall k | 1 <= k <= |chunks| ensures !EndsOnFrame(st, Flatten(chunks[..k])) {
      var more := Flatten(chunks[..k][1..]);
      ParseInTwoParts(st.buffer + chunks[0], more, st.open);
      assert st.buffer + Flatten(chunks[..k]) == st.buffer + chunks[0] + more;
    }
  }

  /** The code's parser and the emptied-buffer parser agree call by call exactly when no call ends on a frame. */
  lemma {:induction false} ParserAsWrittenAgreesIff(st: ParserState, chunks: seq<seq<byte>>)
    ensures FeedTrace(false, st, chunks) == FeedTrace(true, st, chunks) <==> NoCallEndsOnFrame(st, chunks)
    decreases |chunks|
  {
    if chunks == [] {
    } else {
      FeedAsWrittenAgreesIff(st, chunks[0]);
      var asWritten, intended := FeedTrace(false, st, chunks), FeedTrace(true, st, chunks);
      assert asWritten[0] == Feed(false, st, chunks[0]) && intended[0] == Feed(true, st, chunks[0]);
      if EndsOnFrame(st, chunks[0]) {
        assert chunks[..1] == [chunks[0]];
        assert Flatten([chunks[0]]) == chunks[0] + Flatten([]) == chunks[0];
        assert EndsOnFrame(st, Flatten(chunks[..1]));
      } else if intended[0].status == Fine {
        ParserAsWrittenAgreesIff(intended[0].state, chunks[1..]);
        NoCallEndsOnFrameLater(st, chunks);
        assert asWritten[1..] == FeedTrace(false, intended[0].state, chunks[1..]);
        assert intended[1..] == FeedTrace(true, intended[0].state, chunks[1..]);
        assert asWritten == [asWritten[0]] + asWritten[1..] && intended == [intended[0]] + intended[1..];
      } else {
        NothingEndsOnFrameAfterFailure(st, chunks);
      }
    }
  }

  /** The bytes of one complete frame. */
  function FrameBytes(h: Header, data: seq<byte>): (s: seq<byte>)
    ensures |s| == HEADER_SIZE + |data|
  {
    Encode(h) + data
  }

  ghost predicate WellFormedHeader(h: Header) {
    h.magic == MAGIC && h.headerSize == HEADER_SIZE && HEADER_SIZE + h.length < TWO_TO_THE_32
  }

  lemma NextIsDecodedFrame(h: Header, bytes: seq<byte>, open: OpenFragments)
    requires WellFormedHeader(h) && HEADER_SIZE + h.length <= |bytes| && Decode(bytes) == h
    ensures var e := ParseMessageWithHeader(h, bytes[HEADER_SIZE..HEADER_SIZE + h.length], open);
            NextFrame(bytes, open) == Took(HEADER_SIZE + e.used, e.delivered, e.open)
  {
  }

  /** A frame in front of `rest` is taken with the effect of its header and payload. */
  lemma NextIsFrame(h: Header, data: seq<byte>, rest: seq<byte>, open: OpenFragments)
    requires WellFormedHeader(h) && h.length <= |data + rest|
    ensures var e := ParseMessageWithHeader(h, (data + rest)[..h.length], open);
            NextFrame(FrameBytes(h, data) + rest, open) == Took(HEADER_SIZE + e.used, e.delivered, e.open)
  {
    var header, payload := Encode(h), data + rest;
    var bytes := FrameBytes(h, data) + rest;
    assert bytes == header + payload;
    MessageHeader.DecodeOfEncode(h, payload);
    assert bytes[HEADER_SIZE..HEADER_SIZE + h.length] == payload[..h.length];
    NextIsDecodedFrame(h, bytes, open);
  }

  /** The same as a parse: the frame's effect, then the parse of what it leaves. */
  lemma ParseFrameFirst(h: Header, data: seq<byte>, rest: seq<byte>, open: OpenFragments)
    requires WellFormedHeader(h) && h.length <= |data + rest|
    ensures var e := ParseMessageWithHeader(h, (data + rest)[..h.length], open);
            ParseFrames(FrameBytes(h, data) + rest, open)
            == ParseFrames((data + rest)[e.used..], e.open).After(HEADER_SIZE + e.used, e.delivered)
  {
    hide NextFrame;
    hide ParseMessageWithHeader;
    NextIsFrame(h, data, rest, open);
    var e := ParseMessageWithHeader(h, (data + rest)[..h.length], open);
    var bytes := FrameBytes(h, data) + rest;
    assert bytes == Encode(h) + (data + rest);
    assert bytes[HEADER_SIZE + e.used..] == (data + rest)[e.used..];
  }

  /** A single-fragment frame delivers its message and nothing else changes. */
  lemma ParseSingleFirst(h: Header, data: seq<byte>, rest: seq<byte>, open: OpenFragments)
    requires WellFormedHeader(h) && h.fragmentCount == 1 && h.length == |data|
    ensures ParseFrames(FrameBytes(h, data) + rest, open)
            == ParseFrames(rest, open).After(HEADER_SIZE + |data|, [MessageFrom(h, data)])
  {
    hide FrameBytes;
    assert (data + rest)[..h.length] == data && (data + rest)[h.length..] == rest;
    ParseFrameFirst(h, data, rest, open);
  }

  /** In the code, a message that ends a call is delivered and its bytes stay in the buffer. */
  lemma FeedSingleAsWritten(h: Header, data: seq<byte>)
    requires WellFormedHeader(h) && h.fragmentCount == 1 && h.length == |data|
    ensures Feed(false, FRESH, FrameBytes(h, data))
            == FeedResult(ParserState(FrameBytes(h, data), map[], [MessageFrom(h, data)]), Fine)
  {
    var bytes := FrameBytes(h, data);
    assert ParseFrames([], map[]) == Outcome([], map[], 0, Fine);
    hide ParseFrames;
    hide FrameBytes;
    hide MessageFrom;
    ParseSingleFirst(h, data, [], map[]);
    EmptyEnds(bytes);
    EmptyEnds([MessageFrom(h, data)]);
  }

  lemma FeedAllOfTwo(clears: bool, st: ParserState, first: seq<byte>, second: seq<byte>)
    ensures var f := Feed(clears, st, first);
            f.status == Fine ==> FeedAll(clears, st, [first, second]) == Feed(clears, f.state, second)
  {
    hide Feed;
    var f := Feed(clears, st, first);
    assert [first, second][1..] == [second];
    assert FeedAll(clears, f.state, [second]) == Feed(clears, f.state, second);
  }

  lemma TwoInFront<T>(x: T, rest: seq<T>)
    ensures [x, x] <= [x] + ([x] + rest)
  {
  }

  /** What goes wrong: the next call delivers it once more, whatever that call brings. */
  lemma MessageDeliveredTwice(h: Header, data: seq<byte>, chunk: seq<byte>)
    requires WellFormedHeader(h) && h.fragmentCount == 1 && h.length == |data|
    ensures [MessageFrom(h, data), MessageFrom(h, data)]
            <= FeedAll(false, FRESH, [FrameBytes(h, data), chunk]).state.queue
  {
    var bytes, m := FrameBytes(h, data), MessageFrom(h, data);
    FeedSingleAsWritten(h, data);
    ParseSingleFirst(h, data, chunk, map[]);
    hide ParseFrames;
    hide FrameBytes;
    hide MessageFrom;
    FeedAllOfTwo(false, FRESH, bytes, chunk);
    TwoInFront(m, ParseFrames(chunk, map[]).messages);
  }
}
