/** For which runs the pipeline with the code's parser is the pipeline that empties its buffer. */
module PipelineAsWritten {
  import opened Bytes
  import opened MessageHeader
  import opened FrameParsing
  import opened ChunkedParsing
  import opened Fragmenting
  import opened Reassembly
  import opened ShortMessages
  import opened ReceivePipeline

  /** The packets that a run gives to the parser, in order. */
  function PacketsParsed(clears: bool, s: Pipeline, actions: seq<Action>): seq<seq<byte>>
    decreases |actions|
  {
    if actions == [] || !Enabled(s, actions[0]) then [] else
    (if actions[0].Parse? then [s.taken.packet] else [])
    + PacketsParsed(clears, Apply(clears, s, actions[0]), actions[1..])
  }

  /** Every step of the code's run is the same step of the repaired pipeline. */
  ghost predicate SameRun(s: Pipeline, actions: seq<Action>)
    decreases |actions|
  {
    actions != [] ==>
      && Enabled(s, actions[0])
      && Apply(false, s, actions[0]) == Apply(true, s, actions[0])
      && SameRun(Apply(false, s, actions[0]), actions[1..])
  }

  lemma {:induction false} SameRunIsRepaired(s: Pipeline, actions: seq<Action>, s': Pipeline)
    requires Reaches(false, s, actions, s') && SameRun(s, actions)
    ensures Reaches(true, s, actions, s')
    decreases |actions|
  {
    hide Apply, Enabled;
    if actions == [] {
    } else {
      SameRunIsRepaired(Apply(false, s, actions[0]), actions[1..], s');
    }
  }

  /** A Parse step is the repaired one exactly when its packet does not end on a frame. */
  lemma ParseStepAgreesIff(s: Pipeline)
    requires s.taken.Holds?
    ensures Apply(false, s, Parse) == Apply(true, s, Parse) <==> !EndsOnFrame(s.parser, s.taken.packet)
  {
    hide ParseFrames;
    FeedAsWrittenAgreesIff(s.parser, s.taken.packet);
  }

  /** What has been delivered does not decide where frames end. */
  lemma QueueDoesNotMatter(st: ParserState, queue: seq<Message>, chunks: seq<seq<byte>>)
    ensures NoCallEndsOnFrame(st.(queue := queue), chunks) <==> NoCallEndsOnFrame(st, chunks)
  {
    hide ParseFrames;
    assert forall bytes :: EndsOnFrame(st.(queue := queue), bytes) <==> EndsOnFrame(st, bytes);
  }

  /** After a failing call nothing is parsed any more. */
  lemma {:induction false} NothingParsedWhenStopped(s: Pipeline, actions: seq<Action>, s': Pipeline)
    requires Reaches(false, s, actions, s') && !s.running && s.taken.Empty?
    ensures SameRun(s, actions) && PacketsParsed(false, s, actions) == []
    decreases |actions|
  {
    if actions == [] {
    } else {
      assert actions[0].Route?;
      NothingParsedWhenStopped(Apply(false, s, actions[0]), actions[1..], s');
    }
  }

  lemma OthersKeepTheParser(s: Pipeline, a: Action)
    requires Enabled(s, a) && !a.Parse?
    ensures Apply(false, s, a) == Apply(true, s, a) && Apply(false, s, a).parser == s.parser
  {
  }

  lemma ParseStepState(s: Pipeline)
    requires s.taken.Holds?
    ensures var f, s' := Feed(false, s.parser, s.taken.packet), Apply(false, s, Parse);
            if f.status == Fine then s'.parser == f.state.(queue := [])
            else !s'.running && s'.taken.Empty?
  {
    hide Feed;
  }

  /** The code's run is the repaired pipeline's, step by step, exactly when no packet parsed ends on a frame. */
  lemma {:induction false} RunAgreesIff(s: Pipeline, actions: seq<Action>, s': Pipeline)
    requires Reaches(false, s, actions, s')
    ensures SameRun(s, actions) <==> NoCallEndsOnFrame(s.parser, PacketsParsed(false, s, actions))
    decreases |actions|
  {
    hide Apply, Enabled, Feed, EndsOnFrame, NoCallEndsOnFrame;
    if actions == [] {
      NoPackets(s.parser);
    } else {
      var a, next, later := actions[0], Apply(false, s, actions[0]), actions[1..];
      var packets := PacketsParsed(false, next, later);
      if a.Parse? {
        HoldsWhenParsed(s);
        ParseStepAgreesIff(s);
        ParseStepState(s);
        var packet := s.taken.packet;
        TakeAndDrop([packet], packets);
        FeedAsWrittenAgreesIff(s.parser, packet);
        if EndsOnFrame(s.parser, packet) {
          FirstEndsOnFrame(s.parser, packet, packets);
        } else if Feed(false, s.parser, packet).status == Fine {
          RunAgreesIff(next, later, s');
          NoCallEndsOnFrameLater(s.parser, [packet] + packets);
          QueueDoesNotMatter(Feed(true, s.parser, packet).state, [], packets);
        } else {
          NothingParsedWhenStopped(next, later, s');
          NothingEndsOnFrameAfterFailure(s.parser, [packet] + packets);
        }
      } else {
        OthersKeepTheParser(s, a);
        RunAgreesIff(next, later, s');
        EmptyEnds(packets);
      }
    }
  }

  lemma NoPackets(st: ParserState)
    ensures NoCallEndsOnFrame(st, [])
  {
  }

  lemma HoldsWhenParsed(s: Pipeline)
    requires Enabled(s, Parse)
    ensures s.taken.Holds?
  {
  }

  lemma FirstEndsOnFrame(st: ParserState, packet: seq<byte>, packets: seq<seq<byte>>)
    requires EndsOnFrame(st, packet)
    ensures !NoCallEndsOnFrame(st, [packet] + packets)
  {
    hide EndsOnFrame;
    var chunks := [packet] + packets;
    assert chunks[..1] == [packet];
    FlattenOne(packet);
    assert EndsOnFrame(st, Flatten(chunks[..1]));
  }

  /**
   So the code's pipeline routes a prefix of the parse of what it received in every run in which no packet that it
   parses ends on a frame.
   */
  lemma RoutedIsPrefixAsWritten(actions: seq<Action>, s: Pipeline)
    requires Reaches(false, INITIAL, actions, s)
    requires NoCallEndsOnFrame(FRESH, PacketsParsed(false, INITIAL, actions))
    ensures Reaches(true, INITIAL, actions, s)
    ensures s.routed <= ParseFrames(s.received, map[]).messages
    ensures s.running && InTransit(s) == [] && s.pending == [] ==>
              s.routed == ParseFrames(s.received, map[]).messages
  {
    hide ParseFrames, Reaches, SameRun, PacketsParsed, NoCallEndsOnFrame;
    RunAgreesIff(INITIAL, actions, s);
    SameRunIsRepaired(INITIAL, actions, s);
    RoutedIsPrefixOfParse(actions, s);
  }

  // ---- a packet that does end on a frame ----

  /** The parser in state `st` makes the same of `more` as in state `st'`, messages, fragments and rest. */
  ghost predicate SameCall(st: ParserState, st': ParserState, more: seq<byte>) {
    var r, r' := ParseFrames(st.buffer + more, st.open), ParseFrames(st'.buffer + more, st'.open);
    && r.status == r'.status && r.messages == r'.messages && r.open == r'.open
    && (r.status == Fine ==> (st.buffer + more)[r.consumed..] == (st'.buffer + more)[r'.consumed..])
  }

  /**
   After a call that ends on a frame the code's parser does the right thing with whatever comes next exactly when
   parsing the retained bytes again, with the fragments now open, changes nothing.
   */
  lemma NextCallIsRightIff(st: ParserState, chunk: seq<byte>)
    requires EndsOnFrame(st, chunk)
    ensures var retained, open := st.buffer + chunk, Feed(false, st, chunk).state.open;
            (forall more :: SameCall(Feed(false, st, chunk).state, Feed(true, st, chunk).state, more))
            <==> ParseFrames(retained, open) == Outcome([], open, |retained|, Fine)
  {
    var retained, open := st.buffer + chunk, Feed(false, st, chunk).state.open;
    ParseOfNothing(open);
    hide ParseFrames;
    var asWritten, emptied := Feed(false, st, chunk).state, Feed(true, st, chunk).state;
    assert asWritten.buffer == retained && emptied.buffer == [] && emptied.open == open;
    EmptyEnds(retained);
    if ParseFrames(retained, open) == Outcome([], open, |retained|, Fine) {
      forall more ensures SameCall(asWritten, emptied, more) {
        NeutralBytes(retained, open, more);
      }
    } else {
      assert !SameCall(asWritten, emptied, []);
    }
  }

  lemma NeutralBytes(retained: seq<byte>, open: OpenFragments, more: seq<byte>)
    requires ParseFrames(retained, open) == Outcome([], open, |retained|, Fine)
    ensures var r, r' := ParseFrames(retained + more, open), ParseFrames([] + more, open);
            && r.status == r'.status && r.messages == r'.messages && r.open == r'.open
            && (r.status == Fine ==> (retained + more)[r.consumed..] == ([] + more)[r'.consumed..])
  {
    hide ParseFrames;
    ParseInTwoParts(retained, more, open);
    EmptyEnds(retained);
    EmptyEnds(more);
    var r' := ParseFrames(more, open);
    EmptyEnds(r'.messages);
    TakeAndDrop(retained, more);
    DropOfDrop(retained + more, |retained|, r'.consumed);
  }

  /** Complete frames that leave the open fragments as they were, delivering `messages`. */
  ghost predicate CompleteFrames(bytes: seq<byte>, open: OpenFragments, messages: seq<Message>) {
    bytes != [] && ParseFrames(bytes, open) == Outcome(messages, open, |bytes|, Fine)
  }

  /** For such frames the next call is right exactly when they delivered nothing. */
  lemma NextCallAfterCompleteFrames(st: ParserState, chunk: seq<byte>, messages: seq<Message>)
    requires CompleteFrames(st.buffer + chunk, st.open, messages)
    ensures (forall more :: SameCall(Feed(false, st, chunk).state, Feed(true, st, chunk).state, more))
            <==> messages == []
  {
    hide ParseFrames;
    NextCallIsRightIff(st, chunk);
  }

  /** What a parse step that completes such frames does in the code. */
  lemma ParseStepCompletes(s: Pipeline, messages: seq<Message>)
    requires Invariant(s) && s.taken.Holds? && CompleteFrames(s.parser.buffer + s.taken.packet, s.parser.open, messages)
    ensures var parsed, bytes := Apply(false, s, Parse), s.fed + s.taken.packet;
            && parsed.pending == messages && parsed.routed == s.routed && parsed.fed == bytes
            && parsed.parser == ParserState(s.parser.buffer + s.taken.packet, s.parser.open, [])
            && ParseFrames(bytes, map[]) == Outcome(s.routed + messages, s.parser.open, |bytes|, Fine)
  {
    hide ParseFrames;
    ParseStep(s);
    EmptyEnds(messages);
  }

  /**
   From any state that the repaired pipeline can be in: after the code parses a packet that completes frames and
   leaves the open fragments as they were, its next Parse step makes all of their messages pending again. What is
   then routed and pending is by that many messages longer than the parse of the bytes: the prefix property is kept
   exactly when the packet delivered nothing.
   */
  lemma CompleteFramesPendingAgain(s: Pipeline, messages: seq<Message>, next: Pipeline)
    requires Invariant(s) && s.taken.Holds? && CompleteFrames(s.parser.buffer + s.taken.packet, s.parser.open, messages)
    requires FollowsParse(s, next) && Feed(false, next.parser, next.taken.packet).status == Fine
    ensures Apply(false, s, Parse).pending == messages
    ensures messages <= Apply(false, next, Parse).pending
    ensures var again := Apply(false, next, Parse);
            && |again.routed + again.pending| == |ParseFrames(again.fed, map[]).messages| + |messages|
            && (again.routed + again.pending <= ParseFrames(again.fed, map[]).messages <==> messages == [])
  {
    hide ParseFrames;
    var retained, open, later := s.parser.buffer + s.taken.packet, s.parser.open, next.taken.packet;
    ParseStepCompletes(s, messages);
    ParseInTwoParts(retained, later, open);
    ParseInTwoParts(s.fed + s.taken.packet, later, map[]);
    EmptyEnds(retained);
    EmptyEnds(s.fed + s.taken.packet);
    EmptyEnds(later);
    var r := ParseFrames(later, open);
    EmptyEnds(messages + r.messages);
    EmptyEnds(s.routed + messages);
    var again := Apply(false, next, Parse);
    assert again.pending == messages + r.messages && again.routed == s.routed + messages;
    assert ParseFrames(again.fed, map[]).messages == (s.routed + messages) + r.messages;
    if messages == [] {
      EmptyEnds(r.messages);
    }
  }

  /** The parsing thread holds its next packet, with everything routed that the Parse step at `s` made pending. */
  ghost predicate FollowsParse(s: Pipeline, next: Pipeline)
    requires s.taken.Holds?
  {
    var parsed := Apply(false, s, Parse);
    && next.parser == parsed.parser && next.fed == parsed.fed
    && next.routed == parsed.routed + parsed.pending && next.taken.Holds?
  }

  // ---- frames that are complete in this sense ----

  /** Complete frames of single-fragment messages. */
  ghost predicate Singles(frames: seq<Frame>) {
    forall i | 0 <= i < |frames| ::
      WellFormedHeader(frames[i].header) && frames[i].header.fragmentCount == 1
      && frames[i].header.length == |frames[i].data|
  }

  function MessagesOf(frames: seq<Frame>): (messages: seq<Message>)
    ensures |messages| == |frames|
  {
    if frames == [] then [] else [MessageFrom(frames[0].header, frames[0].data)] + MessagesOf(frames[1..])
  }

  lemma {:induction false} ParseSingles(frames: seq<Frame>, tail: seq<byte>, open: OpenFragments)
    requires Singles(frames)
    ensures ParseFrames(Wire(frames) + tail, open)
            == ParseFrames(tail, open).After(|Wire(frames)|, MessagesOf(frames))
    decreases |frames|
  {
    hide ParseFrames, FrameBytes, MessageFrom;
    if frames == [] {
      EmptyEnds(tail);
      EmptyEnds(ParseFrames(tail, open).messages);
    } else {
      var h, data, later := frames[0].header, frames[0].data, Wire(frames[1..]);
      ParseSingles(frames[1..], tail, open);
      ConcatAssociates(FrameBytes(h, data), later, tail);
      ParseSingleFirst(h, data, later + tail, open);
      var messages := MessagesOf(frames[1..]);
      AfterAfter(ParseFrames(tail, open), HEADER_SIZE + |data|, [MessageFrom(h, data)], |later|, messages);
    }
  }

  /** Single-fragment frames are complete. */
  lemma SinglesAreComplete(frames: seq<Frame>, open: OpenFragments)
    requires Singles(frames) && frames != []
    ensures CompleteFrames(Wire(frames), open, MessagesOf(frames))
  {
    ParseOfNothing(open);
    hide ParseFrames;
    ParseSingles(frames, [], open);
    EmptyEnds(Wire(frames));
    EmptyEnds(MessagesOf(frames));
  }

  /** So are single frames and complete fragment groups of messages under other identifiers, however interleaved. */
  lemma GroupsAreComplete(msgs: Messages, schedule: seq<uint32>, open: OpenFragments)
    requires ValidMessages(msgs, NothingSent(msgs)) && Completes(msgs, NothingSent(msgs), schedule)
    requires open.Keys !! msgs.Keys
    requires forall id | id in msgs && msgs[id].Fragmented? :: msgs[id].announced <= |msgs[id].Body()|
    ensures var wire := Wire(Play(msgs, NothingSent(msgs), schedule));
            wire != [] ==>
              CompleteFrames(wire, open, DeliveredInOrder(msgs, DeliveryOrder(msgs, NothingSent(msgs), schedule)))
  {
    ParseOfNothing(open);
    hide ParseFrames, Wire, Play, DeliveryOrder, DeliveredInOrder, Completes;
    var wire := Wire(Play(msgs, NothingSent(msgs), schedule));
    ParsePlay(msgs, NothingSent(msgs), schedule, open, open, []);
    EmptyEnds(wire);
    EmptyEnds(DeliveredInOrder(msgs, DeliveryOrder(msgs, NothingSent(msgs), schedule)));
  }

  /** Single-fragment messages that end a packet are routed twice. */
  lemma SinglesPendingAgain(s: Pipeline, frames: seq<Frame>, next: Pipeline)
    requires Invariant(s) && s.taken.Holds? && Singles(frames) && frames != []
    requires s.parser.buffer + s.taken.packet == Wire(frames)
    requires FollowsParse(s, next) && Feed(false, next.parser, next.taken.packet).status == Fine
    ensures Apply(false, s, Parse).pending == MessagesOf(frames)
    ensures MessagesOf(frames) <= Apply(false, next, Parse).pending
    ensures var again := Apply(false, next, Parse);
            |again.routed + again.pending| == |ParseFrames(again.fed, map[]).messages| + |frames|
  {
    hide ParseFrames, CompleteFrames, Wire, Singles;
    SinglesAreComplete(frames, s.parser.open);
    CompleteFramesPendingAgain(s, MessagesOf(frames), next);
  }

  /** So are the messages of complete fragment groups. */
  lemma GroupsPendingAgain(s: Pipeline, msgs: Messages, schedule: seq<uint32>, next: Pipeline)
    requires Invariant(s) && s.taken.Holds? && s.parser.open.Keys !! msgs.Keys
    requires ValidMessages(msgs, NothingSent(msgs)) && Completes(msgs, NothingSent(msgs), schedule)
    requires forall id | id in msgs && msgs[id].Fragmented? :: msgs[id].announced <= |msgs[id].Body()|
    requires s.parser.buffer + s.taken.packet == Wire(Play(msgs, NothingSent(msgs), schedule)) != []
    requires FollowsParse(s, next) && Feed(false, next.parser, next.taken.packet).status == Fine
    ensures var messages := DeliveredInOrder(msgs, DeliveryOrder(msgs, NothingSent(msgs), schedule));
            var again := Apply(false, next, Parse);
            && Apply(false, s, Parse).pending == messages <= again.pending
            && |again.routed + again.pending| == |ParseFrames(again.fed, map[]).messages| + |messages|
  {
    hide ParseFrames, CompleteFrames, Wire, Play, DeliveryOrder, DeliveredInOrder, Completes, Invariant, Feed, Apply;
    GroupsAreComplete(msgs, schedule, s.parser.open);
    var messages := DeliveredInOrder(msgs, DeliveryOrder(msgs, NothingSent(msgs), schedule));
    CompleteFramesPendingAgain(s, messages, next);
  }

  /** The pieces of a group that a packet leaves unfinished are collected twice: the message comes out corrupted. */
  lemma PiecesCollectedTwice(st: ParserState, chunk: seq<byte>, route: RoutingInfo, count: nat, announced: nat,
                             pieces: seq<seq<byte>>, more: seq<byte>)
    requires st.buffer + chunk == Wire(GroupFrames(route, count, announced, pieces))
    requires route.identifier !in st.open && NoneIsLast(|pieces|, count) && announced < LENGTH_LIMIT
    requires HEADER_SIZE + announced <= |st.buffer + chunk|
    requires forall i | 0 <= i < |pieces| :: |pieces[i]| < LENGTH_LIMIT
    ensures var f, id := Feed(false, st, chunk), route.identifier;
            && f == FeedResult(ParserState(st.buffer + chunk, st.open[id := Flatten(pieces)], st.queue), Fine)
            && Feed(false, f.state, more).state.open
               == ParseFrames(more, st.open[id := Flatten(pieces) + Flatten(pieces)]).open
            && Feed(true, Feed(true, st, chunk).state, more).state.open
               == ParseFrames(more, st.open[id := Flatten(pieces)]).open
  {
    var once := st.open[route.identifier := Flatten(pieces)];
    var twice := st.open[route.identifier := Flatten(pieces) + Flatten(pieces)];
    ParseOfNothing(once);
    hide ParseFrames, Wire, GroupFrames, Flatten;
    ShortGroup(route, count, announced, pieces, st.open, []);
    EmptyEnds(st.buffer + chunk);
    EmptyEnds(st.queue);
    UnfinishedGroup(route, count, announced, pieces, once, more);
    assert once[route.identifier := Flatten(pieces) + Flatten(pieces)] == twice;
    EmptyEnds(more);
  }
}
