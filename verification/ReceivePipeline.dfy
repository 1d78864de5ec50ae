/** The receive thread, the receive queue and the parsing thread, as a machine whose steps interleave freely. */
module ReceivePipeline {
  import opened Bytes
  import opened MessageHeader
  import opened FrameParsing
  import opened ChunkedParsing

  const RECEIVE_BUFFER_SIZE := 16 * 1024

  datatype Slot = Empty | Holds(packet: seq<byte>) {
    function Bytes(): seq<byte> {
      match this
      case Empty => []
      case Holds(packet) => packet
    }
  }

  /**
   `received` and `fed` record all bytes the transport has given and all the parser has been given; the rest is
   the state of the threads: the packet in the receive thread's hand, the queue, the packet the parsing thread has
   taken, its parser, the messages it has popped but not routed, and those it has routed.
   */
  datatype Pipeline = Pipeline(
    received: seq<byte>,
    fed: seq<byte>,
    inHand: Slot,
    queue: seq<seq<byte>>,
    taken: Slot,
    parser: ParserState,
    pending: seq<Message>,
    routed: seq<Message>,
    running: bool
  )

  const INITIAL := Pipeline([], [], Empty, [], Empty, FRESH, [], [], true)

  datatype Action = Receive(packet: seq<byte>) | Push | Take | Parse | Route | Disconnect

  predicate Enabled(s: Pipeline, a: Action) {
    match a
    case Receive(packet) => s.running && s.inHand.Empty? && 0 < |packet| <= RECEIVE_BUFFER_SIZE
    case Push => s.running && s.inHand.Holds?
    case Take => s.running && s.queue != [] && s.taken.Empty? && s.pending == []
    case Parse => s.taken.Holds?
    case Route => s.taken.Empty? && s.pending != []
    case Disconnect => s.running
  }

  function Stop(s: Pipeline): Pipeline {
    s.(running := false, queue := [], inHand := Empty)
  }

  function Apply(clears: bool, s: Pipeline, a: Action): Pipeline
    requires Enabled(s, a)
  {
    match a
    case Receive(packet) => s.(received := s.received + packet, inHand := Holds(packet))
    case Push => s.(queue := s.queue + [s.inHand.packet], inHand := Empty)
    case Take => s.(queue := s.queue[1..], taken := Holds(s.queue[0]))
    case Parse =>
      var f := Feed(clears, s.parser, s.taken.packet);
      var s' := s.(fed := s.fed + s.taken.packet, taken := Empty);
      if f.status == Fine then s'.(parser := f.state.(queue := []), pending := f.state.queue)
      else Stop(s'.(parser := f.state))
    case Route => s.(routed := s.routed + [s.pending[0]], pending := s.pending[1..])
    case Disconnect => Stop(s)
  }

  /** `s'` is reached from `s` by the actions, one after the other. */
  ghost predicate Reaches(clears: bool, s: Pipeline, actions: seq<Action>, s': Pipeline)
    decreases |actions|
  {
    if actions == [] then s == s' else
    Enabled(s, actions[0]) && Reaches(clears, Apply(clears, s, actions[0]), actions[1..], s')
  }

  /** The bytes between the transport and the parser, in order. */
  function InTransit(s: Pipeline): seq<byte> {
    s.taken.Bytes() + (Flatten(s.queue) + s.inHand.Bytes())
  }

  ghost predicate Invariant(s: Pipeline) {
    var r := ParseFrames(s.fed, map[]);
    && s.routed + s.pending <= r.messages
    && (if s.running then s.received == s.fed + InTransit(s) else s.fed + s.taken.Bytes() <= s.received)
    && (s.running || s.taken.Holds? ==>
          && r.status == Fine
          && s.routed + s.pending == r.messages
          && s.parser == ParserState(s.fed[r.consumed..], r.open, []))
    && (s.taken.Holds? ==> s.pending == [])
  }

  lemma InvariantHoldsInitially()
    ensures Invariant(INITIAL)
  {
    assert ParseFrames([], map[]) == Outcome([], map[], 0, Fine);
  }

  /** What a parse step does to the messages and the retained bytes. */
  lemma ParseStep(s: Pipeline)
    requires Invariant(s) && s.taken.Holds?
    ensures var f := Feed(true, s.parser, s.taken.packet);
            var r := ParseFrames(s.fed + s.taken.packet, map[]);
            && f.status == r.status
            && s.routed + f.state.queue == r.messages
            && f.state.open == r.open
            && (f.status == Fine ==> f.state.buffer == (s.fed + s.taken.packet)[r.consumed..])
  {
    hide ParseFrames;
    hide NextFrame;
    var r := ParseFrames(s.fed, map[]);
    var kept := s.fed[r.consumed..];
    ParseInTwoParts(s.fed, s.taken.packet, map[]);
    var tail := ParseFrames(kept + s.taken.packet, r.open);
    EmptyEnds(tail.messages);
    EmptyEnds(s.routed);
    DropOfConcat(s.fed, s.taken.packet, r.consumed);
    DropOfDrop(s.fed + s.taken.packet, r.consumed, tail.consumed);
    EmptyEnds(kept + s.taken.packet);
  }

  lemma StepKeepsInvariant(s: Pipeline, a: Action)
    requires Invariant(s) && Enabled(s, a)
    ensures Invariant(Apply(true, s, a))
  {
    hide ParseFrames;
    hide Feed;
    match a
    case Receive(packet) =>
      EmptyEnds(Flatten(s.queue));
      AppendInTransit(s.fed, s.taken.Bytes(), Flatten(s.queue), packet);
    case Push =>
      FlattenSnoc(s.queue, s.inHand.packet);
      EmptyEnds(Flatten(s.queue) + s.inHand.packet);
    case Take =>
      EmptyEnds(Flatten(s.queue) + s.inHand.Bytes());
      ConcatAssociates(s.queue[0], Flatten(s.queue[1..]), s.inHand.Bytes());
    case Parse =>
      ParseStep(s);
      ConcatAssociates(s.fed, s.taken.packet, Flatten(s.queue) + s.inHand.Bytes());
      EmptyEnds(Flatten(s.queue) + s.inHand.Bytes());
      EmptyEnds(s.fed + s.taken.packet);
      EmptyEnds(s.routed);
      PrefixOfConcat(s.routed, Feed(true, s.parser, s.taken.packet).state.queue);
      StoppedBytes(s);
    case Route =>
      ConcatAssociates(s.routed, [s.pending[0]], s.pending[1..]);
      assert [s.pending[0]] + s.pending[1..] == s.pending;
    case Disconnect =>
      StoppedBytes(s);
  }

  lemma AppendInTransit(fed: seq<byte>, taken: seq<byte>, queued: seq<byte>, packet: seq<byte>)
    ensures fed + (taken + (queued + packet)) == (fed + (taken + queued)) + packet
  {
  }

  lemma PrefixOfConcat<T>(a: seq<T>, b: seq<T>)
    ensures a <= a + b
  {
  }

  lemma StoppedBytes(s: Pipeline)
    requires Invariant(s)
    ensures s.fed + s.taken.Bytes() <= s.received
  {
    hide ParseFrames;
    if s.running {
      ConcatAssociates(s.fed, s.taken.Bytes(), Flatten(s.queue) + s.inHand.Bytes());
      PrefixOfConcat(s.fed + s.taken.Bytes(), Flatten(s.queue) + s.inHand.Bytes());
    }
  }

  lemma {:induction false} RunKeepsInvariant(s: Pipeline, actions: seq<Action>, s': Pipeline)
    requires Invariant(s) && Reaches(true, s, actions, s')
    ensures Invariant(s')
    decreases |actions|
  {
    hide Invariant;
    hide Apply;
    if actions == [] {
    } else {
      StepKeepsInvariant(s, actions[0]);
      RunKeepsInvariant(Apply(true, s, actions[0]), actions[1..], s');
    }
  }

  /** Messages of the beginning of a stream are the first messages of the stream. */
  lemma MessagesOfPrefix(bytes: seq<byte>, whole: seq<byte>)
    requires bytes <= whole
    ensures ParseFrames(bytes, map[]).messages <= ParseFrames(whole, map[]).messages
  {
    hide ParseFrames;
    assert whole == bytes + whole[|bytes|..];
    ParseInTwoParts(bytes, whole[|bytes|..], map[]);
  }

  /**
   In every interleaving the messages routed so far are the first messages of the stream received so far: none is
   lost, duplicated or reordered between the threads. Once the threads have nothing left to do, all are routed.
   */
  lemma RoutedIsPrefixOfParse(actions: seq<Action>, s: Pipeline)
    requires Reaches(true, INITIAL, actions, s)
    ensures s.routed <= ParseFrames(s.received, map[]).messages
    ensures s.running && InTransit(s) == [] && s.pending == [] ==>
              s.routed == ParseFrames(s.received, map[]).messages
  {
    hide ParseFrames;
    hide Reaches;
    InvariantHoldsInitially();
    RunKeepsInvariant(INITIAL, actions, s);
    StoppedBytes(s);
    assert s.fed <= s.received;
    MessagesOfPrefix(s.fed, s.received);
    EmptyEnds(s.fed);
    EmptyEnds(s.routed);
  }

  /** One packet all the way through, with one message in it. */
  function Round(packet: seq<byte>): seq<Action> {
    [Receive(packet), Push, Take, Parse, Route]
  }

  ghost predicate Idle(s: Pipeline) {
    s.running && s.inHand.Empty? && s.queue == [] && s.taken.Empty? && s.pending == []
  }

  lemma ReachesNext(clears: bool, s: Pipeline, a: Action, actions: seq<Action>, s': Pipeline)
    requires Enabled(s, a) && Reaches(clears, Apply(clears, s, a), actions, s')
    ensures Reaches(clears, s, [a] + actions, s')
  {
    hide Apply;
    hide Enabled;
    assert ([a] + actions)[1..] == actions;
  }

  lemma {:induction false} ReachesAcross(
      clears: bool, s: Pipeline, a: seq<Action>, mid: Pipeline, b: seq<Action>, s': Pipeline)
    requires Reaches(clears, s, a, mid) && Reaches(clears, mid, b, s')
    ensures Reaches(clears, s, a + b, s')
    decreases |a|
  {
    hide Apply;
    hide Enabled;
    EmptyEnds(b);
    if a == [] {
    } else {
      ReachesAcross(clears, Apply(clears, s, a[0]), a[1..], mid, b, s');
      DropOfConcat(a, b, 1);
    }
  }

  lemma RoundReaches(clears: bool, s: Pipeline, packet: seq<byte>, buffer: seq<byte>, open: OpenFragments, m: Message)
    requires Idle(s) && 0 < |packet| <= RECEIVE_BUFFER_SIZE
    requires Feed(clears, s.parser, packet) == FeedResult(ParserState(buffer, open, [m]), Fine)
    ensures Reaches(clears, s, Round(packet),
                    s.(received := s.received + packet, fed := s.fed + packet,
                       parser := ParserState(buffer, open, []), routed := s.routed + [m]))
  {
    hide Feed;
    hide Reaches;
    var s1 := s.(received := s.received + packet, inHand := Holds(packet));
    var s2 := s1.(queue := [packet], inHand := Empty);
    var s3 := s2.(queue := [], taken := Holds(packet));
    var s4 := s3.(fed := s.fed + packet, taken := Empty, parser := ParserState(buffer, open, []), pending := [m]);
    var s5 := s4.(routed := s.routed + [m], pending := []);
    assert s.queue + [packet] == [packet];
    assert s3 == Apply(clears, s2, Take);
    assert s5 == Apply(clears, s4, Route);
    ReachesItself(clears, s5);
    EmptyEnds([Route]);
    assert [Parse] + [Route] == [Parse, Route] && [Take] + [Parse, Route] == [Take, Parse, Route];
    assert [Push] + [Take, Parse, Route] == [Push, Take, Parse, Route];
    assert [Receive(packet)] + [Push, Take, Parse, Route] == Round(packet);
    ReachesNext(clears, s4, Route, [], s5);
    ReachesNext(clears, s3, Parse, [Route], s5);
    ReachesNext(clears, s2, Take, [Parse, Route], s5);
    ReachesNext(clears, s1, Push, [Take, Parse, Route], s5);
    ReachesNext(clears, s, Receive(packet), [Push, Take, Parse, Route], s5);
  }

  lemma ReachesItself(clears: bool, s: Pipeline)
    ensures Reaches(clears, s, [], s)
  {
  }

  /** The call for the second packet, with the parsed frame still in the buffer. */
  lemma FeedStaleFrame(h: Header, data: seq<byte>)
    requires WellFormedHeader(h) && h.fragmentCount == 1 && h.length == |data|
    ensures var bytes, m := FrameBytes(h, data), MessageFrom(h, data);
            && Feed(false, ParserState(bytes, map[], []), [0]) == FeedResult(ParserState([0], map[], [m]), Fine)
            && ParseFrames(bytes + [0], map[]).messages == [m]
  {
    assert ParseFrames([0], map[]) == Outcome([], map[], 0, Fine);
    hide ParseFrames;
    hide FrameBytes;
    hide MessageFrom;
    var bytes, m := FrameBytes(h, data), MessageFrom(h, data);
    ParseSingleFirst(h, data, [0], map[]);
    EmptyEnds([m]);
    assert (bytes + [0])[|bytes|..] == [0];
  }

  /**
   With the code's parser, which keeps parsed frames in its buffer, some run routes a message twice that was
   received once.
   */
  lemma RoutedTwiceAsWritten(h: Header, data: seq<byte>) returns (s: Pipeline)
    requires WellFormedHeader(h) && h.fragmentCount == 1 && h.length == |data|
    requires HEADER_SIZE + |data| <= RECEIVE_BUFFER_SIZE
    ensures Reaches(false, INITIAL, Round(FrameBytes(h, data)) + Round([0]), s)
    ensures s.routed == [MessageFrom(h, data), MessageFrom(h, data)]
    ensures ParseFrames(s.received, map[]).messages == [MessageFrom(h, data)]
  {
    hide ParseFrames;
    hide Feed;
    hide FrameBytes;
    hide MessageFrom;
    hide Reaches;
    hide Round;
    var bytes, m := FrameBytes(h, data), MessageFrom(h, data);
    FeedSingleAsWritten(h, data);
    FeedStaleFrame(h, data);
    RoundReaches(false, INITIAL, bytes, bytes, map[], m);
    var mid := INITIAL.(received := [] + bytes, fed := [] + bytes, parser := ParserState(bytes, map[], []),
                        routed := [] + [m]);
    RoundReaches(false, mid, [0], [0], map[], m);
    s := mid.(received := mid.received + [0], fed := mid.fed + [0], parser := ParserState([0], map[], []),
              routed := mid.routed + [m]);
    ReachesAcross(false, INITIAL, Round(bytes), mid, Round([0]), s);
    EmptyEnds(bytes);
  }


  // ---- a packet that is refused ----

  lemma FailingStep(clears: bool, s: Pipeline)
    requires s.taken.Holds? && Feed(clears, s.parser, s.taken.packet).status != Fine
    ensures var s' := Apply(clears, s, Parse);
            !s'.running && s'.taken.Empty? && s'.pending == s.pending && s'.routed == s.routed
  {
    hide Feed;
  }

  /** After a parse step that fails nothing is ever routed any more, not even messages in front of the bad bytes. */
  lemma {:induction false} NothingRoutedAfterFailure(clears: bool, s: Pipeline, actions: seq<Action>, s': Pipeline)
    requires s.taken.Holds? && s.pending == [] && Feed(clears, s.parser, s.taken.packet).status != Fine
    requires Reaches(clears, Apply(clears, s, Parse), actions, s')
    ensures actions == [] && s'.routed == s.routed && !s'.running
  {
    FailingStep(clears, s);
  }
}
