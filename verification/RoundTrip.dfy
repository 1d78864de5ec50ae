/** From the transmitter to the parser: what is sent is what arrives, and what the code's fragment count does to it. */
module RoundTrip {
  import opened Bytes
  import opened MessageHeader
  import opened FrameParsing
  import opened ChunkedParsing
  import opened FragmentCount
  import opened Fragmenting
  import opened Reassembly

  /** The frames of `m` from number `k` on. */
  function FramesFrom(m: Sending, k: nat): seq<Frame>
    requires k <= m.FrameCount()
    decreases m.FrameCount() - k
  {
    if k == m.FrameCount() then [] else [m.FrameAt(k)] + FramesFrom(m, k + 1)
  }

  ghost predicate AllAre(schedule: seq<uint32>, id: uint32) {
    forall i | 0 <= i < |schedule| :: schedule[i] == id
  }

  /** A schedule that names one message only plays its frames in order. */
  lemma {:induction false} PlayAlone(m: Sending, k: nat, schedule: seq<uint32>)
    requires k + |schedule| == m.FrameCount() && AllAre(schedule, m.route.identifier)
    ensures Play(map[m.route.identifier := m], map[m.route.identifier := k], schedule) == FramesFrom(m, k)
    decreases |schedule|
  {
    if schedule == [] {
    } else {
      var id := m.route.identifier;
      PlayAlone(m, k + 1, schedule[1..]);
      assert map[id := k][id := k + 1] == map[id := k + 1];
    }
  }

  lemma {:induction false} DeliveredAtTheEnd(m: Sending, k: nat, schedule: seq<uint32>)
    requires k + |schedule| == m.FrameCount() && AllAre(schedule, m.route.identifier)
    ensures DeliveryOrder(map[m.route.identifier := m], map[m.route.identifier := k], schedule)
            == if schedule == [] then [] else [m.route.identifier]
    decreases |schedule|
  {
    if schedule == [] {
    } else {
      var id := m.route.identifier;
      DeliveredAtTheEnd(m, k + 1, schedule[1..]);
      assert map[id := k][id := k + 1] == map[id := k + 1];
    }
  }

  lemma {:induction false} CountOfOnly(schedule: seq<uint32>, id: uint32)
    requires AllAre(schedule, id)
    ensures multiset(schedule)[id] == |schedule|
    decreases |schedule|
  {
    if schedule == [] {
    } else {
      CountOfOnly(schedule[1..], id);
      assert schedule == [id] + schedule[1..];
    }
  }

  /** One message on its own, whatever else is open and whatever follows. */
  lemma OneMessage(m: Sending, open: OpenFragments, tail: seq<byte>)
    requires m.Valid() && m.route.identifier !in open
    requires m.Fragmented? ==> m.announced <= |m.Body()| + |tail|
    ensures var wire := Wire(FramesFrom(m, 0));
            ParseFrames(wire + tail, open) == ParseFrames(tail, open).After(|wire|, [m.Delivered()])
  {
    hide Wire;
    hide ParseFrames;
    hide Play;
    hide DeliveryOrder;
    hide FramesFrom;
    hide Flatten;
    var id := m.route.identifier;
    var schedule := seq(m.FrameCount(), i => id);
    var msgs, sent := map[id := m], map[id := 0];
    PlayAlone(m, 0, schedule);
    DeliveredAtTheEnd(m, 0, schedule);
    CountOfOnly(schedule, id);
    ParsePlay(msgs, sent, schedule, open, open, tail);
    DeliveredAlone(msgs, id);
  }

  lemma DeliveredAlone(msgs: Messages, id: uint32)
    requires id in msgs
    ensures DeliveredInOrder(msgs, [id]) == [msgs[id].Delivered()]
  {
    assert [id][1..] == [];
    assert DeliveredInOrder(msgs, []) == [];
  }

  // ---- the transmitter's frames ----

  lemma {:induction false} DataFramesAreFramesFrom(m: Sending, k: nat)
    requires m.Fragmented? && 1 <= k <= m.FrameCount()
    ensures DataFrames(m.route, |m.pieces| + 1, m.pieces[k - 1..], k - 1) == FramesFrom(m, k)
    decreases m.FrameCount() - k
  {
    if k == m.FrameCount() {
    } else {
      DataFramesAreFramesFrom(m, k + 1);
      assert m.pieces[k - 1..][1..] == m.pieces[k..];
    }
  }

  lemma GroupFramesAreFramesFrom(m: Sending)
    requires m.Fragmented?
    ensures GroupFrames(m.route, |m.pieces| + 1, m.announced, m.pieces) == FramesFrom(m, 0)
  {
    DataFramesAreFramesFrom(m, 1);
    EmptyEnds(m.pieces);
  }

  /**
   A length the wire format can carry: not zero, below 4 GiB, with a fragment count that is the real one (it is up to
   2^24 bytes, see FragmentCount.CountIsCeiling) and fits the 16-bit fields.
   */
  predicate Countable(length: nat, suggestedSize: nat) {
    var count := FragmentsForLength(length, suggestedSize);
    && 0 < length < LENGTH_LIMIT
    && (count == 1 || count == Ceiling(length, suggestedSize - HEADER_SIZE) < 0xFFFF)
  }

  /** An outgoing message: its routing and its serialized bytes. */
  datatype Outgoing = Outgoing(route: RoutingInfo, data: seq<byte>) {
    predicate Transmittable(suggestedSize: nat) {
      Countable(|data|, suggestedSize)
    }

    function AsSending(suggestedSize: nat): Sending {
      if FragmentsForLength(|data|, suggestedSize) == 1 then Single(route, data)
      else Fragmented(route, |data|, Pieces(data, suggestedSize - HEADER_SIZE))
    }

    function Received(): Message {
      Message(route.identifier, route.conversationIndex, route.channelCode, route.expectsReply != 0, data,
              HEADER_SIZE + |data|)
    }
  }

  lemma OutgoingAsSending(o: Outgoing, suggestedSize: nat)
    requires o.Transmittable(suggestedSize)
    ensures var m := o.AsSending(suggestedSize);
            && m.Valid()
            && m.Body() == o.data
            && m.Delivered() == o.Received()
            && MessageFrames(o.route, o.data, suggestedSize, true) == FramesFrom(m, 0)
  {
    hide FragmentsForLength;
    hide Pieces;
    hide Ceiling;
    hide Flatten;
    hide GroupFrames;
    var m := o.AsSending(suggestedSize);
    if m.Fragmented? {
      var size := suggestedSize - HEADER_SIZE;
      PiecesJoinToTheMessage(o.data, size);
      PiecesAreFull(o.data, size);
      PieceLengths(o.data, size);
      AtLeastTwoPieces(o, suggestedSize);
      GroupFramesAreFramesFrom(m);
    }
  }

  lemma PieceLengths(data: seq<byte>, size: nat)
    requires size > 0
    ensures forall i | 0 <= i < |Pieces(data, size)| :: |Pieces(data, size)[i]| <= |data|
  {
    hide Flatten;
    hide Pieces;
    PiecesJoinToTheMessage(data, size);
    forall i | 0 <= i < |Pieces(data, size)| ensures |Pieces(data, size)[i]| <= |data| {
      PartWithinWhole(Pieces(data, size), i);
    }
  }

  lemma {:induction false} PartWithinWhole(parts: seq<seq<byte>>, i: nat)
    requires i < |parts|
    ensures |parts[i]| <= |Flatten(parts)|
  {
    if i == 0 {
    } else {
      PartWithinWhole(parts[1..], i - 1);
    }
  }

  /** All bytes of a list of messages, one after the other. */
  function WireOf(messages: seq<Outgoing>, suggestedSize: nat, countsHeader: bool): seq<byte> {
    if messages == [] then [] else
    Wire(MessageFrames(messages[0].route, messages[0].data, suggestedSize, countsHeader))
    + WireOf(messages[1..], suggestedSize, countsHeader)
  }

  function ReceivedAll(messages: seq<Outgoing>): seq<Message> {
    if messages == [] then [] else [messages[0].Received()] + ReceivedAll(messages[1..])
  }

  lemma {:induction false} ParseOfWire(messages: seq<Outgoing>, suggestedSize: nat)
    requires forall i | 0 <= i < |messages| :: messages[i].Transmittable(suggestedSize)
    ensures var wire := WireOf(messages, suggestedSize, true);
            ParseFrames(wire, map[]) == Outcome(ReceivedAll(messages), map[], |wire|, Fine)
    decreases |messages|
  {
    hide Wire;
    hide FramesFrom;
    hide MessageFrames;
    if messages == [] {
    } else {
      var o := messages[0];
      var later := WireOf(messages[1..], suggestedSize, true);
      ParseOfWire(messages[1..], suggestedSize);
      OutgoingAsSending(o, suggestedSize);
      OneMessage(o.AsSending(suggestedSize), map[], later);
    }
  }

  /**
   End to end: every list of messages, sent with fragment counts that include the header-only fragment and cut
   into received chunks in any way, arrives complete and in order, and nothing is left in the parser.
   */
  lemma SentMessagesArrive(messages: seq<Outgoing>, suggestedSize: nat, chunks: seq<seq<byte>>)
    requires forall i | 0 <= i < |messages| :: messages[i].Transmittable(suggestedSize)
    requires Flatten(chunks) == WireOf(messages, suggestedSize, true)
    ensures FeedAll(true, FRESH, chunks) == FeedResult(ParserState([], map[], ReceivedAll(messages)), Fine)
  {
    hide WireOf;
    hide ParseFrames;
    hide FeedAll;
    hide Flatten;
    ParseOfWire(messages, suggestedSize);
    ChunkingIndependence(chunks, chunks);
    EmptyEnds(Flatten(chunks));
    EmptyEnds(ReceivedAll(messages));
  }

  // ---- the code's fragment count ----

  lemma {:induction false} DataFramesSnoc(
      route: RoutingInfo, count: nat, pieces: seq<seq<byte>>, sent: nat, last: seq<byte>)
    ensures DataFrames(route, count, pieces + [last], sent)
            == DataFrames(route, count, pieces, sent)
               + [Frame(HeaderFor(route, sent + |pieces| + 1, count, |last|), last)]
    decreases |pieces|
  {
    if pieces == [] {
      assert pieces + [last] == [last];
      assert [last][1..] == [];
    } else {
      DataFramesSnoc(route, count, pieces[1..], sent + 1, last);
      DropOfConcat(pieces, [last], 1);
    }
  }

  /** A late fragment of a message that is not open is skipped, but only its header: its payload is parsed as frames. */
  lemma StrayFragment(h: Header, data: seq<byte>, tail: seq<byte>, open: OpenFragments)
    requires WellFormedHeader(h) && h.length == |data|
    requires h.fragmentCount != 1 && h.fragmentIndex != 0 && h.identifier !in open
    ensures ParseFrames(FrameBytes(h, data) + tail, open) == ParseFrames(data + tail, open).After(HEADER_SIZE, [])
  {
    hide ParseFrames;
    hide FrameBytes;
    EmptyEnds(data + tail);
    ParseFrameFirst(h, data, tail, open);
  }

  /**
   With the code's count, which leaves the header-only fragment out, a message of two or more pieces is
   delivered without its last piece, and the bytes of that piece are parsed as if they were frames.
   (The last requires follows from the first, by AtLeastTwoPieces.)
   */
  lemma CodeCountTruncates(o: Outgoing, suggestedSize: nat, open: OpenFragments, tail: seq<byte>)
    requires o.Transmittable(suggestedSize) && FragmentsForLength(|o.data|, suggestedSize) != 1
    requires o.route.identifier !in open
    requires suggestedSize > HEADER_SIZE && |Pieces(o.data, suggestedSize - HEADER_SIZE)| >= 2
    ensures var pieces := Pieces(o.data, suggestedSize - HEADER_SIZE);
            var whole, last := pieces[..|pieces| - 1], pieces[|pieces| - 1];
            var m := Fragmented(o.route, |o.data|, whole);
            var used := |Wire(FramesFrom(m, 0))| + HEADER_SIZE;
            var wire := Wire(MessageFrames(o.route, o.data, suggestedSize, false));
            && o.data == m.Body() + last && last != []
            && |wire| == used + |last|
            && ParseFrames(wire + tail, open) == ParseFrames(last + tail, open).After(used, [m.Delivered()])
  {
    hide Wire;
    hide ParseFrames;
    hide Flatten;
    hide FramesFrom;
    hide FrameBytes;
    hide FragmentsForLength;
    hide Pieces;
    hide MessageFrames;
    hide HeaderFor, Ceiling;
    var pieces := Pieces(o.data, suggestedSize - HEADER_SIZE);
    AtLeastTwoPieces(o, suggestedSize);
    FramesAsWritten(o, suggestedSize);
    var last := pieces[|pieces| - 1];
    var m := Fragmented(o.route, |o.data|, pieces[..|pieces| - 1]);
    var stray := Frame(HeaderFor(o.route, |pieces|, |pieces|, |last|), last);
    WireConcat(FramesFrom(m, 0), [stray]);
    WireOfOne(stray);
    FittingHeader(o.route, |pieces|, |pieces|, |last|);
    MessageThenStray(m, stray, open, tail);
  }

  lemma FittingHeader(route: RoutingInfo, index: nat, count: nat, length: nat)
    requires index <= 0xFFFF && count <= 0xFFFF && length < LENGTH_LIMIT
    ensures var h := HeaderFor(route, index, count, length);
            && WellFormedHeader(h) && h.fragmentIndex == index && h.fragmentCount == count
            && h.length == length && h.identifier == route.identifier
  {
  }

  lemma MessageThenStray(m: Sending, stray: Frame, open: OpenFragments, tail: seq<byte>)
    requires m.Valid() && m.Fragmented? && m.route.identifier !in open
    requires m.announced <= |m.Body()| + |stray.data|
    requires WellFormedHeader(stray.header) && stray.header.length == |stray.data|
    requires stray.header.fragmentCount != 1 && stray.header.fragmentIndex != 0 && stray.header.identifier !in open
    ensures ParseFrames((Wire(FramesFrom(m, 0)) + FrameBytes(stray.header, stray.data)) + tail, open)
            == ParseFrames(stray.data + tail, open)
               .After(|Wire(FramesFrom(m, 0))| + HEADER_SIZE, [m.Delivered()])
  {
    hide Wire;
    hide ParseFrames;
    hide FramesFrom;
    hide FrameBytes;
    hide Flatten;
    var bytes, strayBytes := Wire(FramesFrom(m, 0)), FrameBytes(stray.header, stray.data);
    ConcatAssociates(bytes, strayBytes, tail);
    OneMessage(m, open, strayBytes + tail);
    StrayFragment(stray.header, stray.data, tail, open);
    AfterAfter(ParseFrames(stray.data + tail, open), |bytes|, [m.Delivered()], HEADER_SIZE, []);
    EmptyEnds([m.Delivered()]);
  }

  /** The frames sent with the code's count: a complete smaller message, and its last piece once more behind it. */
  lemma FramesAsWritten(o: Outgoing, suggestedSize: nat)
    requires o.Transmittable(suggestedSize) && FragmentsForLength(|o.data|, suggestedSize) != 1
    requires suggestedSize > HEADER_SIZE && |Pieces(o.data, suggestedSize - HEADER_SIZE)| >= 2
    ensures var pieces := Pieces(o.data, suggestedSize - HEADER_SIZE);
            var whole, last := pieces[..|pieces| - 1], pieces[|pieces| - 1];
            var m := Fragmented(o.route, |o.data|, whole);
            && |pieces| < 0xFFFF
            && m.Valid() && 0 < |last| < LENGTH_LIMIT
            && o.data == Flatten(whole) + last
            && MessageFrames(o.route, o.data, suggestedSize, false)
               == FramesFrom(m, 0) + [Frame(HeaderFor(o.route, |pieces|, |pieces|, |last|), last)]
  {
    hide Flatten;
    hide DataFrames;
    hide FramesFrom;
    hide FragmentsForLength;
    hide Pieces;
    hide Ceiling;
    hide HeaderFor;
    var size := suggestedSize - HEADER_SIZE;
    var pieces := Pieces(o.data, size);
    AtLeastTwoPieces(o, suggestedSize);
    PiecesJoinToTheMessage(o.data, size);
    PieceLengths(o.data, size);
    var whole, last := pieces[..|pieces| - 1], pieces[|pieces| - 1];
    assert pieces == whole + [last];
    FlattenSnoc(whole, last);
    DataFramesSnoc(o.route, |pieces|, whole, 0, last);
    GroupFramesAreFramesFrom(Fragmented(o.route, |o.data|, whole));
  }

  lemma WireOfOne(f: Frame)
    ensures Wire([f]) == FrameBytes(f.header, f.data)
  {
    assert Wire([]) == [];
  }

  lemma AtLeastTwoPieces(o: Outgoing, suggestedSize: nat)
    requires o.Transmittable(suggestedSize) && FragmentsForLength(|o.data|, suggestedSize) != 1
    ensures suggestedSize > HEADER_SIZE
    ensures var pieces := Pieces(o.data, suggestedSize - HEADER_SIZE);
            && 2 <= |pieces| == FragmentsForLength(|o.data|, suggestedSize)
            && forall i | 0 <= i < |pieces| :: pieces[i] != []
  {
    hide FragmentsForLength;
    hide Pieces;
    PiecesAreFull(o.data, suggestedSize - HEADER_SIZE);
    var n := EnclosingMultiple(|o.data|, suggestedSize - HEADER_SIZE);
    CeilingIs(|o.data|, suggestedSize - HEADER_SIZE, n + 1);
  }
}
