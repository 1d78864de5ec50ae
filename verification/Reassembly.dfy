/** What the parser makes of fragments: of many messages interleaved, and of what the transmitter sends. */
module Reassembly {
  import opened Bytes
  import opened MessageHeader
  import opened FrameParsing
  import opened ChunkedParsing
  import opened FragmentCount
  import opened Fragmenting

  const LENGTH_LIMIT := TWO_TO_THE_32 - 32

  /** A message as its frames: alone, or as a header announcing a length and then pieces, counted the parser's way. */
  datatype Sending = Single(route: RoutingInfo, body: seq<byte>)
                   | Fragmented(route: RoutingInfo, announced: nat, pieces: seq<seq<byte>>) {
    predicate Valid() {
      match this
      case Single(_, body) => |body| < LENGTH_LIMIT
      case Fragmented(_, announced, pieces) =>
        && announced < LENGTH_LIMIT
        && 1 <= |pieces| < 0xFFFF
        && forall i | 0 <= i < |pieces| :: |pieces[i]| < LENGTH_LIMIT
    }

    function FrameCount(): nat {
      match this
      case Single(_, _) => 1
      case Fragmented(_, _, pieces) => |pieces| + 1
    }

    function FrameAt(k: nat): Frame
      requires k < FrameCount()
    {
      match this
      case Single(route, body) => Frame(HeaderFor(route, 0, 1, |body|), body)
      case Fragmented(route, announced, pieces) =>
        if k == 0 then Frame(HeaderFor(route, 0, |pieces| + 1, announced), [])
        else Frame(HeaderFor(route, k, |pieces| + 1, |pieces[k - 1]|), pieces[k - 1])
    }

    function Body(): seq<byte> {
      match this
      case Single(_, body) => body
      case Fragmented(_, _, pieces) => Flatten(pieces)
    }

    /** The message a receiver should get. */
    function Delivered(): Message {
      Message(route.identifier, route.conversationIndex, route.channelCode, route.expectsReply != 0, Body(),
              HEADER_SIZE + |Body()|)
    }
  }

  // ---- interleaving ----

  /** Messages under way, by identifier, and how many frames of each have been sent. */
  type Messages = map<uint32, Sending>
  type Sent = map<uint32, nat>

  ghost predicate ValidMessages(msgs: Messages, sent: Sent) {
    && sent.Keys == msgs.Keys
    && forall id | id in msgs ::
         msgs[id].Valid() && msgs[id].route.identifier == id && sent[id] <= msgs[id].FrameCount()
  }

  /** The schedule, a list of identifiers saying whose next frame goes out, sends every frame that is left. */
  ghost predicate Completes(msgs: Messages, sent: Sent, schedule: seq<uint32>)
    requires sent.Keys == msgs.Keys
  {
    && (forall i | 0 <= i < |schedule| :: schedule[i] in msgs)
    && (forall id | id in msgs :: sent[id] + multiset(schedule)[id] == msgs[id].FrameCount())
  }

  /** After its first frame a schedule completes what is then left. */
  lemma CompletesStep(msgs: Messages, sent: Sent, schedule: seq<uint32>)
    requires ValidMessages(msgs, sent) && Completes(msgs, sent, schedule) && schedule != []
    ensures var id := schedule[0];
            && sent.Keys == msgs.Keys
            && id in msgs
            && sent[id] < msgs[id].FrameCount()
            && ValidMessages(msgs, sent[id := sent[id] + 1])
            && Completes(msgs, sent[id := sent[id] + 1], schedule[1..])
  {
    var id := schedule[0];
    assert schedule == [id] + schedule[1..];
    assert multiset(schedule) == multiset{id} + multiset(schedule[1..]);
    assert multiset(schedule)[id] >= 1;
  }

  /** The frames in the order of the schedule. */
  ghost function Play(msgs: Messages, sent: Sent, schedule: seq<uint32>): seq<Frame>
    requires sent.Keys == msgs.Keys
    decreases |schedule|
  {
    if schedule == [] || schedule[0] !in msgs || sent[schedule[0]] >= msgs[schedule[0]].FrameCount() then [] else
    var id := schedule[0];
    [msgs[id].FrameAt(sent[id])] + Play(msgs, sent[id := sent[id] + 1], schedule[1..])
  }

  /** The identifiers in the order in which their last frames are sent. */
  ghost function DeliveryOrder(msgs: Messages, sent: Sent, schedule: seq<uint32>): seq<uint32>
    requires sent.Keys == msgs.Keys
    decreases |schedule|
  {
    if schedule == [] || schedule[0] !in msgs then [] else
    var id := schedule[0];
    (if sent[id] + 1 == msgs[id].FrameCount() then [id] else [])
    + DeliveryOrder(msgs, sent[id := sent[id] + 1], schedule[1..])
  }

  ghost function DeliveredInOrder(msgs: Messages, order: seq<uint32>): seq<Message> {
    if order == [] then [] else
    (if order[0] in msgs then [msgs[order[0]].Delivered()] else []) + DeliveredInOrder(msgs, order[1..])
  }

  /** Every message not finished yet is delivered exactly once, the others not at all. */
  lemma {:induction false} EachDeliveredOnce(msgs: Messages, sent: Sent, schedule: seq<uint32>)
    requires ValidMessages(msgs, sent) && Completes(msgs, sent, schedule)
    ensures forall id ::
              multiset(DeliveryOrder(msgs, sent, schedule))[id]
              == if id in msgs && sent[id] < msgs[id].FrameCount() then 1 else 0
    decreases |schedule|
  {
    hide Completes;
    if schedule == [] {
      AllAreSent(msgs, sent);
    } else {
      var id := schedule[0];
      CompletesStep(msgs, sent, schedule);
      EachDeliveredOnce(msgs, sent[id := sent[id] + 1], schedule[1..]);
    }
  }

  lemma AllAreSent(msgs: Messages, sent: Sent)
    requires ValidMessages(msgs, sent) && Completes(msgs, sent, [])
    ensures forall id | id in msgs :: sent[id] == msgs[id].FrameCount()
  {
  }

  /** The parser's open buffers: what was there before, and the pieces received of every message under way. */
  ghost predicate OpenIs(msgs: Messages, sent: Sent, base: OpenFragments, open: OpenFragments)
    requires ValidMessages(msgs, sent)
  {
    && base.Keys !! msgs.Keys
    && (forall id | id in base :: id in open && open[id] == base[id])
    && (forall id | id in open :: id in base || (id in msgs && 0 < sent[id] < msgs[id].FrameCount()))
    && (forall id | id in msgs && 0 < sent[id] < msgs[id].FrameCount() ::
          id in open && open[id] == Flatten(msgs[id].pieces[..sent[id] - 1]))
  }

  /** The open buffers after the next frame of `id`. */
  function OpenAfter(m: Sending, sent: nat, id: uint32, open: OpenFragments): OpenFragments
    requires sent < m.FrameCount()
  {
    if m.Single? then open
    else if sent == |m.pieces| then open - {id}
    else open[id := Flatten(m.pieces[..sent])]
  }

  lemma SentAdvances(msgs: Messages, sent: Sent, id: uint32)
    requires ValidMessages(msgs, sent) && id in msgs && sent[id] < msgs[id].FrameCount()
    ensures ValidMessages(msgs, sent[id := sent[id] + 1])
  {
  }

  lemma OpenAdvances(msgs: Messages, sent: Sent, base: OpenFragments, open: OpenFragments, id: uint32)
    requires ValidMessages(msgs, sent) && OpenIs(msgs, sent, base, open)
    requires id in msgs && sent[id] < msgs[id].FrameCount()
    ensures ValidMessages(msgs, sent[id := sent[id] + 1])
    ensures OpenIs(msgs, sent[id := sent[id] + 1], base, OpenAfter(msgs[id], sent[id], id, open))
  {
    hide Flatten;
    SentAdvances(msgs, sent, id);
  }

  /** The parser's open buffer for `id` holds what was sent of `m`. */
  ghost predicate InTurn(m: Sending, sent: nat, id: uint32, open: OpenFragments) {
    && m.Valid()
    && m.route.identifier == id
    && sent < m.FrameCount()
    && (m.Fragmented? ==> if sent == 0 then id !in open
                          else id in open && open[id] == Flatten(m.pieces[..sent - 1]))
  }

  /** A frame in its turn has the effect its message needs; the payload of a header-only frame does not matter. */
  lemma FrameTakesEffect(m: Sending, sent: nat, id: uint32, open: OpenFragments, payload: seq<byte>)
    requires InTurn(m, sent, id, open)
    requires (m.Fragmented? && sent == 0) || payload == m.FrameAt(sent).data
    ensures ParseMessageWithHeader(m.FrameAt(sent).header, payload, open)
            == FrameEffect(|m.FrameAt(sent).data|, if sent + 1 == m.FrameCount() then [m.Delivered()] else [],
                           OpenAfter(m, sent, id, open))
  {
    if m.Single? {
    } else if sent == 0 {
      assert m.pieces[..0] == [];
    } else {
      OnePieceMore(m.pieces, sent);
      hide Flatten;
    }
  }

  lemma OnePieceMore(pieces: seq<seq<byte>>, n: nat)
    requires 1 <= n <= |pieces|
    ensures Flatten(pieces[..n]) == Flatten(pieces[..n - 1]) + pieces[n - 1]
    ensures pieces[..|pieces|] == pieces
  {
    assert pieces[..n] == pieces[..n - 1] + [pieces[n - 1]];
    FlattenSnoc(pieces[..n - 1], pieces[n - 1]);
  }

  // ---- no stall ----

  /** Bytes of `m` that its frames from number `sent` on still carry. */
  function Remaining(m: Sending, sent: nat): nat
    requires 1 <= sent <= m.FrameCount() && m.Fragmented?
  {
    |Flatten(m.pieces[sent - 1..])|
  }

  /** Whatever else is interleaved, the rest of a message is on the wire: a held header is let through in the end. */
  lemma {:induction false} RestIsOnTheWire(msgs: Messages, sent: Sent, schedule: seq<uint32>, id: uint32)
    requires ValidMessages(msgs, sent) && Completes(msgs, sent, schedule)
    requires id in msgs && msgs[id].Fragmented? && sent[id] >= 1
    ensures |Wire(Play(msgs, sent, schedule))| >= Remaining(msgs[id], sent[id])
    decreases |schedule|
  {
    var m := msgs[id];
    if schedule == [] {
      assert m.pieces[sent[id] - 1..] == [];
    } else {
      CompletesStep(msgs, sent, schedule);
      WireStep(msgs, sent, schedule);
      var next := schedule[0];
      RestIsOnTheWire(msgs, sent[next := sent[next] + 1], schedule[1..], id);
      hide *;
      if next == id {
        RemainingStep(m, sent[id]);
      }
    }
  }

  lemma RemainingStep(m: Sending, sent: nat)
    requires m.Fragmented? && 1 <= sent < m.FrameCount()
    ensures Remaining(m, sent) == |m.FrameAt(sent).data| + Remaining(m, sent + 1)
  {
    assert m.pieces[sent - 1..][1..] == m.pieces[sent..];
  }

  lemma WireStep(msgs: Messages, sent: Sent, schedule: seq<uint32>)
    requires sent.Keys == msgs.Keys && schedule != []
    requires schedule[0] in msgs && sent[schedule[0]] < msgs[schedule[0]].FrameCount()
    ensures var id := schedule[0];
            var f := msgs[id].FrameAt(sent[id]);
            Wire(Play(msgs, sent, schedule))
            == FrameBytes(f.header, f.data) + Wire(Play(msgs, sent[id := sent[id] + 1], schedule[1..]))
  {
    hide FrameBytes;
    var id := schedule[0];
    var later := Play(msgs, sent[id := sent[id] + 1], schedule[1..]);
    assert ([msgs[id].FrameAt(sent[id])] + later)[1..] == later;
  }

  // ---- the interleaving theorem ----

  /** Every header still to come announces no more bytes than will follow it. */
  ghost predicate AnnouncesEnough(msgs: Messages, sent: Sent, after: nat)
    requires sent.Keys == msgs.Keys
  {
    forall id | id in msgs && sent[id] == 0 && msgs[id].Fragmented? :: msgs[id].announced <= |msgs[id].Body()| + after
  }

  /**
   Frames of messages with distinct identifiers, interleaved in any order, then more bytes: every message comes
   out once, from its own pieces, when its last frame arrives; nothing stays open and every byte is used.
   */
  lemma {:induction false} ParsePlay(msgs: Messages, sent: Sent, schedule: seq<uint32>, base: OpenFragments,
                                     open: OpenFragments, tail: seq<byte>)
    requires ValidMessages(msgs, sent) && Completes(msgs, sent, schedule)
    requires OpenIs(msgs, sent, base, open) && AnnouncesEnough(msgs, sent, |tail|)
    ensures var wire := Wire(Play(msgs, sent, schedule));
            ParseFrames(wire + tail, open)
            == ParseFrames(tail, base).After(|wire|, DeliveredInOrder(msgs, DeliveryOrder(msgs, sent, schedule)))
    decreases |schedule|
  {
    hide *;
    if schedule == [] {
      NothingLeft(msgs, sent, base, open);
      EmptyEnds(tail);
      AfterNothing(ParseFrames(tail, base));
    } else {
      CompletesStep(msgs, sent, schedule);
      WireStep(msgs, sent, schedule);
      var id := schedule[0];
      var m, k, sent' := msgs[id], sent[id], sent[id := sent[id] + 1];
      OpenAdvances(msgs, sent, base, open, id);
      AnnouncesEnoughLater(msgs, sent, |tail|, id);
      ParsePlay(msgs, sent', schedule[1..], base, OpenAfter(m, k, id, open), tail);
      ParseOneFrame(msgs, sent, schedule, base, open, tail);
      DeliveredInOrderStep(msgs, sent, schedule);
      GlueFrame(m, k, id, open, base, Wire(Play(msgs, sent', schedule[1..])), tail,
                DeliveredInOrder(msgs, DeliveryOrder(msgs, sent', schedule[1..])));
    }
  }

  lemma NothingLeft(msgs: Messages, sent: Sent, base: OpenFragments, open: OpenFragments)
    requires ValidMessages(msgs, sent) && Completes(msgs, sent, []) && OpenIs(msgs, sent, base, open)
    ensures open == base
    ensures Wire(Play(msgs, sent, [])) == [] && DeliveredInOrder(msgs, DeliveryOrder(msgs, sent, [])) == []
  {
  }

  lemma AfterNothing(o: Outcome)
    ensures o.After(0, []) == o
  {
    EmptyEnds(o.messages);
  }

  lemma AnnouncesEnoughLater(msgs: Messages, sent: Sent, after: nat, id: uint32)
    requires sent.Keys == msgs.Keys && id in msgs && AnnouncesEnough(msgs, sent, after)
    ensures AnnouncesEnough(msgs, sent[id := sent[id] + 1], after)
  {
  }

  lemma GlueFrame(m: Sending, sent: nat, id: uint32, open: OpenFragments, base: OpenFragments, later: seq<byte>,
                  tail: seq<byte>, delivered: seq<Message>)
    requires sent < m.FrameCount() && TakesFrame(m, sent, id, open, later + tail)
    requires ParseFrames(later + tail, OpenAfter(m, sent, id, open))
             == ParseFrames(tail, base).After(|later|, delivered)
    ensures var f := m.FrameAt(sent);
            var wire := FrameBytes(f.header, f.data) + later;
            ParseFrames(wire + tail, open)
            == ParseFrames(tail, base)
               .After(|wire|, (if sent + 1 == m.FrameCount() then [m.Delivered()] else []) + delivered)
  {
    hide ParseFrames;
    hide FrameBytes;
    hide OpenAfter;
    var f := m.FrameAt(sent);
    GlueParses(FrameBytes(f.header, f.data), later, tail, open, OpenAfter(m, sent, id, open), base,
               if sent + 1 == m.FrameCount() then [m.Delivered()] else [], delivered);
  }

  lemma GlueParses(frame: seq<byte>, later: seq<byte>, tail: seq<byte>, open: OpenFragments, open': OpenFragments,
                   base: OpenFragments, delivered: seq<Message>, delivered': seq<Message>)
    requires ParseFrames(frame + (later + tail), open) == ParseFrames(later + tail, open').After(|frame|, delivered)
    requires ParseFrames(later + tail, open') == ParseFrames(tail, base).After(|later|, delivered')
    ensures ParseFrames((frame + later) + tail, open)
            == ParseFrames(tail, base).After(|frame + later|, delivered + delivered')
  {
    hide ParseFrames;
    ConcatAssociates(frame, later, tail);
    AfterAfter(ParseFrames(tail, base), |frame|, delivered, |later|, delivered');
  }

  lemma DeliveredInOrderStep(msgs: Messages, sent: Sent, schedule: seq<uint32>)
    requires ValidMessages(msgs, sent) && schedule != [] && schedule[0] in msgs
    ensures var id := schedule[0];
            var sent' := sent[id := sent[id] + 1];
            DeliveredInOrder(msgs, DeliveryOrder(msgs, sent, schedule))
            == (if sent[id] + 1 == msgs[id].FrameCount() then [msgs[id].Delivered()] else [])
               + DeliveredInOrder(msgs, DeliveryOrder(msgs, sent', schedule[1..]))
  {
    var id := schedule[0];
    var later := DeliveryOrder(msgs, sent[id := sent[id] + 1], schedule[1..]);
    assert ([id] + later)[1..] == later;
    EmptyEnds(later);
    EmptyEnds(DeliveredInOrder(msgs, later));
  }

  /** One round: the next frame is taken, with its effect. */
  lemma ParseOneFrame(msgs: Messages, sent: Sent, schedule: seq<uint32>, base: OpenFragments, open: OpenFragments,
                      tail: seq<byte>)
    requires ValidMessages(msgs, sent) && Completes(msgs, sent, schedule) && schedule != []
    requires OpenIs(msgs, sent, base, open) && AnnouncesEnough(msgs, sent, |tail|)
    requires sent.Keys == msgs.Keys && schedule[0] in msgs && sent[schedule[0]] < msgs[schedule[0]].FrameCount()
    ensures var id := schedule[0];
            var rest := Wire(Play(msgs, sent[id := sent[id] + 1], schedule[1..])) + tail;
            TakesFrame(msgs[id], sent[id], id, open, rest)
  {
    hide *;
    var id := schedule[0];
    EveryFrameInTurn(msgs, sent, base, open, id);
    AnnouncementIsCovered(msgs, sent, schedule, tail);
    FrameThenRest(msgs[id], sent[id], id, open, Wire(Play(msgs, sent[id := sent[id] + 1], schedule[1..])) + tail);
  }

  lemma EveryFrameInTurn(msgs: Messages, sent: Sent, base: OpenFragments, open: OpenFragments, id: uint32)
    requires ValidMessages(msgs, sent) && OpenIs(msgs, sent, base, open)
    requires id in msgs && sent[id] < msgs[id].FrameCount()
    ensures InTurn(msgs[id], sent[id], id, open)
  {
    hide Flatten;
  }

  /** When a header-only frame is next, the bytes it announces are all still to come. */
  lemma AnnouncementIsCovered(msgs: Messages, sent: Sent, schedule: seq<uint32>, tail: seq<byte>)
    requires ValidMessages(msgs, sent) && Completes(msgs, sent, schedule) && schedule != []
    requires AnnouncesEnough(msgs, sent, |tail|)
    requires schedule[0] in msgs && sent[schedule[0]] < msgs[schedule[0]].FrameCount()
    ensures var id := schedule[0];
            msgs[id].Fragmented? && sent[id] == 0 ==>
              msgs[id].announced <= |Wire(Play(msgs, sent[id := sent[id] + 1], schedule[1..])) + tail|
  {
    hide Wire, Play, Flatten, Completes;
    var id := schedule[0];
    var m := msgs[id];
    if m.Fragmented? && sent[id] == 0 {
      CompletesStep(msgs, sent, schedule);
      RestIsOnTheWire(msgs, sent[id := 1], schedule[1..], id);
      EmptyEnds(m.pieces);
    }
  }

  /** Parsing a frame and what follows is parsing what follows, with the open buffers the frame leaves. */
  ghost predicate TakesFrame(m: Sending, sent: nat, id: uint32, open: OpenFragments, rest: seq<byte>)
    requires sent < m.FrameCount()
  {
    var f := m.FrameAt(sent);
    ParseFrames(FrameBytes(f.header, f.data) + rest, open)
    == ParseFrames(rest, OpenAfter(m, sent, id, open))
       .After(HEADER_SIZE + |f.data|, if sent + 1 == m.FrameCount() then [m.Delivered()] else [])
  }

  lemma FrameThenRest(m: Sending, sent: nat, id: uint32, open: OpenFragments, rest: seq<byte>)
    requires InTurn(m, sent, id, open)
    requires m.Fragmented? && sent == 0 ==> m.announced <= |rest|
    ensures TakesFrame(m, sent, id, open, rest)
  {
    hide ParseFrames;
    hide FrameBytes;
    hide OpenAfter;
    hide ParseMessageWithHeader;
    hide Flatten;
    var f := m.FrameAt(sent);
    TakeAndDrop(f.data, rest);
    FrameTakesEffect(m, sent, id, open, (f.data + rest)[..f.header.length]);
    ParseFrameFirst(f.header, f.data, rest, open);
  }

  ghost function NothingSent(msgs: Messages): Sent {
    map id | id in msgs :: 0
  }

  /** The whole stream: any interleaving of complete messages is consumed to its last byte. */
  lemma InterleavedReassembly(msgs: Messages, schedule: seq<uint32>)
    requires ValidMessages(msgs, NothingSent(msgs)) && Completes(msgs, NothingSent(msgs), schedule)
    requires forall id | id in msgs && msgs[id].Fragmented? :: msgs[id].announced == |msgs[id].Body()|
    ensures var order := DeliveryOrder(msgs, NothingSent(msgs), schedule);
            var wire := Wire(Play(msgs, NothingSent(msgs), schedule));
            && ParseFrames(wire, map[]) == Outcome(DeliveredInOrder(msgs, order), map[], |wire|, Fine)
            && (forall id :: multiset(order)[id] == if id in msgs then 1 else 0)
  {
    var sent := NothingSent(msgs);
    EachDeliveredOnce(msgs, sent, schedule);
    ParsePlay(msgs, sent, schedule, map[], map[], []);
    EmptyEnds(Wire(Play(msgs, sent, schedule)));
    EmptyEnds(DeliveredInOrder(msgs, DeliveryOrder(msgs, sent, schedule)));
    assert ParseFrames([], map[]) == Outcome([], map[], 0, Fine);
  }
}
