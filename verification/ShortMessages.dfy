/** What the parser makes of messages that announce more bytes than they bring. */
module ShortMessages {
  import opened Bytes
  import opened MessageHeader
  import opened FrameParsing
  import opened ChunkedParsing
  import opened FragmentCount
  import opened Fragmenting
  import opened Reassembly
  import opened RoundTrip

  lemma NextWaits(h: Header, data: seq<byte>, rest: seq<byte>, open: OpenFragments)
    requires WellFormedHeader(h) && |data + rest| < h.length
    ensures NextFrame(FrameBytes(h, data) + rest, open) == NeedMore
  {
    hide Encode, Decode;
    ConcatAssociates(Encode(h), data, rest);
    MessageHeader.DecodeOfEncode(h, data + rest);
  }

  /** A frame whose payload is not there yet is left in the buffer. */
  lemma ParseWaits(h: Header, data: seq<byte>, rest: seq<byte>, open: OpenFragments)
    requires WellFormedHeader(h) && |data + rest| < h.length
    ensures ParseFrames(FrameBytes(h, data) + rest, open) == Outcome([], open, 0, Fine)
  {
    hide NextFrame, FrameBytes;
    NextWaits(h, data, rest, open);
  }

  // ---- a single frame ----

  function SingleWire(route: RoutingInfo, announced: nat, data: seq<byte>): seq<byte> {
    Wire([Frame(HeaderFor(route, 0, 1, announced), data)])
  }

  /**
   A single frame that announces more than it brings is held until the bytes behind it fill the gap; then it is
   delivered with them as its end, and the parser goes on inside whatever they belong to.
   */
  lemma ShortSingle(route: RoutingInfo, announced: nat, data: seq<byte>, tail: seq<byte>, open: OpenFragments)
    requires |data| < announced < LENGTH_LIMIT
    ensures var wire, gap := SingleWire(route, announced, data), announced - |data|;
            ParseFrames(wire + tail, open)
            == if |tail| < gap then Outcome([], open, 0, Fine)
               else ParseFrames(tail[gap..], open)
                    .After(HEADER_SIZE + announced, [Outgoing(route, data + tail[..gap]).Received()])
  {
    hide ParseFrames, FrameBytes;
    var h := HeaderFor(route, 0, 1, announced);
    WireOfOne(Frame(h, data));
    if |tail| < announced - |data| {
      ParseWaits(h, data, tail, open);
    } else {
      ParseFrameFirst(h, data, tail, open);
      assert (data + tail)[..announced] == data + tail[..announced - |data|];
      assert (data + tail)[announced..] == tail[announced - |data|..];
    }
  }

  // ---- a group of fragments ----

  /** None of the fragments 1 to `last` of a message is the one that the parser takes for its end. */
  predicate NoneIsLast(last: nat, count: nat) {
    (count == 0 && last <= 0xFFFF) || last + 1 < count <= 0xFFFF
  }

  /** Fragments of an open message, none of them its last, extend its buffer and deliver nothing. */
  lemma {:induction false} UnfinishedPieces(route: RoutingInfo, count: nat, pieces: seq<seq<byte>>, sent: nat,
                                            open: OpenFragments, tail: seq<byte>)
    requires route.identifier in open && NoneIsLast(sent + |pieces|, count)
    requires forall i | 0 <= i < |pieces| :: |pieces[i]| < LENGTH_LIMIT
    ensures var wire, id := Wire(DataFrames(route, count, pieces, sent)), route.identifier;
            ParseFrames(wire + tail, open)
            == ParseFrames(tail, open[id := open[id] + Flatten(pieces)]).After(|wire|, [])
    decreases |pieces|
  {
    hide ParseFrames, FrameBytes, Wire, Flatten;
    var id := route.identifier;
    if pieces == [] {
      NoPieces(route, count, sent);
      EmptyEnds(tail);
      EmptyEnds(open[id]);
      assert open[id := open[id]] == open;
      AfterNothing(ParseFrames(tail, open));
    } else {
      var data, later := pieces[0], Wire(DataFrames(route, count, pieces[1..], sent + 1));
      var open' := open[id := open[id] + data];
      UnfinishedPieces(route, count, pieces[1..], sent + 1, open', tail);
      OneUnfinished(route, count, data, sent, open, later + tail);
      FirstPiece(route, count, pieces, sent);
      var first := FrameBytes(HeaderFor(route, sent + 1, count, |data|), data);
      ConcatAssociates(first, later, tail);
      ConcatAssociates(open[id], data, Flatten(pieces[1..]));
      assert open'[id := open'[id] + Flatten(pieces[1..])] == open[id := open[id] + Flatten(pieces)];
      AfterAfter(ParseFrames(tail, open[id := open[id] + Flatten(pieces)]), |first|, [], |later|, []);
    }
  }

  lemma NoPieces(route: RoutingInfo, count: nat, sent: nat)
    ensures Wire(DataFrames(route, count, [], sent)) == [] && Flatten<byte>([]) == []
  {
  }

  lemma FirstPiece(route: RoutingInfo, count: nat, pieces: seq<seq<byte>>, sent: nat)
    requires pieces != []
    ensures Wire(DataFrames(route, count, pieces, sent))
            == FrameBytes(HeaderFor(route, sent + 1, count, |pieces[0]|), pieces[0])
               + Wire(DataFrames(route, count, pieces[1..], sent + 1))
    ensures Flatten(pieces) == pieces[0] + Flatten(pieces[1..])
  {
    hide FrameBytes;
    var first := Frame(HeaderFor(route, sent + 1, count, |pieces[0]|), pieces[0]);
    TakeAndDrop([first], DataFrames(route, count, pieces[1..], sent + 1));
  }

  lemma OneUnfinished(route: RoutingInfo, count: nat, data: seq<byte>, sent: nat, open: OpenFragments,
                      rest: seq<byte>)
    requires route.identifier in open && NoneIsLast(sent + 1, count) && |data| < LENGTH_LIMIT
    ensures var frame, id := FrameBytes(HeaderFor(route, sent + 1, count, |data|), data), route.identifier;
            ParseFrames(frame + rest, open) == ParseFrames(rest, open[id := open[id] + data]).After(|frame|, [])
  {
    hide ParseFrames, FrameBytes;
    TakeAndDrop(data, rest);
    ParseFrameFirst(HeaderFor(route, sent + 1, count, |data|), data, rest, open);
  }

  /** The parser's buffer for `id`, empty before its header has come. */
  function OpenOf(open: OpenFragments, id: uint32): seq<byte> {
    if id in open then open[id] else []
  }

  /**
   A group without its last fragment delivers nothing: its header is held until as many bytes as it announces have
   come, and then its pieces are behind those of the open buffer, if there is one.
   */
  lemma UnfinishedGroup(route: RoutingInfo, count: nat, announced: nat, pieces: seq<seq<byte>>, open: OpenFragments,
                        tail: seq<byte>)
    requires NoneIsLast(|pieces|, count) && announced < LENGTH_LIMIT
    requires forall i | 0 <= i < |pieces| :: |pieces[i]| < LENGTH_LIMIT
    ensures var wire, id := Wire(GroupFrames(route, count, announced, pieces)), route.identifier;
            ParseFrames(wire + tail, open)
            == if |wire + tail| < HEADER_SIZE + announced then Outcome([], open, 0, Fine)
               else ParseFrames(tail, open[id := OpenOf(open, id) + Flatten(pieces)]).After(|wire|, [])
  {
    hide ParseFrames, FrameBytes, Wire, Flatten, DataFrames;
    var h, id := HeaderFor(route, 0, count, announced), route.identifier;
    var later := Wire(DataFrames(route, count, pieces, 0));
    GroupWireParts(route, count, announced, pieces);
    var first := FrameBytes(h, []);
    ConcatAssociates(first, later, tail);
    EmptyEnds(later + tail);
    if |later + tail| < announced {
      ParseWaits(h, [], later + tail, open);
    } else {
      ParseFrameFirst(h, [], later + tail, open);
      var open' := if id in open then open else open[id := []];
      UnfinishedPieces(route, count, pieces, 0, open', tail);
      var end := open[id := OpenOf(open, id) + Flatten(pieces)];
      assert open'[id := open'[id] + Flatten(pieces)] == end;
      AfterAfter(ParseFrames(tail, end), HEADER_SIZE, [], |later|, []);
    }
  }

  /** The same for a message that is not open yet. */
  lemma ShortGroup(route: RoutingInfo, count: nat, announced: nat, pieces: seq<seq<byte>>, open: OpenFragments,
                   tail: seq<byte>)
    requires route.identifier !in open && NoneIsLast(|pieces|, count) && announced < LENGTH_LIMIT
    requires forall i | 0 <= i < |pieces| :: |pieces[i]| < LENGTH_LIMIT
    ensures var wire := Wire(GroupFrames(route, count, announced, pieces));
            ParseFrames(wire + tail, open)
            == if |wire + tail| < HEADER_SIZE + announced then Outcome([], open, 0, Fine)
               else ParseFrames(tail, open[route.identifier := Flatten(pieces)]).After(|wire|, [])
  {
    hide ParseFrames, Wire, GroupFrames, Flatten;
    UnfinishedGroup(route, count, announced, pieces, open, tail);
    EmptyEnds(Flatten(pieces));
  }

  lemma GroupWireParts(route: RoutingInfo, count: nat, announced: nat, pieces: seq<seq<byte>>)
    ensures Wire(GroupFrames(route, count, announced, pieces))
            == FrameBytes(HeaderFor(route, 0, count, announced), []) + Wire(DataFrames(route, count, pieces, 0))
  {
    hide FrameBytes, DataFrames;
    TakeAndDrop([Frame(HeaderFor(route, 0, count, announced), [])], DataFrames(route, count, pieces, 0));
  }
}
