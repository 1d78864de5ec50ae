/** Which fragment counts let a message through: exactly the number of pieces and the header-only fragment. */
module CountConvention {
  import opened Bytes
  import opened MessageHeader
  import opened FrameParsing
  import opened ChunkedParsing
  import opened FragmentCount
  import opened Fragmenting
  import opened Reassembly
  import opened RoundTrip
  import opened ShortMessages

  /** The message alone arrives, whole, and leaves nothing behind. */
  ghost predicate Arrives(o: Outgoing, wire: seq<byte>) {
    ParseFrames(wire, map[]) == Outcome([o.Received()], map[], |wire|, Fine)
  }

  /** The message as `pieces`, none of which is empty. */
  ghost predicate CutInto(o: Outgoing, pieces: seq<seq<byte>>) {
    && pieces != []
    && Flatten(pieces) == o.data
    && |o.data| < LENGTH_LIMIT
    && forall i | 0 <= i < |pieces| :: 0 < |pieces[i]| < LENGTH_LIMIT
  }

  function GroupWire(o: Outgoing, count: nat, pieces: seq<seq<byte>>): seq<byte> {
    Wire(GroupFrames(o.route, count, |o.data|, pieces))
  }

  lemma {:induction false} WireCarriesThePieces(route: RoutingInfo, count: nat, pieces: seq<seq<byte>>, sent: nat)
    ensures |Flatten(pieces)| <= |Wire(DataFrames(route, count, pieces, sent))|
    decreases |pieces|
  {
    if pieces == [] {
    } else {
      WireCarriesThePieces(route, count, pieces[1..], sent + 1);
      var f := Frame(HeaderFor(route, sent + 1, count, |pieces[0]|), pieces[0]);
      assert DataFrames(route, count, pieces, sent)[1..] == DataFrames(route, count, pieces[1..], sent + 1);
    }
  }

  /** A group cut in two: its header with the first pieces, and the frames of the others. */
  lemma GroupConcat(o: Outgoing, count: nat, a: seq<seq<byte>>, b: seq<seq<byte>>)
    ensures GroupWire(o, count, a + b) == GroupWire(o, count, a) + Wire(DataFrames(o.route, count, b, |a|))
  {
    hide Wire, DataFrames;
    DataFramesConcat(o.route, count, a, b, 0);
    assert GroupFrames(o.route, count, |o.data|, a + b)
        == GroupFrames(o.route, count, |o.data|, a) + DataFrames(o.route, count, b, |a|);
    WireConcat(GroupFrames(o.route, count, |o.data|, a), DataFrames(o.route, count, b, |a|));
  }

  /** With the header counted the group is what the parser wants, whatever follows it. */
  lemma CountedGroup(o: Outgoing, pieces: seq<seq<byte>>, tail: seq<byte>)
    requires 1 <= |pieces| < 0xFFFF && |o.data| < LENGTH_LIMIT && |o.data| <= |Flatten(pieces)| + |tail|
    requires forall i | 0 <= i < |pieces| :: |pieces[i]| < LENGTH_LIMIT
    ensures var wire := GroupWire(o, |pieces| + 1, pieces);
            ParseFrames(wire + tail, map[])
            == ParseFrames(tail, map[]).After(|wire|, [Outgoing(o.route, Flatten(pieces)).Received()])
  {
    hide Wire, ParseFrames, Flatten, GroupFrames, FramesFrom;
    var m := Fragmented(o.route, |o.data|, pieces);
    GroupFramesAreFramesFrom(m);
    OneMessage(m, map[], tail);
  }

  /** A count that is too small: the message is delivered before all its pieces have come. */
  lemma SmallCountTruncates(o: Outgoing, count: nat, pieces: seq<seq<byte>>)
    requires CutInto(o, pieces) && 2 <= count <= |pieces| && count <= 0xFFFF
    ensures !Arrives(o, GroupWire(o, count, pieces))
  {
    hide Wire, ParseFrames, Flatten, GroupFrames, DataFrames;
    var whole, rest := pieces[..count - 1], pieces[count - 1..];
    assert pieces == whole + rest;
    FlattenConcat(whole, rest);
    PartWithinWhole(rest, 0);
    WireCarriesThePieces(o.route, count, rest, |whole|);
    GroupConcat(o, count, whole, rest);
    CountedGroup(o, whole, Wire(DataFrames(o.route, count, rest, |whole|)));
    var first := ParseFrames(GroupWire(o, count, pieces), map[]).messages[0];
    assert |first.body| < |o.data|;
  }

  /** `n` pieces of one byte. */
  function Extra(n: nat): seq<seq<byte>> {
    seq(n, _ => [0])
  }

  lemma ArrivedFirst(o: Outgoing, wire: seq<byte>, more: seq<byte>)
    requires Arrives(o, wire)
    ensures var messages := ParseFrames(wire + more, map[]).messages; messages != [] && messages[0] == o.Received()
  {
    hide ParseFrames;
    ParseInTwoParts(wire, more, map[]);
  }

  /** A count that is too large: had the message arrived, more pieces could not make it longer, but they do. */
  lemma LargeCountWaits(o: Outgoing, count: nat, pieces: seq<seq<byte>>)
    requires CutInto(o, pieces) && |pieces| + 1 < count <= 0xFFFF
    ensures !Arrives(o, GroupWire(o, count, pieces))
  {
    hide Wire, ParseFrames, Flatten, GroupFrames, DataFrames;
    var wire, extra := GroupWire(o, count, pieces), Extra(count - 1 - |pieces|);
    var more := Wire(DataFrames(o.route, count, extra, |pieces|));
    FlattenConcat(pieces, extra);
    PartWithinWhole(extra, 0);
    GroupConcat(o, count, pieces, extra);
    CountedGroup(o, pieces + extra, []);
    EmptyEnds(wire + more);
    ParseOfNothing(map[]);
    assert |ParseFrames(wire + more, map[]).messages[0].body| > |o.data|;
    if Arrives(o, wire) {
      ArrivedFirst(o, wire, more);
      assert false;
    }
  }

  // ---- a count that has wrapped around to zero ----

  ghost predicate Bounded(open: OpenFragments, bound: nat) {
    forall id | id in open :: |open[id]| <= bound
  }

  lemma FrameIsBounded(bytes: seq<byte>, open: OpenFragments, bound: nat)
    requires Bounded(open, bound)
    ensures var step := NextFrame(bytes, open);
            step.Took? ==>
              && Bounded(step.open, bound + (step.size - HEADER_SIZE))
              && forall i | 0 <= i < |step.delivered| :: |step.delivered[i].body| <= bound + (step.size - HEADER_SIZE)
  {
  }

  /** Every message delivered costs a header: it is shorter than what was open and what came. */
  lemma {:induction false} DeliveredIsBounded(bytes: seq<byte>, open: OpenFragments, bound: nat)
    requires Bounded(open, bound)
    ensures forall i | 0 <= i < |ParseFrames(bytes, open).messages| ::
              |ParseFrames(bytes, open).messages[i].body| + HEADER_SIZE <= bound + |bytes|
    decreases |bytes|
  {
    hide NextFrame, Bounded;
    var step := NextFrame(bytes, open);
    if step.Took? {
      FrameIsBounded(bytes, open, bound);
      DeliveredIsBounded(bytes[step.size..], step.open, bound + (step.size - HEADER_SIZE));
    }
  }

  /** No fragment is the last; the 65536th, if there is one, is taken for a header and its payload for frames. */
  lemma ZeroCountWaits(o: Outgoing, pieces: seq<seq<byte>>)
    requires CutInto(o, pieces) && |pieces| <= 0x1_0000
    ensures !Arrives(o, GroupWire(o, 0, pieces))
  {
    hide Wire, ParseFrames, Flatten, GroupFrames;
    if |pieces| <= 0xFFFF {
      ShortGroup(o.route, 0, |o.data|, pieces, map[], []);
      EmptyEnds(GroupWire(o, 0, pieces));
      ParseOfNothing(map[o.route.identifier := Flatten(pieces)]);
    } else {
      assert pieces[..0xFFFF] + [pieces[0xFFFF]] == pieces;
      IndexWrapsToo(o, pieces[..0xFFFF], pieces[0xFFFF]);
    }
  }

  lemma IndexWrapsToo(o: Outgoing, front: seq<seq<byte>>, last: seq<byte>)
    requires CutInto(o, front + [last]) && |front| == 0xFFFF
    ensures !Arrives(o, GroupWire(o, 0, front + [last]))
  {
    hide Wire, ParseFrames, Flatten, GroupFrames, DataFrames, FrameBytes;
    var tail, open := Wire(DataFrames(o.route, 0, [last], 0xFFFF)), map[o.route.identifier := Flatten(front)];
    FlattenSnoc(front, last);
    GroupConcat(o, 0, front, [last]);
    assert forall i | 0 <= i < |front| :: front[i] == (front + [last])[i];
    assert last == (front + [last])[0xFFFF];
    ShortGroup(o.route, 0, |o.data|, front, map[], tail);
    WrappedFragment(o.route, last, open);
    DeliveredIsBounded(last, open, |Flatten(front)|);
    var r := ParseFrames(last, open);
    EmptyEnds(r.messages);
    assert forall i | 0 <= i < |r.messages| :: r.messages[i] != o.Received();
    var messages := ParseFrames(GroupWire(o, 0, front + [last]), map[]).messages;
    assert messages == [] || messages == r.messages;
    assert |messages| == 1 ==> messages[0] != o.Received();
  }

  lemma WrappedFragment(route: RoutingInfo, last: seq<byte>, open: OpenFragments)
    requires |last| < LENGTH_LIMIT && route.identifier in open
    ensures ParseFrames(Wire(DataFrames(route, 0, [last], 0xFFFF)), open)
            == ParseFrames(last, open).After(HEADER_SIZE, [])
  {
    hide ParseFrames, FrameBytes;
    var h := HeaderFor(route, 0x1_0000, 0, |last|);
    WireOfOne(Frame(h, last));
    assert DataFrames(route, 0, [last], 0xFFFF) == [Frame(h, last)];
    EmptyEnds(FrameBytes(h, last));
    EmptyEnds(last);
    ParseFrameFirst(h, last, [], open);
  }

  /** A group arrives exactly when its count is the number of its pieces and one more. */
  lemma GroupArrivesIff(o: Outgoing, count: nat, pieces: seq<seq<byte>>)
    requires CutInto(o, pieces) && 2 <= count <= 0xFFFF
    ensures Arrives(o, GroupWire(o, count, pieces)) <==> count == |pieces| + 1
  {
    hide Wire, ParseFrames, Flatten, GroupFrames;
    if count <= |pieces| {
      SmallCountTruncates(o, count, pieces);
    } else if count > |pieces| + 1 {
      LargeCountWaits(o, count, pieces);
    } else {
      CountedGroup(o, pieces, []);
      ParseOfNothing(map[]);
      EmptyEnds(GroupWire(o, count, pieces));
    }
  }

  /** The 16-bit count field of a message's headers, under either convention. */
  function CountField(o: Outgoing, suggestedSize: nat, countsHeader: bool): uint16 {
    (FragmentsForLength(|o.data|, suggestedSize) + if countsHeader then 1 else 0) % 0x1_0000
  }

  lemma FieldDecides(o: Outgoing, count: nat, pieces: seq<seq<byte>>)
    ensures GroupWire(o, count, pieces) == GroupWire(o, count % 0x1_0000, pieces)
  {
    hide Wire, DataFrames;
    DataFramesField(o.route, count, pieces, 0);
  }

  lemma {:induction false} DataFramesField(route: RoutingInfo, count: nat, pieces: seq<seq<byte>>, sent: nat)
    ensures DataFrames(route, count, pieces, sent) == DataFrames(route, count % 0x1_0000, pieces, sent)
    decreases |pieces|
  {
    if pieces == [] {
    } else {
      DataFramesField(route, count, pieces[1..], sent + 1);
    }
  }

  lemma PiecesCutTheMessage(o: Outgoing, size: nat)
    requires size > 0 && 0 < |o.data| < LENGTH_LIMIT
    ensures CutInto(o, Pieces(o.data, size)) && |Pieces(o.data, size)| == Ceiling(|o.data|, size)
  {
    hide Pieces, Ceiling, Flatten;
    PiecesJoinToTheMessage(o.data, size);
    PiecesAreFull(o.data, size);
    PieceLengths(o.data, size);
    if Pieces(o.data, size) == [] {
      assert Flatten<byte>([]) == [] by { FlattenNothing(); }
    }
  }

  lemma FlattenNothing()
    ensures Flatten<byte>([]) == []
  {
  }

  /**
   The exact condition: a message comes through by itself exactly when it is sent as a single fragment, or the count
   field in its headers, rounding, convention and 16 bits together, is one more than the true number of its pieces.
   */
  lemma MessageArrivesIff(o: Outgoing, suggestedSize: nat, countsHeader: bool)
    requires 0 < |o.data| < LENGTH_LIMIT
    requires var field := CountField(o, suggestedSize, countsHeader);
             || FragmentsForLength(|o.data|, suggestedSize) == 1
             || field >= 2
             || (field == 0 && Ceiling(|o.data|, suggestedSize - HEADER_SIZE) <= 0x1_0000)
    ensures Arrives(o, Wire(MessageFrames(o.route, o.data, suggestedSize, countsHeader)))
            <==>
            FragmentsForLength(|o.data|, suggestedSize) == 1
            || CountField(o, suggestedSize, countsHeader) == Ceiling(|o.data|, suggestedSize - HEADER_SIZE) + 1
  {
    hide Wire, ParseFrames, FragmentsForLength, Pieces, Flatten, GroupFrames, Ceiling;
    var count := FragmentsForLength(|o.data|, suggestedSize);
    if count == 1 {
      SingleArrives(o);
    } else {
      var size := suggestedSize - HEADER_SIZE;
      PiecesCutTheMessage(o, size);
      FieldDecides(o, count + if countsHeader then 1 else 0, Pieces(o.data, size));
      var field := CountField(o, suggestedSize, countsHeader);
      if field == 0 {
        ZeroCountWaits(o, Pieces(o.data, size));
      } else {
        GroupArrivesIff(o, field, Pieces(o.data, size));
      }
    }
  }

  lemma SingleArrives(o: Outgoing)
    requires |o.data| < LENGTH_LIMIT
    ensures Arrives(o, Wire([Frame(HeaderFor(o.route, 0, 1, |o.data|), o.data)]))
  {
    hide ParseFrames, FrameBytes;
    var header := HeaderFor(o.route, 0, 1, |o.data|);
    WireOfOne(Frame(header, o.data));
    ParseSingleFirst(header, o.data, [], map[]);
    EmptyEnds(FrameBytes(header, o.data));
    ParseOfNothing(map[]);
  }

  /** Where the count is the ceiling, the code's own messages arrive exactly when they are single fragments. */
  lemma RoundTripAsWrittenIff(o: Outgoing, suggestedSize: nat)
    requires o.Transmittable(suggestedSize)
    ensures Arrives(o, Wire(MessageFrames(o.route, o.data, suggestedSize, false)))
            <==> FragmentsForLength(|o.data|, suggestedSize) == 1
  {
    hide Wire, ParseFrames, FragmentsForLength, MessageFrames, Ceiling;
    CountIsPositive(|o.data|, suggestedSize);
    MessageArrivesIff(o, suggestedSize, false);
  }
}
