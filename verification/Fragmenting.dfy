/** DTXMessageTransmitter: a message pushed chunk by chunk leaves as fragments of a fixed size. */
module Fragmenting {
  import opened Bytes
  import opened MessageHeader
  import opened ChunkedParsing
  import opened FragmentCount

  datatype RoutingInfo = RoutingInfo(identifier: uint32, conversationIndex: uint32, channelCode: uint32,
                                     expectsReply: uint32)

  datatype Frame = Frame(header: Header, data: seq<byte>)

  /** The header of fragment `index` of a message; the fields of the header truncate to their widths. */
  function HeaderFor(route: RoutingInfo, index: nat, count: nat, length: nat): Header {
    Header(MAGIC, HEADER_SIZE, index % 0x1_0000, count % 0x1_0000, length % TWO_TO_THE_32,
           route.identifier, route.conversationIndex, route.channelCode, route.expectsReply)
  }

  function Wire(frames: seq<Frame>): seq<byte> {
    if frames == [] then [] else FrameBytes(frames[0].header, frames[0].data) + Wire(frames[1..])
  }

  /** The message cut into pieces of `size` bytes; only the last may be shorter. */
  function Pieces(data: seq<byte>, size: nat): seq<seq<byte>>
    requires size > 0
    decreases |data|
  {
    if data == [] then []
    else if |data| <= size then [data]
    else [data[..size]] + Pieces(data[size..], size)
  }

  /** One data fragment per piece, numbered on from `sent`. */
  function DataFrames(route: RoutingInfo, count: nat, pieces: seq<seq<byte>>, sent: nat): seq<Frame>
    decreases |pieces|
  {
    if pieces == [] then [] else
    [Frame(HeaderFor(route, sent + 1, count, |pieces[0]|), pieces[0])] + DataFrames(route, count, pieces[1..], sent + 1)
  }

  /** A fragmented message: a header alone that announces the whole length, then the data fragments. */
  function GroupFrames(route: RoutingInfo, count: nat, length: nat, pieces: seq<seq<byte>>): seq<Frame> {
    [Frame(HeaderFor(route, 0, count, length), [])] + DataFrames(route, count, pieces, 0)
  }

  /**
   What is sent for a message that is announced as `announced` bytes and serialized as `data`. A single frame carries
   what there is; when fewer bytes than announced come, the last fragment never fills and only whole ones leave.
   With `countsHeader` the fragment count includes the header-only fragment, as the parser and the device count;
   without, it is the number of data fragments, as the code counts.
   */
  function FramesFor(route: RoutingInfo, announced: nat, data: seq<byte>, suggestedSize: nat, countsHeader: bool)
    : seq<Frame>
  {
    var pieceCount := FragmentsForLength(announced, suggestedSize);
    if pieceCount == 1 || suggestedSize <= HEADER_SIZE then
      [Frame(HeaderFor(route, 0, 1, announced), data)]
    else
      var size := suggestedSize - HEADER_SIZE;
      GroupFrames(route, pieceCount + if countsHeader then 1 else 0, announced,
                  Pieces(if |data| < announced then WholeBlocks(data, size) else data, size))
  }

  /** As much of the data as fills whole fragments. */
  function WholeBlocks(data: seq<byte>, size: nat): seq<byte>
    requires size > 0
  {
    data[..BlockStart(|data|, size)]
  }

  function BlockStart(at: nat, size: nat): (start: nat)
    requires size > 0
    ensures start <= at
  {
    DivisionAlgorithm(at, size);
    at / size * size
  }

  /** What is sent for a message that is announced with its real length. */
  function MessageFrames(route: RoutingInfo, data: seq<byte>, suggestedSize: nat, countsHeader: bool): seq<Frame> {
    FramesFor(route, |data|, data, suggestedSize, countsHeader)
  }

  // ---- properties of the cutting ----

  lemma {:induction false} PiecesJoinToTheMessage(data: seq<byte>, size: nat)
    requires size > 0
    ensures Flatten(Pieces(data, size)) == data
    decreases |data|
  {
    if |data| > size {
      PiecesJoinToTheMessage(data[size..], size);
      assert data == data[..size] + data[size..];
    } else if data != [] {
      assert Flatten([data]) == data + Flatten([]);
      EmptyEnds(data);
    }
  }

  /** Every piece but the last is full, and there are as many as the rounded-up quotient. */
  lemma {:induction false} PiecesAreFull(data: seq<byte>, size: nat)
    requires size > 0
    ensures var pieces := Pieces(data, size);
            && |pieces| == Ceiling(|data|, size)
            && (forall i | 0 <= i < |pieces| - 1 :: |pieces[i]| == size)
            && (forall i | 0 <= i < |pieces| :: 0 < |pieces[i]| <= size)
    decreases |data|
  {
    hide Ceiling;
    if |data| > size {
      PiecesAreFull(data[size..], size);
      CeilingOfMore(|data|, size);
    } else if |data| == 0 {
      assert Ceiling(0, size) == 0 by { SmallCeilings(size); }
    } else {
      CeilingIs(|data|, size, 1);
    }
  }

  lemma SmallCeilings(size: nat)
    requires size > 0
    ensures Ceiling(0, size) == 0
  {
    DivisionIs(size - 1, size, 0, size - 1);
  }

  lemma CeilingOfMore(length: nat, size: nat)
    requires 0 < size < length
    ensures Ceiling(length, size) == 1 + Ceiling(length - size, size)
  {
    var v := length - 1;
    DivisionAlgorithm(v, size);
    assert (1 + v / size) * size == size + v / size * size;
    DivisionIs(v + size, size, 1 + v / size, v % size);
  }

  // ---- the transmitting loop ----

  /** The locals of the loop: fragments sent, bytes sent, size of the current fragment, its bytes, all writes. */
  datatype Progress = Progress(sent: nat, serialized: nat, limit: nat, buffer: seq<byte>, writes: seq<seq<byte>>)

  /** Sends the buffered bytes as one fragment when they fill it. */
  function TransmitIfFull(route: RoutingInfo, count: nat, size: nat, length: nat, p: Progress): Progress
    requires p.serialized + |p.buffer| <= length
  {
    if |p.buffer| >= p.limit then
      var serialized := p.serialized + |p.buffer|;
      Progress(p.sent + 1, serialized, Min(size, length - serialized), [],
               p.writes + [Encode(HeaderFor(route, p.sent + 1, count, p.limit)), p.buffer])
    else p
  }

  function Min(a: nat, b: nat): nat {
    if a <= b then a else b
  }

  /**
   The loop invariant: the writes so far, followed by the fragments of what is not sent yet, are the fragments of
   the whole message, and the buffer holds the bytes from there up to `reached`.
   */
  ghost predicate OnTrack(route: RoutingInfo, count: nat, size: nat, data: seq<byte>, p: Progress, reached: nat)
    requires size > 0
  {
    && p.serialized <= reached <= |data|
    && p.buffer == data[p.serialized..reached]
    && p.limit == Min(size, |data| - p.serialized)
    && (if reached < |data| then |p.buffer| < p.limit else p.serialized == |data|)
    && (p.serialized < |data| ==> p.serialized % size == 0 && p.sent == |Pieces(data[..p.serialized], size)|)
    && Wire(GroupFrames(route, count, |data|, Pieces(data, size)))
       == Flatten(p.writes) + Wire(DataFrames(route, count, Pieces(data[p.serialized..], size), p.sent))
  }

  lemma StartsOnTrack(route: RoutingInfo, count: nat, size: nat, data: seq<byte>)
    requires 0 < size < |data|
    ensures OnTrack(route, count, size, data,
                    Progress(0, 0, size, [], [Encode(HeaderFor(route, 0, count, |data|))]), 0)
  {
    var header := HeaderFor(route, 0, count, |data|);
    EmptyEnds(data);
    EmptyEnds(Encode(header));
    assert Flatten([Encode(header)]) == Encode(header) + Flatten([]);
    var pieces := Pieces(data, size);
    assert GroupFrames(route, count, |data|, pieces)[1..] == DataFrames(route, count, pieces, 0);
  }

  lemma EndsOnTrack(route: RoutingInfo, count: nat, size: nat, data: seq<byte>, p: Progress)
    requires size > 0 && OnTrack(route, count, size, data, p, |data|)
    ensures Flatten(p.writes) == Wire(GroupFrames(route, count, |data|, Pieces(data, size)))
  {
    EmptyEnds(data);
    assert Wire(DataFrames(route, count, Pieces([], size), p.sent)) == [];
    EmptyEnds(Flatten(p.writes));
  }

  lemma {:induction false} PiecesSplit(data: seq<byte>, size: nat, at: nat)
    requires size > 0 && at % size == 0 && at < |data|
    ensures Pieces(data, size) == Pieces(data[..at], size) + Pieces(data[at..], size)
    decreases at
  {
    hide Pieces;
    EmptyEnds(data);
    PiecesOfNothing(size);
    if at > 0 {
      BlockBefore(at, size);
      PiecesStep(data, size);
      PiecesSplit(data[size..], size, at - size);
      PiecesStep(data[..at], size);
      SliceOfSlice(data, 0, at, 0, size);
      assert data[..at][size..] == data[size..][..at - size];
      DropOfDrop(data, size, at - size);
      ConcatAssociates([data[..size]], Pieces(data[size..][..at - size], size), Pieces(data[at..], size));
    } else {
      EmptyEnds(Pieces(data, size));
    }
  }

  lemma PiecesOfNothing(size: nat)
    requires size > 0
    ensures Pieces([], size) == []
  {
  }

  lemma BlockBefore(at: nat, size: nat)
    requires size > 0 && at % size == 0 && at > 0
    ensures size <= at && (at - size) % size == 0
  {
    DivisionAlgorithm(at, size);
    assert at / size * size == (at / size - 1) * size + size;
    if at < size {
      DivisionIs(at, size, 0, at);
    } else {
      DivisionIs(at - size, size, at / size - 1, 0);
    }
  }

  /** One more full piece makes one piece more. */
  lemma PieceCountGrows(data: seq<byte>, size: nat, at: nat)
    requires size > 0 && at % size == 0 && at + size <= |data|
    ensures |Pieces(data[..at + size], size)| == |Pieces(data[..at], size)| + 1
  {
    hide Pieces;
    var part := data[..at + size];
    PiecesSplit(part, size, at);
    PiecesStep(part[at..], size);
    PiecesOfNothing(size);
    assert part[at..][size..] == [];
    assert part[..at] == data[..at];
  }

  lemma {:induction false} DataFramesConcat(
      route: RoutingInfo, count: nat, a: seq<seq<byte>>, b: seq<seq<byte>>, sent: nat)
    ensures DataFrames(route, count, a + b, sent)
            == DataFrames(route, count, a, sent) + DataFrames(route, count, b, sent + |a|)
    decreases |a|
  {
    if a == [] {
      EmptyEnds(b);
    } else {
      DataFramesConcat(route, count, a[1..], b, sent + 1);
      assert (a + b)[1..] == a[1..] + b;
    }
  }

  lemma {:induction false} WireConcat(a: seq<Frame>, b: seq<Frame>)
    ensures Wire(a + b) == Wire(a) + Wire(b)
    decreases |a|
  {
    if a == [] {
      EmptyEnds(b);
    } else {
      hide FrameBytes;
      WireConcat(a[1..], b);
      assert (a + b)[1..] == a[1..] + b;
      ConcatAssociates(FrameBytes(a[0].header, a[0].data), Wire(a[1..]), Wire(b));
    }
  }

  /** The fragments of a message are those of its first blocks and then those of the rest. */
  lemma GroupSplit(route: RoutingInfo, count: nat, length: nat, data: seq<byte>, size: nat, at: nat)
    requires size > 0 && at % size == 0 && at < |data|
    ensures GroupFrames(route, count, length, Pieces(data, size))
            == GroupFrames(route, count, length, Pieces(data[..at], size))
               + DataFrames(route, count, Pieces(data[at..], size), |Pieces(data[..at], size)|)
  {
    hide Pieces, DataFrames;
    PiecesSplit(data, size, at);
    DataFramesConcat(route, count, Pieces(data[..at], size), Pieces(data[at..], size), 0);
  }

  lemma WhereTheFragmentsEnd(route: RoutingInfo, count: nat, size: nat, data: seq<byte>, p: Progress, reached: nat)
    requires size > 0 && reached < |data| && OnTrack(route, count, size, data, p, reached)
    ensures p.serialized % size == 0 && p.serialized <= reached < p.serialized + size
    ensures Wire(GroupFrames(route, count, |data|, Pieces(data, size)))
            == Flatten(p.writes) + Wire(DataFrames(route, count, Pieces(data[p.serialized..], size),
                                                   |Pieces(data[..p.serialized], size)|))
  {
    hide Wire, GroupFrames, DataFrames, Pieces;
  }

  lemma LastBlockStart(base: nat, reached: nat, size: nat)
    requires size > 0 && base % size == 0 && base <= reached < base + size
    ensures BlockStart(reached, size) == base
  {
    SameBlock(base, reached, size);
    DivisionAlgorithm(base, size);
  }

  lemma SameSuffix<T>(a: seq<T>, b: seq<T>, suffix: seq<T>)
    requires a + suffix == b + suffix
    ensures a == b
  {
    assert a == (a + suffix)[..|a|];
    assert b == (b + suffix)[..|b|];
  }

  /** Before the end, exactly the whole fragments have been written. */
  lemma StopsShort(route: RoutingInfo, count: nat, size: nat, data: seq<byte>, p: Progress, reached: nat)
    requires size > 0 && reached < |data| && OnTrack(route, count, size, data, p, reached)
    ensures Flatten(p.writes)
            == Wire(GroupFrames(route, count, |data|, Pieces(data[..BlockStart(reached, size)], size)))
  {
    hide Wire, GroupFrames, DataFrames, Pieces, OnTrack, BlockStart;
    WhereTheFragmentsEnd(route, count, size, data, p, reached);
    LastBlockStart(p.serialized, reached, size);
    GroupSplit(route, count, |data|, data, size, p.serialized);
    var sent := GroupFrames(route, count, |data|, Pieces(data[..p.serialized], size));
    var unsent := DataFrames(route, count, Pieces(data[p.serialized..], size), |Pieces(data[..p.serialized], size)|);
    WireConcat(sent, unsent);
    SameSuffix(Wire(sent), Flatten(p.writes), Wire(unsent));
  }

  lemma {:induction false} DataFramesAreNumbered(route: RoutingInfo, count: nat, pieces: seq<seq<byte>>, sent: nat,
                                                 i: nat)
    requires i < |DataFrames(route, count, pieces, sent)|
    ensures i < |pieces|
    ensures DataFrames(route, count, pieces, sent)[i]
            == Frame(HeaderFor(route, sent + i + 1, count, |pieces[i]|), pieces[i])
    decreases |pieces|
  {
    if i == 0 {
    } else {
      DataFramesAreNumbered(route, count, pieces[1..], sent + 1, i - 1);
    }
  }

  lemma CeilingOfMultiple(n: nat, size: nat)
    requires size > 0
    ensures Ceiling(n * size, size) == n
  {
    if n > 0 {
      assert n * size == (n - 1) * size + size;
      CeilingIs(n * size, size, n);
    } else {
      SmallCeilings(size);
    }
  }

  lemma CeilingIsAbove(announced: nat, have: nat, size: nat, n: nat)
    requires size > 0 && n * size <= have < announced
    ensures n < Ceiling(announced, size)
  {
    var v := announced - 1;
    DivisionAlgorithm(v, size);
    var a := v / size;
    assert (a + 1) * size == a * size + size;
    CeilingIs(announced, size, a + 1);
    if a < n {
      MultipleBelow(a, n, size);
      assert false;
    }
  }

  lemma FewerBlocks(have: nat, announced: nat, size: nat)
    requires size > 0 && have < announced
    ensures Ceiling(BlockStart(have, size), size) < Ceiling(announced, size)
  {
    hide Ceiling;
    DivisionAlgorithm(have, size);
    CeilingOfMultiple(have / size, size);
    CeilingIsAbove(announced, have, size, have / size);
  }

  /** The frames of a fragmented message whose serializer pushes less than was announced: too few for their count. */
  lemma ShortMessageFrames(route: RoutingInfo, announced: nat, data: seq<byte>, suggestedSize: nat)
    returns (count: nat, pieces: seq<seq<byte>>)
    requires |data| < announced && IsFragmented(announced, suggestedSize)
    requires FragmentsForLength(announced, suggestedSize) == Ceiling(announced, suggestedSize - HEADER_SIZE) < 0xFFFF
    ensures FramesFor(route, announced, data, suggestedSize, true) == GroupFrames(route, count, announced, pieces)
    ensures |pieces| + 1 < count <= 0xFFFF
    ensures pieces == Pieces(WholeBlocks(data, suggestedSize - HEADER_SIZE), suggestedSize - HEADER_SIZE)
  {
    hide Pieces, GroupFrames, FragmentsForLength, Ceiling, BlockStart;
    var size := suggestedSize - HEADER_SIZE;
    count := FragmentsForLength(announced, suggestedSize) + 1;
    pieces := Pieces(WholeBlocks(data, size), size);
    PiecesAreFull(WholeBlocks(data, size), size);
    FewerBlocks(|data|, announced, size);
  }

  /** So it is never completed: none of the fragments sent is the one that ends it. */
  lemma ShortMessageHasNoLastFragment(route: RoutingInfo, announced: nat, data: seq<byte>, suggestedSize: nat, i: nat)
    requires |data| < announced && IsFragmented(announced, suggestedSize)
    requires FragmentsForLength(announced, suggestedSize) == Ceiling(announced, suggestedSize - HEADER_SIZE) < 0xFFFF
    requires i < |FramesFor(route, announced, data, suggestedSize, true)|
    ensures var h := FramesFor(route, announced, data, suggestedSize, true)[i].header;
            h.fragmentIndex != h.fragmentCount - 1
  {
    hide FramesFor, DataFrames, FragmentsForLength, Ceiling;
    var count, pieces := ShortMessageFrames(route, announced, data, suggestedSize);
    if i > 0 {
      DataFramesAreNumbered(route, count, pieces, 0, i - 1);
    }
  }

  lemma NothingToSend(route: RoutingInfo, count: nat, size: nat)
    requires size > 0
    ensures Flatten([Encode(HeaderFor(route, 0, count, 0))]) == Wire(GroupFrames(route, count, 0, Pieces([], size)))
  {
    hide Encode;
    var header := HeaderFor(route, 0, count, 0);
    assert DataFrames(route, count, Pieces([], size), 0) == [];
    SingleFrameWire(header, []);
    assert Flatten([Encode(header)]) == Encode(header) + Flatten([]);
  }

  /** Sending a full fragment moves its bytes from the pieces still to come to the writes. */
  lemma TransmitKeepsTheWire(route: RoutingInfo, count: nat, size: nat, unsent: seq<byte>, sent: nat,
                             writes: seq<seq<byte>>, whole: seq<byte>)
    requires size > 0 && unsent != []
    requires whole == Flatten(writes) + Wire(DataFrames(route, count, Pieces(unsent, size), sent))
    ensures var n := Min(size, |unsent|);
            whole == Flatten(writes + [Encode(HeaderFor(route, sent + 1, count, n)), unsent[..n]])
                     + Wire(DataFrames(route, count, Pieces(unsent[n..], size), sent + 1))
  {
    var n := Min(size, |unsent|);
    var header := HeaderFor(route, sent + 1, count, n);
    NextDataFrame(route, count, size, unsent, sent);
    WritesOfFrame(writes, header, unsent[..n]);
    hide Pieces;
    hide Wire;
    hide DataFrames;
    hide Flatten;
    hide FrameBytes;
    ConcatAssociates(Flatten(writes), FrameBytes(header, unsent[..n]),
                     Wire(DataFrames(route, count, Pieces(unsent[n..], size), sent + 1)));
  }

  lemma TransmitStaysOnTrack(route: RoutingInfo, count: nat, size: nat, data: seq<byte>, p: Progress, reached: nat)
    requires size > 0 && p.serialized < reached <= |data|
    requires p.buffer == data[p.serialized..reached]
    requires p.limit == |p.buffer| == Min(size, |data| - p.serialized)
    requires p.serialized % size == 0 && p.sent == |Pieces(data[..p.serialized], size)|
    requires Wire(GroupFrames(route, count, |data|, Pieces(data, size)))
             == Flatten(p.writes) + Wire(DataFrames(route, count, Pieces(data[p.serialized..], size), p.sent))
    ensures OnTrack(route, count, size, data, TransmitIfFull(route, count, size, |data|, p), reached)
  {
    hide Wire;
    hide Pieces;
    hide DataFrames;
    hide Flatten;
    hide HeaderFor;
    hide Encode;
    hide GroupFrames;
    TransmitKeepsTheWire(route, count, size, data[p.serialized..], p.sent, p.writes,
                         Wire(GroupFrames(route, count, |data|, Pieces(data, size))));
    SliceOfDrop(data, p.serialized, 0, p.limit);
    DropOfDrop(data, p.serialized, p.limit);
    if reached < |data| {
      BlockAfter(p.serialized, size);
      PieceCountGrows(data, size, p.serialized);
    }
  }

  lemma NextDataFrame(route: RoutingInfo, count: nat, size: nat, unsent: seq<byte>, sent: nat)
    requires size > 0 && unsent != []
    ensures var n := Min(size, |unsent|);
            Wire(DataFrames(route, count, Pieces(unsent, size), sent))
            == FrameBytes(HeaderFor(route, sent + 1, count, n), unsent[..n])
               + Wire(DataFrames(route, count, Pieces(unsent[n..], size), sent + 1))
  {
    PiecesStep(unsent, size);
    hide Pieces;
    hide FrameBytes;
    var n := Min(size, |unsent|);
    assert Pieces(unsent, size)[1..] == Pieces(unsent[n..], size);
    var first := Frame(HeaderFor(route, sent + 1, count, n), unsent[..n]);
    var later := DataFrames(route, count, Pieces(unsent[n..], size), sent + 1);
    assert ([first] + later)[1..] == later;
  }

  lemma WritesOfFrame(writes: seq<seq<byte>>, header: Header, data: seq<byte>)
    ensures Flatten(writes + [Encode(header), data]) == Flatten(writes) + FrameBytes(header, data)
  {
    hide Encode;
    FlattenConcat(writes, [Encode(header), data]);
    FlattenTwo(Encode(header), data);
  }

  lemma PiecesStep(data: seq<byte>, size: nat)
    requires size > 0 && data != []
    ensures var n := Min(size, |data|);
            Pieces(data, size) == [data[..n]] + Pieces(data[n..], size)
  {
    if |data| <= size {
      assert data[..|data|] == data && data[|data|..] == [];
    }
  }

  lemma BlockAfter(base: nat, size: nat)
    requires size > 0 && base % size == 0
    ensures (base + size) % size == 0
  {
    DivisionAlgorithm(base, size);
    assert (base / size + 1) * size == base + size;
    DivisionIs(base + size, size, base / size + 1, 0);
    DivisionAlgorithm(base + size, size);
  }

  lemma SameBlock(base: nat, at: nat, size: nat)
    requires size > 0 && base % size == 0 && base <= at < base + size
    ensures at / size == base / size && at % size == at - base
  {
    DivisionAlgorithm(base, size);
    DivisionIs(at, size, base / size, at - base);
    DivisionAlgorithm(at, size);
  }

  /** Taking some bytes into the buffer, at most up to its limit, and sending it when full. */
  lemma TakeStaysOnTrack(route: RoutingInfo, count: nat, size: nat, data: seq<byte>, p: Progress, reached: nat, n: nat)
    requires size > 0 && OnTrack(route, count, size, data, p, reached)
    requires 0 < n <= p.limit - |p.buffer| && reached + n <= |data|
    ensures var q := TransmitIfFull(route, count, size, |data|, p.(buffer := p.buffer + data[reached..reached + n]));
            && OnTrack(route, count, size, data, q, reached + n)
            && (if n == p.limit - |p.buffer| then q.serialized == reached + n else q.serialized == p.serialized)
  {
    hide Wire;
    hide Pieces;
    hide DataFrames;
    hide GroupFrames;
    var filled := p.(buffer := p.buffer + data[reached..reached + n]);
    assert filled.buffer == data[p.serialized..reached + n];
    if n == p.limit - |p.buffer| {
      TransmitStaysOnTrack(route, count, size, data, filled, reached + n);
    }
  }

  /** A chunk from `start` to `end` of the message is taken without reading past its end. */
  ghost predicate ChunkFits(size: nat, length: nat, start: nat, end: nat)
    requires size > 0
  {
    end == length || end % size == 0 || start / size == end / size
  }

  /** Every chunk but the last ends on a fragment boundary or stays inside one fragment. */
  ghost predicate ChunksFit(size: nat, length: nat, chunks: seq<seq<byte>>, start: nat)
    requires size > 0
    decreases |chunks|
  {
    chunks != [] ==>
      && ChunkFits(size, length, start, start + |chunks[0]|)
      && ChunksFit(size, length, chunks[1..], start + |chunks[0]|)
  }

  lemma ChunksFitStep(size: nat, length: nat, chunks: seq<seq<byte>>, i: nat, start: nat)
    requires size > 0 && i < |chunks|
    ensures ChunksFit(size, length, chunks[i..], start)
            <==> ChunkFits(size, length, start, start + |chunks[i]|)
                 && ChunksFit(size, length, chunks[i + 1..], start + |chunks[i]|)
  {
    hide ChunkFits;
    assert chunks[i..][1..] == chunks[i + 1..];
  }

  lemma NoChunksFit(size: nat, length: nat, start: nat)
    requires size > 0
    ensures ChunksFit(size, length, [], start)
  {
  }

  ghost predicate IsFragmented(length: nat, suggestedSize: nat) {
    suggestedSize > HEADER_SIZE && FragmentsForLength(length, suggestedSize) != 1
  }

  /** The transmitter; `bounded` selects whether a chunk is taken up to its end or, as in the code, to its full size. */
  class DTXMessageTransmitter {
    const countsHeader: bool
    const bounded: bool
    var suggestedFragmentSize: nat

    constructor (countsHeader: bool, bounded: bool)
      ensures this.countsHeader == countsHeader && this.bounded == bounded && suggestedFragmentSize == 0x1_0000
    {
      this.countsHeader, this.bounded := countsHeader, bounded;
      suggestedFragmentSize := 64 * 1024;
    }

    /**
     Transmits the message that announces `length` and whose serializer pushes `chunks`. `writes` are the calls of
     the transmitter callback; `overread` reports that a chunk would be read past its end, where the code's
     behaviour is undefined.
     */
    method TransmitMessage(length: nat, chunks: seq<seq<byte>>, route: RoutingInfo)
      returns (ok: bool, writes: seq<seq<byte>>, overread: bool)
      requires |Flatten(chunks)| <= length
      requires forall i | 0 <= i < |chunks| :: chunks[i] != []
      ensures ok <==> !IsFragmented(length, suggestedFragmentSize)
      ensures overread <==>
              && !bounded
              && IsFragmented(length, suggestedFragmentSize)
              && !ChunksFit(suggestedFragmentSize - HEADER_SIZE, length, chunks, 0)
      ensures !overread ==>
              Flatten(writes) == Wire(FramesFor(route, length, Flatten(chunks), suggestedFragmentSize, countsHeader))
    {
      hide Wire, FramesFor, FragmentsForLength, Encode, HeaderFor, Flatten, ChunksFit;
      overread := false;
      var pieceCount := FragmentsForLength(length, suggestedFragmentSize);
      if pieceCount == 1 {
        writes := [Encode(HeaderFor(route, 0, 1, length))] + chunks;
        SingleFrameWrites(route, length, chunks, suggestedFragmentSize, countsHeader);
        return true, writes, overread;
      }
      ok := false;
      var count := pieceCount + if countsHeader then 1 else 0;
      writes, overread := TransmitFragments(length, chunks, route, count);
      FragmentedFrames(route, length, Flatten(chunks), suggestedFragmentSize, countsHeader);
    }

    /** The path of multiple fragments. */
    method TransmitFragments(length: nat, chunks: seq<seq<byte>>, route: RoutingInfo, count: nat)
      returns (writes: seq<seq<byte>>, overread: bool)
      requires |Flatten(chunks)| <= length && IsFragmented(length, suggestedFragmentSize)
      requires forall i | 0 <= i < |chunks| :: chunks[i] != []
      ensures overread <==> !bounded && !ChunksFit(suggestedFragmentSize - HEADER_SIZE, length, chunks, 0)
      ensures !overread ==>
              var pushed, size := Flatten(chunks), suggestedFragmentSize - HEADER_SIZE;
              Flatten(writes)
              == Wire(GroupFrames(route, count, length,
                                  Pieces(if |pushed| < length then WholeBlocks(pushed, size) else pushed, size)))
    {
      hide Wire, GroupFrames, Pieces, WholeBlocks, FragmentsForLength, OnTrack, Encode, HeaderFor, Flatten, Min;
      hide ChunkFits, ChunksFit, TransmitIfFull;
      var size := suggestedFragmentSize - HEADER_SIZE;
      var p := Progress(0, 0, size, [], [Encode(HeaderFor(route, 0, count, length))]);
      ghost var pushed := Flatten(chunks);
      ghost var padding := Zeros(length - |pushed|);
      ghost var data := pushed + padding;
      if length > 0 {
        if length <= size {
          FittingMessageIsOneFragment(length, suggestedFragmentSize);
        }
        StartsOnTrack(route, count, size, data);
      }
      var i := 0;
      ghost var reached: nat := 0;
      EmptyEnds(data);
      EmptyEnds(chunks);
      overread := false;
      while i < |chunks|
        invariant i <= |chunks| && reached <= length
        invariant Flatten(chunks[i..]) + padding == data[reached..]
        invariant length > 0 ==> OnTrack(route, count, size, data, p, reached)
        invariant length == 0 ==> p.writes == [Encode(HeaderFor(route, 0, count, 0))]
        invariant !bounded ==> (ChunksFit(size, length, chunks, 0) <==> ChunksFit(size, length, chunks[i..], reached))
      {
        var chunk := chunks[i];
        SplitFirst(chunks, i, padding, data, reached);
        ChunksFitStep(size, length, chunks, i, reached);
        WhereTheBufferIs(route, count, size, data, p, reached);
        p := TransmitIfFull(route, count, size, length, p);
        p, overread := TransmitChunk(route, count, size, length, chunk, p, data, reached);
        if overread {
          return p.writes, overread;
        }
        reached := reached + |chunk|;
        i := i + 1;
      }
      writes := p.writes;
      EmptyEnds(chunks);
      NoChunksFit(size, length, reached);
      TransmittedAll(route, count, size, pushed, padding, data, p, reached);
    }

    /** One call of the lambda given to the serializer. */
    method TransmitChunk(route: RoutingInfo, count: nat, size: nat, length: nat, chunk: seq<byte>, before: Progress,
                         ghost data: seq<byte>, ghost start: nat)
      returns (p: Progress, overread: bool)
      requires size > 0 && length == |data| && chunk != []
      requires start + |chunk| <= |data| && data[start..start + |chunk|] == chunk
      requires OnTrack(route, count, size, data, before, start)
      ensures overread <==> !bounded && !ChunkFits(size, length, start, start + |chunk|)
      ensures !overread ==> OnTrack(route, count, size, data, p, start + |chunk|)
    {
      hide Wire;
      hide Pieces;
      hide DataFrames;
      hide GroupFrames;
      hide ChunkFits;
      hide OnTrack;
      hide TransmitIfFull;
      p, overread := before, false;
      var offset := 0;
      while offset < |chunk|
        invariant offset <= |chunk|
        invariant OnTrack(route, count, size, data, p, start + offset)
        invariant 0 < offset < |chunk| ==> p.serialized == start + offset
        invariant !bounded && offset == |chunk| ==> ChunkFits(size, length, start, start + |chunk|)
      {
        ghost var at := start + offset;
        WhereTheBufferIs(route, count, size, data, p, at);
        var available := if bounded then |chunk| - offset else |chunk|;
        var consume := Min(Min(available, p.limit - |p.buffer|), p.limit);
        if offset + consume > |chunk| {
          CrossingDoesNotFit(size, length, start, at, start + |chunk|, p.limit);
          return p, true;
        }
        TakeStaysOnTrack(route, count, size, data, p, at, consume);
        if !bounded && offset + consume == |chunk| {
          ReachingTheEndFits(size, length, start, p.serialized, at + consume);
        }
        SliceOfSlice(data, start, start + |chunk|, offset, offset + consume);
        p := p.(buffer := p.buffer + chunk[offset..offset + consume]);
        p := TransmitIfFull(route, count, size, length, p);
        offset := offset + consume;
      }
    }
  }

  lemma WhereTheBufferIs(route: RoutingInfo, count: nat, size: nat, data: seq<byte>, p: Progress, reached: nat)
    requires size > 0 && OnTrack(route, count, size, data, p, reached) && reached < |data|
    ensures p.serialized + |p.buffer| == reached && |p.buffer| < p.limit
    ensures p.limit == Min(size, |data| - p.serialized) && p.serialized % size == 0
    ensures TransmitIfFull(route, count, size, |data|, p) == p
  {
    hide Wire;
  }

  function Zeros(n: nat): (zeros: seq<byte>)
    ensures |zeros| == n
  {
    seq(n, _ => 0)
  }

  lemma SingleFrameWrites(route: RoutingInfo, length: nat, chunks: seq<seq<byte>>, suggestedSize: nat,
                          countsHeader: bool)
    requires FragmentsForLength(length, suggestedSize) == 1
    ensures Flatten([Encode(HeaderFor(route, 0, 1, length))] + chunks)
            == Wire(FramesFor(route, length, Flatten(chunks), suggestedSize, countsHeader))
  {
    hide Wire, Encode, HeaderFor;
    var header := HeaderFor(route, 0, 1, length);
    SingleFrameWire(header, Flatten(chunks));
    FlattenConcat([Encode(header)], chunks);
    EmptyEnds(Encode(header));
    assert Flatten([Encode(header)]) == Encode(header) + Flatten([]);
  }

  lemma FragmentedFrames(route: RoutingInfo, length: nat, pushed: seq<byte>, suggestedSize: nat, countsHeader: bool)
    requires FragmentsForLength(length, suggestedSize) != 1 && suggestedSize > HEADER_SIZE
    ensures var size := suggestedSize - HEADER_SIZE;
            FramesFor(route, length, pushed, suggestedSize, countsHeader)
            == GroupFrames(route, FragmentsForLength(length, suggestedSize) + (if countsHeader then 1 else 0), length,
                           Pieces(if |pushed| < length then WholeBlocks(pushed, size) else pushed, size))
  {
  }

  /** After the last chunk: everything is written, or the whole fragments if fewer bytes came than announced. */
  lemma TransmittedAll(route: RoutingInfo, count: nat, size: nat, pushed: seq<byte>, padding: seq<byte>,
                       data: seq<byte>, p: Progress, reached: nat)
    requires size > 0 && data == pushed + padding && reached <= |data|
    requires Flatten([]) + padding == data[reached..]
    requires |data| > 0 ==> OnTrack(route, count, size, data, p, reached)
    requires |data| == 0 ==> p.writes == [Encode(HeaderFor(route, 0, count, 0))]
    ensures Flatten(p.writes)
            == Wire(GroupFrames(route, count, |data|,
                                Pieces(if |pushed| < |data| then WholeBlocks(pushed, size) else pushed, size)))
  {
    hide Wire, Pieces, DataFrames, GroupFrames, OnTrack, Encode, HeaderFor, BlockStart;
    EmptyEnds(padding);
    assert reached == |pushed|;
    if reached < |data| {
      StopsShort(route, count, size, data, p, reached);
      assert data[..BlockStart(reached, size)] == WholeBlocks(pushed, size);
    } else {
      assert data == pushed;
      if data == [] {
        NothingToSend(route, count, size);
      } else {
        EndsOnTrack(route, count, size, data, p);
      }
    }
  }

  lemma SingleFrameWire(header: Header, data: seq<byte>)
    ensures Wire([Frame(header, data)]) == Encode(header) + data
  {
    assert Wire([]) == [];
  }

  lemma FlattenStep(chunks: seq<seq<byte>>, i: nat)
    requires i < |chunks|
    ensures Flatten(chunks[i..]) == chunks[i] + Flatten(chunks[i + 1..])
  {
    assert chunks[i..][1..] == chunks[i + 1..];
  }

  lemma SplitFirst(chunks: seq<seq<byte>>, i: nat, padding: seq<byte>, data: seq<byte>, reached: nat)
    requires i < |chunks| && reached <= |data| && Flatten(chunks[i..]) + padding == data[reached..]
    ensures reached + |chunks[i]| <= |data|
    ensures data[reached..reached + |chunks[i]|] == chunks[i]
    ensures Flatten(chunks[i + 1..]) + padding == data[reached + |chunks[i]|..]
  {
    hide Flatten;
    var first, later := chunks[i], Flatten(chunks[i + 1..]) + padding;
    FlattenStep(chunks, i);
    ConcatAssociates(first, Flatten(chunks[i + 1..]), padding);
    assert data[reached..] == first + later;
    TakeAndDrop(first, later);
    SliceOfDrop(data, reached, 0, |first|);
    DropOfDrop(data, reached, |first|);
  }

  /** Past a boundary inside the chunk, the code reads too far exactly when less than a fragment is left of it. */
  lemma CrossingDoesNotFit(size: nat, length: nat, start: nat, at: nat, end: nat, limit: nat)
    requires size > 0 && start < at < end <= length
    requires at % size == 0 && limit == Min(size, length - at) && end - at < limit
    ensures !ChunkFits(size, length, start, end)
  {
    SameBlock(at, end, size);
    DivisionAlgorithm(at, size);
    DivisionAlgorithm(start, size);
    if start / size >= at / size {
      MultipleAtMost(at / size, start / size, size);
    }
  }

  lemma ReachingTheEndFits(size: nat, length: nat, start: nat, base: nat, end: nat)
    requires size > 0 && start < end <= length && base % size == 0 && base < end <= base + size
    requires base <= start || end == base + Min(size, length - base)
    ensures ChunkFits(size, length, start, end)
  {
    if end == base + size {
      BlockAfter(base, size);
    } else if base <= start {
      SameBlock(base, start, size);
      SameBlock(base, end, size);
    }
  }

  /** In particular nothing is read too far while the chunks before the last fit into one fragment. */
  lemma {:induction false} EarlyChunksThatFitAreSafe(size: nat, length: nat, chunks: seq<seq<byte>>, start: nat)
    requires size > 0 && start + |Flatten(chunks)| == length
    requires chunks != [] ==> start + |Flatten(chunks[..|chunks| - 1])| <= size
    ensures ChunksFit(size, length, chunks, start)
    decreases |chunks|
  {
    if |chunks| == 1 {
      assert Flatten(chunks) == chunks[0] + Flatten(chunks[1..]);
      assert ChunksFit(size, length, chunks[1..], start + |chunks[0]|);
    } else if chunks != [] {
      var end := start + |chunks[0]|;
      assert chunks[..|chunks| - 1][1..] == chunks[1..][..|chunks| - 2];
      EarlyChunksThatFitAreSafe(size, length, chunks[1..], end);
      if end < size {
        SameBlock(0, start, size);
        SameBlock(0, end, size);
      } else {
        BlockAfter(0, size);
      }
    }
  }

  /** Three chunks of 60 bytes into fragments of 100: the second crosses a boundary and is read too far. */
  lemma CodeReadsTooFar(a: seq<byte>, b: seq<byte>, c: seq<byte>)
    requires |a| == |b| == |c| == 60
    ensures !ChunksFit(100, 180, [a, b, c], 0)
  {
    var later := [a, b, c][1..];
    assert later == [b, c];
    assert !ChunkFits(100, 180, 60, 120);
  }
}
