/**
 From message to receiver: what is read back of a list of messages that the send thread puts on the wire under the
 lengths they announce.
 */
module Letters {
  import opened Bytes
  import opened MessageHeader
  import opened FrameParsing
  import opened ChunkedParsing
  import opened FragmentCount
  import opened Fragmenting
  import opened Reassembly
  import opened RoundTrip
  import opened ShortMessages
  import opened PrimitiveArray
  import opened ArrayCodec
  import opened DtxMessage
  import opened MessageCodec
  import opened EmptyArguments

  /** A message to be sent: what it says and how it is routed. */
  datatype Letter = Letter(content: Content, route: RoutingInfo) {
    /** The frames that the send thread makes of it, with the announced length in their headers. */
    function Frames(suggestedSize: nat): seq<Frame> {
      FramesFor(route, content.Length(), MessageBytes(content), suggestedSize, true)
    }

    ghost predicate Sendable(suggestedSize: nat) {
      WithinLimits(content) && Countable(content.Length(), suggestedSize)
    }

    /** No argument is an empty string or buffer. */
    ghost predicate Intact() {
      NoEmptyArguments(content)
    }

    function AsOutgoing(): Outgoing {
      Outgoing(route, MessageBytes(content))
    }

    /** The message is what was sent: its routing, its type, its arguments without nulls and keys, its payload. */
    predicate ReadBy(m: Message) {
      && m.identifier == route.identifier
      && m.conversationIndex == route.conversationIndex
      && m.channelCode == route.channelCode
      && m.expectsReply == (route.expectsReply != 0)
      && DecodeMessage(m.body) == Decoded(content.messageType, ReceivedArguments(content), content.payload)
    }
  }

  /** The bytes of all letters, one after the other. */
  function WireOfLetters(letters: seq<Letter>, suggestedSize: nat): seq<byte> {
    if letters == [] then [] else
    Wire(letters[0].Frames(suggestedSize)) + WireOfLetters(letters[1..], suggestedSize)
  }

  ghost predicate AllSendable(letters: seq<Letter>, suggestedSize: nat) {
    forall i | 0 <= i < |letters| :: letters[i].Sendable(suggestedSize)
  }

  ghost predicate AllIntact(letters: seq<Letter>) {
    forall i | 0 <= i < |letters| :: letters[i].Intact()
  }

  /** As the identifiers of one connection are (ConnectionRuns.IssuedIdentifiersDiffer). */
  ghost predicate DistinctIdentifiers(letters: seq<Letter>) {
    forall i, j | 0 <= i < j < |letters| :: letters[i].route.identifier != letters[j].route.identifier
  }

  // ---- one letter ----

  /** An intact letter is delivered and read back, whatever follows it. */
  lemma IntactLetter(letter: Letter, suggestedSize: nat, open: OpenFragments, tail: seq<byte>)
    requires letter.Sendable(suggestedSize) && letter.Intact() && letter.route.identifier !in open
    ensures var wire := Wire(letter.Frames(suggestedSize));
            ParseFrames(wire + tail, open)
            == ParseFrames(tail, open).After(|wire|, [letter.AsOutgoing().Received()])
    ensures letter.ReadBy(letter.AsOutgoing().Received())
  {
    hide Wire, ParseFrames, MessageBytes, FramesFrom, FragmentsForLength, DecodeMessage, Ceiling, Flatten, FramesFor;
    hide WithinLimits, NoEmptyArguments;
    MessageLengthAccounting(letter.content);
    MessageRoundTripIff(letter.content);
    OutgoingAsSending(letter.AsOutgoing(), suggestedSize);
    OneMessage(letter.AsOutgoing().AsSending(suggestedSize), open, tail);
  }

  /** How many bytes a letter announces and does not bring. */
  function Gap(letter: Letter): nat {
    if letter.content.arguments.Some? then 4 * EmptyCount(letter.content.arguments.value) else 0
  }

  lemma GapIs(letter: Letter)
    requires WithinLimits(letter.content)
    ensures |MessageBytes(letter.content)| + Gap(letter) == letter.content.Length()
    ensures letter.Intact() <==> Gap(letter) == 0
    ensures !letter.Intact() ==> letter.content.arguments.Some? && EmptyCount(letter.content.arguments.value) > 0
  {
    hide MessageBytes, WithinLimits, NoEmptyBytes;
    MessageLengthAccounting(letter.content);
    if letter.content.arguments.Some? {
      NoEmptyBytesIsCountZero(letter.content.arguments.value);
    }
  }

  /** What the frames of a letter that is not intact look like: a single one, or a group without its last. */
  lemma ShortFrames(letter: Letter, suggestedSize: nat) returns (count: nat, pieces: seq<seq<byte>>)
    requires letter.Sendable(suggestedSize) && !letter.Intact()
    requires FragmentsForLength(letter.content.Length(), suggestedSize) != 1
    ensures letter.Frames(suggestedSize) == GroupFrames(letter.route, count, letter.content.Length(), pieces)
    ensures |pieces| + 1 < count <= 0xFFFF
    ensures forall i | 0 <= i < |pieces| :: |pieces[i]| < LENGTH_LIMIT
  {
    hide MessageBytes, Pieces, GroupFrames, FragmentsForLength, Ceiling, BlockStart, WithinLimits, FramesFor;
    var data, announced := MessageBytes(letter.content), letter.content.Length();
    var size := suggestedSize - HEADER_SIZE;
    GapIs(letter);
    count, pieces := ShortMessageFrames(letter.route, announced, data, suggestedSize);
    PieceLengths(WholeBlocks(data, size), size);
  }

  lemma SingleFrames(letter: Letter, suggestedSize: nat)
    requires FragmentsForLength(letter.content.Length(), suggestedSize) == 1
    ensures Wire(letter.Frames(suggestedSize))
            == SingleWire(letter.route, letter.content.Length(), MessageBytes(letter.content))
  {
  }

  /** The first message that comes out, if any, is under another identifier than `id`. */
  ghost predicate FirstIsNot(bytes: seq<byte>, open: OpenFragments, id: uint32) {
    var messages := ParseFrames(bytes, open).messages;
    messages != [] ==> messages[0].identifier != id
  }

  /** So it is with the fragments `body` open under `own`. */
  ghost predicate FirstIsNotWith(bytes: seq<byte>, open: OpenFragments, own: uint32, body: seq<byte>, id: uint32) {
    FirstIsNot(bytes, open[own := body], id)
  }

  /** A letter that is not intact comes out under its own identifier or leaves the first place to others. */
  lemma ShortLetter(letter: Letter, suggestedSize: nat, open: OpenFragments, tail: seq<byte>, id: uint32)
    requires letter.Sendable(suggestedSize) && !letter.Intact() && letter.route.identifier !in open
    requires forall body :: FirstIsNotWith(tail, open, letter.route.identifier, body, id)
    requires FragmentsForLength(letter.content.Length(), suggestedSize) == 1 ==> letter.route.identifier != id
    ensures FirstIsNot(Wire(letter.Frames(suggestedSize)) + tail, open, id)
  {
    hide Wire, ParseFrames, MessageBytes, FragmentsForLength, Flatten, WithinLimits, SingleWire, FramesFor;
    GapIs(letter);
    if FragmentsForLength(letter.content.Length(), suggestedSize) == 1 {
      SingleFrames(letter, suggestedSize);
      ShortSingle(letter.route, letter.content.Length(), MessageBytes(letter.content), tail, open);
    } else {
      var count, pieces := ShortFrames(letter, suggestedSize);
      ShortGroup(letter.route, count, letter.content.Length(), pieces, open, tail);
      assert FirstIsNotWith(tail, open, letter.route.identifier, Flatten(pieces), id);
    }
  }

  // ---- all letters ----

  function ReceivedLetters(letters: seq<Letter>): (messages: seq<Message>)
    ensures |messages| == |letters|
  {
    if letters == [] then [] else [letters[0].AsOutgoing().Received()] + ReceivedLetters(letters[1..])
  }

  /** Letters in front that are intact are delivered in order, whatever the others are. */
  lemma {:induction false} IntactLettersFirst(front: seq<Letter>, back: seq<Letter>, suggestedSize: nat)
    requires AllSendable(front, suggestedSize) && AllIntact(front)
    ensures WireOfLetters(front + back, suggestedSize)
            == WireOfLetters(front, suggestedSize) + WireOfLetters(back, suggestedSize)
    ensures ParseFrames(WireOfLetters(front + back, suggestedSize), map[])
            == ParseFrames(WireOfLetters(back, suggestedSize), map[])
               .After(|WireOfLetters(front, suggestedSize)|, ReceivedLetters(front))
    ensures forall i | 0 <= i < |front| :: front[i].ReadBy(ReceivedLetters(front)[i])
    decreases |front|
  {
    hide Wire, ParseFrames, FramesFor, DecodeMessage, MessageBytes, WithinLimits, NoEmptyArguments, Countable;
    var backWire := WireOfLetters(back, suggestedSize);
    if front == [] {
      EmptyEnds(back);
      EmptyEnds(backWire);
      AfterNothing(ParseFrames(backWire, map[]));
    } else {
      var letter, later := front[0], front[1..];
      var wire, rest := Wire(letter.Frames(suggestedSize)), WireOfLetters(later, suggestedSize);
      assert front + back == [letter] + (later + back);
      TakeAndDrop([letter], later + back);
      IntactLettersFirst(later, back, suggestedSize);
      IntactLetter(letter, suggestedSize, map[], rest + backWire);
      ConcatAssociates(wire, rest, backWire);
      AfterAfter(ParseFrames(backWire, map[]), |wire|, [letter.AsOutgoing().Received()], |rest|,
                 ReceivedLetters(later));
    }
  }

  /** Letters under other identifiers than `id` deliver first, if anything, a message under one of theirs. */
  lemma {:induction false} OthersFirst(letters: seq<Letter>, suggestedSize: nat, open: OpenFragments, id: uint32)
    requires AllSendable(letters, suggestedSize) && DistinctIdentifiers(letters)
    requires forall i | 0 <= i < |letters| ::
               letters[i].route.identifier != id && letters[i].route.identifier !in open
    ensures FirstIsNot(WireOfLetters(letters, suggestedSize), open, id)
    decreases |letters|
  {
    hide Wire, ParseFrames, FramesFor, DecodeMessage, MessageBytes, WithinLimits, NoEmptyArguments, Countable;
    if letters == [] {
      ParseOfNothing(open);
    } else {
      var letter, later := letters[0], letters[1..];
      if letter.Intact() {
        IntactLetter(letter, suggestedSize, open, WireOfLetters(later, suggestedSize));
      } else {
        var own, tail := letter.route.identifier, WireOfLetters(later, suggestedSize);
        forall body ensures FirstIsNotWith(tail, open, own, body, id) {
          OthersFirst(later, suggestedSize, open[own := body], id);
        }
        ShortLetter(letter, suggestedSize, open, tail, id);
      }
    }
  }

  lemma MagicFirst(h: Header)
    requires h.magic == MAGIC
    ensures NoZeros(Encode(h)[..4])
  {
    assert LittleEndian(MAGIC, 4) == [0x79, 0x5B, 0x3D, 0x1F];
    assert Encode(h)[..4] == LittleEndian(MAGIC, 4);
  }

  lemma FramesStart(letter: Letter, suggestedSize: nat)
    ensures letter.Frames(suggestedSize) != [] && letter.Frames(suggestedSize)[0].header.magic == MAGIC
  {
    hide MessageBytes, FragmentsForLength, Pieces, WholeBlocks, DataFrames;
  }

  /** What follows a letter starts with a frame header, so with four bytes that are not zero. */
  lemma WireStartsNonZero(letters: seq<Letter>, suggestedSize: nat)
    requires letters != []
    ensures |WireOfLetters(letters, suggestedSize)| >= 4 && NoZeros(WireOfLetters(letters, suggestedSize)[..4])
  {
    hide FramesFor, Encode, MessageBytes, NoZeros;
    var frames := letters[0].Frames(suggestedSize);
    FramesStart(letters[0], suggestedSize);
    var header := frames[0].header;
    MagicFirst(header);
    assert FrameBytes(header, frames[0].data)[..4] == Encode(header)[..4];
    assert Wire(frames)[..4] == FrameBytes(header, frames[0].data)[..4];
    assert WireOfLetters(letters, suggestedSize)[..4] == Wire(frames)[..4];
  }

  /** The first of the letters is lost if it is not intact: nothing is delivered, or something else in its place. */
  lemma OffenderIsLost(letters: seq<Letter>, suggestedSize: nat)
    requires letters != [] && AllSendable(letters, suggestedSize) && DistinctIdentifiers(letters)
    requires !letters[0].Intact()
    ensures var messages := ParseFrames(WireOfLetters(letters, suggestedSize), map[]).messages;
            messages != [] ==> !letters[0].ReadBy(messages[0])
  {
    hide Wire, ParseFrames, FramesFor, DecodeMessage, MessageBytes, WithinLimits, NoEmptyArguments, Countable;
    hide FragmentsForLength;
    var letter, tail := letters[0], WireOfLetters(letters[1..], suggestedSize);
    if FragmentsForLength(letter.content.Length(), suggestedSize) == 1 {
      SingleOffenderIsLost(letter, letters[1..], suggestedSize);
    } else {
      var id := letter.route.identifier;
      forall body ensures FirstIsNotWith(tail, map[], id, body, id) {
        OthersFirst(letters[1..], suggestedSize, map[][id := body], id);
      }
      ShortLetter(letter, suggestedSize, map[], tail, id);
    }
  }

  /** A single frame that takes the start of the next one for its end is misread. */
  lemma SingleOffenderIsLost(letter: Letter, later: seq<Letter>, suggestedSize: nat)
    requires letter.Sendable(suggestedSize) && !letter.Intact()
    requires FragmentsForLength(letter.content.Length(), suggestedSize) == 1
    ensures var tail := WireOfLetters(later, suggestedSize);
            var messages := ParseFrames(Wire(letter.Frames(suggestedSize)) + tail, map[]).messages;
            messages != [] ==> !letter.ReadBy(messages[0])
  {
    hide Wire, ParseFrames, FramesFor, DecodeMessage, MessageBytes, WithinLimits, FragmentsForLength;
    hide SingleWire, NoZeros;
    var tail := WireOfLetters(later, suggestedSize);
    GapIs(letter);
    SingleFrames(letter, suggestedSize);
    ShortSingle(letter.route, letter.content.Length(), MessageBytes(letter.content), tail, map[]);
    if |tail| >= Gap(letter) {
      WireStartsNonZero(later, suggestedSize);
      assert tail[..Gap(letter)][..4] == tail[..4];
      LengthenedMessageIsMisread(letter.content, tail[..Gap(letter)]);
    }
  }

  // ---- the receiver ----

  /** Every letter is delivered and read back in order, and nothing is left in the parser. */
  ghost predicate AllArrive(letters: seq<Letter>, f: FeedResult) {
    && f.status == Fine
    && f.state.buffer == []
    && f.state.open == map[]
    && |f.state.queue| == |letters|
    && forall i | 0 <= i < |letters| :: letters[i].ReadBy(f.state.queue[i])
  }

  /** The intact letters before the first other one are delivered and read back in order, under every cut. */
  lemma IntactPrefixArrives(letters: seq<Letter>, suggestedSize: nat, chunks: seq<seq<byte>>, k: nat)
    requires k <= |letters| && AllSendable(letters[..k], suggestedSize) && AllIntact(letters[..k])
    requires Flatten(chunks) == WireOfLetters(letters, suggestedSize)
    ensures var f := FeedAll(true, FRESH, chunks);
            k <= |f.state.queue| && forall i | 0 <= i < k :: letters[i].ReadBy(f.state.queue[i])
    ensures FeedAll(true, FRESH, chunks).state.queue[k..]
            == ParseFrames(WireOfLetters(letters[k..], suggestedSize), map[]).messages
  {
    hide ParseFrames, FeedAll, Flatten, WireOfLetters, ReceivedLetters;
    assert letters[..k] + letters[k..] == letters;
    IntactLettersFirst(letters[..k], letters[k..], suggestedSize);
    ChunkingIndependence(chunks, chunks);
    var later := ParseFrames(WireOfLetters(letters[k..], suggestedSize), map[]).messages;
    EmptyEnds(ReceivedLetters(letters[..k]) + later);
    TakeAndDrop(ReceivedLetters(letters[..k]), later);
    var queue := FeedAll(true, FRESH, chunks).state.queue;
    assert queue == ReceivedLetters(letters[..k]) + later;
    forall i | 0 <= i < k ensures letters[i].ReadBy(queue[i]) {
      assert letters[..k][i].ReadBy(ReceivedLetters(letters[..k])[i]);
    }
  }

  /** Intact letters all arrive, however the bytes are cut and whatever their identifiers. */
  lemma IntactLettersArrive(letters: seq<Letter>, suggestedSize: nat, chunks: seq<seq<byte>>)
    requires AllSendable(letters, suggestedSize) && AllIntact(letters)
    requires Flatten(chunks) == WireOfLetters(letters, suggestedSize)
    ensures AllArrive(letters, FeedAll(true, FRESH, chunks))
  {
    hide ParseFrames, FeedAll, Flatten, WireOfLetters, ReceivedLetters;
    var wire := WireOfLetters(letters, suggestedSize);
    EmptyEnds(letters);
    EmptyEnds(wire);
    IntactLettersFirst(letters, [], suggestedSize);
    NoLetters(suggestedSize);
    ParseOfNothing(map[]);
    ChunkingIndependence(chunks, chunks);
    EmptyEnds(ReceivedLetters(letters));
  }

  lemma NoLetters(suggestedSize: nat)
    ensures WireOfLetters([], suggestedSize) == []
  {
  }

  lemma {:induction false} FirstOffender(letters: seq<Letter>) returns (k: nat)
    requires !AllIntact(letters)
    ensures k < |letters| && AllIntact(letters[..k]) && !letters[k].Intact()
    decreases |letters|
  {
    if !letters[0].Intact() {
      k := 0;
    } else {
      assert letters == [letters[0]] + letters[1..];
      var later := FirstOffender(letters[1..]);
      k := later + 1;
      assert forall i | 0 < i < k :: letters[..k][i] == letters[1..][..later][i - 1];
    }
  }

  /**
   Everything together: the letters on the wire, however it is cut, are all delivered and read back, with nothing
   left, exactly when none of them has an empty string or buffer argument.
   */
  lemma LettersArriveIff(letters: seq<Letter>, suggestedSize: nat, chunks: seq<seq<byte>>)
    requires AllSendable(letters, suggestedSize) && DistinctIdentifiers(letters)
    requires Flatten(chunks) == WireOfLetters(letters, suggestedSize)
    ensures AllArrive(letters, FeedAll(true, FRESH, chunks)) <==> AllIntact(letters)
  {
    hide ParseFrames, FeedAll, Flatten, WireOfLetters, Countable, WithinLimits, NoEmptyArguments, DecodeMessage;
    if AllIntact(letters) {
      IntactLettersArrive(letters, suggestedSize, chunks);
    } else {
      var k := FirstOffender(letters);
      IntactPrefixArrives(letters, suggestedSize, chunks, k);
      OffenderIsLost(letters[k..], suggestedSize);
      var queue := FeedAll(true, FRESH, chunks).state.queue;
      if |queue| == |letters| {
        assert queue[k..][0] == queue[k] && letters[k..][0] == letters[k];
      }
    }
  }
}
