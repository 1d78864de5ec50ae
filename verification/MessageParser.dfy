/** DTXMessageParser: the in-place parser, proved to compute ChunkedParsing.Feed. */
module MessageParser {
  import opened Bytes
  import opened MessageHeader
  import opened FrameParsing
  import opened ChunkedParsing
  import opened BufferMemory

  class DTXMessageParser {
    const clears: bool
    const parsingBuffer: BufferMemory
    var fragmentsByIdentifier: OpenFragments
    var parsedMessages: seq<Message>

    ghost predicate Valid()
      reads this, parsingBuffer
    {
      parsingBuffer.Valid()
    }

    ghost function View(): ParserState
      requires Valid()
      reads this, parsingBuffer, parsingBuffer.data
    {
      ParserState(parsingBuffer.Contents(), fragmentsByIdentifier, parsedMessages)
    }

    constructor (clears: bool)
      ensures Valid() && View() == FRESH && this.clears == clears
      ensures fresh(parsingBuffer) && fresh(parsingBuffer.data)
    {
      this.clears := clears;
      parsingBuffer := new BufferMemory();
      fragmentsByIdentifier, parsedMessages := map[], [];
    }

    /** Parses as many frames as the retained bytes and the new ones hold, and keeps the rest. */
    method ParseIncomingBytes(bytes: seq<byte>) returns (status: Status)
      requires Valid()
      modifies this, parsingBuffer, parsingBuffer.data
      ensures Valid() && (parsingBuffer.data == old(parsingBuffer.data) || fresh(parsingBuffer.data))
      ensures View() == Feed(clears, old(View()), bytes).state
      ensures status == Feed(clears, old(View()), bytes).status
    {
      hide ParseFrames;
      hide NextFrame;
      AppendIncoming(bytes);
      var consumed;
      consumed, status := ParseBufferedFrames();
      if status == Fine && consumed > 0 {
        var left := parsingBuffer.size - consumed;
        if left > 0 {
          parsingBuffer.ShiftDown(consumed, left);
        } else if clears {
          parsingBuffer.SetSize(0);
        }
      }
    }

    /** The parsing loop: takes frames from the front of the buffer without moving any byte. */
    method ParseBufferedFrames() returns (consumed: nat, status: Status)
      requires Valid()
      modifies this`fragmentsByIdentifier, this`parsedMessages
      ensures Valid()
      ensures ParseFrames(parsingBuffer.Contents(), old(fragmentsByIdentifier)).consumed == consumed
      ensures ParseFrames(parsingBuffer.Contents(), old(fragmentsByIdentifier)).status == status
      ensures ParseFrames(parsingBuffer.Contents(), old(fragmentsByIdentifier)).open == fragmentsByIdentifier
      ensures parsedMessages
              == old(parsedMessages) + ParseFrames(parsingBuffer.Contents(), old(fragmentsByIdentifier)).messages
    {
      hide ParseFrames;
      hide NextFrame;
      consumed := 0;
      var bufferSize := parsingBuffer.size;
      ghost var all, delivered := parsingBuffer.Contents(), [];
      assert all[0..] == all;
      while true
        invariant consumed <= bufferSize
        invariant parsedMessages == old(parsedMessages) + delivered
        invariant ParseFrames(all, old(fragmentsByIdentifier))
                  == ParseFrames(all[consumed..], fragmentsByIdentifier).After(consumed, delivered)
        decreases bufferSize - consumed
      {
        ghost var rest, open := all[consumed..], fragmentsByIdentifier;
        NoFrameTaken(rest, open);
        var took, size;
        ghost var taken;
        took, status, size, taken := ParseNextFrame(consumed);
        if !took {
          return consumed, status;
        }
        TakeFrame(rest, open, size, taken, fragmentsByIdentifier, consumed, delivered);
        assert rest[size..] == all[consumed + size..];
        consumed := consumed + size;
        delivered := delivered + taken;
      }
    }

    /** One round of that loop: takes the frame at `at` if all of it is there. */
    method ParseNextFrame(at: nat) returns (took: bool, status: Status, size: nat, ghost taken: seq<Message>)
      requires Valid() && at <= parsingBuffer.size
      modifies this`fragmentsByIdentifier, this`parsedMessages
      ensures Valid() && parsedMessages == old(parsedMessages) + taken
      ensures NextFrame(parsingBuffer.Contents()[at..], old(fragmentsByIdentifier))
              == if took then Took(size, taken, fragmentsByIdentifier)
                 else if status == Fine then NeedMore else Stop(status)
      ensures !took ==> fragmentsByIdentifier == old(fragmentsByIdentifier) && taken == []
    {
      took, size, taken := false, 0, [];
      if parsingBuffer.size < at + HEADER_SIZE {
        return took, Fine, size, taken;
      }
      var header := HeaderAt(at);
      hide Decode;
      if header.magic != MAGIC {
        return took, BadMagic, size, taken;
      }
      if header.headerSize != HEADER_SIZE {
        return took, BadHeaderSize, size, taken;
      }
      var sizeWithHeader := (header.headerSize + header.length) % TWO_TO_THE_32;
      if parsingBuffer.size < at + sizeWithHeader {
        return took, Fine, size, taken;
      }
      if sizeWithHeader != header.headerSize + header.length {
        return took, Wrapped, size, taken;
      }
      hide ParseMessageWithHeader;
      var start := at + HEADER_SIZE;
      var data := parsingBuffer.data[start..start + header.length];
      SliceOfDrop(parsingBuffer.Contents(), at, HEADER_SIZE, HEADER_SIZE + header.length);
      parsingBuffer.SliceOfContents(start, start + header.length);
      var used;
      used, taken := ParseMessage(header, data);
      took, status, size := true, Fine, header.headerSize + used;
    }

    /** Copies the incoming bytes behind the retained ones. */
    method AppendIncoming(bytes: seq<byte>)
      requires Valid()
      modifies parsingBuffer, parsingBuffer.data
      ensures Valid() && (parsingBuffer.data == old(parsingBuffer.data) || fresh(parsingBuffer.data))
      ensures parsingBuffer.Contents() == old(parsingBuffer.Contents()) + bytes
    {
      var at := parsingBuffer.Allocate(|bytes|);
      forall i | 0 <= i < |bytes| {
        parsingBuffer.data[at + i] := bytes[i];
      }
      assert parsingBuffer.data[..at] == old(parsingBuffer.Contents());
    }

    method HeaderAt(at: nat) returns (h: Header)
      requires Valid() && at + HEADER_SIZE <= parsingBuffer.size
      ensures h == Decode(parsingBuffer.Contents()[at..])
    {
      var bytes := parsingBuffer.data[at..at + HEADER_SIZE];
      ghost var rest := parsingBuffer.Contents()[at..];
      assert rest == bytes + rest[HEADER_SIZE..];
      DecodeOfPrefix(bytes, rest[HEADER_SIZE..]);
      h := Decode(bytes);
    }

    /** ParseMessageWithHeader: one complete frame. */
    method ParseMessage(header: Header, data: seq<byte>) returns (used: nat, ghost delivered: seq<Message>)
      modifies this`fragmentsByIdentifier, this`parsedMessages
      ensures ParseMessageWithHeader(header, data, old(fragmentsByIdentifier))
              == FrameEffect(used, delivered, fragmentsByIdentifier)
      ensures parsedMessages == old(parsedMessages) + delivered
    {
      delivered := [];
      if header.fragmentCount == 1 {
        var message := MessageFrom(header, data);
        delivered := [message];
        parsedMessages := parsedMessages + [message];
        return |data|, delivered;
      }
      if header.fragmentIndex == 0 {
        if header.identifier !in fragmentsByIdentifier {
          fragmentsByIdentifier := fragmentsByIdentifier[header.identifier := []];
        }
        return 0, delivered;
      }
      if header.identifier !in fragmentsByIdentifier {
        return 0, delivered;
      }
      var body := fragmentsByIdentifier[header.identifier] + data;
      if header.fragmentIndex == header.fragmentCount - 1 {
        var message := MessageFrom(header, body);
        delivered := [message];
        parsedMessages := parsedMessages + [message];
        fragmentsByIdentifier := fragmentsByIdentifier - {header.identifier};
      } else {
        fragmentsByIdentifier := fragmentsByIdentifier[header.identifier := body];
      }
      return |data|, delivered;
    }

    /** Moves every parsed message out, oldest first. */
    method PopAllParsedMessages() returns (result: seq<Message>)
      modifies this`parsedMessages
      ensures result == old(parsedMessages) && parsedMessages == []
    {
      result := [];
      while parsedMessages != []
        invariant result + parsedMessages == old(parsedMessages)
        decreases |parsedMessages|
      {
        var message := parsedMessages[0];
        result := result + [message];
        parsedMessages := parsedMessages[1..];
      }
    }
  }

  lemma NoFrameTaken(bytes: seq<byte>, open: OpenFragments)
    ensures match NextFrame(bytes, open)
            case NeedMore => ParseFrames(bytes, open) == Outcome([], open, 0, Fine)
            case Stop(reason) => ParseFrames(bytes, open) == Outcome([], open, 0, reason)
            case Took(_, _, _) => true
  {
  }

  /** One round of the loop, on the parse that is still to be done. */
  lemma TakeFrame(bytes: seq<byte>, open: OpenFragments, size: nat, taken: seq<Message>, open': OpenFragments,
                  earlierSize: nat, earlier: seq<Message>)
    requires NextFrame(bytes, open) == Took(size, taken, open')
    ensures ParseFrames(bytes, open).After(earlierSize, earlier)
            == ParseFrames(bytes[size..], open').After(earlierSize + size, earlier + taken)
  {
    hide NextFrame;
    AfterAfter(ParseFrames(bytes[size..], open'), earlierSize, earlier, size, taken);
  }
}
