/** The send thread's work on one message: from the message object to the transport. */
module SendPath {
  import opened Bytes
  import opened DtxMessage
  import opened MessageCodec
  import opened Fragmenting
  import opened BufferedTransport

  const SEND_BUFFER_SIZE := 8 * 1024

  /** Passes the transmitter's writes through a buffered transport and flushes it: not a byte stays behind. */
  method SendBuffered(transport: Transport, writes: seq<seq<byte>>) returns (ok: bool)
    modifies transport
    ensures ok ==> transport.sent == old(transport.sent) + Flatten(writes)
    ensures old(transport.Reliable()) ==> ok && transport.Reliable()
  {
    var sendBuffer := new byte[SEND_BUFFER_SIZE];
    var buffered := new BufferedDTXTransport(transport, sendBuffer);
    ok := true;
    var i := 0;
    EmptyEnds(transport.sent);
    while i < |writes|
      invariant i <= |writes| && buffered.Valid() && fresh(buffered) && fresh(buffered.buffer)
      invariant buffered.transport == transport
      invariant ok ==> transport.sent + buffered.Pending() == old(transport.sent) + Flatten(writes[..i])
      invariant old(transport.Reliable()) ==> ok && transport.Reliable()
    {
      assert writes[..i + 1] == writes[..i] + [writes[i]];
      FlattenSnoc(writes[..i], writes[i]);
      ConcatAssociates(old(transport.sent), Flatten(writes[..i]), writes[i]);
      var sent := buffered.Send(writes[i]);
      ok := ok && sent;
      i := i + 1;
    }
    assert writes[..i] == writes;
    var flushed := buffered.Flush();
    EmptyEnds(transport.sent);
    ok := ok && flushed;
  }

  /**
   One round of the send thread: the message's frames reach the transport. `goesOn` is the transmitter's return
   value: the thread disconnects without it, and it is false for every fragmented message, sent or not.
   */
  method SendMessage<O(!new)>(message: DTXMessage<O>, route: RoutingInfo, transmitter: DTXMessageTransmitter,
                              transport: Transport)
    returns (goesOn: bool, overread: bool)
    requires message.Valid() && WithinLimits(message.View())
    modifies message, message.auxiliary, transport
    ensures message.Valid() && message.View() == old(message.View())
    ensures goesOn <==> !IsFragmented(message.View().Length(), transmitter.suggestedFragmentSize)
    ensures transmitter.bounded ==> !overread
    ensures old(transport.Reliable()) && !overread ==>
              transport.sent
              == old(transport.sent)
                 + Wire(FramesFor(route, message.View().Length(), MessageBytes(message.View()),
                                  transmitter.suggestedFragmentSize, transmitter.countsHeader))
    ensures NoEmptyArguments(message.View()) ==> message.View().Length() == |MessageBytes(message.View())|
  {
    hide Wire, FramesFor, MessageBytes, Flatten, ChunksFit;
    var length := message.SerializedLength();
    var chunks := message.SerializeTo();
    MessageLengthAccounting(message.View());
    ChunksAreNonEmpty(message.View());
    assert MessageBytes(message.View()) == Flatten(chunks) by { BytesOfChunks(message.View()); }
    var writes;
    goesOn, writes, overread := transmitter.TransmitMessage(length, chunks, route);
    if !overread {
      var ok := SendBuffered(transport, writes);
    }
  }

  lemma BytesOfChunks(c: Content)
    ensures MessageBytes(c) == Flatten(c.Chunks())
  {
  }
}
