/** The sending side of the transport: small writes gathered into a fixed buffer. */
module BufferedTransport {
  import opened Bytes

  /** The real transport: it takes a write whole or refuses it, as the environment decides. */
  class Transport {
    var sent: seq<byte>
    ghost var writes: seq<seq<byte>>  // what it has taken, write by write
    var answers: seq<bool>

    /** No write still to come is refused. */
    ghost predicate Reliable()
      reads this
    {
      forall i | 0 <= i < |answers| :: answers[i]
    }

    constructor (answers: seq<bool>)
      ensures sent == [] && writes == [] && this.answers == answers
    {
      sent, writes, this.answers := [], [], answers;
    }

    method Send(data: seq<byte>) returns (ok: bool)
      modifies this
      ensures sent == if ok then old(sent) + data else old(sent)
      ensures writes == if ok then old(writes) + [data] else old(writes)
      ensures old(Reliable()) ==> ok && Reliable()
    {
      ok := answers == [] || answers[0];
      answers := if answers == [] then [] else answers[1..];
      if ok {
        sent, writes := sent + data, writes + [data];
      }
    }
  }

  /** What flushing these bytes writes: one write, or none for no bytes. */
  function Writes(pending: seq<byte>): seq<seq<byte>> {
    if pending == [] then [] else [pending]
  }

  /** How far the copying of `data` has got: what is buffered now and what has been written since. */
  ghost predicate Stage(pending: seq<byte>, data: seq<byte>, offset: nat, capacity: nat, now: seq<byte>,
                        added: seq<seq<byte>>)
  {
    && offset <= |data| && |now| < capacity
    && if added == [] then now == pending + data[..offset]
       else
         && |pending| < capacity <= |pending| + offset
         && added == [(pending + data)[..capacity]]
         && now == data[capacity - |pending|..offset]
  }

  lemma NothingCopied(pending: seq<byte>, data: seq<byte>, capacity: nat)
    requires |pending| < capacity
    ensures Stage(pending, data, 0, capacity, pending, [])
  {
    EmptyEnds(pending);
    assert data[..0] == [];
  }

  lemma NothingAdded(sent: seq<byte>, writes: seq<seq<byte>>)
    ensures sent + Flatten([]) == sent && writes + [] == writes
  {
  }

  /** One round of the copying loop. */
  lemma StageStep(pending: seq<byte>, data: seq<byte>, offset: nat, len: nat, capacity: nat, now: seq<byte>,
                  added: seq<seq<byte>>)
    requires Stage(pending, data, offset, capacity, now, added) && |pending| < capacity && offset < |data| < capacity
    requires len == if capacity - |now| < |data| - offset then capacity - |now| else |data| - offset
    ensures offset + len <= |data|
    ensures var next := now + data[offset..offset + len];
            if |next| == capacity then added == [] && Stage(pending, data, offset + len, capacity, [], [next])
            else Stage(pending, data, offset + len, capacity, next, added)
  {
    var next := now + data[offset..offset + len];
    if added == [] {
      assert next == pending + data[..offset + len];
      if |next| == capacity {
        assert (pending + data)[..capacity] == next;
        assert data[capacity - |pending|..offset + len] == [];
      }
    } else {
      assert next == data[capacity - |pending|..offset + len];
    }
  }

  lemma StageEnds(pending: seq<byte>, data: seq<byte>, capacity: nat, now: seq<byte>, added: seq<seq<byte>>)
    requires Stage(pending, data, |data|, capacity, now, added) && |pending| < capacity && |data| < capacity
    ensures var all := pending + data;
            if |all| < capacity then now == all && added == []
            else now == all[capacity..] && added == [all[..capacity]]
  {
    assert data[..|data|] == data;
  }

  class BufferedDTXTransport {
    const transport: Transport
    const buffer: array<byte>
    var bufferUsed: nat

    /** Between calls a buffer with room is never full. */
    ghost predicate Valid()
      reads this
    {
      bufferUsed < buffer.Length || bufferUsed == buffer.Length == 0
    }

    /** Bytes taken but not passed down yet. */
    ghost function Pending(): seq<byte>
      requires bufferUsed <= buffer.Length
      reads this, buffer
    {
      buffer[..bufferUsed]
    }

    constructor (transport: Transport, buffer: array<byte>)
      ensures Valid() && Pending() == []
      ensures this.transport == transport && this.buffer == buffer
    {
      this.transport, this.buffer, bufferUsed := transport, buffer, 0;
    }

    /** Nothing is lost, duplicated or reordered; a failure has passed down some beginning of what was due. */
    method Send(data: seq<byte>) returns (ok: bool)
      requires Valid()
      modifies this, buffer, transport
      ensures Valid()
      ensures ok ==> transport.sent + Pending() == old(transport.sent + Pending()) + data
      ensures !ok ==> old(transport.sent) <= transport.sent <= old(transport.sent + Pending()) + data
      ensures ok && |data| >= buffer.Length ==>
                && Pending() == []
                && transport.writes == old(transport.writes) + Writes(old(Pending())) + [data]
      ensures ok && |data| < buffer.Length ==>
                var all := old(Pending()) + data;
                if |all| < buffer.Length then Pending() == all && transport.writes == old(transport.writes)
                else
                  && Pending() == all[buffer.Length..]
                  && transport.writes == old(transport.writes) + [all[..buffer.Length]]
      ensures old(transport.Reliable()) ==> ok && transport.Reliable()
    {
      if |data| >= buffer.Length {
        ok := Flush();
        if !ok {
          return;
        }
        ok := transport.Send(data);
        return;
      }
      ok := Copy(data);
    }

    /** The copying loop of Send. */
    method Copy(data: seq<byte>) returns (ok: bool)
      requires Valid() && |data| < buffer.Length
      modifies this, buffer, transport
      ensures Valid()
      ensures ok ==> transport.sent + Pending() == old(transport.sent + Pending()) + data
      ensures !ok ==> old(transport.sent) <= transport.sent <= old(transport.sent + Pending()) + data
      ensures ok ==>
                var all := old(Pending()) + data;
                if |all| < buffer.Length then Pending() == all && transport.writes == old(transport.writes)
                else
                  && Pending() == all[buffer.Length..]
                  && transport.writes == old(transport.writes) + [all[..buffer.Length]]
      ensures old(transport.Reliable()) ==> ok && transport.Reliable()
    {
      hide Stage, Flatten;
      ghost var pending, sent, writes, added := Pending(), transport.sent, transport.writes, [];
      var offset := 0;
      NothingCopied(pending, data, buffer.Length);
      NothingAdded(sent, writes);
      while offset < |data|
        invariant Valid() && offset <= |data|
        invariant Stage(pending, data, offset, buffer.Length, Pending(), added)
        invariant transport.writes == writes + added && transport.sent == sent + Flatten(added)
        invariant old(transport.Reliable()) ==> transport.Reliable()
        decreases |data| - offset
      {
        var room, left := buffer.Length - bufferUsed, |data| - offset;
        var len := if room < left then room else left;
        StageStep(pending, data, offset, len, buffer.Length, Pending(), added);
        Fill(data[offset..offset + len]);
        offset := offset + len;
        if bufferUsed >= buffer.Length {
          added := [Pending()];
          FlattenOne(Pending());
          ok := Flush();
          if !ok {
            return;
          }
        }
      }
      StageEnds(pending, data, buffer.Length, Pending(), added);
      AllCopied(sent, pending, data, buffer.Length, Pending(), added);
      return true;
    }

    /** Copies bytes for which there is room behind those already buffered. */
    method Fill(bytes: seq<byte>)
      requires bufferUsed + |bytes| <= buffer.Length
      modifies this`bufferUsed, buffer
      ensures bufferUsed == old(bufferUsed) + |bytes|
      ensures Pending() == old(Pending()) + bytes
    {
      forall i | 0 <= i < |bytes| {
        buffer[bufferUsed + i] := bytes[i];
      }
      bufferUsed := bufferUsed + |bytes|;
    }

    /** Passes everything down; the buffer is emptied even when that fails. */
    method Flush() returns (ok: bool)
      requires bufferUsed <= buffer.Length
      modifies this`bufferUsed, transport
      ensures Valid() && Pending() == []
      ensures transport.sent == if ok then old(transport.sent + Pending()) else old(transport.sent)
      ensures transport.writes == if ok then old(transport.writes) + Writes(old(Pending())) else old(transport.writes)
      ensures old(transport.Reliable()) ==> ok && transport.Reliable()
    {
      if bufferUsed == 0 {
        return true;
      }
      ok := transport.Send(buffer[..bufferUsed]);
      bufferUsed := 0;
    }
  }

  lemma AllCopied(sent: seq<byte>, pending: seq<byte>, data: seq<byte>, capacity: nat, now: seq<byte>,
                  added: seq<seq<byte>>)
    requires var all := pending + data;
             if |all| < capacity then now == all && added == []
             else now == all[capacity..] && added == [all[..capacity]]
    ensures (sent + Flatten(added)) + now == (sent + pending) + data
  {
    var all := pending + data;
    ConcatAssociates(sent, pending, data);
    if |all| < capacity {
      EmptyEnds(sent);
    } else {
      FlattenOne(all[..capacity]);
      JoinSlices(all, capacity, |all|);
      ConcatAssociates(sent, all[..capacity], all[capacity..]);
    }
  }
}
