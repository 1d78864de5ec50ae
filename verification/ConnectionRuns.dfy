/** What holds in every run of the connection, whatever the order of its threads' steps. */
module ConnectionRuns {
  import opened Bytes
  import opened ReplyRouting

  /**
   A handler fires at most once, only for a message with its own channel and identifier, and with the callback of
   the call that was given this identifier.
   */
  lemma HandlersFireAtMostOnce(variant: Variant, actions: seq<Action>, s: Connection)
    requires Reaches(variant, INITIAL, actions, s)
    ensures forall i | 0 <= i < |s.past.fired| ::
              && s.past.fired[i].message
                 == Incoming(s.past.fired[i].handler.channel, s.past.fired[i].handler.identifier)
              && s.past.fired[i].message.identifier in s.past.calls
              && s.past.calls[s.past.fired[i].message.identifier] ==
                 Call(s.past.fired[i].message.channel, Callback(s.past.fired[i].handler.callback))
    ensures forall i, j | 0 <= i < j < |s.past.fired| ::
              s.past.fired[i].message.identifier != s.past.fired[j].message.identifier
    ensures forall i | 0 <= i < |s.past.fired| ::
              Key(s.past.fired[i].message.channel, s.past.fired[i].message.identifier) !in s.handlers
  {
    InvariantHolds(variant, actions, s);
    hide Reaches;
    forall i | 0 <= i < |s.past.fired| ensures IsOfItsCall(s, s.past.fired[i].handler) {
    }
    forall i | 0 <= i < |s.past.fired|
      ensures Key(s.past.fired[i].message.channel, s.past.fired[i].message.identifier) !in s.handlers
    {
      var m := s.past.fired[i].message;
      if Key(m.channel, m.identifier) in s.handlers {
        var h := s.handlers[Key(m.channel, m.identifier)];
        KeyIsInjective(h.channel, h.identifier, m.channel, m.identifier);
        assert false;
      }
    }
  }

  lemma FinishedGrows(s: Connection, a: Action)
    requires Possible(s, a)
    ensures |s.past.finished| <= |Apply(s, a).past.finished|
    ensures forall j | 0 <= j < |s.past.finished| :: Apply(s, a).past.finished[j] == s.past.finished[j]
  {
  }

  lemma AllocateIssuesNext(s: Connection, a: Action)
    requires a.Allocate? && Possible(s, a)
    ensures Apply(s, a).past.issued == s.past.issued + [s.next] && s.next < Apply(s, a).next
  {
  }

  lemma OnlyAllocateIssues(s: Connection, a: Action)
    requires BatchesOk(s) && Possible(s, a)
    ensures Apply(s, a).past.issued == if a.Allocate? then s.past.issued + [s.next] else s.past.issued
    ensures s.next <= Apply(s, a).next
  {
    hide Apply, BatchesOk;
    if a.Allocate? {
      AllocateIssuesNext(s, a);
    } else {
      OthersIssueNothing(s, a);
    }
  }

  /**
   The counter never falls, and whatever is issued after a state lies above every identifier that was issued, or
   received in a finished batch, before it: whoever raises the counter in between, and however often the
   compare-and-swap fails.
   */
  lemma {:induction false} LaterIdentifiersExceed(
      variant: Variant, s: Connection, actions: seq<Action>, s': Connection)
    requires Invariant(variant, s) && Reaches(variant, s, actions, s')
    ensures s.past.issued <= s'.past.issued && s.next <= s'.next
    ensures forall i | |s.past.issued| <= i < |s'.past.issued| :: s.next <= s'.past.issued[i]
    ensures forall i, j | |s.past.issued| <= i < |s'.past.issued| && 0 <= j < |s.past.finished| ::
              s.past.finished[j] < s'.past.issued[i]
    decreases |actions|
  {
    hide Apply;
    if actions == [] {
    } else {
      OnlyAllocateIssues(s, actions[0]);
      FinishedGrows(s, actions[0]);
      InvariantStep(variant, s, actions[0]);
      LaterIdentifiersExceed(variant, Apply(s, actions[0]), actions[1..], s');
    }
  }

  lemma IssuedIdentifiersDiffer(variant: Variant, actions: seq<Action>, s: Connection)
    requires Reaches(variant, INITIAL, actions, s)
    ensures forall i, j | 0 <= i < j < |s.past.issued| :: s.past.issued[i] < s.past.issued[j]
    ensures forall i | 0 <= i < |s.past.issued| :: 1 <= s.past.issued[i] < s.next
  {
    hide BatchesOk, ChannelsOk, CallsOk, HandlersOk, FiredOk, RequestsOk, OrderOk, Reaches;
    InvariantHolds(variant, actions, s);
    InvariantAtFirst(variant);
    LaterIdentifiersExceed(variant, INITIAL, actions, s);
  }

  /**
   A reply to a transmitted request finds its handler exactly when no thread is still about to register it; and the
   handler is the one that came with the request.
   */
  lemma ReplyIsHandledIff(variant: Variant, actions: seq<Action>, s: Connection, r: Request)
    requires Reaches(variant, INITIAL, actions, s)
    requires r in s.past.transmitted && r.expectsReply && !Answered(s, r)
    ensures DestinationOf(s, Incoming(r.channel, r.identifier)).ToHandler? <==> !AwaitsRegistration(s, r)
    ensures DestinationOf(s, Incoming(r.channel, r.identifier)).ToHandler? ==>
              && r.identifier in s.past.calls
              && s.past.calls[r.identifier] ==
                 Call(r.channel, Callback(DestinationOf(s, Incoming(r.channel, r.identifier)).handler.callback))
  {
    InvariantHolds(variant, actions, s);
    TransmittedIsCovered(variant, s, r);
    if Key(r.channel, r.identifier) in s.handlers {
      RegisteredIsNotAwaited(variant, s, r);
    }
  }

  lemma TransmittedIsCovered(variant: Variant, s: Connection, r: Request)
    requires Invariant(variant, s) && r in s.past.transmitted
    ensures Covered(s, r)
  {
  }

  lemma RegisteredIsNotAwaited(variant: Variant, s: Connection, r: Request)
    requires Invariant(variant, s) && Key(r.channel, r.identifier) in s.handlers
    ensures s.handlers[Key(r.channel, r.identifier)].channel == r.channel
    ensures s.handlers[Key(r.channel, r.identifier)].identifier == r.identifier
    ensures IsOfItsCall(s, s.handlers[Key(r.channel, r.identifier)])
    ensures !AwaitsRegistration(s, r)
  {
    var h := s.handlers[Key(r.channel, r.identifier)];
    KeyIsInjective(h.channel, h.identifier, r.channel, r.identifier);
  }

  /** With the handler registered before the message is queued, no reply that comes is lost. */
  lemma RegisteringFirstLosesNoReply(variant: Variant, actions: seq<Action>, s: Connection, r: Request)
    requires variant.registersFirst
    requires Reaches(variant, INITIAL, actions, s)
    requires r in s.past.transmitted && r.expectsReply && !Answered(s, r)
    ensures DestinationOf(s, Incoming(r.channel, r.identifier)).ToHandler?
  {
    InvariantHolds(variant, actions, s);
    ReplyIsHandledIff(variant, actions, s, r);
  }

  /** A request on channel 5 whose thread is overtaken between the queue and the handler. */
  const OVERTAKEN: seq<Action> :=
    [Allocate(0, 5, 0, Callback(7)), PushRequest(0), Transmit, BeginBatch, Route(Incoming(5, 1)), RegisterHandler(0)]

  const TRANSMITTED :=
    INITIAL.(next := 2,
             past := NO_HISTORY.(issued := [1], calls := map[1 := Call(5, Callback(7))],
                                 transmitted := [Request(5, 1, 0, true)]),
             senders := map[0 := Sender(5, 1, 0, Callback(7), true, false)])

  const LEFT_BEHIND :=
    TRANSMITTED.(senders := map[0 := Sender(5, 1, 0, Callback(7), true, true)], batch := Routing(1, [1]),
                 past := TRANSMITTED.past.(dropped := [Incoming(5, 1)]),
                 handlers := map[Key(5, 1) := Registration(5, 1, 7)])

  lemma UntilTransmitted()
    ensures Reaches(AS_WRITTEN, INITIAL, [Allocate(0, 5, 0, Callback(7)), PushRequest(0), Transmit], TRANSMITTED)
  {
    hide Reaches, Key;
    var s3 := Apply(Apply(Apply(INITIAL, Allocate(0, 5, 0, Callback(7))), PushRequest(0)), Transmit);
    assert s3.senders == TRANSMITTED.senders;
    assert s3.past == TRANSMITTED.past;
    assert s3.sendQueue == [];
    ThreeSteps(AS_WRITTEN, INITIAL, Allocate(0, 5, 0, Callback(7)), PushRequest(0), Transmit);
  }

  lemma FromTransmitted()
    ensures Reaches(AS_WRITTEN, TRANSMITTED, [BeginBatch, Route(Incoming(5, 1)), RegisterHandler(0)], LEFT_BEHIND)
  {
    hide Reaches, Key;
    var s3 := Apply(Apply(Apply(TRANSMITTED, BeginBatch), Route(Incoming(5, 1))), RegisterHandler(0));
    assert s3.senders == LEFT_BEHIND.senders;
    assert s3.handlers == LEFT_BEHIND.handlers;
    assert s3.batch == LEFT_BEHIND.batch;
    assert s3.past == LEFT_BEHIND.past;
    ThreeSteps(AS_WRITTEN, TRANSMITTED, BeginBatch, Route(Incoming(5, 1)), RegisterHandler(0));
  }

  /** In the order of the code the reply can be dropped, and its handler is left behind, never fired. */
  lemma ReplyDroppedAsWritten() returns (s: Connection)
    ensures Reaches(AS_WRITTEN, INITIAL, OVERTAKEN, s)
    ensures s.past.transmitted == [Request(5, 1, 0, true)] && s.past.dropped == [Incoming(5, 1)] && s.past.fired == []
    ensures s.handlers == map[Key(5, 1) := Registration(5, 1, 7)]
  {
    hide Reaches, Key;
    UntilTransmitted();
    FromTransmitted();
    var first := [Allocate(0, 5, 0, Callback(7)), PushRequest(0), Transmit];
    var second := [BeginBatch, Route(Incoming(5, 1)), RegisterHandler(0)];
    RunsCompose(AS_WRITTEN, INITIAL, first, TRANSMITTED, second, LEFT_BEHIND);
    assert first + second == OVERTAKEN;
    s := LEFT_BEHIND;
  }

  /** The compare-and-swap loop leaves the counter at the maximum of what it finds there and its target. */
  lemma RaisingTakesTheMaximum(variant: Variant, s: Connection, spurious: bool)
    requires Invariant(variant, s) && s.batch.Raising?
    ensures var s' := Apply(s, TrySetMax(spurious));
            s'.batch.Resting? ==> s'.next == (if s.next < s.batch.target then s.batch.target else s.next)
    ensures !Apply(s, TrySetMax(spurious)).batch.Resting? ==> Apply(s, TrySetMax(spurious)).next == s.next
  {
  }

  /** Left alone, two attempts that do not fail spuriously end the loop. */
  lemma RaisingEnds(s: Connection)
    requires s.batch.Raising?
    ensures var s' := Apply(s, TrySetMax(false)); s'.batch.Resting? || Apply(s', TrySetMax(false)).batch.Resting?
  {
  }
}
