/** Which replies reach the handler that waits for them at the other end. */
module ReplyIdentifiers {
  import opened Bytes
  import opened ReplyRouting
  import opened ConnectionObject

  /** The k-th reply to a packet answers the k-th message that wants one: its channel, the next of its conversation. */
  lemma {:induction false} RepliesAnswerInOrder(variant: Variant, arrivals: seq<Arrival>, next: uint32, k: nat)
    requires next + |arrivals| < TWO_TO_THE_32 && k < |Expecting(arrivals)|
    ensures |Replies(variant, arrivals, next)| == |Expecting(arrivals)|
    ensures Replies(variant, arrivals, next)[k] ==
            Request(Expecting(arrivals)[k].message.channel,
                    if variant.keepsIdentifier then Expecting(arrivals)[k].message.identifier else next + k,
                    (Expecting(arrivals)[k].conversation + 1) % TWO_TO_THE_32, false)
    decreases |arrivals|
  {
    var before := arrivals[..|arrivals| - 1];
    RepliesAreAsMany(variant, before, next);
    if k < |Expecting(before)| {
      RepliesAnswerInOrder(variant, before, next, k);
    } else {
      assert Expecting(arrivals)[k] == arrivals[|arrivals| - 1];
    }
  }

  lemma {:induction false} RepliesAreAsMany(variant: Variant, arrivals: seq<Arrival>, next: uint32)
    requires next + |arrivals| < TWO_TO_THE_32
    ensures |Replies(variant, arrivals, next)| == |Expecting(arrivals)|
    decreases |arrivals|
  {
    if arrivals == [] {
    } else {
      RepliesAreAsMany(variant, arrivals[..|arrivals| - 1], next);
    }
  }

  /**
   As written and undisturbed by other threads, a reply carries the identifier of the message it answers exactly when
   the counter stands at it when the reply is sent; repaired, it always does, and the replies use up no identifiers.
   For a reply sent among other threads' steps see InterleavedReplyIff.
   */
  lemma ReplyCarriesIdentifierIff(variant: Variant, arrivals: seq<Arrival>, next: uint32, k: nat)
    requires next + |arrivals| < TWO_TO_THE_32 && k < |Expecting(arrivals)|
    ensures k < |Replies(variant, arrivals, next)|
    ensures Replies(variant, arrivals, next)[k].identifier == Expecting(arrivals)[k].message.identifier
            <==> variant.keepsIdentifier || next + k == Expecting(arrivals)[k].message.identifier
    ensures variant.keepsIdentifier ==> IdentifiersUsed(variant, arrivals) == 0
  {
    RepliesAnswerInOrder(variant, arrivals, next, k);
  }

  /** A request seen from the other end. */
  function Arriving(r: Request): Incoming {
    Incoming(r.channel, r.identifier)
  }

  /** The handler that waits for the reply to `m`, at the end that sent it. */
  ghost predicate FindsHandlerOf(peer: Connection, r: Request, m: Incoming)
    requires Key(m.channel, m.identifier) in peer.handlers
  {
    DestinationOf(peer, Arriving(r)) == ToHandler(peer.handlers[Key(m.channel, m.identifier)])
  }

  lemma FindsHandlerIff(peer: Connection, r: Request, m: Incoming)
    requires HandlersOk(peer) && Key(m.channel, m.identifier) in peer.handlers && r.channel == m.channel
    ensures FindsHandlerOf(peer, r, m) <==> r.identifier == m.identifier
  {
    hide Key;
    KeyIsInjective(r.channel, r.identifier, m.channel, m.identifier);
    var found := Key(r.channel, r.identifier);
    if found in peer.handlers && peer.handlers[found] == peer.handlers[Key(m.channel, m.identifier)] {
      var h := peer.handlers[found];
      assert found == Key(h.channel, h.identifier);
    }
  }

  /**
   At the other end, which waits for the reply with a handler under the message's channel and identifier, this handler
   is the one found exactly when the reply carries the identifier.
   */
  lemma ReplyFindsItsHandlerIff(variant: Variant, arrivals: seq<Arrival>, next: uint32, k: nat, peer: Connection)
    requires next + |arrivals| < TWO_TO_THE_32 && k < |Expecting(arrivals)|
    requires var m := Expecting(arrivals)[k].message; Key(m.channel, m.identifier) in peer.handlers
    requires HandlersOk(peer)
    ensures k < |Replies(variant, arrivals, next)|
    ensures var m := Expecting(arrivals)[k].message;
            FindsHandlerOf(peer, Replies(variant, arrivals, next)[k], m)
            <==> variant.keepsIdentifier || next + k == m.identifier
  {
    hide Key;
    RepliesAnswerInOrder(variant, arrivals, next, k);
    FindsHandlerIff(peer, Replies(variant, arrivals, next)[k], Expecting(arrivals)[k].message);
  }

  // ---- a reply among the steps of other threads ----

  predicate IsStepOf(a: Action, t: nat) {
    match a
    case Allocate(thread, _, _, _) => thread == t
    case PushRequest(thread) => thread == t
    case RegisterHandler(thread) => thread == t
    case Return(thread) => thread == t
    case _ => false
  }

  lemma OthersLeaveTheThread(s: Connection, a: Action, t: nat)
    requires Possible(s, a) && !IsStepOf(a, t) && t in s.senders
    ensures t in Apply(s, a).senders && Apply(s, a).senders[t] == s.senders[t]
  {
  }

  lemma {:induction false} ThreadIsLeftAlone(
      variant: Variant, s: Connection, t: nat, others: seq<Action>, s': Connection)
    requires Reaches(variant, s, others, s') && t in s.senders
    requires forall i | 0 <= i < |others| :: !IsStepOf(others[i], t)
    ensures t in s'.senders && s'.senders[t] == s.senders[t]
    decreases |others|
  {
    hide Apply, IsStepOf;
    if others == [] {
    } else {
      OthersLeaveTheThread(s, others[0], t);
      ThreadIsLeftAlone(variant, Apply(s, others[0]), t, others[1..], s');
    }
  }

  /**
   Whatever other threads do between the step that takes an identifier for a reply and the step that queues the reply,
   it goes out under the identifier the counter stood at in the first of them; so it is handled at the other end
   exactly when that was the identifier of the message it answers.
   */
  lemma InterleavedReplyIff(variant: Variant, s: Connection, t: nat, arrival: Arrival, others: seq<Action>,
                            s': Connection, peer: Connection)
    requires var m := arrival.message;
             var allocate := Allocate(t, m.channel, (arrival.conversation + 1) % TWO_TO_THE_32, NoCallback);
             && Enabled(variant, s, allocate)
             && Reaches(variant, Apply(s, allocate), others, s')
             && HandlersOk(peer) && Key(m.channel, m.identifier) in peer.handlers
    requires forall i | 0 <= i < |others| :: !IsStepOf(others[i], t)
    ensures Enabled(variant, s', PushRequest(t))
    ensures var m, queue := arrival.message, Apply(s', PushRequest(t)).sendQueue;
            var reply := Request(m.channel, s.next, (arrival.conversation + 1) % TWO_TO_THE_32, false);
            && queue == s'.sendQueue + [reply]
            && (FindsHandlerOf(peer, reply, m) <==> s.next == m.identifier)
  {
    hide Key, Reaches, DestinationOf, HandlersOk;
    var m, conversation := arrival.message, (arrival.conversation + 1) % TWO_TO_THE_32;
    var begun := Apply(s, Allocate(t, m.channel, conversation, NoCallback));
    ThreadIsLeftAlone(variant, begun, t, others, s');
    FindsHandlerIff(peer, Request(m.channel, s.next, conversation, false), m);
  }

  /** As written a first request under identifier 7 is answered under identifier 1, and its handler is not found. */
  lemma AnsweredUnderAnotherIdentifier(peer: Connection)
    requires HandlersOk(peer) && Key(5, 7) in peer.handlers
    ensures Replies(AS_WRITTEN, [Arrival(Incoming(5, 7), 0, true)], 1) == [Request(5, 1, 1, false)]
    ensures !FindsHandlerOf(peer, Request(5, 1, 1, false), Incoming(5, 7))
  {
    var arrivals := [Arrival(Incoming(5, 7), 0, true)];
    assert arrivals[..0] == [];
    assert Expecting(arrivals) == [arrivals[0]];
    RepliesAnswerInOrder(AS_WRITTEN, arrivals, 1, 0);
    ReplyFindsItsHandlerIff(AS_WRITTEN, arrivals, 1, 0, peer);
  }
}
