/**
 The connection as an object, one call at a time. A ghost field carries the state of the step machine, and every
 method is a run of the machine: what holds in all runs holds of every sequence of calls.
 Calls that would wrap a 32-bit counter around are excluded, as in the machine.
 */
module ConnectionObject {
  import opened Bytes
  import opened ReplyRouting

  /** A parsed message, as far as routing looks at it. */
  datatype Arrival = Arrival(message: Incoming, conversation: uint32, expectsReply: bool)

  // ---- sending ----

  /** The steps of one call of SendMessageAsync. */
  function SendSteps(variant: Variant, t: nat, channel: uint32, conversation: uint32, callback: Callback): seq<Action> {
    var allocate := Allocate(t, channel, conversation, callback);
    if callback.NoCallback? then [allocate, PushRequest(t), Return(t)]
    else if variant.registersFirst then [allocate, RegisterHandler(t), PushRequest(t), Return(t)]
    else [allocate, PushRequest(t), RegisterHandler(t), Return(t)]
  }

  /** What a call of SendMessageAsync leaves behind, in either order. */
  function AfterSend(s: Connection, channel: uint32, conversation: uint32, callback: Callback): Connection
    requires s.next < LAST_IDENTIFIER
  {
    s.(next := s.next + 1,
       past := s.past.(issued := s.past.issued + [s.next], calls := s.past.calls[s.next := Call(channel, callback)]),
       sendQueue := s.sendQueue + [Request(channel, s.next, conversation, callback.Callback?)],
       handlers := if callback.NoCallback? then s.handlers
                   else s.handlers[Key(channel, s.next) := Registration(channel, s.next, callback.name)])
  }

  lemma FreshKeyIsFree(s: Connection, channel: uint32)
    requires HandlersOk(s)
    ensures Key(channel, s.next) !in s.handlers
  {
    if Key(channel, s.next) in s.handlers {
      var h := s.handlers[Key(channel, s.next)];
      KeyIsInjective(h.channel, h.identifier, channel, s.next);
      assert false;
    }
  }

  lemma SendIsARun(variant: Variant, s: Connection, t: nat, channel: uint32, conversation: uint32, callback: Callback)
    requires s.next < LAST_IDENTIFIER && t !in s.senders && Key(channel, s.next) !in s.handlers
    ensures Reaches(variant, s, SendSteps(variant, t, channel, conversation, callback),
                    AfterSend(s, channel, conversation, callback))
  {
    hide Reaches, Key;
    var steps := SendSteps(variant, t, channel, conversation, callback);
    var s1 := Apply(s, steps[0]);
    var s2 := Apply(s1, steps[1]);
    var s3 := Apply(s2, steps[2]);
    ThreeSteps(variant, s, steps[0], steps[1], steps[2]);
    if callback.NoCallback? {
      assert s3.senders == s.senders;
    } else {
      OneMore(variant, s, [steps[0], steps[1], steps[2]], s3, steps[3]);
      assert Apply(s3, steps[3]).senders == s.senders;
      assert [steps[0], steps[1], steps[2]] + [steps[3]] == steps;
    }
  }

  // ---- what a packet's messages leave behind ----

  /** The arrivals that are to be answered. */
  function Expecting(arrivals: seq<Arrival>): (r: seq<Arrival>)
    ensures |r| <= |arrivals|
  {
    if arrivals == [] then [] else
    var last := arrivals[|arrivals| - 1];
    Expecting(arrivals[..|arrivals| - 1]) + if last.expectsReply then [last] else []
  }

  /** The request that answers an arrival when the counter stands at `next`. */
  function ReplyTo(variant: Variant, arrival: Arrival, next: uint32): Request {
    Request(arrival.message.channel, if variant.keepsIdentifier then arrival.message.identifier else next,
            (arrival.conversation + 1) % TWO_TO_THE_32, false)
  }

  /** How many identifiers the replies to a packet use up. */
  function IdentifiersUsed(variant: Variant, arrivals: seq<Arrival>): (n: nat)
    ensures n <= |arrivals|
  {
    if variant.keepsIdentifier then 0 else |Expecting(arrivals)|
  }

  /** The requests that answer a packet, with the counter at `next` before it. */
  function Replies(variant: Variant, arrivals: seq<Arrival>, next: uint32): seq<Request>
    requires next + |arrivals| < TWO_TO_THE_32
  {
    if arrivals == [] then [] else
    var last, before := arrivals[|arrivals| - 1], arrivals[..|arrivals| - 1];
    Replies(variant, before, next)
    + if last.expectsReply then [ReplyTo(variant, last, next + IdentifiersUsed(variant, before))] else []
  }

  /** The steps of answering one message. */
  function ReplySteps(variant: Variant, t: nat, arrival: Arrival): seq<Action> {
    var channel, conversation := arrival.message.channel, (arrival.conversation + 1) % TWO_TO_THE_32;
    if variant.keepsIdentifier then [PushReply(channel, arrival.message.identifier, conversation)]
    else SendSteps(variant, t, channel, conversation, NoCallback)
  }

  /** The steps of routing one message and answering it if it wants to be. */
  function RouteSteps(variant: Variant, t: nat, arrival: Arrival): seq<Action> {
    [Route(arrival.message)] + if arrival.expectsReply then ReplySteps(variant, t, arrival) else []
  }

  /** The steps of all messages of a packet, in order. */
  function AllRouteSteps(variant: Variant, t: nat, arrivals: seq<Arrival>): seq<Action> {
    if arrivals == [] then [] else
    AllRouteSteps(variant, t, arrivals[..|arrivals| - 1]) + RouteSteps(variant, t, arrivals[|arrivals| - 1])
  }

  /** The steps of raising the counter from `next` above `highest`, with `failures` spurious failures on the way. */
  function RaiseSteps(next: uint32, highest: uint32, failures: nat): seq<Action> {
    [EndBatch] + Spurious(if next <= highest then failures else 0) + [TrySetMax(false)]
  }

  function Spurious(n: nat): seq<Action> {
    if n == 0 then [] else Spurious(n - 1) + [TrySetMax(true)]
  }

  /** All messages of a packet routed, one after the other. */
  function RouteAll(s: Connection, arrivals: seq<Arrival>): Connection {
    if arrivals == [] then s else
    RouteTo(RouteAll(s, arrivals[..|arrivals| - 1]), arrivals[|arrivals| - 1].message)
  }

  /** The same handlers and channels, and the same messages delivered to each and dropped. */
  ghost predicate SameRouting(a: Connection, b: Connection) {
    && a.handlers == b.handlers && a.channels == b.channels
    && a.past.fired == b.past.fired && a.past.toChannel == b.past.toChannel && a.past.dropped == b.past.dropped
  }

  lemma RouteToSame(a: Connection, b: Connection, m: Incoming)
    requires SameRouting(a, b)
    ensures SameRouting(RouteTo(a, m), RouteTo(b, m))
  {
  }

  lemma NoArrivals(variant: Variant, t: nat, next: uint32)
    ensures Highest([]) == 0 && AllRouteSteps(variant, t, []) == [] && Replies(variant, [], next) == []
    ensures IdentifiersUsed(variant, []) == 0
  {
  }

  lemma OneMoreHighest(arrivals: seq<Arrival>, i: nat)
    requires i < |arrivals|
    ensures Highest(arrivals[..i + 1]) == Larger(Highest(arrivals[..i]), arrivals[i].message.identifier)
  {
    assert arrivals[..i + 1][..i] == arrivals[..i];
  }

  lemma OneMoreRouted(variant: Variant, t: nat, arrivals: seq<Arrival>, i: nat)
    requires i < |arrivals|
    ensures AllRouteSteps(variant, t, arrivals[..i + 1])
            == AllRouteSteps(variant, t, arrivals[..i]) + RouteSteps(variant, t, arrivals[i])
  {
    hide RouteSteps;
    assert arrivals[..i + 1][..i] == arrivals[..i];
  }

  lemma OneMoreIdentifier(variant: Variant, arrivals: seq<Arrival>, i: nat)
    requires i < |arrivals|
    ensures IdentifiersUsed(variant, arrivals[..i + 1])
            == IdentifiersUsed(variant, arrivals[..i]) + IdentifiersUsed(variant, [arrivals[i]])
  {
    assert arrivals[..i + 1][..i] == arrivals[..i];
    assert [arrivals[i]][..0] == [];
  }

  lemma OneMoreReply(variant: Variant, arrivals: seq<Arrival>, i: nat, next: uint32)
    requires i < |arrivals| && next + |arrivals| < TWO_TO_THE_32
    ensures Replies(variant, arrivals[..i + 1], next)
            == Replies(variant, arrivals[..i], next)
               + if arrivals[i].expectsReply
                 then [ReplyTo(variant, arrivals[i], next + IdentifiersUsed(variant, arrivals[..i]))] else []
  {
    hide ReplyTo, IdentifiersUsed;
    assert arrivals[..i + 1][..i] == arrivals[..i];
  }

  lemma NothingRouted(s: Connection, begun: Connection, variant: Variant, t: nat)
    requires begun == s.(batch := Routing(0, []))
    ensures SameRouting(begun, RouteAll(s, [])) && AllRouteSteps(variant, t, []) == []
  {
  }

  lemma RouteOneMore(s: Connection, arrivals: seq<Arrival>, i: nat, routed: Connection)
    requires i < |arrivals| && SameRouting(routed, RouteAll(s, arrivals[..i]))
    ensures SameRouting(RouteTo(routed, arrivals[i].message), RouteAll(s, arrivals[..i + 1]))
  {
    hide RouteTo, SameRouting;
    assert arrivals[..i + 1][..i] == arrivals[..i];
    RouteToSame(routed, RouteAll(s, arrivals[..i]), arrivals[i].message);
  }

  function Highest(arrivals: seq<Arrival>): uint32 {
    if arrivals == [] then 0 else
    Larger(Highest(arrivals[..|arrivals| - 1]), arrivals[|arrivals| - 1].message.identifier)
  }

  function Larger(x: nat, y: nat): nat {
    if x < y then y else x
  }

  lemma {:induction false} HighestIsAbove(arrivals: seq<Arrival>, i: nat)
    requires i < |arrivals|
    ensures arrivals[i].message.identifier <= Highest(arrivals)
  {
    if i == |arrivals| - 1 {
    } else {
      HighestIsAbove(arrivals[..|arrivals| - 1], i);
    }
  }

  /** The highest identifier of a packet is one of its identifiers. */
  lemma {:induction false} HighestIsAttained(arrivals: seq<Arrival>) returns (i: nat)
    requires arrivals != []
    ensures i < |arrivals| && arrivals[i].message.identifier == Highest(arrivals)
  {
    var before := arrivals[..|arrivals| - 1];
    i := |arrivals| - 1;
    if arrivals[i].message.identifier < Highest(before) {
      i := HighestIsAttained(before);
    }
  }

  /** The arrivals to be answered are those that expect a reply, in order. */
  lemma {:induction false} ExpectingConcat(before: seq<Arrival>, arrival: Arrival)
    ensures Expecting(before + [arrival]) == Expecting(before) + if arrival.expectsReply then [arrival] else []
  {
    assert (before + [arrival])[..|before|] == before;
  }

  class DTXConnection {
    const variant: Variant
    var nextIdentifier: uint32
    var nextChannel: uint32
    var sendQueue: seq<Request>
    var handlers: map<uint64, Registration>
    var channels: map<uint32, bool>
    ghost var machine: Connection

    ghost predicate Valid()
      reads this
    {
      && nextIdentifier == machine.next && nextChannel == machine.nextChannel && sendQueue == machine.sendQueue
      && handlers == machine.handlers && channels == machine.channels
      && Invariant(variant, machine)
    }

    constructor (variant: Variant)
      ensures Valid() && this.variant == variant && machine == INITIAL
      ensures nextIdentifier == 1 && nextChannel == 1
    {
      this.variant := variant;
      nextIdentifier, nextChannel := 1, 1;
      sendQueue, handlers, channels := [], map[], map[];
      machine := INITIAL;
      new;
      assert Invariant(variant, INITIAL);
    }

    method SendMessageAsync(t: nat, channel: uint32, conversation: uint32, callback: Callback)
      returns (identifier: uint32)
      requires Valid() && t !in machine.senders && nextIdentifier < LAST_IDENTIFIER
      modifies this
      ensures Valid() && identifier == old(nextIdentifier) && nextIdentifier == identifier + 1
      ensures sendQueue == old(sendQueue) + [Request(channel, identifier, conversation, callback.Callback?)]
      ensures handlers == if callback.NoCallback? then old(handlers)
                          else old(handlers)[Key(channel, identifier) :=
                                               Registration(channel, identifier, callback.name)]
      ensures machine == AfterSend(old(machine), channel, conversation, callback)
      ensures Reaches(variant, old(machine), SendSteps(variant, t, channel, conversation, callback), machine)
    {
      hide Reaches, HandlersOk, IdentifiersOk, FiredOk, RequestsOk, CallsOk, BatchesOk, OrderOk, ChannelsOk, Key;
      FreshKeyIsFree(machine, channel);
      SendIsARun(variant, machine, t, channel, conversation, callback);
      RunKeepsInvariant(variant, machine, SendSteps(variant, t, channel, conversation, callback),
                        AfterSend(machine, channel, conversation, callback));
      identifier := nextIdentifier;
      nextIdentifier := nextIdentifier + 1;
      if variant.registersFirst {
        Register(channel, identifier, callback);
      }
      sendQueue := sendQueue + [Request(channel, identifier, conversation, callback.Callback?)];
      if !variant.registersFirst {
        Register(channel, identifier, callback);
      }
      machine := AfterSend(machine, channel, conversation, callback);
    }

    /** MakeChannelWithIdentifier up to its wait for the response; the request goes out on the default channel 0. */
    method MakeChannel(t: nat, callback: Callback) returns (code: uint32)
      requires Valid() && t !in machine.senders && callback.Callback?
      requires nextIdentifier < LAST_IDENTIFIER && nextChannel < LAST_IDENTIFIER
      modifies this
      ensures Valid() && code !in old(channels) && channels == old(channels)[code := false]
      ensures forall c | c in channels :: c < nextChannel
      ensures sendQueue == old(sendQueue) + [Request(0, old(nextIdentifier), 0, true)]
      ensures Reaches(variant, old(machine), [OpenChannel] + SendSteps(variant, t, 0, 0, callback), machine)
    {
      hide Reaches, IdentifiersOk, HandlersOk, FiredOk, RequestsOk, CallsOk, BatchesOk, OrderOk, Key;
      OneStep(variant, machine, OpenChannel);
      InvariantStep(variant, machine, OpenChannel);
      code := nextChannel;
      nextChannel := nextChannel + 1;
      if code !in channels {
        channels := channels[code := false];
      }
      machine := Apply(machine, OpenChannel);
      ghost var withChannel := machine;
      var _ := SendMessageAsync(t, 0, 0, callback);
      ghost var steps := SendSteps(variant, t, 0, 0, callback);
      RunsCompose(variant, old(machine), [OpenChannel], withChannel, steps, machine);
    }

    method Register(channel: uint32, identifier: uint32, callback: Callback)
      modifies this`handlers
      ensures handlers ==
              if callback.NoCallback? || Key(channel, identifier) in old(handlers) then old(handlers)
              else old(handlers)[Key(channel, identifier) := Registration(channel, identifier, callback.name)]
    {
      if callback.Callback? {
        var key := Key(channel, identifier);
        if key !in handlers {
          handlers := handlers[key := Registration(channel, identifier, callback.name)];
        }
      }
    }

    method RouteMessage(m: Incoming) returns (destination: Destination)
      requires Valid() && machine.batch.Routing?
      modifies this
      ensures Valid() && machine == Apply(old(machine), Route(m))
      ensures destination == DestinationOf(old(machine), m)
    {
      hide Invariant, Key;
      InvariantStep(variant, machine, Route(m));
      var key := Key(m.channel, m.identifier);
      if key in handlers {
        destination := ToHandler(handlers[key]);
        handlers := handlers - {key};
      } else {
        var code := ChannelOf(m.channel);
        if code in channels && channels[code] {
          destination := ToChannel;
        } else {
          destination := Dropped;
        }
      }
      machine := Apply(machine, Route(m));
    }

    /** One round of the loop over a packet's messages. */
    method RouteAndReply(t: nat, arrival: Arrival)
      requires Valid() && machine.batch.Routing? && t !in machine.senders && nextIdentifier < LAST_IDENTIFIER
      modifies this
      ensures Valid() && Reaches(variant, old(machine), RouteSteps(variant, t, arrival), machine)
      ensures SameRouting(machine, RouteTo(old(machine), arrival.message))
      ensures machine.senders == old(machine.senders) && machine.past.finished == old(machine.past.finished)
      ensures machine.batch == Routing(Larger(old(machine.batch.highest), arrival.message.identifier),
                                       old(machine.batch.identifiers) + [arrival.message.identifier])
      ensures sendQueue == old(sendQueue)
                           + if arrival.expectsReply then [ReplyTo(variant, arrival, old(nextIdentifier))] else []
      ensures nextIdentifier == old(nextIdentifier) + IdentifiersUsed(variant, [arrival])
    {
      hide Reaches, Invariant, Key, DestinationOf, ReplySteps;
      var _ := RouteMessage(arrival.message);
      OneStep(variant, old(machine), Route(arrival.message));
      EmptyEnds([Route(arrival.message)]);
      if arrival.expectsReply {
        ghost var routed := machine;
        ReplyMessage(t, arrival);
        RunsCompose(variant, old(machine), [Route(arrival.message)], routed, ReplySteps(variant, t, arrival), machine);
      }
    }

    /** ReplyMessage: sent like any message, or, repaired, pushed under the identifier it already has. */
    method ReplyMessage(t: nat, arrival: Arrival)
      requires Valid() && machine.batch.Routing? && t !in machine.senders && nextIdentifier < LAST_IDENTIFIER
      modifies this
      ensures Valid() && Reaches(variant, old(machine), ReplySteps(variant, t, arrival), machine)
      ensures SameRouting(machine, old(machine)) && machine.batch == old(machine.batch)
      ensures machine.senders == old(machine.senders) && machine.past.finished == old(machine.past.finished)
      ensures sendQueue == old(sendQueue) + [ReplyTo(variant, arrival, old(nextIdentifier))]
      ensures nextIdentifier == old(nextIdentifier) + if variant.keepsIdentifier then 0 else 1
    {
      hide Reaches, Invariant, Key, DestinationOf;
      var channel, conversation := arrival.message.channel, (arrival.conversation + 1) % TWO_TO_THE_32;
      if variant.keepsIdentifier {
        ghost var push := PushReply(channel, arrival.message.identifier, conversation);
        OneStep(variant, machine, push);
        InvariantStep(variant, machine, push);
        sendQueue := sendQueue + [Request(channel, arrival.message.identifier, conversation, false)];
        machine := Apply(machine, push);
      } else {
        var _ := SendMessageAsync(t, channel, conversation, NoCallback);
      }
    }

    method CompareExchangeWeak(expected: uint32, desired: uint32, spurious: bool) returns (swapped: bool, seen: uint32)
      modifies this`nextIdentifier
      ensures swapped == (!spurious && old(nextIdentifier) == expected)
      ensures nextIdentifier == if swapped then desired else old(nextIdentifier)
      ensures seen == if swapped then expected else old(nextIdentifier)
    {
      swapped, seen := !spurious && nextIdentifier == expected, expected;
      if swapped {
        nextIdentifier := desired;
      } else {
        seen := nextIdentifier;
      }
    }

    /** IDEVICE_ATOMIC_SET_MAX after a packet; `failures` is how often the swap fails for no reason. */
    method RaiseCounter(highest: uint32, failures: nat)
      requires Valid() && machine.batch.Routing? && machine.batch.highest == highest < LAST_IDENTIFIER
      modifies this
      ensures Valid()
      ensures Reaches(variant, old(machine), RaiseSteps(old(nextIdentifier), highest, failures), machine)
      ensures nextIdentifier == Larger(old(nextIdentifier), highest + 1)
      ensures machine == FinishBatch(old(machine)).(next := nextIdentifier)
    {
      hide Reaches, Invariant;
      var left: nat := failures;
      var previous, target, swapped := nextIdentifier, highest + 1, false;
      OneStep(variant, machine, EndBatch);
      InvariantStep(variant, machine, EndBatch);
      ghost var steps := [EndBatch];
      machine := Apply(machine, EndBatch);
      while previous < target && !swapped
        invariant Valid() && Reaches(variant, old(machine), steps, machine) && left <= failures
        invariant previous == old(nextIdentifier) && (swapped ==> previous < target)
        invariant previous >= target ==> left == failures
        invariant !swapped ==> machine == Apply(old(machine), EndBatch)
        invariant !swapped ==> steps == [EndBatch] + Spurious(failures - left)
        invariant swapped ==> machine == FinishBatch(Apply(old(machine), EndBatch)).(next := target)
        invariant swapped ==> steps == [EndBatch] + Spurious(failures) + [TrySetMax(false)]
        decreases if swapped then 0 else left + 1
      {
        ghost var attempt := TrySetMax(left > 0);
        OneMore(variant, old(machine), steps, machine, attempt);
        InvariantStep(variant, machine, attempt);
        ConcatAssociates([EndBatch], Spurious(failures - left), [attempt]);
        steps := steps + [attempt];
        machine := Apply(machine, attempt);
        swapped, previous := CompareExchangeWeak(previous, target, left > 0);
        left := if left > 0 then left - 1 else 0;
      }
      if !swapped {
        OneMore(variant, old(machine), steps, machine, TrySetMax(false));
        InvariantStep(variant, machine, TrySetMax(false));
        steps := steps + [TrySetMax(false)];
        machine := Apply(machine, TrySetMax(false));
      }
    }

    /** The parsing thread, from the messages of one packet to the raised counter. */
    method ParsePacket(t: nat, arrivals: seq<Arrival>, failures: nat)
      requires Valid() && machine.batch.Resting? && t !in machine.senders
      requires nextIdentifier + |arrivals| < LAST_IDENTIFIER
      requires forall i | 0 <= i < |arrivals| :: arrivals[i].message.identifier < LAST_IDENTIFIER
      modifies this
      ensures Valid() && machine.batch.Resting? && machine.senders == old(machine.senders)
      ensures var next := old(nextIdentifier) + IdentifiersUsed(variant, arrivals);
              Reaches(variant, old(machine),
                      ([BeginBatch] + AllRouteSteps(variant, t, arrivals))
                      + RaiseSteps(next, Highest(arrivals), failures), machine)
      ensures SameRouting(machine, RouteAll(old(machine), arrivals))
      ensures sendQueue == old(sendQueue) + Replies(variant, arrivals, old(nextIdentifier))
      ensures nextIdentifier ==
              Larger(old(nextIdentifier) + IdentifiersUsed(variant, arrivals), Highest(arrivals) + 1)
      ensures forall i | 0 <= i < |arrivals| :: arrivals[i].message.identifier < nextIdentifier
    {
      hide Reaches, Invariant, Key, DestinationOf, RouteTo, RouteSteps, RaiseSteps, RouteAll;
      hide Highest, Replies, IdentifiersUsed, AllRouteSteps, ReplyTo;
      NoArrivals(variant, t, nextIdentifier);
      OneStep(variant, machine, BeginBatch);
      InvariantStep(variant, machine, BeginBatch);
      machine := Apply(machine, BeginBatch);
      NothingRouted(old(machine), machine, variant, t);
      ghost var steps := [BeginBatch];
      var highest, i := 0, 0;
      while i < |arrivals|
        invariant 0 <= i <= |arrivals|
        invariant Valid() && machine.batch.Routing? && machine.batch.highest == highest == Highest(arrivals[..i])
        invariant machine.senders == old(machine.senders) && highest < LAST_IDENTIFIER
        invariant Reaches(variant, old(machine), steps, machine)
        invariant steps == [BeginBatch] + AllRouteSteps(variant, t, arrivals[..i])
        invariant SameRouting(machine, RouteAll(old(machine), arrivals[..i]))
        invariant sendQueue == old(sendQueue) + Replies(variant, arrivals[..i], old(nextIdentifier))
        invariant nextIdentifier == old(nextIdentifier) + IdentifiersUsed(variant, arrivals[..i])
      {
        OneMoreHighest(arrivals, i);
        OneMoreRouted(variant, t, arrivals, i);
        OneMoreIdentifier(variant, arrivals, i);
        OneMoreReply(variant, arrivals, i, old(nextIdentifier));
        ghost var before, round := machine, RouteSteps(variant, t, arrivals[i]);
        RouteAndReply(t, arrivals[i]);
        RunsCompose(variant, old(machine), steps, before, round, machine);
        RouteOneMore(old(machine), arrivals, i, before);
        ConcatAssociates([BeginBatch], AllRouteSteps(variant, t, arrivals[..i]), round);
        steps := steps + round;
        highest := Larger(highest, arrivals[i].message.identifier);
        i := i + 1;
      }
      assert arrivals[..i] == arrivals;
      ghost var before, raise := machine, RaiseSteps(nextIdentifier, highest, failures);
      RaiseCounter(highest, failures);
      RunsCompose(variant, old(machine), steps, before, raise, machine);
      forall k | 0 <= k < |arrivals| ensures arrivals[k].message.identifier <= highest {
        HighestIsAbove(arrivals, k);
      }
    }
  }
}
