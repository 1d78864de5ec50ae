/** Which messages a channel's own handler gets, said by the steps that opened, equipped and closed the channel. */
module ChannelRouting {
  import opened Bytes
  import opened ReplyRouting

  /** A channel code read as a signed 32-bit number. */
  function Signed(code: uint32): int {
    if code < 0x8000_0000 then code else code - 0x1_0000_0000
  }

  /** Messages of channel `code` come under its code or under the negated one. */
  predicate BelongsTo(m: Incoming, code: uint32) {
    Signed(m.channel) == code || Signed(m.channel) == -(code as int)
  }

  // ---- one message ----

  /** A message without a reply handler goes to its channel exactly when the channel is open and has a handler. */
  lemma GoesToChannelIff(s: Connection, m: Incoming)
    ensures DestinationOf(s, m) == ToChannel
            <==> Key(m.channel, m.identifier) !in s.handlers
                 && exists code :: code in s.channels && s.channels[code] && BelongsTo(m, code)
  {
    hide Key;
    if Key(m.channel, m.identifier) !in s.handlers {
      var found := ChannelOf(m.channel);
      OnlyItsChannel(m);
      if found in s.channels && s.channels[found] {
        assert BelongsTo(m, found);
      }
    }
  }

  lemma OnlyItsChannel(m: Incoming)
    ensures forall code: uint32 :: BelongsTo(m, code) <==> code == ChannelOf(m.channel)
  {
  }

  /** With a reply handler it goes there, without either it is dropped. */
  lemma GoesToHandlerIff(s: Connection, m: Incoming)
    ensures DestinationOf(s, m).ToHandler? <==> Key(m.channel, m.identifier) in s.handlers
    ensures DestinationOf(s, m).ToHandler? ==>
              DestinationOf(s, m).handler == s.handlers[Key(m.channel, m.identifier)]
    ensures DestinationOf(s, m) == Dropped
            <==> !DestinationOf(s, m).ToHandler? && DestinationOf(s, m) != ToChannel
  {
  }

  // ---- channels, by what has been done ----

  function Opened(actions: seq<Action>): nat {
    if actions == [] then 0 else
    Opened(actions[..|actions| - 1]) + if actions[|actions| - 1].OpenChannel? then 1 else 0
  }

  /** The channel has been opened, as the `code`-th one, and not been closed since. */
  predicate IsOpen(actions: seq<Action>, code: uint32) {
    if actions == [] then false else
    var before := actions[..|actions| - 1];
    match actions[|actions| - 1]
    case OpenChannel => IsOpen(before, code) || Opened(before) + 1 == code
    case CloseChannel(closed) => IsOpen(before, code) && closed != code
    case _ => IsOpen(before, code)
  }

  /** The latest step about the channel is the one that gave it a message handler. */
  predicate Listens(actions: seq<Action>, code: uint32) {
    if actions == [] then false else
    var before := actions[..|actions| - 1];
    match actions[|actions| - 1]
    case OpenChannel => Listens(before, code) && Opened(before) + 1 != code
    case SetMessageHandler(listening) => Listens(before, code) || listening == code
    case CloseChannel(closed) => Listens(before, code) && closed != code
    case _ => Listens(before, code)
  }

  lemma {:induction false} LastStep(variant: Variant, s: Connection, actions: seq<Action>, s': Connection)
    returns (mid: Connection)
    requires Reaches(variant, s, actions, s') && actions != []
    ensures Reaches(variant, s, actions[..|actions| - 1], mid)
    ensures Enabled(variant, mid, actions[|actions| - 1]) && Apply(mid, actions[|actions| - 1]) == s'
    decreases |actions|
  {
    hide Apply;
    if |actions| == 1 {
      mid := s;
      assert actions[1..] == [];
    } else {
      var later := LastStep(variant, Apply(s, actions[0]), actions[1..], s');
      assert actions[..|actions| - 1][1..] == actions[1..][..|actions| - 2];
      mid := later;
    }
  }

  /** The channel map after some steps. */
  ghost predicate ChannelsAre(s: Connection, actions: seq<Action>) {
    && s.nextChannel == Opened(actions) + 1
    && (forall code: uint32 :: code in s.channels <==> IsOpen(actions, code))
    && (forall code: uint32 :: code in s.channels && s.channels[code] <==> Listens(actions, code))
  }

  lemma ChannelStep(variant: Variant, actions: seq<Action>, before: Connection)
    requires actions != [] && ChannelsAre(before, actions[..|actions| - 1]) && ChannelsOk(before)
    requires Enabled(variant, before, actions[|actions| - 1])
    ensures ChannelsAre(Apply(before, actions[|actions| - 1]), actions)
  {
    hide RouteTo, Apply;
    ChannelEffect(before, actions[|actions| - 1]);
  }

  /** The effect of every step on the channels. */
  lemma ChannelEffect(s: Connection, a: Action)
    requires Possible(s, a) && ChannelsOk(s)
    ensures Apply(s, a).nextChannel == s.nextChannel + if a.OpenChannel? then 1 else 0
    ensures Apply(s, a).channels ==
            match a
            case OpenChannel => s.channels[s.nextChannel := false]
            case SetMessageHandler(code) => s.channels[code := true]
            case CloseChannel(code) => s.channels - {code}
            case _ => s.channels
  {
    hide RouteTo;
    if a.Route? {
      RoutingKeepsChannels(s, a.message);
    }
  }

  lemma RoutingKeepsChannels(s: Connection, m: Incoming)
    ensures RouteTo(s, m).channels == s.channels && RouteTo(s, m).nextChannel == s.nextChannel
  {
  }

  /** In every run the channel map is what the steps so far have made it. */
  lemma {:induction false} ChannelsOfRun(variant: Variant, actions: seq<Action>, s: Connection)
    requires Reaches(variant, INITIAL, actions, s)
    ensures ChannelsAre(s, actions)
    decreases |actions|
  {
    hide ChannelsAre, Apply, Enabled;
    if actions == [] {
      NoChannels();
    } else {
      var mid := LastStep(variant, INITIAL, actions, s);
      ChannelsOfRun(variant, actions[..|actions| - 1], mid);
      InvariantHolds(variant, actions[..|actions| - 1], mid);
      ChannelStep(variant, actions, mid);
    }
  }

  lemma NoChannels()
    ensures ChannelsAre(INITIAL, [])
  {
  }

  // ---- all messages ----

  /** The state after some steps. */
  function StateAfter(actions: seq<Action>): Connection {
    if actions == [] then INITIAL else
    var before := StateAfter(actions[..|actions| - 1]);
    if Possible(before, actions[|actions| - 1]) then Apply(before, actions[|actions| - 1]) else before
  }

  /** A message that is routed to a channel after these steps: no reply handler waits for it and its channel listens. */
  ghost predicate IsForChannel(actions: seq<Action>, m: Incoming) {
    && Key(m.channel, m.identifier) !in StateAfter(actions).handlers
    && exists code: uint32 :: Listens(actions, code) && BelongsTo(m, code)
  }

  /** The messages that the steps route to channels, in order. */
  ghost function ForChannels(actions: seq<Action>): seq<Incoming> {
    if actions == [] then [] else
    var before, last := actions[..|actions| - 1], actions[|actions| - 1];
    ForChannels(before) + if last.Route? && IsForChannel(before, last.message) then [last.message] else []
  }

  /** The messages that they route to nobody. */
  ghost function ForNobody(actions: seq<Action>): seq<Incoming> {
    if actions == [] then [] else
    var before, last := actions[..|actions| - 1], actions[|actions| - 1];
    ForNobody(before)
    + if last.Route? && !IsForChannel(before, last.message)
         && Key(last.message.channel, last.message.identifier) !in StateAfter(before).handlers
      then [last.message] else []
  }

  lemma RouteStep(s: Connection, actions: seq<Action>, m: Incoming)
    requires ChannelsAre(s, actions) && StateAfter(actions) == s
    ensures RouteTo(s, m).past.toChannel == s.past.toChannel + if IsForChannel(actions, m) then [m] else []
    ensures RouteTo(s, m).past.dropped ==
            s.past.dropped
            + if !IsForChannel(actions, m) && Key(m.channel, m.identifier) !in s.handlers then [m] else []
  {
    hide StateAfter, Listens, IsOpen, Opened, Key, BelongsTo;
    GoesToChannelIff(s, m);
    GoesToHandlerIff(s, m);
    EmptyEnds(s.past.toChannel);
    EmptyEnds(s.past.dropped);
    assert DestinationOf(s, m) == ToChannel <==> IsForChannel(actions, m);
  }

  lemma OthersRouteNothing(s: Connection, a: Action)
    requires Possible(s, a)
    ensures !a.Route? ==> Apply(s, a).past.toChannel == s.past.toChannel && Apply(s, a).past.dropped == s.past.dropped
    ensures a.Route? ==> Apply(s, a).past == RouteTo(s, a.message).past
  {
  }

  /**
   In every run the messages given to channels are, in order, those that came when no reply handler waited for them
   and the latest step about their channel had given it a message handler; and those dropped are the other ones that
   no reply handler waited for.
   */
  lemma {:induction false} DeliveredOfRun(variant: Variant, actions: seq<Action>, s: Connection)
    requires Reaches(variant, INITIAL, actions, s)
    ensures StateAfter(actions) == s
    ensures s.past.toChannel == ForChannels(actions) && s.past.dropped == ForNobody(actions)
    decreases |actions|
  {
    hide Apply, RouteTo, Key, IsForChannel, Possible;
    if actions == [] {
    } else {
      var before, last := actions[..|actions| - 1], actions[|actions| - 1];
      var mid := LastStep(variant, INITIAL, actions, s);
      DeliveredOfRun(variant, before, mid);
      ChannelsOfRun(variant, before, mid);
      OthersRouteNothing(mid, last);
      if last.Route? {
        RouteStep(mid, before, last.message);
      } else {
        EmptyEnds(mid.past.toChannel);
        EmptyEnds(mid.past.dropped);
      }
    }
  }
}
