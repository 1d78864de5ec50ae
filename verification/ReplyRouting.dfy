/**
 Identifiers, reply handlers and routing of a connection, as a machine of the atomic steps of its threads.
 A Variant selects between the code and two repairs. The code queues a message before it registers its handler;
 `registersFirst` is the other order. The code sends a reply under a fresh identifier; with `keepsIdentifier` it
 goes out under the identifier of the message it answers.
 Steps that would wrap the 32-bit counter around are not part of the machine.
 */
module ReplyRouting {
  import opened Bytes

  datatype Variant = Variant(registersFirst: bool, keepsIdentifier: bool)

  const AS_WRITTEN := Variant(false, false)

  const LAST_IDENTIFIER: uint32 := 0xFFFF_FFFF

  /** IDEVICE_DTXMESSAGE_IDENTIFIER: both codes packed into 64 bits. */
  function Key(channel: uint32, identifier: uint32): uint64 {
    channel * TWO_TO_THE_32 + identifier
  }

  lemma KeyIsInjective(channel: uint32, identifier: uint32, channel': uint32, identifier': uint32)
    ensures Key(channel, identifier) == Key(channel', identifier') <==> channel == channel' && identifier == identifier'
  {
  }

  /** The channel in the upper half, the identifier in the lower. */
  lemma KeyHalves(channel: uint32, identifier: uint32)
    ensures Key(channel, identifier) / 0x1_0000_0000 == channel
    ensures Key(channel, identifier) % 0x1_0000_0000 == identifier
  {
  }

  datatype Registration = Registration(channel: uint32, identifier: uint32, callback: nat)

  datatype Callback = NoCallback | Callback(name: nat)

  /** A thread inside SendMessageAsync: it has its identifier; the rest says how far it got. */
  datatype Sender = Sender(channel: uint32, identifier: uint32, conversation: uint32, callback: Callback,
                           pushed: bool, registered: bool)
  {
    predicate Wants() {
      callback.Callback? && !registered
    }
  }

  /** What a call of SendMessageAsync asked for; filed under the identifier it was given. */
  datatype Call = Call(channel: uint32, callback: Callback)

  datatype Request = Request(channel: uint32, identifier: uint32, conversation: uint32, expectsReply: bool)

  datatype Incoming = Incoming(channel: uint32, identifier: uint32)

  datatype Firing = Firing(handler: Registration, message: Incoming)

  /** The parsing thread: between packets, routing the messages of one, or raising the counter above them. */
  datatype Batch = Resting | Routing(highest: uint32, identifiers: seq<uint32>)
                 | Raising(target: uint32, seen: uint32, identifiers: seq<uint32>)

  /** What has happened so far, which the properties speak of. */
  datatype History = History(
    issued: seq<uint32>,
    calls: map<uint32, Call>,
    transmitted: seq<Request>,
    fired: seq<Firing>,
    toChannel: seq<Incoming>,
    dropped: seq<Incoming>,
    finished: seq<uint32>
  )

  /** The state that the threads share; `channels` maps open channels to whether they have a message handler. */
  datatype Connection = Connection(
    next: uint32,
    senders: map<nat, Sender>,
    sendQueue: seq<Request>,
    handlers: map<uint64, Registration>,
    nextChannel: uint32,
    channels: map<uint32, bool>,
    batch: Batch,
    past: History
  )

  const NO_HISTORY := History([], map[], [], [], [], [], [])

  /** A new connection: both counters start at 1. */
  const INITIAL := Connection(1, map[], [], map[], 1, map[], Resting, NO_HISTORY)

  datatype Action =
    | Allocate(thread: nat, channel: uint32, conversation: uint32, callback: Callback)
    | PushRequest(thread: nat)
    | RegisterHandler(thread: nat)
    | Return(thread: nat)
    | Transmit
    | BeginBatch
    | Route(message: Incoming)
    | PushReply(channel: uint32, identifier: uint32, conversation: uint32)
    | EndBatch
    | TrySetMax(spurious: bool)
    | OpenChannel
    | SetMessageHandler(code: uint32)
    | CloseChannel(code: uint32)

  predicate Possible(s: Connection, a: Action) {
    match a
    case Allocate(t, _, _, _) => t !in s.senders && s.next < LAST_IDENTIFIER
    case PushRequest(t) => t in s.senders && !s.senders[t].pushed
    case RegisterHandler(t) => t in s.senders && s.senders[t].Wants()
    case Return(t) => t in s.senders && s.senders[t].pushed && !s.senders[t].Wants()
    case Transmit => s.sendQueue != []
    case BeginBatch => s.batch.Resting?
    case Route(_) => s.batch.Routing?
    case PushReply(_, _, _) => s.batch.Routing?
    case EndBatch => s.batch.Routing? && s.batch.highest < LAST_IDENTIFIER
    case TrySetMax(_) => s.batch.Raising?
    case OpenChannel => s.nextChannel < LAST_IDENTIFIER
    case SetMessageHandler(code) => code in s.channels
    case CloseChannel(code) => code in s.channels
  }

  /** Possible, and a step of the variant. */
  predicate Enabled(variant: Variant, s: Connection, a: Action) {
    && Possible(s, a)
    && (a.PushRequest? ==> !(variant.registersFirst && s.senders[a.thread].Wants()))
    && (a.PushReply? ==> variant.keepsIdentifier)
    && (a.RegisterHandler? ==> variant.registersFirst || s.senders[a.thread].pushed)
  }

  /** abs of the channel code read as a signed number: messages of a channel come under its code or the negated one. */
  function ChannelOf(channel: uint32): uint32 {
    if channel < 0x8000_0000 then channel else TWO_TO_THE_32 - channel
  }

  datatype Destination = ToHandler(handler: Registration) | ToChannel | Dropped

  /** RouteMessage: a registered handler first, then the channel's own handler, otherwise nobody. */
  function DestinationOf(s: Connection, m: Incoming): Destination {
    var key := Key(m.channel, m.identifier);
    if key in s.handlers then ToHandler(s.handlers[key])
    else if ChannelOf(m.channel) in s.channels && s.channels[ChannelOf(m.channel)] then ToChannel
    else Dropped
  }

  function RouteTo(s: Connection, m: Incoming): Connection {
    match DestinationOf(s, m)
    case ToHandler(handler) =>
      s.(past := s.past.(fired := s.past.fired + [Firing(handler, m)]),
         handlers := s.handlers - {Key(m.channel, m.identifier)})
    case ToChannel => s.(past := s.past.(toChannel := s.past.toChannel + [m]))
    case Dropped => s.(past := s.past.(dropped := s.past.dropped + [m]))
  }

  function FinishBatch(s: Connection): Connection
    requires !s.batch.Resting?
  {
    s.(batch := Resting, past := s.past.(finished := s.past.finished + s.batch.identifiers))
  }

  function Apply(s: Connection, a: Action): Connection
    requires Possible(s, a)
  {
    match a
    case Allocate(t, channel, conversation, callback) =>
      s.(next := s.next + 1,
         past := s.past.(issued := s.past.issued + [s.next], calls := s.past.calls[s.next := Call(channel, callback)]),
         senders := s.senders[t := Sender(channel, s.next, conversation, callback, false, false)])
    case PushRequest(t) =>
      var sender := s.senders[t];
      s.(sendQueue := s.sendQueue + [RequestOf(sender)],
         senders := s.senders[t := sender.(pushed := true)])
    case RegisterHandler(t) =>
      var sender := s.senders[t];
      var key := Key(sender.channel, sender.identifier);
      var handler := Registration(sender.channel, sender.identifier, sender.callback.name);
      s.(handlers := if key in s.handlers then s.handlers else s.handlers[key := handler],
         senders := s.senders[t := sender.(registered := true)])
    case Return(t) => s.(senders := s.senders - {t})
    case Transmit =>
      s.(sendQueue := s.sendQueue[1..], past := s.past.(transmitted := s.past.transmitted + [s.sendQueue[0]]))
    case BeginBatch => s.(batch := Routing(0, []))
    case Route(m) =>
      var highest := if s.batch.highest < m.identifier then m.identifier else s.batch.highest;
      RouteTo(s, m).(batch := Routing(highest, s.batch.identifiers + [m.identifier]))
    case PushReply(channel, identifier, conversation) =>
      s.(sendQueue := s.sendQueue + [Request(channel, identifier, conversation, false)])
    case EndBatch => s.(batch := Raising(s.batch.highest + 1, s.next, s.batch.identifiers))
    case TrySetMax(spurious) =>
      if s.batch.seen >= s.batch.target then FinishBatch(s)
      else if !spurious && s.next == s.batch.seen then FinishBatch(s).(next := s.batch.target)
      else s.(batch := s.batch.(seen := s.next))
    case OpenChannel =>
      s.(nextChannel := s.nextChannel + 1,
         channels := if s.nextChannel in s.channels then s.channels else s.channels[s.nextChannel := false])
    case SetMessageHandler(code) => s.(channels := s.channels[code := true])
    case CloseChannel(code) => s.(channels := s.channels - {code})
  }

  ghost predicate Reaches(variant: Variant, s: Connection, actions: seq<Action>, s': Connection)
    decreases |actions|
  {
    if actions == [] then s == s' else
    Enabled(variant, s, actions[0]) && Reaches(variant, Apply(s, actions[0]), actions[1..], s')
  }

  // ---- the invariant ----

  /** Issued identifiers increase and lie below the counter; no two threads hold the same one. */
  ghost predicate IdentifiersOk(s: Connection) {
    && (forall i | 0 <= i < |s.past.issued| :: s.past.issued[i] < s.next)
    && (forall i, j | 0 <= i < j < |s.past.issued| :: s.past.issued[i] < s.past.issued[j])
    && (forall t | t in s.senders :: s.senders[t].identifier < s.next)
    && (forall t, u | t in s.senders && u in s.senders && t != u :: s.senders[t].identifier != s.senders[u].identifier)
  }

  /** Handlers sit under their own key, one per identifier, none of a thread that is still to register. */
  ghost predicate HandlersOk(s: Connection) {
    && (forall k | k in s.handlers ::
          k == Key(s.handlers[k].channel, s.handlers[k].identifier) && s.handlers[k].identifier < s.next)
    && (forall k, k' | k in s.handlers && k' in s.handlers && k != k' ::
          s.handlers[k].identifier != s.handlers[k'].identifier)
    && (forall k, t | k in s.handlers && t in s.senders && !s.senders[t].registered ::
          s.handlers[k].identifier != s.senders[t].identifier)
  }

  /** Fired handlers: for the message they were registered for, once each, and gone from the map. */
  ghost predicate FiredOk(s: Connection) {
    && (forall i | 0 <= i < |s.past.fired| ::
          && s.past.fired[i].handler.channel == s.past.fired[i].message.channel
          && s.past.fired[i].handler.identifier == s.past.fired[i].message.identifier < s.next)
    && (forall i, j | 0 <= i < j < |s.past.fired| ::
          s.past.fired[i].handler.identifier != s.past.fired[j].handler.identifier)
    && (forall i, k | 0 <= i < |s.past.fired| && k in s.handlers ::
          s.past.fired[i].handler.identifier != s.handlers[k].identifier)
    && (forall i, t | 0 <= i < |s.past.fired| && t in s.senders && !s.senders[t].registered ::
          s.past.fired[i].handler.identifier != s.senders[t].identifier)
  }

  /** Threads, handlers and fired handlers belong to the call that was given their identifier. */
  ghost predicate CallsOk(s: Connection) {
    && (forall identifier | identifier in s.past.calls :: identifier < s.next)
    && (forall t | t in s.senders :: s.senders[t].identifier in s.past.calls
          && s.past.calls[s.senders[t].identifier] == Call(s.senders[t].channel, s.senders[t].callback))
    && (forall k | k in s.handlers :: IsOfItsCall(s, s.handlers[k]))
    && (forall i | 0 <= i < |s.past.fired| :: IsOfItsCall(s, s.past.fired[i].handler))
  }

  ghost predicate IsOfItsCall(s: Connection, h: Registration) {
    h.identifier in s.past.calls && s.past.calls[h.identifier] == Call(h.channel, Callback(h.callback))
  }

  ghost predicate Answered(s: Connection, r: Request) {
    exists i | 0 <= i < |s.past.fired| :: s.past.fired[i].message == Incoming(r.channel, r.identifier)
  }

  /** A thread has queued this request and not yet registered its handler. */
  ghost predicate AwaitsRegistration(s: Connection, r: Request) {
    exists t | t in s.senders :: SentBy(s.senders[t], r)
  }

  ghost predicate SentBy(sender: Sender, r: Request) {
    sender.pushed && sender.Wants() && sender.channel == r.channel && sender.identifier == r.identifier
  }

  ghost predicate Covered(s: Connection, r: Request) {
    r.expectsReply ==>
      Key(r.channel, r.identifier) in s.handlers || Answered(s, r) || AwaitsRegistration(s, r)
  }

  /** Every request under way that wants a reply has its handler, has had it, or is about to get it. */
  ghost predicate RequestsOk(s: Connection) {
    && (forall t | t in s.senders && s.senders[t].registered :: Covered(s, RequestOf(s.senders[t])))
    && (forall i | 0 <= i < |s.sendQueue| :: Covered(s, s.sendQueue[i]))
    && (forall i | 0 <= i < |s.past.transmitted| :: Covered(s, s.past.transmitted[i]))
  }

  function RequestOf(sender: Sender): Request {
    Request(sender.channel, sender.identifier, sender.conversation, sender.callback.Callback?)
  }

  /** Open channels have codes that the counter has passed. */
  ghost predicate ChannelsOk(s: Connection) {
    forall code | code in s.channels :: code < s.nextChannel
  }

  /** The batch knows the highest of its identifiers, and finished batches lie below the counter. */
  ghost predicate BatchesOk(s: Connection) {
    && (forall i | 0 <= i < |s.past.finished| :: s.past.finished[i] < s.next)
    && (s.batch.Routing? ==>
          forall i | 0 <= i < |s.batch.identifiers| :: s.batch.identifiers[i] <= s.batch.highest)
    && (s.batch.Raising? ==>
          && s.batch.seen <= s.next
          && forall i | 0 <= i < |s.batch.identifiers| :: s.batch.identifiers[i] < s.batch.target)
  }

  /** In the repaired order nothing is queued before its handler is registered. */
  ghost predicate OrderOk(variant: Variant, s: Connection) {
    variant.registersFirst ==> forall t | t in s.senders && s.senders[t].pushed :: !s.senders[t].Wants()
  }

  ghost predicate Invariant(variant: Variant, s: Connection) {
    && IdentifiersOk(s) && BatchesOk(s) && ChannelsOk(s) && CallsOk(s)
    && HandlersOk(s) && FiredOk(s) && RequestsOk(s) && OrderOk(variant, s)
  }

  /** Nothing issued, and the threads hold the identifiers and calls they held. */
  ghost predicate NothingIssued(s: Connection, s': Connection) {
    && s.next <= s'.next && s'.past.issued == s.past.issued && s'.past.calls == s.past.calls
    && (forall t | t in s'.senders :: t in s.senders && SameCall(s.senders[t], s'.senders[t]))
  }

  predicate SameCall(was: Sender, now: Sender) {
    && now.identifier == was.identifier && now.channel == was.channel && now.conversation == was.conversation
    && now.callback == was.callback
  }

  lemma OthersIssueNothing(s: Connection, a: Action)
    requires BatchesOk(s) && Possible(s, a) && !a.Allocate?
    ensures NothingIssued(s, Apply(s, a))
  {
  }

  lemma IdentifiersFrame(s: Connection, s': Connection)
    requires IdentifiersOk(s) && NothingIssued(s, s')
    ensures IdentifiersOk(s')
  {
  }

  lemma IdentifiersAllocate(s: Connection, a: Action)
    requires a.Allocate? && Possible(s, a) && IdentifiersOk(s)
    ensures IdentifiersOk(Apply(s, a))
  {
  }

  lemma IdentifiersStep(s: Connection, a: Action)
    requires IdentifiersOk(s) && BatchesOk(s) && Possible(s, a)
    ensures IdentifiersOk(Apply(s, a))
  {
    hide IdentifiersOk, BatchesOk, Apply;
    if a.Allocate? {
      IdentifiersAllocate(s, a);
    } else {
      OthersIssueNothing(s, a);
      IdentifiersFrame(s, Apply(s, a));
    }
  }

  // ---- handlers ----

  /** No new handlers, and no thread is further back than before. */
  ghost predicate NothingRegistered(s: Connection, s': Connection) {
    && s.next <= s'.next
    && (forall k | k in s'.handlers :: k in s.handlers && s'.handlers[k] == s.handlers[k])
    && (forall t | t in s'.senders && !s'.senders[t].registered ::
          t in s.senders && !s.senders[t].registered && s'.senders[t].identifier == s.senders[t].identifier)
  }

  lemma OthersRegisterNothing(s: Connection, a: Action)
    requires BatchesOk(s) && Possible(s, a)
    requires !a.Allocate? && !a.RegisterHandler?
    ensures NothingRegistered(s, Apply(s, a))
  {
  }

  lemma HandlersFrame(s: Connection, s': Connection)
    requires HandlersOk(s) && NothingRegistered(s, s')
    ensures HandlersOk(s')
  {
  }

  lemma HandlersAllocate(s: Connection, a: Action)
    requires a.Allocate? && Possible(s, a) && IdentifiersOk(s) && HandlersOk(s)
    ensures HandlersOk(Apply(s, a))
  {
  }

  lemma HandlersRegister(s: Connection, a: Action)
    requires a.RegisterHandler? && Possible(s, a) && IdentifiersOk(s) && HandlersOk(s)
    ensures HandlersOk(Apply(s, a))
  {
  }

  lemma HandlersStep(s: Connection, a: Action)
    requires IdentifiersOk(s) && HandlersOk(s) && BatchesOk(s) && Possible(s, a)
    ensures HandlersOk(Apply(s, a))
  {
    hide HandlersOk, IdentifiersOk, BatchesOk, Apply;
    if a.Allocate? {
      HandlersAllocate(s, a);
    } else if a.RegisterHandler? {
      HandlersRegister(s, a);
    } else {
      OthersRegisterNothing(s, a);
      HandlersFrame(s, Apply(s, a));
    }
  }

  // ---- fired handlers ----

  lemma FiredFrame(s: Connection, s': Connection)
    requires FiredOk(s) && NothingRegistered(s, s') && s'.past.fired == s.past.fired
    ensures FiredOk(s')
  {
  }

  lemma FiredAllocate(s: Connection, a: Action)
    requires a.Allocate? && Possible(s, a) && IdentifiersOk(s) && FiredOk(s)
    ensures FiredOk(Apply(s, a))
  {
  }

  lemma FiredRegister(s: Connection, a: Action)
    requires a.RegisterHandler? && Possible(s, a) && IdentifiersOk(s) && FiredOk(s)
    ensures FiredOk(Apply(s, a))
  {
  }

  lemma FiredRoute(s: Connection, m: Incoming)
    requires s.batch.Routing? && HandlersOk(s) && FiredOk(s)
    ensures FiredOk(RouteTo(s, m))
  {
    var key := Key(m.channel, m.identifier);
    if key in s.handlers {
      KeyIsInjective(s.handlers[key].channel, s.handlers[key].identifier, m.channel, m.identifier);
    }
  }

  lemma FiredStep(s: Connection, a: Action)
    requires IdentifiersOk(s) && HandlersOk(s) && FiredOk(s) && BatchesOk(s)
    requires Possible(s, a)
    ensures FiredOk(Apply(s, a))
  {
    hide HandlersOk, IdentifiersOk, BatchesOk, FiredOk, RouteTo;
    match a
    case Allocate(_, _, _, _) => FiredAllocate(s, a);
    case RegisterHandler(_) => FiredRegister(s, a);
    case Route(m) =>
      FiredRoute(s, m);
      FiredDespiteBatch(RouteTo(s, m), Apply(s, a).batch);
    case _ =>
      OthersRegisterNothing(s, a);
      FiredFrame(s, Apply(s, a));
  }

  lemma FiredDespiteBatch(s: Connection, batch: Batch)
    requires FiredOk(s)
    ensures FiredOk(s.(batch := batch))
  {
  }

  lemma BatchesStep(s: Connection, a: Action)
    requires BatchesOk(s) && Possible(s, a)
    ensures BatchesOk(Apply(s, a))
  {
  }

  lemma OrderStep(variant: Variant, s: Connection, a: Action)
    requires OrderOk(variant, s) && Enabled(variant, s, a)
    ensures OrderOk(variant, Apply(s, a))
  {
  }

  lemma ChannelsStep(s: Connection, a: Action)
    requires ChannelsOk(s) && Possible(s, a)
    ensures ChannelsOk(Apply(s, a))
  {
  }

  lemma CallsAllocate(s: Connection, a: Action)
    requires a.Allocate? && Possible(s, a) && CallsOk(s)
    ensures CallsOk(Apply(s, a))
  {
    var s' := Apply(s, a);
    assert s.next !in s.past.calls;
    forall h | IsOfItsCall(s, h) ensures IsOfItsCall(s', h) {
    }
  }

  lemma CallsFrame(s: Connection, s': Connection)
    requires CallsOk(s) && NothingIssued(s, s')
    requires forall k | k in s'.handlers :: IsOfItsCall(s, s'.handlers[k])
    requires forall i | 0 <= i < |s'.past.fired| :: IsOfItsCall(s, s'.past.fired[i].handler)
    ensures CallsOk(s')
  {
  }

  lemma HandlersAreOfTheirCalls(s: Connection, a: Action)
    requires CallsOk(s) && Possible(s, a) && !a.Allocate?
    ensures forall k | k in Apply(s, a).handlers :: IsOfItsCall(s, Apply(s, a).handlers[k])
  {
  }

  lemma FiredAreOfTheirCalls(s: Connection, a: Action)
    requires CallsOk(s) && Possible(s, a)
    ensures forall i | 0 <= i < |Apply(s, a).past.fired| :: IsOfItsCall(s, Apply(s, a).past.fired[i].handler)
  {
    hide IsOfItsCall;
  }

  lemma CallsStep(s: Connection, a: Action)
    requires CallsOk(s) && BatchesOk(s) && Possible(s, a)
    ensures CallsOk(Apply(s, a))
  {
    hide CallsOk, IsOfItsCall, BatchesOk, Apply;
    if a.Allocate? {
      CallsAllocate(s, a);
    } else {
      OthersIssueNothing(s, a);
      HandlersAreOfTheirCalls(s, a);
      FiredAreOfTheirCalls(s, a);
      CallsFrame(s, Apply(s, a));
    }
  }

  // ---- requests ----

  lemma AnsweredStays(s: Connection, a: Action, r: Request)
    requires Possible(s, a)
    requires Answered(s, r)
    ensures Answered(Apply(s, a), r)
  {
    var i :| 0 <= i < |s.past.fired| && s.past.fired[i].message == Incoming(r.channel, r.identifier);
    assert Apply(s, a).past.fired[i] == s.past.fired[i];
  }

  /** A handler leaves the map only by firing for the reply. */
  lemma HandlerStaysOrFires(s: Connection, a: Action, r: Request)
    requires Possible(s, a)
    requires Key(r.channel, r.identifier) in s.handlers
    ensures Key(r.channel, r.identifier) in Apply(s, a).handlers || Answered(Apply(s, a), r)
  {
    if a.Route? && Key(a.message.channel, a.message.identifier) == Key(r.channel, r.identifier) {
      KeyIsInjective(a.message.channel, a.message.identifier, r.channel, r.identifier);
      assert Apply(s, a).past.fired[|s.past.fired|].message == a.message;
    }
  }

  lemma AwaitingStaysOrRegisters(s: Connection, a: Action, r: Request)
    requires Possible(s, a)
    requires AwaitsRegistration(s, r)
    ensures AwaitsRegistration(Apply(s, a), r) || Key(r.channel, r.identifier) in Apply(s, a).handlers
  {
    var t :| t in s.senders && SentBy(s.senders[t], r);
    if a != RegisterHandler(t) {
      assert t in Apply(s, a).senders && SentBy(Apply(s, a).senders[t], r);
    }
  }

  lemma CoveredStays(s: Connection, a: Action, r: Request)
    requires Possible(s, a)
    requires Covered(s, r)
    ensures Covered(Apply(s, a), r)
  {
    hide Apply, Answered, AwaitsRegistration;
    if r.expectsReply {
      if Answered(s, r) {
        AnsweredStays(s, a, r);
      } else if Key(r.channel, r.identifier) in s.handlers {
        HandlerStaysOrFires(s, a, r);
      } else {
        AwaitingStaysOrRegisters(s, a, r);
      }
    }
  }

  lemma PushedIsCovered(s: Connection, a: Action)
    requires a.PushRequest? && Possible(s, a) && RequestsOk(s)
    ensures Covered(Apply(s, a), RequestOf(s.senders[a.thread]))
  {
    var sender := s.senders[a.thread];
    if sender.registered {
      CoveredStays(s, a, RequestOf(sender));
    } else if sender.callback.Callback? {
      assert SentBy(Apply(s, a).senders[a.thread], RequestOf(sender));
    }
  }

  lemma RegisteringCovers(s: Connection, a: Action)
    requires a.RegisterHandler? && Possible(s, a)
    ensures Covered(Apply(s, a), RequestOf(Apply(s, a).senders[a.thread]))
  {
  }

  lemma RegisteredBefore(s: Connection, a: Action, t: nat)
    requires Possible(s, a) && a != RegisterHandler(t)
    requires t in Apply(s, a).senders && Apply(s, a).senders[t].registered
    ensures t in s.senders && s.senders[t].registered
    ensures RequestOf(Apply(s, a).senders[t]) == RequestOf(s.senders[t])
  {
  }

  lemma RegisteredIsCovered(s: Connection, a: Action, t: nat)
    requires Possible(s, a) && RequestsOk(s)
    requires t in Apply(s, a).senders && Apply(s, a).senders[t].registered
    ensures Covered(Apply(s, a), RequestOf(Apply(s, a).senders[t]))
  {
    hide Covered, Apply, Possible;
    if a == RegisterHandler(t) {
      RegisteringCovers(s, a);
    } else {
      RegisteredBefore(s, a, t);
      CoveredStays(s, a, RequestOf(s.senders[t]));
    }
  }

  lemma UnansweredIsCovered(s: Connection, r: Request)
    requires !r.expectsReply
    ensures Covered(s, r)
  {
  }

  lemma RequestsStep(s: Connection, a: Action)
    requires Possible(s, a) && RequestsOk(s)
    ensures RequestsOk(Apply(s, a))
  {
    hide Covered;
    var s' := Apply(s, a);
    forall t | t in s'.senders && s'.senders[t].registered ensures Covered(s', RequestOf(s'.senders[t])) {
      RegisteredIsCovered(s, a, t);
    }
    forall r | Covered(s, r) ensures Covered(s', r) {
      CoveredStays(s, a, r);
    }
    if a.PushRequest? {
      PushedIsCovered(s, a);
    } else if a.PushReply? {
      UnansweredIsCovered(s', Request(a.channel, a.identifier, a.conversation, false));
    }
  }

  // ---- whole runs ----

  lemma InvariantStep(variant: Variant, s: Connection, a: Action)
    requires Invariant(variant, s) && Enabled(variant, s, a)
    ensures Invariant(variant, Apply(s, a))
  {
    hide *;
    EnabledIsPossible(variant, s, a);
    OnePartAtATime(variant, s);
    IdentifiersStep(s, a);
    BatchesStep(s, a);
    ChannelsStep(s, a);
    CallsStep(s, a);
    HandlersStep(s, a);
    FiredStep(s, a);
    RequestsStep(s, a);
    OrderStep(variant, s, a);
    OnePartAtATime(variant, Apply(s, a));
  }

  lemma EnabledIsPossible(variant: Variant, s: Connection, a: Action)
    requires Enabled(variant, s, a)
    ensures Possible(s, a)
  {
  }

  lemma OnePartAtATime(variant: Variant, s: Connection)
    ensures Invariant(variant, s) <==>
      && IdentifiersOk(s) && BatchesOk(s) && ChannelsOk(s) && CallsOk(s)
      && HandlersOk(s) && FiredOk(s) && RequestsOk(s) && OrderOk(variant, s)
  {
  }

  lemma {:induction false} RunKeepsInvariant(variant: Variant, s: Connection, actions: seq<Action>, s': Connection)
    requires Invariant(variant, s) && Reaches(variant, s, actions, s')
    ensures Invariant(variant, s')
    decreases |actions|
  {
    hide Invariant, Apply;
    if actions == [] {
    } else {
      InvariantStep(variant, s, actions[0]);
      RunKeepsInvariant(variant, Apply(s, actions[0]), actions[1..], s');
    }
  }

  lemma InvariantAtFirst(variant: Variant)
    ensures Invariant(variant, INITIAL)
  {
  }

  lemma InvariantHolds(variant: Variant, actions: seq<Action>, s: Connection)
    requires Reaches(variant, INITIAL, actions, s)
    ensures Invariant(variant, s)
  {
    hide Invariant, Reaches;
    InvariantAtFirst(variant);
    RunKeepsInvariant(variant, INITIAL, actions, s);
  }

  // ---- putting runs together ----

  lemma {:induction false} RunsCompose(
      variant: Variant, s: Connection, before: seq<Action>, s': Connection, after: seq<Action>, s'': Connection)
    requires Reaches(variant, s, before, s') && Reaches(variant, s', after, s'')
    ensures Reaches(variant, s, before + after, s'')
    decreases |before|
  {
    hide Apply;
    if before == [] {
      assert before + after == after;
    } else {
      RunsCompose(variant, Apply(s, before[0]), before[1..], s', after, s'');
      assert (before + after)[1..] == before[1..] + after;
    }
  }

  lemma OneStep(variant: Variant, s: Connection, a: Action)
    requires Enabled(variant, s, a)
    ensures Reaches(variant, s, [a], Apply(s, a))
  {
    hide Apply;
    assert Reaches(variant, Apply(s, a), [a][1..], Apply(s, a));
  }

  lemma OneMore(variant: Variant, s: Connection, actions: seq<Action>, s': Connection, a: Action)
    requires Reaches(variant, s, actions, s') && Enabled(variant, s', a)
    ensures Reaches(variant, s, actions + [a], Apply(s', a))
  {
    hide Apply;
    OneStep(variant, s', a);
    RunsCompose(variant, s, actions, s', [a], Apply(s', a));
  }

  lemma ThreeSteps(variant: Variant, s: Connection, a: Action, b: Action, c: Action)
    requires Enabled(variant, s, a) && Enabled(variant, Apply(s, a), b)
    requires Enabled(variant, Apply(Apply(s, a), b), c)
    ensures Reaches(variant, s, [a, b, c], Apply(Apply(Apply(s, a), b), c))
  {
    hide Apply, Reaches;
    OneStep(variant, s, a);
    OneMore(variant, s, [a], Apply(s, a), b);
    OneMore(variant, s, [a] + [b], Apply(Apply(s, a), b), c);
    assert [a] + [b] + [c] == [a, b, c];
  }
}
