/**
 * One OCPP-J connection as a machine over the steps its tasks interleave: the command loop placing
 * calls, the writer behind its bounded channel, the reader, the per-call waiters with their
 * timeouts, the inbound handlers, and shutdown. Frames are the Call, CallResult and CallError of
 * section 4.2 of the OCPP-J 1.6 specification.
 */
module Connection {
  import opened Basics
  import opened Correlation

  const OUTBOUND_CHANNEL_CAP: nat := 64

  /** The rejection that shutdown hands to whoever still waits. */
  const TERMINATED := Rejection(0)

  datatype CallState = Registering | Awaiting | Expired | Resolved

  /** An outbound call, placed when `placed` replies had been heard; its one-shot channel has the call's index. */
  datatype Call = Call(id: Id, state: CallState, placed: nat)

  datatype Reply = ConnectionClosed | FromPeer(outcome: Outcome) | ChannelDropped | TimedOut

  /** A reply sender being completed. */
  datatype Delivery = Delivery(call: nat, reply: Reply)

  datatype Heard = Heard(id: Id, outcome: Outcome)

  datatype Loop = Idle | Sending | Down

  datatype Reader = AtAwait | MidSpawn(handler: nat) | Ended

  /**
   * A handler waits between polls (`Parked`) or is being polled. An abort only asks: a parked handler
   * is never polled again (`Cancelled`), one being polled runs to its next await (`Doomed`).
   */
  datatype Status = Parked | Polling | Cancelled | Doomed | Finished | Aborted

  datatype Handler = Handler(id: Id, status: Status)

  datatype Frame = Sent(call: nat) | Answer(handler: nat, id: Id)

  /** The writer takes frames and writes them; after its loop it closes the sink, still holding the channel. */
  datatype Writer = Receiving | Writing(frame: Frame) | Closing | Exited

  datatype Stage = Up | ReaderJoined | HandlersAborted | PendingFailed | Dropped

  datatype State = State(
    table: Table,
    calls: seq<Call>,
    deliveries: seq<Delivery>,
    heard: seq<Heard>,
    loop: Loop,
    reader: Reader,
    handlers: seq<Handler>,
    tracked: seq<nat>,
    outbox: seq<Frame>,      // every frame the channel ever accepted
    queue: seq<Frame>,       // those still in it
    wire: seq<Frame>,        // those written
    writer: Writer,
    stage: Stage)

  const Init := State(Table(map[], []), [], [], [], Idle, AtAwait, [], [], [], [], [], Receiving, Up)

  datatype Event =
    | Place(id: Id)                      // the command loop registers a call
    | SendOk | SendFail                  // its frame enters the writer's channel, or the channel is closed
    | PeerReply(id: Id, outcome: Outcome)
    | PeerCall(id: Id)                   // the reader spawns a handler ...
    | Track                              // ... and puts it on the list
    | StreamEnds
    | Poll(handler: nat)
    | Answers(handler: nat)              // a handler being polled sends its reply at once ...
    | GivesUp(handler: nat)              // ... or finds the channel closed ...
    | Yields(handler: nat)               // ... or reaches an await, where an abort takes effect
    | Reaped(handler: nat)
    | Wake(call: nat)                    // the waiter sees its channel
    | Expire(call: nat)                  // the waiter's timeout fires on an empty channel ...
    | CleanUp(call: nat)                 // ... and it then drops its table entry
    | Take | Drained                     // the writer receives a frame, or learns that no sender is left
    | WriteOk | WriteFail | Closed
    | JoinReader | AbortHandlers | FailPending | DropHandle

  predicate WriterEvent(e: Event) { e.Take? || e.Drained? || e.WriteOk? || e.WriteFail? || e.Closed? }

  predicate HandlerEvent(e: Event) { e.Poll? || e.Answers? || e.GivesUp? || e.Yields? || e.Reaped? }

  predicate Live(h: Handler) { h.status == Parked || h.status == Polling }

  predicate Running(h: Handler) { h.status == Polling || h.status == Doomed }

  /** The handler's task still exists, and with it its clone of the channel's sender. */
  predicate Holding(h: Handler) { Live(h) || h.status == Cancelled || h.status == Doomed }

  ghost predicate Senders(s: State) {
    s.stage != Dropped || s.reader != Ended || exists h :: 0 <= h < |s.handlers| && Holding(s.handlers[h])
  }

  /** The channel accepts a frame without making its sender wait. */
  predicate Room(s: State) { s.writer != Exited && |s.queue| < OUTBOUND_CHANNEL_CAP }

  ghost predicate Enabled(s: State, e: Event) {
    match e
    case Place(_) => s.loop == Idle
    case SendOk => s.loop == Sending && s.calls != [] && Room(s)
    case SendFail => s.loop == Sending && s.calls != [] && s.writer == Exited
    case PeerReply(_, _) => s.reader == AtAwait
    case PeerCall(_) => s.reader == AtAwait
    case Track => s.reader.MidSpawn?
    case StreamEnds => s.reader == AtAwait
    case Poll(h) => h < |s.handlers| && s.handlers[h].status == Parked
    case Answers(h) => h < |s.handlers| && Running(s.handlers[h]) && Room(s)
    case GivesUp(h) => h < |s.handlers| && Running(s.handlers[h]) && s.writer == Exited
    case Yields(h) => h < |s.handlers| && Running(s.handlers[h])
    case Reaped(h) => h < |s.handlers| && s.handlers[h].status == Cancelled
    case Wake(n) => n < |s.calls| && s.calls[n].state == Awaiting && n < |s.table.slots| && s.table.slots[n] != Empty
    case Expire(n) => n < |s.calls| && s.calls[n].state == Awaiting && n < |s.table.slots| && s.table.slots[n] == Empty
    case CleanUp(n) => n < |s.calls| && s.calls[n].state == Expired
    case Take => s.writer == Receiving && s.queue != []
    case Drained => s.writer == Receiving && s.queue == [] && !Senders(s)
    case WriteOk => s.writer.Writing?
    case WriteFail => s.writer.Writing?
    case Closed => s.writer == Closing
    case JoinReader => s.loop == Idle && s.stage == Up && !s.reader.MidSpawn?
    case AbortHandlers => s.stage == ReaderJoined
    case FailPending => s.stage == HandlersAborted
    case DropHandle => s.stage == PendingFailed
  }

  function With(s: State, n: nat, state: CallState): State
    requires n < |s.calls|
  {
    s.(calls := s.calls[n := s.calls[n].(state := state)])
  }

  function Resolve(s: State, n: nat, reply: Reply): State
    requires n < |s.calls|
  {
    With(s, n, Resolved).(deliveries := s.deliveries + [Delivery(n, reply)])
  }

  function Enqueue(s: State, frame: Frame): State {
    s.(outbox := s.outbox + [frame], queue := s.queue + [frame])
  }

  function Becomes(s: State, h: nat, status: Status): State
    requires h < |s.handlers|
  {
    s.(handlers := s.handlers[h := s.handlers[h].(status := status)])
  }

  /** The listed handlers that have not completed. */
  function Unfinished(hs: seq<Handler>, tracked: seq<nat>): seq<nat> {
    if tracked == [] then [] else
      var rest := Unfinished(hs, tracked[..|tracked|-1]);
      var h := tracked[|tracked|-1];
      if h < |hs| && !Holding(hs[h]) then rest else rest + [h]
  }

  /** What an abort request makes of a handler. */
  function Abort(h: Handler): Handler {
    match h.status
    case Parked => h.(status := Cancelled)
    case Polling => h.(status := Doomed)
    case _ => h
  }

  function AbortTracked(hs: seq<Handler>, tracked: seq<nat>): (r: seq<Handler>)
    ensures |r| == |hs|
  {
    seq(|hs|, h requires 0 <= h < |hs| => if h in tracked then Abort(hs[h]) else hs[h])
  }

  ghost function Apply(s: State, e: Event): State
    requires Enabled(s, e)
  {
    match e
    case Place(id) =>
      s.(table := Registered(s.table, id), calls := s.calls + [Call(id, Registering, |s.heard|)], loop := Sending)
    case SendOk =>
      var n := |s.calls| - 1;
      Enqueue(With(s, n, Awaiting).(loop := Idle), Sent(n))
    case SendFail =>
      var n := |s.calls| - 1;
      Resolve(s, n, ConnectionClosed).(loop := Idle, table := Removed(s.table, s.calls[n].id))
    case PeerReply(id, outcome) =>
      s.(heard := s.heard + [Heard(id, outcome)], table := Completed(s.table, id, outcome))
    case PeerCall(id) => s.(handlers := s.handlers + [Handler(id, Parked)], reader := MidSpawn(|s.handlers|))
    case Track => s.(tracked := Unfinished(s.handlers, s.tracked) + [s.reader.handler], reader := AtAwait)
    case StreamEnds => s.(reader := Ended)
    case Poll(h) => Becomes(s, h, Polling)
    case Answers(h) => Enqueue(Becomes(s, h, Finished), Answer(h, s.handlers[h].id))
    case GivesUp(h) => Becomes(s, h, Finished)
    case Yields(h) => Becomes(s, h, if s.handlers[h].status == Doomed then Aborted else Parked)
    case Reaped(h) => Becomes(s, h, Aborted)
    case Wake(n) =>
      Resolve(s, n, if s.table.slots[n].Filled? then FromPeer(s.table.slots[n].outcome) else ChannelDropped)
    case Expire(n) => With(s, n, Expired)
    case CleanUp(n) => Resolve(s, n, TimedOut).(table := Removed(s.table, s.calls[n].id))
    case Take => s.(queue := s.queue[1..], writer := Writing(s.queue[0]))
    case Drained => s.(writer := Closing)
    case WriteOk => s.(wire := s.wire + [s.writer.frame], writer := Receiving)
    case WriteFail => s.(writer := Closing)
    case Closed => s.(writer := Exited, queue := [])
    case JoinReader => s.(loop := Down, reader := Ended, stage := ReaderJoined)
    case AbortHandlers =>
      s.(handlers := AbortTracked(s.handlers, s.tracked), tracked := [], stage := HandlersAborted)
    case FailPending => s.(table := FailedAll(s.table, TERMINATED), stage := PendingFailed)
    case DropHandle => s.(stage := Dropped)
  }

  ghost function Step(s: State, e: Event): State {
    if Enabled(s, e) then Apply(s, e) else s
  }

  ghost function Run(s: State, es: seq<Event>): State
    decreases |es|
  {
    if es == [] then s else Run(Step(s, es[0]), es[1..])
  }

  /** `e` concerns the calls, their channels or their replies. */
  predicate CallEvent(e: Event) {
    e.Place? || e.SendOk? || e.SendFail? || e.PeerReply? || e.Wake? || e.Expire? || e.CleanUp? || e.FailPending?
  }

  /** Every other step leaves the calls, their channels and their replies alone. */
  lemma Elsewhere(s: State, e: Event)
    requires Enabled(s, e) && !CallEvent(e)
    ensures var t := Apply(s, e);
      t.table == s.table && t.calls == s.calls && t.deliveries == s.deliveries && t.heard == s.heard
    ensures Apply(s, e).loop == if e.JoinReader? then Down else s.loop
  {
  }

  // ---------- Calls and their channels ----------

  ghost predicate Channels(s: State) {
    && Consistent(s.table) && |s.table.slots| == |s.calls|
    && (forall id :: id in s.table.inner ==> s.calls[s.table.inner[id]].id == id)
    && (s.loop == Sending ==> s.calls != [])
    && (forall n :: 0 <= n < |s.calls| ==> (s.calls[n].state == Registering <==> s.loop == Sending && n == |s.calls| - 1))
    && (s.stage != Up ==> s.loop == Down && s.reader == Ended)
    && (s.stage == PendingFailed || s.stage == Dropped ==> s.table.inner == map[])
  }

  lemma SettleChannels(t: Table, id: Id, slot: Slot)
    requires Consistent(t) && slot != Empty
    ensures Consistent(Settle(t, id, slot)) && |Settle(t, id, slot).slots| == |t.slots|
    ensures forall b :: b in Settle(t, id, slot).inner ==> b in t.inner && Settle(t, id, slot).inner[b] == t.inner[b]
    ensures t.inner == map[] ==> Settle(t, id, slot).inner == map[]
  {
    SettleValid(t, id, slot);
  }

  lemma FailedAllConsistent(t: Table, outcome: Outcome)
    ensures Consistent(FailedAll(t, outcome))
  {
  }

  lemma PlaceChannels(s: State, id: Id)
    requires Channels(s) && Enabled(s, Place(id))
    ensures Channels(Apply(s, Place(id)))
  {
    RegisteredValid(s.table, id);
    RegisteredParts(s.table, id);
  }

  lemma WithChannels(s: State, n: nat, state: CallState)
    requires Channels(s) && n < |s.calls| && s.calls[n].state != Registering && state != Registering
    ensures Channels(With(s, n, state))
  {
  }

  lemma SettleState(s: State, id: Id, slot: Slot)
    requires Channels(s) && slot != Empty
    ensures Channels(s.(table := Settle(s.table, id, slot)))
  {
    SettleChannels(s.table, id, slot);
  }

  lemma SentChannels(s: State, state: CallState)
    requires Channels(s) && s.loop == Sending && state != Registering
    ensures s.calls != [] && Channels(With(s, |s.calls| - 1, state).(loop := Idle))
  {
  }

  lemma SendOkChannels(s: State)
    requires Channels(s) && Enabled(s, SendOk)
    ensures Channels(Apply(s, SendOk))
  {
    SentChannels(s, Awaiting);
  }

  lemma SendFailChannels(s: State)
    requires Channels(s) && Enabled(s, SendFail)
    ensures Channels(Apply(s, SendFail))
  {
    var n := |s.calls| - 1;
    SentChannels(s, Resolved);
    SettleState(With(s, n, Resolved).(loop := Idle), s.calls[n].id, Gone);
  }

  lemma WaiterChannels(s: State, e: Event)
    requires Channels(s) && Enabled(s, e) && (e.Wake? || e.Expire? || e.CleanUp?)
    ensures Channels(Apply(s, e))
  {
    WithChannels(s, e.call, if e.Expire? then Expired else Resolved);
    if e.CleanUp? { SettleState(With(s, e.call, Resolved), s.calls[e.call].id, Gone); }
  }

  lemma ElsewhereChannels(s: State, e: Event)
    requires Channels(s) && Enabled(s, e) && !CallEvent(e)
    ensures Channels(Apply(s, e))
  {
    Elsewhere(s, e);
  }

  lemma ChannelsStep(s: State, e: Event)
    requires Channels(s)
    ensures Channels(Step(s, e))
  {
    if Enabled(s, e) {
      if !CallEvent(e) { ElsewhereChannels(s, e); }
      else if e.Place? { PlaceChannels(s, e.id); }
      else if e.SendOk? { SendOkChannels(s); }
      else if e.SendFail? { SendFailChannels(s); }
      else if e.PeerReply? { SettleState(s, e.id, Filled(e.outcome)); }
      else if e.FailPending? { FailedAllConsistent(s.table, TERMINATED); }
      else { WaiterChannels(s, e); }
    }
  }

  // ---------- Each caller is answered once ----------

  /** A call is resolved exactly when its reply sender has been completed, and that happens once. */
  ghost predicate Answered(s: State) {
    && (forall i :: 0 <= i < |s.deliveries| ==>
          s.deliveries[i].call < |s.calls| && s.calls[s.deliveries[i].call].state == Resolved)
    && (forall i, j :: 0 <= i < j < |s.deliveries| ==> s.deliveries[i].call != s.deliveries[j].call)
    && (forall n :: 0 <= n < |s.calls| && s.calls[n].state == Resolved ==>
          exists i :: 0 <= i < |s.deliveries| && s.deliveries[i].call == n)
  }

  lemma ResolveAnswered(s: State, n: nat, reply: Reply)
    requires Answered(s) && n < |s.calls| && s.calls[n].state != Resolved
    ensures Answered(Resolve(s, n, reply))
  {
    var t := Resolve(s, n, reply);
    forall m | 0 <= m < |t.calls| && t.calls[m].state == Resolved
      ensures exists i :: 0 <= i < |t.deliveries| && t.deliveries[i].call == m
    {
      if m == n {
        assert t.deliveries[|s.deliveries|].call == n;
      } else {
        var i :| 0 <= i < |s.deliveries| && s.deliveries[i].call == m;
        assert t.deliveries[i].call == m;
      }
    }
  }

  lemma UnresolvedAnswered(s: State, t: State)
    requires Answered(s) && t.deliveries == s.deliveries && |s.calls| <= |t.calls|
    requires forall n :: 0 <= n < |s.calls| ==> (t.calls[n].state == Resolved <==> s.calls[n].state == Resolved)
    requires forall n :: |s.calls| <= n < |t.calls| ==> t.calls[n].state != Resolved
    ensures Answered(t)
  {
  }

  lemma ResolvingAnswered(s: State, e: Event)
    requires Channels(s) && Answered(s) && Enabled(s, e) && (e.SendFail? || e.Wake? || e.CleanUp?)
    ensures Answered(Apply(s, e))
  {
    match e
    case SendFail => ResolveAnswered(s, |s.calls| - 1, ConnectionClosed);
    case Wake(n) => ResolveAnswered(s, n, Apply(s, e).deliveries[|s.deliveries|].reply);
    case CleanUp(n) => ResolveAnswered(s, n, TimedOut);
  }

  lemma QuietAnswered(s: State, e: Event)
    requires Channels(s) && Answered(s) && Enabled(s, e) && !e.SendFail? && !e.Wake? && !e.CleanUp?
    ensures Answered(Apply(s, e))
  {
    if !CallEvent(e) { Elsewhere(s, e); }
    UnresolvedAnswered(s, Apply(s, e));
  }

  lemma AnsweredStep(s: State, e: Event)
    requires Channels(s) && Answered(s)
    ensures Answered(Step(s, e))
  {
    if Enabled(s, e) {
      if e.SendFail? || e.Wake? || e.CleanUp? { ResolvingAnswered(s, e); } else { QuietAnswered(s, e); }
    }
  }

  // ---------- ... and only with an outcome of its own ----------

  /** The first outcome heard under `id` from position `from` on. */
  function FirstHeard(heard: seq<Heard>, id: Id, from: nat): (r: Option<Outcome>)
    ensures r.None? <==> forall k :: from <= k < |heard| ==> heard[k].id != id
    ensures r.Some? ==> exists k :: from <= k < |heard| && heard[k] == Heard(id, r.value) &&
                                    forall j :: from <= j < k ==> heard[j].id != id
    decreases |heard| - from
  {
    if from >= |heard| then None
    else if heard[from].id == id then Some(heard[from].outcome)
    else FirstHeard(heard, id, from + 1)
  }

  lemma {:induction false} FirstHeardSnoc(heard: seq<Heard>, h: Heard, id: Id, from: nat)
    requires from <= |heard|
    ensures var r := FirstHeard(heard, id, from);
      FirstHeard(heard + [h], id, from) == if r.Some? then r else if h.id == id then Some(h.outcome) else None
    decreases |heard| - from
  {
    if from < |heard| && heard[from].id != id { FirstHeardSnoc(heard, h, id, from + 1); }
  }

  /** What the peer first answered under the call's id since the call was placed. */
  function Replied(s: State, n: nat): Option<Outcome>
    requires n < |s.calls|
  {
    FirstHeard(s.heard, s.calls[n].id, s.calls[n].placed)
  }

  predicate Failed(s: State) { s.stage == PendingFailed || s.stage == Dropped }

  /** `o` is the peer's first answer to the call, or there was none and shutdown rejected the call. */
  ghost predicate Genuine(s: State, n: nat, o: Outcome) {
    n < |s.calls| && (Replied(s, n) == Some(o) || (Replied(s, n) == None && o == TERMINATED && Failed(s)))
  }

  /** An open channel has missed no answer; a filled one holds the first. */
  ghost predicate SlotGenuine(s: State, k: nat)
    requires k < |s.table.slots| && k < |s.calls|
  {
    match s.table.slots[k]
    case Empty => Replied(s, k) == None
    case Filled(o) => Genuine(s, k, o)
    case Gone => true
  }

  ghost predicate DeliveryGenuine(s: State, d: Delivery) {
    d.reply.FromPeer? ==> Genuine(s, d.call, d.reply.outcome)
  }

  ghost predicate Origins(s: State) {
    && |s.table.slots| == |s.calls|
    && (forall n :: 0 <= n < |s.calls| ==> s.calls[n].placed <= |s.heard|)
    && (forall k :: 0 <= k < |s.calls| ==> SlotGenuine(s, k))
    && (forall i :: 0 <= i < |s.deliveries| ==> DeliveryGenuine(s, s.deliveries[i]))
  }

  /** A step keeps who a call is; only a reply adds to what was heard. */
  lemma RepliedStep(s: State, e: Event, n: nat)
    requires Channels(s) && n < |s.calls| && s.calls[n].placed <= |s.heard|
    ensures n < |Step(s, e).calls| && Step(s, e).calls[n].placed == s.calls[n].placed <= |Step(s, e).heard|
    ensures Step(s, e).calls[n].id == s.calls[n].id
    ensures Replied(Step(s, e), n) ==
      if Enabled(s, e) && e.PeerReply? && Replied(s, n).None? && e.id == s.calls[n].id then Some(e.outcome)
      else Replied(s, n)
  {
    SameCall(s, e, n);
    if Enabled(s, e) && e.PeerReply? {
      FirstHeardSnoc(s.heard, Heard(e.id, e.outcome), s.calls[n].id, s.calls[n].placed);
    }
  }

  lemma SameCall(s: State, e: Event, n: nat)
    requires n < |s.calls|
    ensures n < |Step(s, e).calls|
    ensures Step(s, e).calls[n].id == s.calls[n].id && Step(s, e).calls[n].placed == s.calls[n].placed
    ensures Step(s, e).heard == if Enabled(s, e) && e.PeerReply? then s.heard + [Heard(e.id, e.outcome)] else s.heard
  {
    if Enabled(s, e) && !CallEvent(e) { Elsewhere(s, e); }
  }

  /** What is genuine stays so. */
  lemma GenuineGrows(s: State, e: Event, n: nat, o: Outcome)
    requires Channels(s) && n < |s.calls| && s.calls[n].placed <= |s.heard| && Genuine(s, n, o)
    ensures Genuine(Step(s, e), n, o)
  {
    RepliedStep(s, e, n);
  }

  lemma SlotStep(s: State, e: Event, k: nat)
    requires Channels(s) && Origins(s) && Channels(Step(s, e)) && k < |s.calls|
    ensures k < |Step(s, e).calls| && SlotGenuine(Step(s, e), k)
  {
    var t := Step(s, e);
    RepliedStep(s, e, k);
    assert SlotGenuine(s, k);
    if s.table.slots[k].Filled? { GenuineGrows(s, e, k, s.table.slots[k].outcome); }
    SlotMoves(s, e, k);
  }

  /** How one step moves one slot: an answer under its id settles it, otherwise it stays, fails with the rest or goes. */
  lemma SlotMoves(s: State, e: Event, k: nat)
    requires Channels(s) && k < |s.calls|
    ensures k < |Step(s, e).table.slots|
    ensures var was, now := s.table.slots[k], Step(s, e).table.slots[k];
      || now == Gone
      || (now == was && !(was == Empty && Enabled(s, e) && e.PeerReply? && e.id == s.calls[k].id))
      || (was == Empty && Enabled(s, e) && e.PeerReply? && e.id == s.calls[k].id && now == Filled(e.outcome))
      || (was == Empty && Enabled(s, e) && e.FailPending? && now == Filled(TERMINATED))
  {
    if Enabled(s, e) {
      if !CallEvent(e) { Elsewhere(s, e); }
      else if e.Place? { RegisteredParts(s.table, e.id); }
      else if e.PeerReply? { SlotAnswered(s, e.id, e.outcome, k); }
    }
  }

  lemma SlotAnswered(s: State, id: Id, outcome: Outcome, k: nat)
    requires Channels(s) && k < |s.calls|
    ensures var now := Completed(s.table, id, outcome).slots;
      k < |now| && now[k] == if s.table.slots[k] == Empty && id == s.calls[k].id then Filled(outcome) else s.table.slots[k]
  {
    if s.table.slots[k] == Empty {
      assert Awaited(s.table, k);
      var b :| b in s.table.inner && s.table.inner[b] == k;
      assert s.calls[k].id == b;
    }
  }

  lemma DeliveryStep(s: State, e: Event, i: nat)
    requires Channels(s) && Origins(s) && i < |Step(s, e).deliveries|
    ensures DeliveryGenuine(Step(s, e), Step(s, e).deliveries[i])
  {
    if i < |s.deliveries| {
      var d := s.deliveries[i];
      assert DeliveryGenuine(s, d);
      if d.reply.FromPeer? { GenuineGrows(s, e, d.call, d.reply.outcome); }
    } else if e.Wake? && s.table.slots[e.call].Filled? {
      assert SlotGenuine(s, e.call);
      GenuineGrows(s, e, e.call, s.table.slots[e.call].outcome);
    }
  }

  lemma NewCallGenuine(s: State, id: Id)
    requires Channels(s) && Enabled(s, Place(id))
    ensures var t := Apply(s, Place(id));
      |t.table.slots| == |t.calls| == |s.calls| + 1 && t.calls[|s.calls|].placed == |t.heard| && SlotGenuine(t, |s.calls|)
  {
    RegisteredParts(s.table, id);
  }

  lemma OriginsStep(s: State, e: Event)
    requires Channels(s) && Origins(s)
    ensures Origins(Step(s, e))
  {
    var t := Step(s, e);
    ChannelsStep(s, e);
    forall n | 0 <= n < |t.calls| ensures t.calls[n].placed <= |t.heard| && SlotGenuine(t, n) {
      if n < |s.calls| {
        RepliedStep(s, e, n);
        SlotStep(s, e, n);
      } else {
        NewCallGenuine(s, e.id);
      }
    }
    forall i | 0 <= i < |t.deliveries| ensures DeliveryGenuine(t, t.deliveries[i]) {
      DeliveryStep(s, e, i);
    }
  }

  // ---------- With fresh ids no waiter loses its channel ----------

  ghost predicate FreshIds(calls: seq<Call>) {
    forall i, j :: 0 <= i < j < |calls| ==> calls[i].id != calls[j].id
  }

  ghost predicate KeepsChannel(s: State) {
    FreshIds(s.calls) ==>
      && (forall n :: 0 <= n < |s.calls| && n < |s.table.slots| && s.calls[n].state == Awaiting ==> s.table.slots[n] != Gone)
      && (forall i :: 0 <= i < |s.deliveries| ==> s.deliveries[i].reply != ChannelDropped)
      && (s.loop == Sending ==> |s.calls| <= |s.table.slots| && s.calls != [] && s.table.slots[|s.calls|-1] != Gone)
  }

  lemma FreshPrefix(calls: seq<Call>, c: Call)
    requires FreshIds(calls + [c])
    ensures FreshIds(calls) && forall i :: 0 <= i < |calls| ==> calls[i].id != c.id
  {
    assert forall i :: 0 <= i < |calls| ==> (calls + [c])[i] == calls[i];
    assert (calls + [c])[|calls|] == c;
  }

  /** Settling another call's id leaves this call's channel alone. */
  lemma SettleOther(s: State, id: Id, slot: Slot, n: nat)
    requires Channels(s) && n < |s.calls| && s.calls[n].id != id
    ensures n < |Settle(s.table, id, slot).slots| && Settle(s.table, id, slot).slots[n] == s.table.slots[n]
  {
  }

  lemma PlaceKeepsChannel(s: State, id: Id)
    requires Channels(s) && KeepsChannel(s) && Enabled(s, Place(id))
    ensures KeepsChannel(Apply(s, Place(id)))
  {
    var t := Apply(s, Place(id));
    if FreshIds(t.calls) {
      FreshPrefix(s.calls, Call(id, Registering, |s.heard|));
      RegisteredParts(s.table, id);
      assert id !in s.table.inner;
    }
  }

  /** With fresh ids, dropping one call's table entry touches no other call's channel. */
  lemma RemoveOwnOnly(s: State, n: nat, m: nat)
    requires Channels(s) && FreshIds(s.calls) && n < |s.calls| && m < |s.calls| && m != n
    ensures m < |Removed(s.table, s.calls[n].id).slots|
    ensures Removed(s.table, s.calls[n].id).slots[m] == s.table.slots[m]
  {
    assert s.calls[m].id != s.calls[n].id;
    SettleOther(s, s.calls[n].id, Gone, m);
  }

  lemma SameIds(a: seq<Call>, b: seq<Call>)
    requires |a| == |b| && forall i :: 0 <= i < |a| ==> a[i].id == b[i].id
    ensures FreshIds(a) <==> FreshIds(b)
  {
  }

  lemma RemovingKeepsChannel(s: State, e: Event)
    requires Channels(s) && KeepsChannel(s) && Enabled(s, e) && (e.SendFail? || e.CleanUp?)
    ensures KeepsChannel(Apply(s, e))
  {
    var t, n := Apply(s, e), if e.SendFail? then |s.calls| - 1 else e.call;
    SameIds(s.calls, t.calls);
    if FreshIds(s.calls) {
      forall m | 0 <= m < |s.calls| && m != n ensures m < |t.table.slots| && t.table.slots[m] == s.table.slots[m] {
        RemoveOwnOnly(s, n, m);
      }
    }
  }

  /** Steps that at most fill empty channels, or move calls between states without dropping one. */
  lemma FillingKeepsChannel(s: State, e: Event)
    requires Channels(s) && KeepsChannel(s) && Enabled(s, e) && (e.PeerReply? || e.FailPending?)
    ensures KeepsChannel(Apply(s, e))
  {
    var t := Apply(s, e);
    assert t.calls == s.calls && t.deliveries == s.deliveries && t.loop == s.loop;
    assert |t.table.slots| == |s.table.slots|;
    assert forall n :: 0 <= n < |s.table.slots| ==> (t.table.slots[n] == Gone ==> s.table.slots[n] == Gone);
  }

  lemma CallKeepsChannel(s: State, e: Event)
    requires Channels(s) && KeepsChannel(s) && Enabled(s, e) && (e.SendOk? || e.Wake? || e.Expire?)
    ensures KeepsChannel(Apply(s, e))
  {
    SameIds(s.calls, Apply(s, e).calls);
  }

  lemma ElsewhereKeepsChannel(s: State, t: State)
    requires KeepsChannel(s) && t.calls == s.calls && t.deliveries == s.deliveries && t.table == s.table
    requires t.loop == s.loop || t.loop != Sending
    ensures KeepsChannel(t)
  {
  }

  lemma KeepsChannelStep(s: State, e: Event)
    requires Channels(s) && KeepsChannel(s)
    ensures KeepsChannel(Step(s, e))
  {
    if Enabled(s, e) {
      if !CallEvent(e) {
        Elsewhere(s, e);
        ElsewhereKeepsChannel(s, Apply(s, e));
      }
      else if e.Place? { PlaceKeepsChannel(s, e.id); }
      else if e.SendFail? || e.CleanUp? { RemovingKeepsChannel(s, e); }
      else if e.PeerReply? || e.FailPending? { FillingKeepsChannel(s, e); }
      else { CallKeepsChannel(s, e); }
    }
  }

}
