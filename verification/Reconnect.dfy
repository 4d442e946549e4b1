/**
 * The client's command channel across connects, failures, backoffs and reconnects. Commands are
 * named by their place in the channel; the machine steps at each point where the client awaits.
 */
module Reconnect {
  import opened Basics

  datatype Command = Terminate | WriteCommand(payload: int)

  /** Where the client is awaiting; queues hold the places of commands taken but not yet dealt with. */
  datatype Phase =
    | Connecting(parked: seq<nat>)
    | Running(queued: seq<nat>, reconnect: bool)
    | Waiting
    | Stopped

  /** What the environment makes happen next. */
  datatype Event =
    | Receive(delivered: bool)       // the channel yields; `delivered`: a write got through to the peer
    | ConnectOk(reconnect: bool)
    | ConnectFail(reconnect: bool)
    | PollOk
    | PollFail
    | Elapse

  datatype State = State(
    taken: nat,
    phase: Phase,
    executed: seq<nat>,
    logged: seq<nat>,
    discarded: seq<nat>,
    terminator: seq<nat>)

  const Start := State(0, Connecting([]), [], [], [], [])

  function AfterFailure(reconnect: bool): Phase { if reconnect then Waiting else Stopped }

  /** Executes command `c`; a transport failure abandons whatever else was queued. */
  function Execute(s: State, c: nat, rest: seq<nat>, reconnect: bool, delivered: bool): State {
    if delivered then s.(executed := s.executed + [c], phase := Running(rest, reconnect))
    else s.(executed := s.executed + [c], discarded := s.discarded + rest, phase := AfterFailure(reconnect))
  }

  predicate IsTerminate(sent: seq<Command>, c: nat) { c < |sent| && sent[c].Terminate? }

  function Step(sent: seq<Command>, s: State, e: Event): State {
    match (s.phase, e)
    case (Connecting(parked), Receive(_)) =>
      if s.taken >= |sent| then s.(discarded := s.discarded + parked, phase := Stopped)
      else if sent[s.taken].Terminate? then
        s.(taken := s.taken + 1, terminator := [s.taken], discarded := s.discarded + parked, phase := Stopped)
      else s.(taken := s.taken + 1, phase := Connecting(parked + [s.taken]))
    case (Connecting(parked), ConnectOk(reconnect)) => s.(phase := Running(parked, reconnect))
    case (Connecting(parked), ConnectFail(reconnect)) =>
      s.(logged := s.logged + parked, phase := AfterFailure(reconnect))
    case (Running(queued, reconnect), Receive(delivered)) =>
      if queued != [] then
        if IsTerminate(sent, queued[0]) then
          s.(terminator := [queued[0]], discarded := s.discarded + queued[1..], phase := Stopped)
        else Execute(s, queued[0], queued[1..], reconnect, delivered)
      else if s.taken >= |sent| then s.(phase := Stopped)
      else if sent[s.taken].Terminate? then
        s.(taken := s.taken + 1, terminator := [s.taken], phase := Stopped)
      else Execute(s.(taken := s.taken + 1), s.taken, [], reconnect, delivered)
    case (Running(queued, reconnect), PollFail) =>
      s.(discarded := s.discarded + queued, phase := AfterFailure(reconnect))
    case (Waiting, Receive(_)) =>
      if s.taken >= |sent| then s.(phase := Stopped)
      else if sent[s.taken].Terminate? then
        s.(taken := s.taken + 1, terminator := [s.taken], phase := Stopped)
      else s.(taken := s.taken + 1, logged := s.logged + [s.taken])
    case (Waiting, Elapse) => s.(phase := Connecting([]))
    case _ => s
  }

  function Run(sent: seq<Command>, s: State, es: seq<Event>): State
    decreases |es|
  {
    if es == [] then s else Run(sent, Step(sent, s, es[0]), es[1..])
  }

  // ---------- What every step keeps ----------

  function Held(p: Phase): seq<nat> {
    match p case Connecting(q) => q case Running(q, _) => q case _ => []
  }

  function UpTo(n: nat): seq<nat> { seq(n, i => i) }

  /** Every command taken off the channel is in exactly one place. */
  ghost predicate Accounted(s: State) {
    Places(s) == multiset(UpTo(s.taken))
  }

  /** Where each command is, with how often it is there. */
  ghost function Places(s: State): multiset<nat> {
    multiset(s.executed) + multiset(s.logged) + multiset(s.discarded) + multiset(s.terminator)
    + multiset(Held(s.phase))
  }

  /** From `s` to `t` no command was lost or doubled, and `t` holds whatever it newly took. */
  ghost predicate Conserves(s: State, t: State) {
    || (t.taken == s.taken && Places(t) == Places(s))
    || (t.taken == s.taken + 1 && Places(t) == Places(s) + multiset{s.taken})
  }

  ghost predicate Increasing(xs: seq<nat>) {
    forall i, j :: 0 <= i < j < |xs| ==> xs[i] < xs[j]
  }

  /** Executed commands, then the ones still held, are in channel order. */
  ghost predicate InOrder(s: State) {
    Increasing(s.executed + Held(s.phase)) && forall c :: c in s.executed + Held(s.phase) ==> c < s.taken
  }

  /** A Terminate ends the client; no executed or held command is one. */
  ghost predicate TerminateRespected(sent: seq<Command>, s: State) {
    && s.taken <= |sent|
    && (forall c :: c in s.executed + Held(s.phase) ==> c < |sent| && !sent[c].Terminate?)
    && (s.terminator != [] ==> s.phase.Stopped? && s.terminator == [s.taken - 1] && s.taken > 0)
    && (forall c :: 0 <= c < s.taken && sent[c].Terminate? ==> s.terminator == [c])
  }

  ghost predicate Inv(sent: seq<Command>, s: State) {
    Accounted(s) && InOrder(s) && TerminateRespected(sent, s)
  }

  function Order(s: State): seq<nat> { s.executed + Held(s.phase) }

  /** A step keeps the order of executed and held commands, cuts it short, or adds the newest command. */
  lemma OrderStep(sent: seq<Command>, s: State, e: Event)
    ensures var t := Step(sent, s, e);
      Order(t) <= Order(s) || (Order(t) == Order(s) + [s.taken] && t.taken == s.taken + 1 && s.taken < |sent| &&
                               !sent[s.taken].Terminate?)
    ensures s.taken <= Step(sent, s, e).taken
  {
    match s.phase
    case Running(queued, reconnect) =>
      if queued != [] { assert s.executed + [queued[0]] + queued[1..] == Order(s); }
      else { assert s.executed + [s.taken] + [] == s.executed + [s.taken]; }
    case Connecting(parked) =>
      assert s.executed + (parked + [s.taken]) == Order(s) + [s.taken];
    case _ =>
  }

  lemma InOrderStep(sent: seq<Command>, s: State, e: Event)
    requires InOrder(s)
    ensures InOrder(Step(sent, s, e))
  {
    OrderStep(sent, s, e);
    var t := Step(sent, s, e);
    forall c | c in Order(t) ensures c < t.taken {
      assert c in Order(s) || c == s.taken;
    }
    assert forall i :: 0 <= i < |Order(s)| ==> Order(s)[i] in Order(s);
  }

  lemma ExecuteConserves(s: State, c: nat, rest: seq<nat>, reconnect: bool, delivered: bool)
    ensures var t := Execute(s, c, rest, reconnect, delivered);
      Places(t) == Places(s.(phase := Running(rest, reconnect))) + multiset{c}
  {
  }

  lemma DropHeld(s: State, p: Phase)
    requires Held(p) == []
    ensures Places(s.(discarded := s.discarded + Held(s.phase), phase := p)) == Places(s)
  {
  }

  lemma LogHeld(s: State, p: Phase)
    requires Held(p) == []
    ensures Places(s.(logged := s.logged + Held(s.phase), phase := p)) == Places(s)
  {
  }

  lemma TakeTerminate(s: State, c: nat)
    requires s.terminator == []
    ensures Places(s.(terminator := [c])) == Places(s) + multiset{c}
  {
  }

  lemma Park(s: State, c: nat)
    requires s.phase.Connecting?
    ensures Places(s.(phase := Connecting(s.phase.parked + [c]))) == Places(s) + multiset{c}
  {
  }

  lemma ConnectingConserves(sent: seq<Command>, s: State, e: Event)
    requires s.terminator == [] && s.phase.Connecting?
    ensures Conserves(s, Step(sent, s, e))
  {
    match e
    case Receive(_) =>
      var next := s.(taken := s.taken + 1);
      if s.taken >= |sent| {
        DropHeld(s, Stopped);
      } else if sent[s.taken].Terminate? {
        TakeTerminate(next, s.taken);
        DropHeld(next.(terminator := [s.taken]), Stopped);
      } else {
        Park(next, s.taken);
      }
    case ConnectFail(reconnect) => LogHeld(s, AfterFailure(reconnect));
    case _ =>
  }

  lemma HeadConserves(s: State)
    requires s.phase.Running? && s.phase.queued != []
    ensures Places(s) == Places(s.(phase := Running(s.phase.queued[1..], s.phase.reconnect))) + multiset{s.phase.queued[0]}
  {
    assert s.phase.queued == [s.phase.queued[0]] + s.phase.queued[1..];
  }

  lemma QueuedConserves(sent: seq<Command>, s: State, e: Event)
    requires s.terminator == [] && s.phase.Running? && e.Receive? && s.phase.queued != []
    ensures Conserves(s, Step(sent, s, e))
  {
    var c, rest := s.phase.queued[0], s.phase.queued[1..];
    var left := s.(phase := Running(rest, s.phase.reconnect));
    assert Places(s) == Places(left) + multiset{c} by { HeadConserves(s); }
    if !IsTerminate(sent, c) {
      ExecuteConserves(s, c, rest, s.phase.reconnect, e.delivered);
    } else {
      assert Places(left.(terminator := [c])) == Places(left) + multiset{c} by { TakeTerminate(left, c); }
      DropHeld(left.(terminator := [c]), Stopped);
    }
  }

  lemma FreshConserves(sent: seq<Command>, s: State, e: Event)
    requires s.terminator == [] && s.phase.Running? && e.Receive? && s.phase.queued == []
    ensures Conserves(s, Step(sent, s, e))
  {
    if s.taken < |sent| && !sent[s.taken].Terminate? {
      ExecuteConserves(s.(taken := s.taken + 1), s.taken, [], s.phase.reconnect, e.delivered);
    }
  }

  lemma RunningConserves(sent: seq<Command>, s: State, e: Event)
    requires s.terminator == [] && s.phase.Running?
    ensures Conserves(s, Step(sent, s, e))
  {
    if e.Receive? {
      if s.phase.queued != [] { QueuedConserves(sent, s, e); } else { FreshConserves(sent, s, e); }
    }
  }

  lemma WaitingConserves(sent: seq<Command>, s: State, e: Event)
    requires s.terminator == [] && s.phase.Waiting?
    ensures Conserves(s, Step(sent, s, e))
  {
  }

  /** No step loses or doubles a command. */
  lemma StepConserves(sent: seq<Command>, s: State, e: Event)
    requires s.terminator != [] ==> s.phase.Stopped?
    ensures Conserves(s, Step(sent, s, e))
  {
    match s.phase
    case Connecting(_) => ConnectingConserves(sent, s, e);
    case Running(_, _) => RunningConserves(sent, s, e);
    case Waiting => WaitingConserves(sent, s, e);
    case Stopped =>
  }

  lemma ConservesAccounted(s: State, t: State)
    requires Accounted(s) && Conserves(s, t)
    ensures Accounted(t)
  {
    assert UpTo(s.taken + 1) == UpTo(s.taken) + [s.taken];
  }

  lemma TerminateStep(sent: seq<Command>, s: State, e: Event)
    requires TerminateRespected(sent, s)
    ensures TerminateRespected(sent, Step(sent, s, e))
  {
    OrderStep(sent, s, e);
    var t := Step(sent, s, e);
    forall c | c in Order(t) ensures c < |sent| && !sent[c].Terminate? {
      assert c in Order(s) || c == s.taken;
    }
  }

  lemma {:induction false} RunInv(sent: seq<Command>, s: State, es: seq<Event>)
    requires Inv(sent, s)
    ensures Inv(sent, Run(sent, s, es))
    decreases |es|
  {
    if es != [] {
      StepConserves(sent, s, es[0]);
      ConservesAccounted(s, Step(sent, s, es[0]));
      InOrderStep(sent, s, es[0]);
      TerminateStep(sent, s, es[0]);
      RunInv(sent, Step(sent, s, es[0]), es[1..]);
    }
  }

  // ---------- Whole runs ----------

  /**
   * Whatever happens, the executed commands are a subsequence of those sent, in order, each once, none
   * a Terminate; and every command still held comes after all of them, in order.
   */
  lemma ExecutedInOrder(sent: seq<Command>, es: seq<Event>)
    ensures var s := Run(sent, Start, es);
      && Increasing(s.executed + Held(s.phase))
      && Increasing(s.executed)
      && forall i :: 0 <= i < |s.executed| ==> s.executed[i] < s.taken <= |sent| && !sent[s.executed[i]].Terminate?
  {
    RunInv(sent, Start, es);
    var s := Run(sent, Start, es);
    forall i | 0 <= i < |s.executed| ensures s.executed[i] < s.taken <= |sent| && !sent[s.executed[i]].Terminate? {
      assert Order(s)[i] == s.executed[i] && s.executed[i] in Order(s);
    }
    assert forall i :: 0 <= i < |s.executed| ==> Order(s)[i] == s.executed[i];
  }

  /** Every command taken is executed, logged as dropped, discarded with its queue, still held, or the Terminate. */
  lemma EveryCommandAccounted(sent: seq<Command>, es: seq<Event>, c: nat)
    ensures var s := Run(sent, Start, es);
      multiset(s.executed)[c] + multiset(s.logged)[c] + multiset(s.discarded)[c] + multiset(s.terminator)[c]
      + multiset(Held(s.phase))[c] == (if c < s.taken then 1 else 0)
  {
    RunInv(sent, Start, es);
    UpToCount(Run(sent, Start, es).taken, c);
  }

  lemma {:induction false} UpToCount(n: nat, c: nat)
    ensures multiset(UpTo(n))[c] == if c < n then 1 else 0
  {
    if n > 0 {
      UpToCount(n - 1, c);
      assert UpTo(n) == UpTo(n - 1) + [n - 1];
    }
  }

  lemma {:induction false} StoppedForGood(sent: seq<Command>, s: State, es: seq<Event>)
    requires s.phase.Stopped?
    ensures Run(sent, s, es) == s
    decreases |es|
  {
    if es != [] { StoppedForGood(sent, s, es[1..]); }
  }

  /** Once a Terminate has been taken, nothing later in the channel is ever taken, let alone executed. */
  lemma NothingAfterTerminate(sent: seq<Command>, es: seq<Event>, more: seq<Event>, t: nat)
    requires t < Run(sent, Start, es).taken && t < |sent| && sent[t].Terminate?
    ensures Run(sent, Run(sent, Start, es), more) == Run(sent, Start, es)
    ensures Run(sent, Start, es).taken == t + 1
    ensures forall c :: c in Run(sent, Start, es).executed ==> c < t
  {
    RunInv(sent, Start, es);
    TerminatedState(sent, Run(sent, Start, es), t);
    StoppedForGood(sent, Run(sent, Start, es), more);
  }

  lemma TerminatedState(sent: seq<Command>, s: State, t: nat)
    requires Inv(sent, s) && t < s.taken && t < |sent| && sent[t].Terminate?
    ensures s.phase.Stopped? && s.taken == t + 1 && forall c :: c in s.executed ==> c < t
  {
    forall c | c in s.executed ensures c < t {
      assert c in s.executed + Held(s.phase);
    }
  }

  // ---------- The client's own loops ----------

  lemma {:induction false} RunConcat(sent: seq<Command>, s: State, p: seq<Event>, q: seq<Event>)
    ensures Run(sent, s, p + q) == Run(sent, Run(sent, s, p), q)
    decreases |p|
  {
    if p == [] {
      assert p + q == q;
    } else {
      assert (p + q)[1..] == p[1..] + q;
      RunConcat(sent, Step(sent, s, p[0]), p[1..], q);
    }
  }

  /** One more event of a script. */
  lemma RunNext(sent: seq<Command>, s: State, es: seq<Event>, from: nat, to: nat)
    requires from <= to < |es|
    ensures Run(sent, s, es[from..to+1]) == Step(sent, Run(sent, s, es[from..to]), es[to])
  {
    assert es[from..to+1] == es[from..to] + [es[to]];
    RunConcat(sent, s, es[from..to], [es[to]]);
    var t := Run(sent, s, es[from..to]);
    assert Run(sent, t, [es[to]]) == Run(sent, Step(sent, t, es[to]), [es[to]][1..]);
  }

  datatype Raced = Resolved(connected: bool, reconnect: bool) | Abandoned | Unresolved

  /** The channel's receiving end and the client's record of what became of each command. */
  class ClientTask {
    const sent: seq<Command>
    var taken: nat
    var executed: seq<nat>
    var logged: seq<nat>
    var discarded: seq<nat>
    var terminator: seq<nat>
    var connected: bool

    constructor (sent: seq<Command>)
      ensures this.sent == sent && At(Connecting([])) == Start && !connected
    {
      this.sent := sent;
      taken, executed, logged, discarded, terminator, connected := 0, [], [], [], [], false;
    }

    function At(p: Phase): State
      reads this
    {
      State(taken, p, executed, logged, discarded, terminator)
    }

    /** The next command off the channel, or `None` once every sender is gone. */
    method Recv() returns (c: Option<nat>)
      modifies this`taken
      ensures if old(taken) < |sent| then c == Some(old(taken)) && taken == old(taken) + 1
              else c == None && taken == old(taken)
    {
      if taken < |sent| {
        c := Some(taken);
        taken := taken + 1;
      } else {
        c := None;
      }
    }

    /** Awaits the connect while parking commands; a Terminate or a closed channel abandons it. */
    method RaceTerminate(script: seq<Event>, pos: nat) returns (out: Raced, parked: seq<nat>, next: nat)
      requires pos <= |script| && !connected
      modifies this`taken, this`terminator
      ensures pos <= next <= |script|
      ensures out.Unresolved? ==> next == |script|
      ensures out.Unresolved? ==> Run(sent, old(At(Connecting([]))), script[pos..next]) == At(Connecting(parked))
      ensures out.Abandoned? ==> Run(sent, old(At(Connecting([]))), script[pos..next]) ==
                                 At(Stopped).(discarded := discarded + parked)
      ensures out.Resolved? ==>
                var e := if out.connected then ConnectOk(out.reconnect) else ConnectFail(out.reconnect);
                pos < next && Run(sent, old(At(Connecting([]))), script[pos..next]) == Step(sent, At(Connecting(parked)), e)
    {
      ghost var s0 := At(Connecting([]));
      parked, next := [], pos;
      while next < |script|
        invariant pos <= next <= |script|
        invariant Run(sent, s0, script[pos..next]) == At(Connecting(parked))
      {
        RunNext(sent, s0, script, pos, next);
        var e := script[next];
        next := next + 1;
        match e
        case ConnectOk(reconnect) => return Resolved(true, reconnect), parked, next;
        case ConnectFail(reconnect) => return Resolved(false, reconnect), parked, next;
        case Receive(_) =>
          var c := Recv();
          if c.None? { return Abandoned, parked, next; }
          if IsTerminate(sent, c.value) {
            terminator := [c.value];
            return Abandoned, parked, next;
          }
          parked := parked + [c.value];
        case _ =>
      }
      out := Unresolved;
    }

    /** The connected loop: parked commands first, then the channel, polls in between. */
    method RunConnection(queued: seq<nat>, reconnect: bool, script: seq<Event>, pos: nat)
      returns (p: Phase, next: nat)
      requires pos <= |script| && connected
      modifies this`taken, this`executed, this`discarded, this`terminator
      ensures pos <= next <= |script|
      ensures Run(sent, old(At(Running(queued, reconnect))), script[pos..next]) == At(p)
      ensures p.Running? ==> next == |script|
      ensures !p.Connecting?
    {
      ghost var s0 := At(Running(queued, reconnect));
      var queue := queued;
      next := pos;
      while next < |script|
        invariant pos <= next <= |script|
        invariant Run(sent, s0, script[pos..next]) == At(Running(queue, reconnect))
      {
        RunNext(sent, s0, script, pos, next);
        var e := script[next];
        next := next + 1;
        match e
        case PollFail =>
          discarded := discarded + queue;
          return AfterFailure(reconnect), next;
        case Receive(delivered) =>
          var c: Option<nat>;
          if queue != [] {
            c, queue := Some(queue[0]), queue[1..];
          } else {
            c := Recv();
          }
          if c.None? { return Stopped, next; }
          if IsTerminate(sent, c.value) {
            terminator := [c.value];
            discarded := discarded + queue;
            return Stopped, next;
          }
          executed := executed + [c.value];
          if !delivered {
            discarded := discarded + queue;
            return AfterFailure(reconnect), next;
          }
        case _ =>
      }
      p := Running(queue, reconnect);
    }

    /** The backoff wait: every command that is not a Terminate is dropped with a log line. */
    method WaitOut(script: seq<Event>, pos: nat) returns (p: Phase, next: nat)
      requires pos <= |script| && !connected
      modifies this`taken, this`logged, this`terminator
      ensures pos <= next <= |script|
      ensures Run(sent, old(At(Waiting)), script[pos..next]) == At(p)
      ensures p.Waiting? ==> next == |script|
      ensures p == Waiting || p == Stopped || p == Connecting([])
    {
      ghost var s0 := At(Waiting);
      next := pos;
      while next < |script|
        invariant pos <= next <= |script|
        invariant Run(sent, s0, script[pos..next]) == At(Waiting)
      {
        RunNext(sent, s0, script, pos, next);
        var e := script[next];
        next := next + 1;
        match e
        case Elapse => return Connecting([]), next;
        case Receive(_) =>
          var c := Recv();
          if c.None? { return Stopped, next; }
          if IsTerminate(sent, c.value) {
            terminator := [c.value];
            return Stopped, next;
          }
          logged := logged + [c.value];
        case _ =>
      }
      p := Waiting;
    }

    /** One attempt: connect, then run the connection if there is one. */
    method Attempt(script: seq<Event>, pos: nat) returns (p: Phase, next: nat)
      requires pos <= |script|
      modifies this
      ensures pos <= next <= |script|
      ensures Run(sent, old(At(Connecting([]))), script[pos..next]) == At(p)
      ensures p.Connecting? || p.Running? ==> next == |script|
      ensures p.Running? <==> connected
    {
      ghost var s0 := At(Connecting([]));
      connected := false;
      var out, parked;
      out, parked, next := RaceTerminate(script, pos);
      match out
      case Unresolved =>
        p := Connecting(parked);
      case Abandoned =>
        discarded := discarded + parked;
        p := Stopped;
      case Resolved(ok, reconnect) =>
        if !ok {
          logged := logged + parked;
          p := AfterFailure(reconnect);
          return;
        }
        connected := true;
        var mid := next;
        p, next := RunConnection(parked, reconnect, script, mid);
        connected := p.Running?;
        assert script[pos..next] == script[pos..mid] + script[mid..next];
        RunConcat(sent, s0, script[pos..mid], script[mid..next]);
    }

    /** Connect, run, back off, and again, for as long as the environment's script lasts. */
    method RunReconnectLoop(script: seq<Event>) returns (p: Phase)
      requires At(Connecting([])) == Start && !connected
      modifies this
      ensures At(p) == Run(sent, Start, script)
      ensures connected <==> p.Running?
    {
      var next := 0;
      p := Connecting([]);
      while next < |script| && !p.Stopped?
        invariant next <= |script|
        invariant Run(sent, Start, script[..next]) == At(p)
        invariant next < |script| ==> p == Connecting([]) || p == Waiting || p == Stopped
        invariant connected <==> p.Running?
        decreases |script| - next
      {
        var was := next;
        if p.Waiting? {
          p, next := WaitOut(script, was);
        } else {
          p, next := Attempt(script, was);
        }
        assert script[..next] == script[..was] + script[was..next];
        RunConcat(sent, Start, script[..was], script[was..next]);
      }
      if p.Stopped? {
        assert script == script[..next] + script[next..];
        RunConcat(sent, Start, script[..next], script[next..]);
        StoppedForGood(sent, At(p), script[next..]);
      } else {
        assert script[..next] == script;
      }
    }
  }
}
