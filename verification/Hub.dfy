/**
 The WebSocket hub as a step system. One hub goroutine serves three rendezvous channels; between any two of
 its actions, and between two sends of one broadcast, any client's writer may take a message from its own
 bounded channel. A schedule is a sequence of such steps and `Exec` is what it leads to.
 */
module HubProtocol {

  datatype Message = Message(messageType: string, data: string, timestamp: string)

  /** The identity of a *Client: the hub's map is keyed by pointers. */
  type ClientId = nat

  const SEND_BUFFER: nat := 256

  datatype Channel = Channel(buffer: seq<Message>, closed: bool)

  /** The select loop is either waiting or in the middle of ranging over the clients for one message. */
  datatype Phase = Idle | Broadcasting(message: Message, remaining: set<ClientId>)

  datatype State = State(clients: set<ClientId>, channels: map<ClientId, Channel>, phase: Phase)

  datatype Step =
    | Register(client: ClientId)     // a new client, its channel made, taken from h.register
    | Unregister(client: ClientId)   // a reader's deferred h.unregister <- c, taken by the hub
    | Accept(message: Message)       // h.broadcast delivers a message and the range loop begins
    | Offer(client: ClientId)        // one iteration of the range loop, in any order
    | Finish                         // the range loop ends
    | Receive(client: ClientId)      // the client's writer takes the oldest buffered message

  /** Sending on a closed channel and closing it again both panic in Go. */
  datatype Outcome = At(state: State) | Panic | Stuck

  const INIT := State({}, map[], Idle)

  predicate Enabled(s: State, step: Step) {
    match step
    case Register(c) => s.phase.Idle? && c !in s.channels
    case Unregister(c) => s.phase.Idle? && c in s.channels
    case Accept(_) => s.phase.Idle?
    case Offer(c) => s.phase.Broadcasting? && c in s.phase.remaining && c in s.channels
    case Finish => s.phase.Broadcasting? && s.phase.remaining == {}
    case Receive(c) => c in s.channels && s.channels[c].buffer != []
  }

  /** close(client.send) followed by delete(h.clients, client), in whichever order the source has them. */
  function Drop(s: State, c: ClientId): Outcome
    requires c in s.channels
  {
    if s.channels[c].closed then Panic
    else At(s.(clients := s.clients - {c}, channels := s.channels[c := s.channels[c].(closed := true)]))
  }

  function Apply(s: State, step: Step): Outcome
    requires Enabled(s, step)
  {
    match step
    case Register(c) => At(s.(clients := s.clients + {c}, channels := s.channels[c := Channel([], false)]))
    case Unregister(c) => if c in s.clients then Drop(s, c) else At(s)
    case Accept(m) => At(s.(phase := Broadcasting(m, s.clients)))
    case Offer(c) =>
      var ch := s.channels[c];
      var next := s.(phase := Broadcasting(s.phase.message, s.phase.remaining - {c}));
      if ch.closed then Panic
      else if |ch.buffer| < SEND_BUFFER then
        At(next.(channels := s.channels[c := ch.(buffer := ch.buffer + [s.phase.message])]))
      else Drop(next, c)
    case Finish => At(s.(phase := Idle))
    case Receive(c) =>
      var ch := s.channels[c];
      At(s.(channels := s.channels[c := ch.(buffer := ch.buffer[1..])]))
  }

  function Exec(run: seq<Step>): Outcome {
    if run == [] then At(INIT)
    else
      var before := Exec(run[..|run|-1]);
      if !before.At? then before
      else if Enabled(before.state, run[|run|-1]) then Apply(before.state, run[|run|-1])
      else Stuck
  }

  // ---- What a run did, read off the schedule alone -------------------------------------------------

  /** The broadcasts the hub has taken, in order. */
  function Log(run: seq<Step>): seq<Message> {
    if run == [] then []
    else
      var before, last := Log(run[..|run|-1]), run[|run|-1];
      if last.Accept? then before + [last.message] else before
  }

  /** How many broadcasts the hub had taken when the client registered. */
  function JoinedAt(run: seq<Step>, c: ClientId): (n: nat)
    ensures n <= |Log(run)|
  {
    if run == [] then 0
    else if run[|run|-1] == Register(c) then |Log(run[..|run|-1])|
    else JoinedAt(run[..|run|-1], c)
  }

  function Buffered(o: Outcome, c: ClientId): seq<Message> {
    if o.At? && c in o.state.channels then o.state.channels[c].buffer else []
  }

  /** What a step hands to the client's writer. */
  function Taken(before: Outcome, step: Step, c: ClientId): seq<Message> {
    if step == Receive(c) && Buffered(before, c) != [] then [Buffered(before, c)[0]] else []
  }

  /** The step puts the current message into the client's channel. */
  predicate Sends(s: State, step: Step, c: ClientId) {
    step == Offer(c) && s.phase.Broadcasting? && |Buffered(At(s), c)| < SEND_BUFFER
  }

  function WithSent(messages: seq<Message>, s: State, step: Step, c: ClientId): seq<Message> {
    if Sends(s, step, c) then messages + [s.phase.message] else messages
  }

  /** What the client's writer has taken from its channel so far. */
  function Received(run: seq<Step>, c: ClientId): seq<Message> {
    if run == [] then []
    else
      Received(run[..|run|-1], c) + Taken(Exec(run[..|run|-1]), run[|run|-1], c)
  }

  /** Everything that has ever been put in the client's channel. */
  function Delivered(run: seq<Step>, c: ClientId): seq<Message> {
    Received(run, c) + Buffered(Exec(run), c)
  }

  /** A step that calls close on the client's channel. */
  predicate Closes(s: State, step: Step, c: ClientId) {
    || (step == Unregister(c) && c in s.clients)
    || (step == Offer(c) && c in s.channels && |s.channels[c].buffer| >= SEND_BUFFER)
  }

  function CloseCalls(run: seq<Step>, c: ClientId): nat {
    if run == [] then 0
    else
      var before := Exec(run[..|run|-1]);
      CloseCalls(run[..|run|-1], c) + if before.At? && Closes(before.state, run[|run|-1], c) then 1 else 0
  }

  // ---- The invariant ------------------------------------------------------------------------------

  /** The hub's own bookkeeping: an open channel is exactly a connected client's. */
  ghost predicate Consistent(s: State) {
    && (forall c :: c in s.clients <==> c in s.channels && !s.channels[c].closed)
    && (forall c :: c in s.channels ==> |s.channels[c].buffer| <= SEND_BUFFER)
    && (s.phase.Broadcasting? ==> s.phase.remaining <= s.clients)
  }

  function Pending(s: State, c: ClientId): nat {
    if s.phase.Broadcasting? && c in s.phase.remaining then 1 else 0
  }

  /** The messages are the log's from position j on, without gap, duplicate or reordering. */
  predicate IsRun(messages: seq<Message>, log: seq<Message>, j: nat) {
    j + |messages| <= |log| && messages == log[j..j + |messages|]
  }

  /** One client's history: the log, where it joined, all it was ever sent, and the closes of its channel. */
  datatype View = View(log: seq<Message>, joined: nat, delivered: seq<Message>, closes: nat)

  function ViewOf(run: seq<Step>, c: ClientId): View {
    View(Log(run), JoinedAt(run, c), Delivered(run, c), CloseCalls(run, c))
  }

  function Advance(v: View, s: State, step: Step, c: ClientId): View {
    View(if step.Accept? then v.log + [step.message] else v.log,
         if step == Register(c) then |v.log| else v.joined,
         WithSent(v.delivered, s, step, c),
         v.closes + if Closes(s, step, c) then 1 else 0)
  }

  ghost predicate ClientInv(v: View, s: State, c: ClientId) {
    if c !in s.channels then v.delivered == [] && v.closes == 0
    else
      && IsRun(v.delivered, v.log, v.joined)
      && (c in s.clients ==> v.joined + |v.delivered| + Pending(s, c) == |v.log|)
      && v.closes == (if c in s.clients then 0 else 1)
  }

  /** The message being offered is the last one taken. */
  predicate Current(log: seq<Message>, s: State) {
    s.phase.Broadcasting? ==> log != [] && log[|log|-1] == s.phase.message
  }

  ghost predicate HubInv(run: seq<Step>, s: State) {
    && Consistent(s)
    && Current(Log(run), s)
    && forall c :: ClientInv(ViewOf(run, c), s, c)
  }

  lemma ConsistentStep(s: State, step: Step)
    requires Consistent(s) && Enabled(s, step)
    ensures Apply(s, step).At? && Consistent(Apply(s, step).state)
  {}

  /** A channel is a queue: what a step takes from the front and adds at the back. */
  lemma ChannelStep(s: State, step: Step, c: ClientId)
    requires Enabled(s, step) && Apply(s, step).At?
    ensures Taken(At(s), step, c) + Buffered(Apply(s, step), c) == WithSent(Buffered(At(s), c), s, step, c)
  {
    if step == Receive(c) {
      var buffer := s.channels[c].buffer;
      assert [buffer[0]] + buffer[1..] == buffer;
    }
  }

  lemma DeliveredStep(run: seq<Step>, step: Step, c: ClientId)
    requires Exec(run).At? && Enabled(Exec(run).state, step) && Apply(Exec(run).state, step).At?
    ensures Exec(run + [step]) == Apply(Exec(run).state, step)
    ensures Delivered(run + [step], c) == WithSent(Delivered(run, c), Exec(run).state, step, c)
  {
    assert (run + [step])[..|run|] == run;
    ChannelStep(Exec(run).state, step, c);
    var s := Exec(run).state;
    SentAfter(Received(run, c), Taken(At(s), step, c), Buffered(Apply(s, step), c), Buffered(At(s), c), s, step, c);
  }

  lemma SentAfter(received: seq<Message>, taken: seq<Message>, after: seq<Message>, before: seq<Message>,
                  s: State, step: Step, c: ClientId)
    requires taken + after == WithSent(before, s, step, c)
    ensures (received + taken) + after == WithSent(received + before, s, step, c)
  {
    assert (received + taken) + after == received + (taken + after);
  }

  lemma ViewStep(run: seq<Step>, step: Step, c: ClientId)
    requires Exec(run).At? && Enabled(Exec(run).state, step) && Apply(Exec(run).state, step).At?
    ensures Exec(run + [step]) == Apply(Exec(run).state, step)
    ensures ViewOf(run + [step], c) == Advance(ViewOf(run, c), Exec(run).state, step, c)
  {
    DeliveredStep(run, step, c);
    var longer := run + [step];
    assert longer[..|run|] == run && longer[|run|] == step;
    assert Log(longer) == if step.Accept? then Log(run) + [step.message] else Log(run);
    assert JoinedAt(longer, c) == if step == Register(c) then |Log(run)| else JoinedAt(run, c);
  }

  lemma IsRunExtends(messages: seq<Message>, log: seq<Message>, j: nat, m: Message)
    requires IsRun(messages, log, j)
    ensures IsRun(messages, log + [m], j)
    ensures j + |messages| < |log| && log[j + |messages|] == m ==> IsRun(messages + [m], log, j)
  {}

  /** What the bookkeeping says of one client. */
  ghost predicate ConsistentFor(s: State, c: ClientId) {
    && (c in s.clients <==> c in s.channels && !s.channels[c].closed)
    && (c in s.channels ==> |s.channels[c].buffer| <= SEND_BUFFER)
    && (Pending(s, c) == 1 ==> c in s.clients)
  }

  lemma NewClientStep(v: View, s: State, step: Step, c: ClientId)
    requires ConsistentFor(s, c) && Enabled(s, step) && Apply(s, step).At?
    requires c !in s.channels && ClientInv(v, s, c)
    ensures ClientInv(Advance(v, s, step, c), Apply(s, step).state, c)
  {}

  lemma OfferStep(v: View, s: State, c: ClientId)
    requires ConsistentFor(s, c) && Enabled(s, Offer(c)) && Apply(s, Offer(c)).At?
    requires Current(v.log, s) && ClientInv(v, s, c)
    ensures ClientInv(Advance(v, s, Offer(c), c), Apply(s, Offer(c)).state, c)
  {
    IsRunExtends(v.delivered, v.log, v.joined, s.phase.message);
  }

  lemma OtherStep(v: View, s: State, step: Step, c: ClientId)
    requires ConsistentFor(s, c) && Enabled(s, step) && Apply(s, step).At?
    requires c in s.channels && step != Offer(c) && ClientInv(v, s, c)
    ensures ClientInv(Advance(v, s, step, c), Apply(s, step).state, c)
  {
    if step.Accept? {
      IsRunExtends(v.delivered, v.log, v.joined, step.message);
    }
  }

  lemma ClientStep(v: View, s: State, step: Step, c: ClientId)
    requires Consistent(s) && Enabled(s, step) && Apply(s, step).At?
    requires Current(v.log, s) && ClientInv(v, s, c)
    ensures ClientInv(Advance(v, s, step, c), Apply(s, step).state, c)
  {
    assert ConsistentFor(s, c);
    if c !in s.channels {
      NewClientStep(v, s, step, c);
    } else if step == Offer(c) {
      OfferStep(v, s, c);
    } else {
      OtherStep(v, s, step, c);
    }
  }

  lemma {:induction false} Reachable(run: seq<Step>)
    ensures Exec(run) != Panic
    ensures Exec(run).At? ==> HubInv(run, Exec(run).state)
  {
    if run != [] {
      var prefix, step := run[..|run|-1], run[|run|-1];
      Reachable(prefix);
      assert prefix + [step] == run;
      if Exec(run) != Stuck && Exec(prefix).At? {
        var s := Exec(prefix).state;
        ConsistentStep(s, step);
        forall c ensures ClientInv(ViewOf(run, c), Exec(run).state, c) {
          ViewStep(prefix, step, c);
          assert ClientInv(ViewOf(prefix, c), s, c);
          ClientStep(ViewOf(prefix, c), s, step, c);
        }
      }
    }
  }

  // ---- The guarantees -----------------------------------------------------------------------------

  /** No schedule sends on a closed channel or closes one twice. */
  lemma NeverPanics(run: seq<Step>)
    ensures Exec(run) != Panic
  {
    Reachable(run);
  }

  /** What a client has consumed plus what is buffered is one contiguous run of the hub's broadcasts, starting at
      its registration; for a connected client it misses only the broadcast still to be offered to it. */
  lemma {:induction false} ContiguousDelivery(run: seq<Step>, c: ClientId)
    requires Exec(run).At? && c in Exec(run).state.channels
    ensures var j, n := JoinedAt(run, c), |Delivered(run, c)|;
            && j + n <= |Log(run)|
            && Received(run, c) + Buffered(Exec(run), c) == Log(run)[j..j + n]
            && (c in Exec(run).state.clients ==> j + n + Pending(Exec(run).state, c) == |Log(run)|)
  {
    Reachable(run);
    assert ClientInv(ViewOf(run, c), Exec(run).state, c);
  }

  /** The channel is closed exactly once, at the moment the client leaves, and never for a connected client. */
  lemma {:induction false} ClosedExactlyOnce(run: seq<Step>, c: ClientId)
    requires Exec(run).At?
    ensures var s := Exec(run).state;
            CloseCalls(run, c) == if c in s.channels && c !in s.clients then 1 else 0
    ensures var s := Exec(run).state;
            c in s.channels ==> (s.channels[c].closed <==> CloseCalls(run, c) == 1)
  {
    Reachable(run);
    assert ClientInv(ViewOf(run, c), Exec(run).state, c);
  }

  /** A client is evicted exactly when it is a full buffer behind. */
  lemma {:induction false} EvictedOnlyWhenFullyBehind(run: seq<Step>, c: ClientId)
    requires Exec(run).At? && Enabled(Exec(run).state, Offer(c))
    ensures var after := Apply(Exec(run).state, Offer(c));
            && after.At?
            && (c !in after.state.clients <==>
                |Log(run)| - 1 - JoinedAt(run, c) - |Received(run, c)| == 256)
  {
    Reachable(run);
    assert ClientInv(ViewOf(run, c), Exec(run).state, c);
  }

  lemma DroppedStep(s: State, step: Step, c: ClientId)
    requires ConsistentFor(s, c) && Enabled(s, step) && Apply(s, step).At?
    requires c in s.channels && c !in s.clients
    ensures c in Apply(s, step).state.channels && c !in Apply(s, step).state.clients
    ensures Apply(s, step).state.channels[c].closed && !Sends(s, step, c)
  {}

  /** Once dropped, a client gets nothing more: on every continuation its channel stays closed and no message is
      ever added to what had been delivered. */
  lemma {:induction false} DroppedIsFinal(run: seq<Step>, more: seq<Step>, c: ClientId)
    requires Exec(run + more).At? && Exec(run).At?
    requires c in Exec(run).state.channels && c !in Exec(run).state.clients
    ensures var s := Exec(run + more).state;
            c in s.channels && s.channels[c].closed && c !in s.clients
    ensures Delivered(run + more, c) == Delivered(run, c)
  {
    if more == [] {
      Reachable(run);
      assert ConsistentFor(Exec(run).state, c);
      assert run + more == run;
    } else {
      var prefix, step := run + more[..|more|-1], more[|more|-1];
      assert (run + more)[..|run + more|-1] == prefix;
      assert run + more == prefix + [step];
      DroppedIsFinal(run, more[..|more|-1], c);
      Reachable(prefix);
      assert ConsistentFor(Exec(prefix).state, c);
      DroppedStep(Exec(prefix).state, step, c);
      DeliveredStep(prefix, step, c);
    }
  }

  // ---- One broadcast ------------------------------------------------------------------------------

  /** The run after the listed clients' writers have each taken one message, where there was one. */
  function Drained(run: seq<Step>, cs: seq<ClientId>): seq<Step> {
    if cs == [] then run
    else
      var before, c := Drained(run, cs[..|cs|-1]), cs[|cs|-1];
      if Buffered(Exec(before), c) != [] then before + [Receive(c)] else before
  }

  /** The run just before the client at position k has its turn: the writers named in writers[k] have run. */
  function Turn(run: seq<Step>, writers: seq<seq<ClientId>>, k: nat): seq<Step> {
    if k < |writers| then Drained(run, writers[k]) else run
  }

  /** The run after the range loop has offered the message to the clients in order. */
  function Offered(run: seq<Step>, order: seq<ClientId>, writers: seq<seq<ClientId>>): seq<Step> {
    if order == [] then run
    else
      var n := |order| - 1;
      Turn(Offered(run, order[..n], writers), writers, n) + [Offer(order[n])]
  }

  /** The client's buffer was full when its turn came. */
  predicate FullAtTurn(run: seq<Step>, order: seq<ClientId>, writers: seq<seq<ClientId>>, c: ClientId) {
    if order == [] then false
    else
      var n := |order| - 1;
      if order[n] == c then |Buffered(Exec(Turn(Offered(run, order[..n], writers), writers, n)), c)| == SEND_BUFFER
      else FullAtTurn(run, order[..n], writers, c)
  }

  ghost predicate Distinct(order: seq<ClientId>) {
    forall i, j :: 0 <= i < j < |order| ==> order[i] != order[j]
  }

  /** In some order, every client once. */
  ghost predicate RangesOver(order: seq<ClientId>, clients: set<ClientId>) {
    Distinct(order) && forall c :: c in order <==> c in clients
  }

  lemma RangesOneMore(order: seq<ClientId>, clients: set<ClientId>, c: ClientId)
    requires RangesOver(order, clients) && c !in clients
    ensures RangesOver(order + [c], clients + {c})
  {
    assert forall i :: 0 <= i < |order| ==> order[i] in order;
  }

  lemma ExecStep(run: seq<Step>, step: Step)
    requires Exec(run).At? && Enabled(Exec(run).state, step)
    ensures Exec(run + [step]) == Apply(Exec(run).state, step)
    ensures Log(run + [step]) == if step.Accept? then Log(run) + [step.message] else Log(run)
  {
    assert (run + [step])[..|run|] == run;
  }

  /** Writers only make room. */
  ghost predicate OnlyDrained(s: State, t: State) {
    && t.phase == s.phase && t.clients == s.clients && t.channels.Keys == s.channels.Keys
    && forall c :: c in s.channels ==> |t.channels[c].buffer| <= |s.channels[c].buffer|
  }

  lemma {:induction false} DrainedRuns(run: seq<Step>, cs: seq<ClientId>)
    requires Exec(run).At?
    ensures Exec(Drained(run, cs)).At? && OnlyDrained(Exec(run).state, Exec(Drained(run, cs)).state)
    ensures run <= Drained(run, cs) && Log(Drained(run, cs)) == Log(run)
  {
    if cs != [] {
      var before, c := Drained(run, cs[..|cs|-1]), cs[|cs|-1];
      DrainedRuns(run, cs[..|cs|-1]);
      if Buffered(Exec(before), c) != [] {
        ExecStep(before, Receive(c));
      }
    }
  }

  lemma TurnRuns(run: seq<Step>, writers: seq<seq<ClientId>>, k: nat)
    requires Exec(run).At?
    ensures var turn := Turn(run, writers, k);
            && Exec(turn).At? && OnlyDrained(Exec(run).state, Exec(turn).state)
            && run <= turn && Log(turn) == Log(run)
  {
    if k < |writers| {
      DrainedRuns(run, writers[k]);
    }
  }

  /** One turn: the client is offered the message, and evicted exactly if its buffer is full. */
  lemma OneTurn(run: seq<Step>, c: ClientId)
    requires Exec(run).At? && Exec(run).state.phase.Broadcasting? && c in Exec(run).state.phase.remaining
    ensures var s, after := Exec(run).state, Exec(run + [Offer(c)]);
            && after.At? && Log(run + [Offer(c)]) == Log(run)
            && after.state.phase == Broadcasting(s.phase.message, s.phase.remaining - {c})
            && after.state.clients == (if |Buffered(Exec(run), c)| == SEND_BUFFER then s.clients - {c} else s.clients)
            && forall d :: d != c ==> Buffered(after, d) == Buffered(Exec(run), d)
  {
    Reachable(run);
    assert c in Exec(run).state.clients;
    ExecStep(run, Offer(c));
    ConsistentStep(Exec(run).state, Offer(c));
  }

  /** What the turns so far mean for one client: it is dropped exactly if its buffer was full at its turn, and a buffer
      full then was full when the loop began. */
  ghost predicate TurnsOf(run: seq<Step>, order: seq<ClientId>, writers: seq<seq<ClientId>>, c: ClientId) {
    && Exec(run).At? && Exec(Offered(run, order, writers)).At?
    && var start, after := Exec(run), Exec(Offered(run, order, writers));
       && (c in after.state.clients <==> c in start.state.clients && !FullAtTurn(run, order, writers, c))
       && (c !in order ==> |Buffered(after, c)| <= |Buffered(start, c)| && !FullAtTurn(run, order, writers, c))
       && (FullAtTurn(run, order, writers, c) ==> |Buffered(start, c)| >= SEND_BUFFER)
  }

  /** The range loop may visit these clients. */
  ghost predicate CanVisit(run: seq<Step>, order: seq<ClientId>) {
    && Exec(run).At? && Exec(run).state.phase.Broadcasting?
    && Distinct(order) && forall c :: c in order ==> c in Exec(run).state.phase.remaining
  }

  /** Where the range loop is after these turns. */
  ghost predicate AfterTurns(run: seq<Step>, order: seq<ClientId>, writers: seq<seq<ClientId>>) {
    && Exec(run).At? && Exec(run).state.phase.Broadcasting?
    && var offered, phase := Offered(run, order, writers), Exec(run).state.phase;
       && Exec(offered).At? && run <= offered && Log(offered) == Log(run)
       && Exec(offered).state.phase == Broadcasting(phase.message, phase.remaining - (set c | c in order))
  }

  lemma OneMoreTurn(run: seq<Step>, init: seq<ClientId>, c: ClientId, writers: seq<seq<ClientId>>)
    ensures var turn := Turn(Offered(run, init, writers), writers, |init|);
            && Offered(run, init + [c], writers) == turn + [Offer(c)]
            && forall d :: FullAtTurn(run, init + [c], writers, d) ==
                           if d == c then |Buffered(Exec(turn), c)| == SEND_BUFFER else FullAtTurn(run, init, writers, d)
  {
    assert (init + [c])[..|init|] == init;
  }

  lemma TurnForClient(run: seq<Step>, init: seq<ClientId>, c: ClientId, writers: seq<seq<ClientId>>, d: ClientId)
    requires TurnsOf(run, init, writers, d) && c !in init
    requires var turn := Turn(Offered(run, init, writers), writers, |init|);
             && Exec(turn).At? && OnlyDrained(Exec(Offered(run, init, writers)).state, Exec(turn).state)
             && Exec(turn + [Offer(c)]).At?
             && Exec(turn + [Offer(c)]).state.clients ==
                (if |Buffered(Exec(turn), c)| == SEND_BUFFER then Exec(turn).state.clients - {c} else Exec(turn).state.clients)
             && (d != c ==> Buffered(Exec(turn + [Offer(c)]), d) == Buffered(Exec(turn), d))
    ensures TurnsOf(run, init + [c], writers, d)
  {
    OneMoreTurn(run, init, c, writers);
    var before := Offered(run, init, writers);
    assert |Buffered(Exec(Turn(before, writers, |init|)), d)| <= |Buffered(Exec(before), d)|;
  }

  lemma VisitPrefix(run: seq<Step>, order: seq<ClientId>)
    requires CanVisit(run, order) && order != []
    ensures var init, c := order[..|order|-1], order[|order|-1];
            && CanVisit(run, init) && c !in init && order == init + [c]
            && (set d | d in order) == (set d | d in init) + {c}
  {
    var init, c := order[..|order|-1], order[|order|-1];
    assert order == init + [c];
  }

  lemma TurnAfterTurns(run: seq<Step>, init: seq<ClientId>, c: ClientId, writers: seq<seq<ClientId>>)
    requires AfterTurns(run, init, writers) && c !in init && c in Exec(run).state.phase.remaining
    requires (set d | d in init + [c]) == (set d | d in init) + {c}
    ensures AfterTurns(run, init + [c], writers)
    ensures var turn := Turn(Offered(run, init, writers), writers, |init|);
            && Exec(turn).At? && OnlyDrained(Exec(Offered(run, init, writers)).state, Exec(turn).state)
            && Exec(turn).state.phase.Broadcasting? && c in Exec(turn).state.phase.remaining
  {
    var before := Offered(run, init, writers);
    var turn := Turn(before, writers, |init|);
    TurnRuns(before, writers, |init|);
    OneTurn(turn, c);
    OneMoreTurn(run, init, c, writers);
  }

  lemma {:induction false} OfferedRuns(run: seq<Step>, order: seq<ClientId>, writers: seq<seq<ClientId>>)
    requires CanVisit(run, order)
    ensures AfterTurns(run, order, writers)
  {
    if order != [] {
      var init, c := order[..|order|-1], order[|order|-1];
      VisitPrefix(run, order);
      OfferedRuns(run, init, writers);
      TurnAfterTurns(run, init, c, writers);
    }
  }

  /** A range loop over connected clients keeps exactly those whose buffer is not full at their turn, and a buffer full
      then was full when the loop began. */
  lemma {:induction false} OfferedTo(run: seq<Step>, order: seq<ClientId>, writers: seq<seq<ClientId>>, d: ClientId)
    requires CanVisit(run, order)
    ensures Exec(Offered(run, order, writers)).At? && TurnsOf(run, order, writers, d)
  {
    if order != [] {
      var init, c := order[..|order|-1], order[|order|-1];
      VisitPrefix(run, order);
      OfferedTo(run, init, writers, d);
      OfferedRuns(run, init, writers);
      TurnAfterTurns(run, init, c, writers);
      OneTurn(Turn(Offered(run, init, writers), writers, |init|), c);
      TurnForClient(run, init, c, writers, d);
    }
  }

  function Named(writers: seq<seq<ClientId>>): set<ClientId> {
    set k, c | 0 <= k < |writers| && c in writers[k] :: c
  }

  /** How often the step occurs. */
  function Times(run: seq<Step>, step: Step): nat {
    multiset(run)[step]
  }

  lemma {:induction false} DrainedSteps(run: seq<Step>, cs: seq<ClientId>, step: Step)
    ensures Times(Drained(run, cs), step) >= Times(run, step)
    ensures Times(Drained(run, cs), step) > Times(run, step) ==> step.Receive? && step.client in cs
  {
    if cs != [] {
      DrainedSteps(run, cs[..|cs|-1], step);
    }
  }

  lemma TurnSteps(run: seq<Step>, writers: seq<seq<ClientId>>, k: nat, step: Step)
    ensures Times(Turn(run, writers, k), step) >= Times(run, step)
    ensures Times(Turn(run, writers, k), step) > Times(run, step) ==> step.Receive? && step.client in Named(writers)
  {
    if k < |writers| {
      DrainedSteps(run, writers[k], step);
    }
  }

  lemma TimesOneMore(run: seq<Step>, last: Step, step: Step)
    ensures Times(run + [last], step) == Times(run, step) + if step == last then 1 else 0
  {}

  /** The range loop adds one Offer for each client in the order, some Receive steps of the named writers, and nothing
      else. */
  ghost predicate Adds(before: seq<Step>, after: seq<Step>, order: seq<ClientId>, writers: seq<seq<ClientId>>, step: Step) {
    var added := Times(after, step) - Times(before, step);
    if step.Offer? then added == if step.client in order then 1 else 0
    else added >= 0 && (added > 0 ==> step.Receive? && step.client in Named(writers))
  }

  lemma TurnAdds(run: seq<Step>, before: seq<Step>, init: seq<ClientId>, c: ClientId, writers: seq<seq<ClientId>>, step: Step)
    requires Adds(run, before, init, writers, step) && c !in init
    ensures Adds(run, Turn(before, writers, |init|) + [Offer(c)], init + [c], writers, step)
  {
    TurnSteps(before, writers, |init|, step);
    TimesOneMore(Turn(before, writers, |init|), Offer(c), step);
  }

  lemma {:induction false} OfferedSteps(run: seq<Step>, order: seq<ClientId>, writers: seq<seq<ClientId>>, step: Step)
    requires Distinct(order)
    ensures Adds(run, Offered(run, order, writers), order, writers, step)
  {
    if order != [] {
      var init, c := order[..|order|-1], order[|order|-1];
      assert order == init + [c];
      OfferedSteps(run, init, writers, step);
      TurnAdds(run, Offered(run, init, writers), init, c, writers, step);
    }
  }

  /** The whole broadcast, as steps. */
  function BroadcastRun(run: seq<Step>, m: Message, order: seq<ClientId>, writers: seq<seq<ClientId>>): seq<Step> {
    Offered(run + [Accept(m)], order, writers) + [Finish]
  }

  /** A broadcast takes the message once, offers it to every connected client once, lets named writers run, finishes
      once, and does nothing else. */
  lemma {:induction false} BroadcastSteps(run: seq<Step>, m: Message, clients: set<ClientId>, order: seq<ClientId>,
                                          writers: seq<seq<ClientId>>, step: Step)
    requires RangesOver(order, clients)
    ensures var added := Times(BroadcastRun(run, m, order, writers), step) - Times(run, step);
            match step
            case Accept(taken) => added == if taken == m then 1 else 0
            case Offer(c) => added == if c in clients then 1 else 0
            case Finish => added == 1
            case Receive(c) => added >= 0 && (added > 0 ==> c in Named(writers))
            case Register(_) => added == 0
            case Unregister(_) => added == 0
  {
    TimesOneMore(run, Accept(m), step);
    OfferedSteps(run + [Accept(m)], order, writers, step);
    TimesOneMore(Offered(run + [Accept(m)], order, writers), Finish, step);
  }

  lemma BroadcastRuns(run: seq<Step>, m: Message, order: seq<ClientId>, writers: seq<seq<ClientId>>)
    requires Exec(run).At? && Exec(run).state.phase.Idle? && RangesOver(order, Exec(run).state.clients)
    ensures var accepted, whole := run + [Accept(m)], BroadcastRun(run, m, order, writers);
            && Exec(accepted) == At(Exec(run).state.(phase := Broadcasting(m, Exec(run).state.clients)))
            && CanVisit(accepted, order) && Exec(Offered(accepted, order, writers)).At?
            && Exec(whole) == At(Exec(Offered(accepted, order, writers)).state.(phase := Idle))
            && run <= whole && Log(whole) == Log(run) + [m]
  {
    var accepted := run + [Accept(m)];
    ExecStep(run, Accept(m));
    assert Exec(run).state.clients == (set c | c in order);
    OfferedRuns(accepted, order, writers);
    ExecStep(Offered(accepted, order, writers), Finish);
  }

  /** A broadcast keeps a client exactly if its buffer is not full at its own turn: so it keeps every client with fewer
      than 256 unread messages before it. */
  lemma {:induction false} BroadcastKeeps(run: seq<Step>, m: Message, order: seq<ClientId>, writers: seq<seq<ClientId>>,
                                          c: ClientId)
    requires Exec(run).At? && Exec(run).state.phase.Idle? && RangesOver(order, Exec(run).state.clients)
    ensures var s, after := Exec(run).state, Exec(BroadcastRun(run, m, order, writers));
            && after.At? && after.state.phase.Idle?
            && (c in after.state.clients <==> c in s.clients && !FullAtTurn(run + [Accept(m)], order, writers, c))
            && (c in s.clients && |Buffered(Exec(run), c)| < 256 ==> c in after.state.clients)
  {
    BroadcastRuns(run, m, order, writers);
    OfferedTo(run + [Accept(m)], order, writers, c);
  }
}

/** The hub as the object the source has: each arm of the select loop updates it in place and records its step. */
module WebSocketHub {
  import opened HubProtocol

  class Hub {
    var clients: set<ClientId>
    var channels: map<ClientId, Channel>
    ghost var phase: Phase
    ghost var run: seq<Step>

    /** The fields are what the recorded run leads to, so every guarantee about runs speaks of this object. */
    ghost predicate Valid()
      reads this
    {
      Exec(run) == At(State(clients, channels, phase))
    }

    constructor ()
      ensures Valid() && run == [] && phase == Idle
    {
      clients, channels, phase, run := {}, map[], Idle, [];
    }

    ghost method Record(step: Step)
      requires Exec(run).At? && Enabled(Exec(run).state, step)
      requires Apply(Exec(run).state, step) == At(State(clients, channels, phase))
      modifies this`run
      ensures Valid() && run == old(run) + [step]
    {
      assert (run + [step])[..|run|] == run;
      run := run + [step];
    }

    method Register(c: ClientId)
      requires Valid() && phase == Idle && c !in channels
      modifies this
      ensures Valid() && phase == Idle && run == old(run) + [HubProtocol.Register(c)]
      ensures clients == old(clients) + {c} && channels == old(channels)[c := Channel([], false)]
    {
      clients := clients + {c};
      channels := channels[c := Channel([], false)];
      Record(HubProtocol.Register(c));
    }

    method Unregister(c: ClientId)
      requires Valid() && phase == Idle && c in channels
      modifies this
      ensures Valid() && phase == Idle && run == old(run) + [HubProtocol.Unregister(c)]
      ensures clients == old(clients) - {c} && channels[c].closed && channels[c].buffer == old(channels)[c].buffer
      ensures channels.Keys == old(channels).Keys && forall d :: d in channels && d != c ==> channels[d] == old(channels)[d]
    {
      Reachable(run);
      if c in clients {
        clients := clients - {c};
        channels := channels[c := channels[c].(closed := true)];
      }
      Record(HubProtocol.Unregister(c));
    }

    /** The client's writer takes the oldest message, if there is one. */
    method Receive(c: ClientId)
      requires Valid()
      modifies this
      ensures Valid() && phase == old(phase) && clients == old(clients) && channels.Keys == old(channels.Keys)
      ensures forall d :: d in channels ==>
                channels[d] == if d == c && old(channels)[d].buffer != [] then
                                 Channel(old(channels)[d].buffer[1..], old(channels)[d].closed)
                               else old(channels)[d]
      ensures run == old(run) +
              if c in old(channels) && old(channels)[c].buffer != [] then [HubProtocol.Receive(c)] else []
    {
      if c in channels && channels[c].buffer != [] {
        channels := channels[c := channels[c].(buffer := channels[c].buffer[1..])];
        Record(HubProtocol.Receive(c));
      }
    }

    /** One iteration of the range loop: a send that does not wait, or the eviction of the client. */
    method Offer(c: ClientId, m: Message, ghost remaining: set<ClientId>)
      requires Valid() && phase == Broadcasting(m, remaining) && c in remaining
      modifies this
      ensures Valid() && phase == Broadcasting(m, remaining - {c})
      ensures run == old(run) + [HubProtocol.Offer(c)] && c in old(channels)
      ensures if |old(channels)[c].buffer| < 256 then
                clients == old(clients) && channels == old(channels)[c := Channel(old(channels)[c].buffer + [m], false)]
              else
                clients == old(clients) - {c} && channels == old(channels)[c := Channel(old(channels)[c].buffer, true)]
    {
      Reachable(run);
      assert c in channels && !channels[c].closed;
      if |channels[c].buffer| < SEND_BUFFER {
        channels := channels[c := channels[c].(buffer := channels[c].buffer + [m])];
      } else {
        channels := channels[c := channels[c].(closed := true)];
        clients := clients - {c};
      }
      phase := Broadcasting(m, remaining - {c});
      Record(HubProtocol.Offer(c));
    }

    /** The writers of the listed clients take one message each, where there is one. */
    method RunWriters(cs: seq<ClientId>)
      requires Valid()
      modifies this
      ensures Valid() && phase == old(phase) && clients == old(clients)
      ensures run == Drained(old(run), cs)
    {
      for i := 0 to |cs|
        invariant Valid() && phase == old(phase) && clients == old(clients)
        invariant run == Drained(old(run), cs[..i])
      {
        assert cs[..i + 1][..i] == cs[..i];
        Receive(cs[i]);
      }
      assert cs[..|cs|] == cs;
    }

    /** One turn of the range loop: the writers that get to run, then one client of those still to visit. */
    method TakeTurn(m: Message, writers: seq<seq<ClientId>>, k: nat, todo: set<ClientId>) returns (c: ClientId)
      requires Valid() && phase == Broadcasting(m, todo) && todo != {}
      modifies this
      ensures Valid() && phase == Broadcasting(m, todo - {c}) && c in todo
      ensures run == Turn(old(run), writers, k) + [HubProtocol.Offer(c)]
    {
      if k < |writers| {
        RunWriters(writers[k]);
      }
      c :| c in todo;
      Offer(c, m, todo);
    }

    /** The range loop, over the clients in an arbitrary order, which it reports: before its k-th send the writers named
        in `writers[k]` run. */
    method OfferAll(m: Message, writers: seq<seq<ClientId>>) returns (ghost order: seq<ClientId>)
      requires Valid() && phase == Broadcasting(m, clients)
      modifies this
      ensures Valid() && phase == Broadcasting(m, {})
      ensures RangesOver(order, old(clients)) && run == Offered(old(run), order, writers)
    {
      var todo, k := clients, 0;
      order := [];
      while todo != {}
        invariant Valid() && phase == Broadcasting(m, todo)
        invariant k == |order| && todo <= old(clients) && RangesOver(order, old(clients) - todo)
        invariant run == Offered(old(run), order, writers)
        decreases todo
      {
        var c := TakeTurn(m, writers, k, todo);
        OneMoreTurn(old(run), order, c, writers);
        RangesOneMore(order, old(clients) - todo, c);
        assert old(clients) - todo + {c} == old(clients) - (todo - {c});
        order := order + [c];
        todo := todo - {c};
        k := k + 1;
      }
    }

    /** The broadcast arm, however the writers are scheduled against its loop: the message is taken, offered to every
        connected client once, in the order reported, and nothing else is done. A client is dropped exactly if its buffer
        is full at its turn, so none is that had fewer than 256 unread messages. Afterwards every client still connected
        has been sent every broadcast since it registered, this one included. */
    method Broadcast(m: Message, writers: seq<seq<ClientId>>) returns (ghost order: seq<ClientId>)
      requires Valid() && phase == Idle
      modifies this
      ensures Valid() && phase == Idle
      ensures RangesOver(order, old(clients)) && run == BroadcastRun(old(run), m, order, writers)
      ensures Log(run) == Log(old(run)) + [m]
      ensures forall c :: c in clients <==> c in old(clients) && !FullAtTurn(old(run) + [Accept(m)], order, writers, c)
      ensures forall c :: c in old(clients) && |Buffered(Exec(old(run)), c)| < 256 ==> c in clients
      ensures forall c :: c in clients ==> Delivered(run, c) == Log(run)[JoinedAt(run, c)..]
    {
      phase := Broadcasting(m, clients);
      Record(Accept(m));
      order := OfferAll(m, writers);
      phase := Idle;
      Record(Finish);
      BroadcastRuns(old(run), m, order, writers);
      forall c ensures c in clients <==> c in old(clients) && !FullAtTurn(old(run) + [Accept(m)], order, writers, c)
        ensures c in old(clients) && |Buffered(Exec(old(run)), c)| < 256 ==> c in clients
      {
        BroadcastKeeps(old(run), m, order, writers, c);
      }
      AllSent(run);
    }
  }

  /** With no broadcast under way, every connected client has been sent all broadcasts since it registered. */
  lemma AllSent(run: seq<Step>)
    requires Exec(run).At? && Exec(run).state.phase.Idle?
    ensures forall c :: c in Exec(run).state.clients ==> Delivered(run, c) == Log(run)[JoinedAt(run, c)..]
  {
    Reachable(run);
    forall c | c in Exec(run).state.clients ensures Delivered(run, c) == Log(run)[JoinedAt(run, c)..] {
      assert ConsistentFor(Exec(run).state, c);
      ContiguousDelivery(run, c);
    }
  }
}
