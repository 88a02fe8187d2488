/** Leadership: the monitor that starts and ends leader loops, the loops themselves, and the scheduler that they start
    and stop, as a state machine in which every step of one thread can fall between any two steps of another. */
module Leadership {
  import opened Wrappers

  /** Where a leader loop is. */
  datatype LoopPoint =
    // About to raise a barrier: the label RECONCILE.
    | Barrier
    // About to read the jobs and clean up stale executions.
    | Preparing
    // About to call the scheduler's Start.
    | Starting
    // Leadership was not established: about to stop the scheduler, then to transfer leadership.
    | Revoking
    | Transferring(tries: nat)
    | Transferred
    // Leadership is established.
    | Reconciling
    | Polling
    // The label WAIT.
    | Waiting
    // Returning: the deferred calls are still to be made.
    | Returning
    | Ended

  datatype Loop = Loop(point: LoopPoint, established: bool)

  datatype MonitorPoint =
    | Listening
    // The loop's channel is closed: waiting until every loop has ended.
    | Joining
    | Finished

  // A loop is known by the number of its stop channel.
  datatype AgentState = AgentState(
    monitor: MonitorPoint,
    // The stop channel of the loop that the monitor believes to be running.
    weAreLeader: Option<nat>,
    closed: set<nat>,
    // How many channels have been made.
    channels: nat,
    loops: map<nat, Loop>,
    shutdown: bool,
    started: bool,
    // Was Start ever called on a scheduler that was started already?
    restarted: bool
  )

  const INITIAL_AGENT: AgentState := AgentState(Listening, None, {}, 0, map[], false, false, false)

  const TRANSFER_RETRIES: nat := 3

  datatype Action =
    | Notify(isLeader: bool)
    | Join
    | MonitorShutdown
    | Shutdown
    // The agent's own Stop stops the scheduler from another thread.
    | StopAgent
    | Move(loop: nat, event: Event)

  /** What a step of a loop meets. */
  datatype Event =
    | Succeeds
    | Fails
    // A transfer fails in a way that is not worth another try.
    | Unsupported
    | StopSignal
    | ShutdownSignal
    | Interval
    | Member

  predicate Live(a: AgentState, i: nat) {
    i in a.loops && a.loops[i].point != Ended
  }

  // What a step of a loop leaves of the loop and of the scheduler.
  datatype Moved = Moved(loop: Loop, started: bool, restarted: bool)

  /** One step of a loop. A step that cannot be taken changes nothing. */
  function MoveOne(l: Loop, closed: bool, shutdown: bool, started: bool, restarted: bool, event: Event): Moved {
    match l.point
    case Barrier =>
      Moved(l.(point := if event.Fails? then Waiting else if l.established then Reconciling else Preparing),
            started, restarted)
    case Preparing =>
      Moved(l.(point := if event.Fails? then Revoking else Starting), started, restarted)
    case Starting =>
      if started then Moved(l.(point := Revoking), true, true)
      else if event.Fails? then Moved(l.(point := Revoking), false, restarted)
      else Moved(Loop(Reconciling, true), true, restarted)
    case Revoking =>
      Moved(l.(point := Transferring(TRANSFER_RETRIES)), false, restarted)
    case Transferring(tries) =>
      Moved(l.(point := if tries == 0 || event.Unsupported? then Waiting
                        else if event.Fails? then Transferring(tries - 1)
                        else Transferred), started, restarted)
    case Transferred =>
      Moved(l.(point := Returning), false, restarted)
    case Reconciling =>
      Moved(l.(point := if event.Fails? then Waiting else Polling), started, restarted)
    case Polling =>
      Moved(l.(point := if closed then Returning else Waiting), started, restarted)
    case Waiting =>
      var stops := (event.StopSignal? && closed) || (event.ShutdownSignal? && shutdown);
      Moved(l.(point := if stops then Returning else if event.Interval? then Barrier else Waiting), started, restarted)
    case Returning =>
      // Only a loop that has established leadership has deferred a call that revokes it.
      Moved(l.(point := Ended), started && !l.established, restarted)
    case Ended => Moved(l, started, restarted)
  }

  function MoveLoop(a: AgentState, i: nat, event: Event): AgentState
    requires i in a.loops
  {
    var m := MoveOne(a.loops[i], i in a.closed, a.shutdown, a.started, a.restarted, event);
    a.(loops := a.loops[i := m.loop], started := m.started, restarted := m.restarted)
  }

  function Step(a: AgentState, action: Action): AgentState {
    match action
    case Notify(isLeader) =>
      if a.monitor != Listening then a
      else if isLeader then
        if a.weAreLeader.Some? then a
        else a.(weAreLeader := Some(a.channels), channels := a.channels + 1,
                loops := a.loops[a.channels := Loop(Barrier, false)])
      else if a.weAreLeader.None? then a
      else a.(closed := a.closed + {a.weAreLeader.value}, monitor := Joining)
    case Join =>
      if a.monitor == Joining && (forall i | i in a.loops :: a.loops[i].point == Ended) then
        a.(weAreLeader := None, monitor := Listening)
      else a
    case MonitorShutdown => if a.monitor == Listening && a.shutdown then a.(monitor := Finished) else a
    case Shutdown => a.(shutdown := true)
    case StopAgent => a.(started := false)
    case Move(i, event) => if i in a.loops then MoveLoop(a, i, event) else a
  }

  function Run(a: AgentState, actions: seq<Action>): AgentState
    decreases |actions|
  {
    if actions == [] then a else Run(Step(a, actions[0]), actions[1..])
  }

  // ---- What every run keeps ----

  // Before leadership is established, and after a failure to establish it.
  predicate Unestablished(p: LoopPoint) {
    p.Preparing? || p.Starting? || p.Revoking? || p.Transferring? || p.Transferred?
  }

  predicate LoopOk(a: AgentState, i: nat)
    requires i in a.loops
  {
    && i < a.channels
    && (a.loops[i].point != Ended ==> a.weAreLeader == Some(i))
    && (Unestablished(a.loops[i].point) ==> !a.loops[i].established)
    && (a.loops[i].point.Reconciling? || a.loops[i].point.Polling? ==> a.loops[i].established)
  }

  ghost predicate Inv(a: AgentState) {
    && (forall i | i in a.loops :: LoopOk(a, i))
    && (a.monitor == Joining ==> a.weAreLeader.Some? && a.weAreLeader.value in a.closed)
    && (a.weAreLeader.Some? ==> a.weAreLeader.value in a.loops)
    // A closed channel belongs to a loop that the monitor waits for, or has waited for.
    && (forall i | i in a.closed :: i < a.channels)
    && (a.monitor != Joining && a.weAreLeader.Some? ==> a.weAreLeader.value !in a.closed)
    && (a.started ==> a.weAreLeader.Some? && Live(a, a.weAreLeader.value) && a.loops[a.weAreLeader.value].established)
    && !a.restarted
  }

  lemma MoveKeepsInv(a: AgentState, i: nat, event: Event)
    requires Inv(a) && i in a.loops
    ensures Inv(MoveLoop(a, i, event))
  {
    var b := MoveLoop(a, i, event);
    assert LoopOk(a, i);
    forall k | k in b.loops ensures LoopOk(b, k) {
      assert LoopOk(a, k);
    }
  }

  lemma StepKeepsInv(a: AgentState, action: Action)
    requires Inv(a)
    ensures Inv(Step(a, action))
  {
    match action {
      case Move(i, event) => if i in a.loops { MoveKeepsInv(a, i, event); }
      case _ =>
        var b := Step(a, action);
        forall k | k in b.loops ensures LoopOk(b, k) {
          assert k in a.loops ==> LoopOk(a, k);
        }
    }
  }

  lemma {:induction false} RunKeepsInv(a: AgentState, actions: seq<Action>)
    requires Inv(a)
    ensures Inv(Run(a, actions))
    decreases |actions|
  {
    if actions != [] {
      StepKeepsInv(a, actions[0]);
      RunKeepsInv(Step(a, actions[0]), actions[1..]);
    }
  }

  /** For every interleaving of notifications, failures, signals and shutdown: at most one leader loop is live, the
      scheduler is started only while a live loop has leadership established, and Start is never called on a started
      scheduler. */
  lemma LeadershipIsSafe(actions: seq<Action>)
    ensures var a := Run(INITIAL_AGENT, actions);
            && (forall i, j | Live(a, i) && Live(a, j) :: i == j)
            && (a.started ==> exists i :: Live(a, i) && a.loops[i].established)
            && !a.restarted
  {
    RunKeepsInv(INITIAL_AGENT, actions);
    var a := Run(INITIAL_AGENT, actions);
    forall i, j | Live(a, i) && Live(a, j) ensures i == j {
      assert LoopOk(a, i) && LoopOk(a, j);
    }
  }

  /** Every step that ends a leader loop leaves the scheduler stopped. */
  lemma LoopEndsStopped(actions: seq<Action>, action: Action, i: nat)
    requires Live(Run(INITIAL_AGENT, actions), i)
    requires !Live(Step(Run(INITIAL_AGENT, actions), action), i)
    ensures !Step(Run(INITIAL_AGENT, actions), action).started
  {
    var a := Run(INITIAL_AGENT, actions);
    RunKeepsInv(INITIAL_AGENT, actions);
    assert LoopOk(a, i);
  }

  /** A loop that is started finds the scheduler stopped, and is the only one that is live. */
  lemma NewLoopFindsStopped(actions: seq<Action>)
    requires var a := Run(INITIAL_AGENT, actions); a.monitor == Listening && a.weAreLeader.None?
    ensures var a := Step(Run(INITIAL_AGENT, actions), Notify(true));
            && !a.started && a.weAreLeader.Some? && Live(a, a.weAreLeader.value)
            && forall i: nat | Live(a, i) :: a.weAreLeader == Some(i)
  {
    RunKeepsInv(INITIAL_AGENT, actions);
    StepKeepsInv(Run(INITIAL_AGENT, actions), Notify(true));
    var a := Step(Run(INITIAL_AGENT, actions), Notify(true));
    forall i: nat | Live(a, i) ensures a.weAreLeader == Some(i) {
      assert LoopOk(a, i);
    }
  }

  // ---- When the scheduler runs ----

  // A live loop that has established leadership has started the scheduler.
  ghost predicate Serves(a: AgentState) {
    forall i: nat | Live(a, i) && a.loops[i].established :: a.started
  }

  lemma StepServes(a: AgentState, action: Action)
    requires Inv(a) && Serves(a) && action != StopAgent
    ensures Serves(Step(a, action))
  {
    var b := Step(a, action);
    forall i: nat | Live(b, i) && b.loops[i].established ensures b.started {
      assert i in a.loops ==> LoopOk(a, i);
      if action.Move? && action.loop in a.loops { assert LoopOk(a, action.loop); }
    }
  }

  lemma {:induction false} RunServes(a: AgentState, actions: seq<Action>)
    requires Inv(a) && Serves(a) && StopAgent !in actions
    ensures Serves(Run(a, actions))
    decreases |actions|
  {
    if actions != [] {
      assert actions[0] in actions && forall x | x in actions[1..] :: x in actions;
      StepKeepsInv(a, actions[0]);
      StepServes(a, actions[0]);
      RunServes(Step(a, actions[0]), actions[1..]);
    }
  }

  /** As long as the agent itself is not stopped, the scheduler is started exactly when a live loop has leadership
      established. */
  lemma SchedulerServesIff(actions: seq<Action>)
    requires StopAgent !in actions
    ensures var a := Run(INITIAL_AGENT, actions);
            a.started <==> exists i: nat :: Live(a, i) && a.loops[i].established
  {
    RunServes(INITIAL_AGENT, actions);
    RunKeepsInv(INITIAL_AGENT, actions);
  }

  lemma {:induction false} RunTwice(a: AgentState, first: seq<Action>, second: seq<Action>)
    ensures Run(a, first + second) == Run(Run(a, first), second)
    decreases |first|
  {
    if first == [] {
      assert first + second == second;
    } else {
      assert (first + second)[1..] == first[1..] + second;
      RunTwice(Step(a, first[0]), first[1..], second);
    }
  }

  // One more step of loop `i`, after which it is at the given point.
  lemma LoopGoesOn(a: AgentState, i: nat, event: Event)
    requires Inv(a) && i in a.loops
    ensures var b := Run(a, [Move(i, event)]);
            && b == MoveLoop(a, i, event) && Inv(b) && i in b.loops
            && b.monitor == a.monitor && b.weAreLeader == a.weAreLeader && b.closed == a.closed
            && b.shutdown == a.shutdown
  {
    RunStep(a, [Move(i, event)], []);
    StepKeepsInv(a, Move(i, event));
  }

  // How many steps a loop that is told to stop still has to take, when every step goes wrong.
  function StepsLeft(p: LoopPoint): nat {
    match p
    case Ended => 0
    case Returning => 1
    case Waiting => 2
    case Transferred => 2
    case Polling => 3
    case Barrier => 3
    case Reconciling => 3
    case Transferring(_) => 3
    case Revoking => 4
    case Starting => 5
    case Preparing => 5
  }

  // What a loop meets in such a step.
  function Setback(p: LoopPoint, closed: bool): Event {
    match p
    case Transferring(_) => Unsupported
    case Waiting => if closed then StopSignal else ShutdownSignal
    case _ => Fails
  }

  /** A loop whose channel is closed, and any loop after a shutdown, ends within five steps of its own. */
  lemma {:induction false} ClosedLoopEnds(a: AgentState, i: nat) returns (moves: seq<Action>)
    requires Inv(a) && i in a.loops && (i in a.closed || a.shutdown)
    ensures forall x | x in moves :: x.Move? && x.loop == i
    ensures |moves| <= StepsLeft(a.loops[i].point)
    ensures var b := Run(a, moves);
            && Inv(b) && i in b.loops && b.loops[i].point == Ended
            && b.monitor == a.monitor && b.weAreLeader == a.weAreLeader && b.shutdown == a.shutdown
    decreases StepsLeft(a.loops[i].point)
  {
    if a.loops[i].point == Ended {
      moves := [];
    } else {
      var event := Setback(a.loops[i].point, i in a.closed);
      LoopGoesOn(a, i, event);
      var b := MoveLoop(a, i, event);
      var rest := ClosedLoopEnds(b, i);
      moves := [Move(i, event)] + rest;
      RunTwice(a, [Move(i, event)], rest);
    }
  }

  /** After reconciling, a loop whose channel is closed returns without waiting for another signal. */
  lemma StopHasPriority(a: AgentState, i: nat, event: Event)
    requires i in a.loops && a.loops[i].point == Reconciling && i in a.closed
    ensures var b, c := Run(a, [Move(i, Succeeds), Move(i, event)]), Run(a, [Move(i, Fails)]);
            && i in b.loops && b.loops[i].point == Returning
            && i in c.loops && c.loops[i].point == Waiting
  {
    RunStep(a, [Move(i, Succeeds), Move(i, event)], [Move(i, event)]);
    RunStep(Step(a, Move(i, Succeeds)), [Move(i, event)], []);
    RunStep(a, [Move(i, Fails)], []);
  }

  /** After a shutdown everything can end: there is a way on after which no loop is live, the scheduler is stopped, and
      the monitor has finished. */
  lemma ShutdownCanFinish(actions: seq<Action>) returns (more: seq<Action>)
    requires Run(INITIAL_AGENT, actions).shutdown
    ensures Notify(true) !in more && StopAgent !in more
    ensures var a := Run(INITIAL_AGENT, actions + more);
            a.monitor == Finished && !a.started && forall i: nat :: !Live(a, i)
  {
    RunKeepsInv(INITIAL_AGENT, actions);
    var a := Run(INITIAL_AGENT, actions);
    var moves: seq<Action> := [];
    if a.weAreLeader.Some? { moves := ClosedLoopEnds(a, a.weAreLeader.value); }
    RunTwice(INITIAL_AGENT, actions, moves);
    var b := Run(a, moves);
    AllEnded(b);
    var last := [Join, MonitorShutdown];
    RunStep(b, last, [MonitorShutdown]);
    RunStep(Step(b, Join), [MonitorShutdown], []);
    RunTwice(INITIAL_AGENT, actions + moves, last);
    assert actions + moves + last == actions + (moves + last);
    more := moves + last;
  }

  lemma AllEnded(a: AgentState)
    requires Inv(a) && (a.weAreLeader.Some? ==> a.loops[a.weAreLeader.value].point == Ended)
    ensures forall i | i in a.loops :: a.loops[i].point == Ended
    ensures !a.started
  {
    forall i | i in a.loops ensures a.loops[i].point == Ended {
      assert LoopOk(a, i);
    }
  }

  /** The loop that a notification starts establishes leadership when its barrier, its preparation and the start of
      the scheduler succeed. */
  lemma NewLoopServes(a: AgentState)
    requires Inv(a) && a.monitor == Listening && a.weAreLeader.None?
    ensures var i := a.channels;
            var b := Run(a, [Notify(true), Move(i, Succeeds), Move(i, Succeeds), Move(i, Succeeds)]);
            b.started && b.weAreLeader == Some(i) && Live(b, i) && b.loops[i].established
  {
    var i := a.channels;
    var moves := [Move(i, Succeeds), Move(i, Succeeds), Move(i, Succeeds)];
    var b := Step(a, Notify(true));
    StepKeepsInv(a, Notify(true));
    RunStep(a, [Notify(true)] + moves, moves);
    assert [Notify(true)] + moves == [Notify(true), Move(i, Succeeds), Move(i, Succeeds), Move(i, Succeeds)];
    var c := Step(b, moves[0]);
    RunStep(b, moves, moves[1..]);
    RunStep(c, moves[1..], moves[2..]);
    RunStep(Step(c, moves[1]), moves[2..], []);
  }

  /** A loop that waits after a failure to establish leadership tries again after the interval. */
  lemma WaitingLoopRetries(a: AgentState, i: nat)
    requires Inv(a) && i in a.loops && a.loops[i] == Loop(Waiting, false)
    ensures var b := Run(a, [Move(i, Interval), Move(i, Succeeds), Move(i, Succeeds), Move(i, Succeeds)]);
            b.started && Live(b, i) && b.loops[i].established
  {
    assert LoopOk(a, i);
    var moves := [Move(i, Interval), Move(i, Succeeds), Move(i, Succeeds), Move(i, Succeeds)];
    var b := Step(a, moves[0]);
    RunStep(a, moves, moves[1..]);
    var c := Step(b, moves[1]);
    RunStep(b, moves[1..], moves[2..]);
    RunStep(c, moves[2..], moves[3..]);
    RunStep(Step(c, moves[2]), moves[3..], []);
  }

  /** In every run whose monitor has not finished, leadership can come back: there is a way on, without stopping the
      agent, after which a loop has leadership and the scheduler is started. */
  lemma LeadershipCanReturn(actions: seq<Action>) returns (more: seq<Action>)
    requires Run(INITIAL_AGENT, actions).monitor != Finished
    ensures StopAgent !in more && Shutdown !in more
    ensures var a := Run(INITIAL_AGENT, actions + more);
            a.started && a.weAreLeader.Some? && Live(a, a.weAreLeader.value)
  {
    RunKeepsInv(INITIAL_AGENT, actions);
    var a := Run(INITIAL_AGENT, actions);
    more := WayBack(a);
    RunTwice(INITIAL_AGENT, actions, more);
  }

  lemma WayBack(a: AgentState) returns (more: seq<Action>)
    requires Inv(a) && a.monitor != Finished
    ensures StopAgent !in more && Shutdown !in more
    ensures var b := Run(a, more); b.started && b.weAreLeader.Some? && Live(b, b.weAreLeader.value)
  {
    var room, b := MakeRoom(a);
    NewLoopServes(b);
    var i := b.channels;
    var start := [Notify(true), Move(i, Succeeds), Move(i, Succeeds), Move(i, Succeeds)];
    RunTwice(a, room, start);
    more := room + start;
  }

  // Ends the loop that the monitor believes in, if any.
  lemma MakeRoom(a: AgentState) returns (room: seq<Action>, b: AgentState)
    requires Inv(a) && a.monitor != Finished
    ensures b == Run(a, room) && StopAgent !in room && Shutdown !in room
    ensures Inv(b) && b.monitor == Listening && b.weAreLeader.None?
  {
    if a.monitor == Listening && a.weAreLeader.None? {
      room, b := [], a;
    } else {
      var lost := Step(a, Notify(false));
      StepKeepsInv(a, Notify(false));
      RunStep(a, [Notify(false)], []);
      var i := a.weAreLeader.value;
      var moves := ClosedLoopEnds(lost, i);
      var ended := Run(lost, moves);
      RunTwice(a, [Notify(false)], moves);
      forall k | k in ended.loops ensures ended.loops[k].point == Ended {
        assert LoopOk(ended, k);
      }
      b := Step(ended, Join);
      StepKeepsInv(ended, Join);
      RunStep(ended, [Join], []);
      room := [Notify(false)] + moves + [Join];
      RunTwice(a, [Notify(false)] + moves, [Join]);
    }
  }

  // ---- What comes before ----

  // The action takes the loop past the given point.
  predicate Passes(a: AgentState, i: nat, action: Action, point: LoopPoint) {
    i in a.loops && a.loops[i].point == point && action.Move? && action.loop == i && !action.event.Fails?
  }

  predicate PassesAt(actions: seq<Action>, i: nat, k: int, point: LoopPoint) {
    0 <= k < |actions| && Passes(Run(INITIAL_AGENT, actions[..k]), i, actions[k], point)
  }

  lemma RunLast(a: AgentState, actions: seq<Action>)
    requires actions != []
    ensures Run(a, actions) == Step(Run(a, actions[..|actions| - 1]), actions[|actions| - 1])
  {
    var front, last := actions[..|actions| - 1], actions[|actions| - 1];
    assert actions == front + [last];
    RunTwice(a, front, [last]);
    RunStep(Run(a, front), [last], []);
  }

  lemma StepGetsPast(a: AgentState, i: nat, action: Action)
    requires Inv(a) && i in a.loops && Step(a, action).loops[i] != a.loops[i]
    ensures var l := Step(a, action).loops[i];
            && (l.point == Preparing ==> Passes(a, i, action, Barrier))
            && (l.point == Starting ==> Passes(a, i, action, Preparing))
            && (l.established ==> a.loops[i].established || Passes(a, i, action, Starting))
  {
    assert LoopOk(a, i);
  }

  lemma NewLoopIsNew(a: AgentState, action: Action, i: nat)
    requires i !in a.loops && i in Step(a, action).loops
    ensures Step(a, action).loops[i] == Loop(Barrier, false)
  {
  }

  // An established loop does not prepare again.
  lemma EstablishedIsPast(a: AgentState, i: nat)
    requires Inv(a) && i in a.loops && a.loops[i].established
    ensures a.loops[i].point != Preparing && a.loops[i].point != Starting
  {
    assert LoopOk(a, i);
  }

  lemma StepKeepsLoops(a: AgentState, action: Action)
    requires Inv(a)
    ensures a.loops.Keys <= Step(a, action).loops.Keys
    ensures forall i: nat | i in a.loops && a.loops[i].established :: Step(a, action).loops[i].established
  {
    assert a.channels !in a.loops by { assert a.channels in a.loops ==> LoopOk(a, a.channels); }
  }

  // A loop gets to the point only by passing an earlier one.
  lemma {:induction false} GotPast(actions: seq<Action>, i: nat) returns (k: int)
    requires var a := Run(INITIAL_AGENT, actions); i in a.loops
    ensures var a := Run(INITIAL_AGENT, actions);
            && (a.loops[i].point == Preparing ==> PassesAt(actions, i, k, Barrier))
            && (a.loops[i].point == Starting ==> PassesAt(actions, i, k, Preparing))
            && (a.loops[i].established ==> PassesAt(actions, i, k, Starting))
    decreases |actions|
  {
    k := 0;
    if actions != [] {
      var front, last := actions[..|actions| - 1], |actions| - 1;
      RunLast(INITIAL_AGENT, actions);
      RunKeepsInv(INITIAL_AGENT, front);
      RunKeepsInv(INITIAL_AGENT, actions);
      var a, b := Run(INITIAL_AGENT, front), Run(INITIAL_AGENT, actions);
      StepKeepsLoops(a, actions[last]);
      if i !in a.loops { NewLoopIsNew(a, actions[last], i); }
      if b.loops[i].established { EstablishedIsPast(b, i); }
      hide Inv, Run, Step, Passes, PassesAt;
      if i in a.loops {
        if b.loops[i] == a.loops[i] || a.loops[i].established {
          k := GotPast(front, i);
          PassedBefore(actions, i, k);
        } else {
          StepGetsPast(a, i, actions[last]);
          PassedLast(actions, i);
          k := last;
        }
      }
    }
  }

  lemma PassedBefore(actions: seq<Action>, i: nat, k: int)
    requires actions != []
    ensures forall p :: PassesAt(actions[..|actions| - 1], i, k, p) ==> PassesAt(actions, i, k, p)
  {
    hide Passes, Run;
    var front := actions[..|actions| - 1];
    assert 0 <= k < |front| ==> actions[k] == front[k] && actions[..k] == front[..k];
  }

  lemma PassedLast(actions: seq<Action>, i: nat)
    requires actions != []
    ensures var last := |actions| - 1;
            forall p ::
              Passes(Run(INITIAL_AGENT, actions[..last]), i, actions[last], p) ==> PassesAt(actions, i, last, p)
  {
    hide Passes, Run;
  }

  /** A loop that has leadership established has passed its barrier, then its preparation, and then the start of the
      scheduler, each without a failure. */
  lemma EstablishedInOrder(actions: seq<Action>, i: nat) returns (barrier: int, preparing: int, starting: int)
    requires var a := Run(INITIAL_AGENT, actions); i in a.loops && a.loops[i].established
    ensures barrier < preparing < starting
    ensures PassesAt(actions, i, barrier, Barrier) && PassesAt(actions, i, preparing, Preparing)
    ensures PassesAt(actions, i, starting, Starting)
  {
    starting := GotPast(actions, i);
    preparing := GotPast(actions[..starting], i);
    assert actions[..starting][..preparing] == actions[..preparing];
    barrier := GotPast(actions[..preparing], i);
    assert actions[..preparing][..barrier] == actions[..barrier];
  }

  // So many failed steps of a loop.
  function Failures(i: nat, n: nat): seq<Action> {
    if n == 0 then [] else [Move(i, Fails)] + Failures(i, n - 1)
  }

  /** Leadership is transferred when one of three attempts succeeds; after the third failure the loop waits. */
  lemma {:induction false} TransferIsTriedThrice(a: AgentState, i: nat, tries: nat, n: nat)
    requires i in a.loops && a.loops[i].point == Transferring(tries) && tries <= TRANSFER_RETRIES && n <= tries
    ensures var b := Run(a, Failures(i, n) + [Move(i, Succeeds)]);
            i in b.loops && b.loops[i].point == (if n < tries then Transferred else Waiting)
    ensures TRANSFER_RETRIES == 3
    decreases n
  {
    if n == 0 {
      assert Failures(i, n) + [Move(i, Succeeds)] == [Move(i, Succeeds)];
      RunStep(a, [Move(i, Succeeds)], []);
    } else {
      var all, rest := Failures(i, n) + [Move(i, Succeeds)], Failures(i, n - 1) + [Move(i, Succeeds)];
      assert all[0] == Move(i, Fails) && all[1..] == rest;
      RunStep(a, all, rest);
      TransferIsTriedThrice(Step(a, Move(i, Fails)), i, tries - 1, n - 1);
    }
  }

  // ---- A loop that ends by itself ----

  /** The monitor believes in a loop that has ended. */
  predicate Deaf(a: AgentState) {
    a.monitor != Joining && a.weAreLeader.Some? && !Live(a, a.weAreLeader.value)
  }

  lemma DeafStep(a: AgentState, action: Action)
    requires Inv(a) && Deaf(a) && action != Notify(false)
    ensures Deaf(Step(a, action)) && Step(a, action).weAreLeader == a.weAreLeader
  {
    assert LoopOk(a, a.weAreLeader.value);
  }

  /** From then on no loop runs, whatever happens and however often leadership is notified, until a loss is. */
  lemma {:induction false} DeafUntilLoss(a: AgentState, actions: seq<Action>)
    requires Inv(a) && Deaf(a) && Notify(false) !in actions
    ensures Deaf(Run(a, actions)) && forall i: nat :: !Live(Run(a, actions), i)
    decreases |actions|
  {
    if actions == [] {
      forall i: nat ensures !Live(a, i) {
        if i in a.loops { assert LoopOk(a, i); }
      }
    } else {
      DeafStep(a, actions[0]);
      StepKeepsInv(a, actions[0]);
      assert forall x | x in actions[1..] :: x in actions;
      DeafUntilLoss(Step(a, actions[0]), actions[1..]);
    }
  }

  /** A loss that is notified makes room: the next notification of leadership starts a loop. */
  lemma LossMakesRoom(a: AgentState)
    requires Inv(a) && Deaf(a) && a.monitor == Listening
    ensures var b := Run(a, [Notify(false), Join, Notify(true)]);
            b.weAreLeader.Some? && b.weAreLeader != a.weAreLeader && Live(b, b.weAreLeader.value)
  {
    assert forall i | i in a.loops :: LoopOk(a, i);
    var b := Step(a, Notify(false));
    var c := Step(b, Join);
    RunStep(a, [Notify(false), Join, Notify(true)], [Join, Notify(true)]);
    RunStep(b, [Join, Notify(true)], [Notify(true)]);
    RunStep(c, [Notify(true)], []);
  }

  // Nothing is left of the loop but the calls that it has deferred.
  predicate Leaving(a: AgentState, i: nat) {
    i in a.loops && (a.loops[i].point == Returning || a.loops[i].point == Ended)
  }

  // Does the action move the loop on after a successful transfer of leadership?
  predicate GivesAway(a: AgentState, i: nat, action: Action) {
    i in a.loops && a.loops[i].point == Transferred && action.Move? && action.loop == i
  }

  /** Has the loop given leadership away during the run? */
  predicate GaveAway(a: AgentState, i: nat, actions: seq<Action>)
    decreases |actions|
  {
    actions != [] && (GivesAway(a, i, actions[0]) || GaveAway(Step(a, actions[0]), i, actions[1..]))
  }

  lemma LeavingStep(a: AgentState, i: nat, action: Action)
    requires Inv(a)
    requires var b := Step(a, action); i !in b.closed && !b.shutdown
    ensures Leaving(Step(a, action), i) <==> Leaving(a, i) || GivesAway(a, i, action)
  {
    if i in a.loops { assert LoopOk(a, i); }
  }

  lemma {:induction false} RunKeepsSignals(a: AgentState, actions: seq<Action>)
    ensures a.closed <= Run(a, actions).closed && (a.shutdown ==> Run(a, actions).shutdown)
    decreases |actions|
  {
    if actions != [] {
      RunKeepsSignals(Step(a, actions[0]), actions[1..]);
    }
  }

  lemma {:induction false} LeavingRun(a: AgentState, i: nat, actions: seq<Action>)
    requires Inv(a)
    requires var b := Run(a, actions); i !in b.closed && !b.shutdown
    ensures Leaving(Run(a, actions), i) <==> Leaving(a, i) || GaveAway(a, i, actions)
    decreases |actions|
  {
    hide Step, Inv, Leaving, GivesAway;
    if actions != [] {
      StepKeepsInv(a, actions[0]);
      RunKeepsSignals(Step(a, actions[0]), actions[1..]);
      LeavingStep(a, i, actions[0]);
      LeavingRun(Step(a, actions[0]), i, actions[1..]);
    }
  }

  /** Without a shutdown, a loop that the listening monitor believes in has left exactly when it gave leadership away:
      nothing else makes it return. It has ended, unnoticed, with its next step at the latest. */
  lemma BelievedLoopLeavesIff(actions: seq<Action>, event: Event)
    requires var a := Run(INITIAL_AGENT, actions); a.monitor == Listening && a.weAreLeader.Some? && !a.shutdown
    ensures var a := Run(INITIAL_AGENT, actions);
            var i := a.weAreLeader.value;
            && (Leaving(a, i) <==> GaveAway(INITIAL_AGENT, i, actions))
            && (Deaf(a) ==> GaveAway(INITIAL_AGENT, i, actions))
            && (GaveAway(INITIAL_AGENT, i, actions) ==> Deaf(Step(a, Move(i, event))))
  {
    RunKeepsInv(INITIAL_AGENT, actions);
    var a := Run(INITIAL_AGENT, actions);
    LeavingRun(INITIAL_AGENT, a.weAreLeader.value, actions);
  }

  // The agent with one loop at the given point, before leadership is established.
  function WithLoop(point: LoopPoint): AgentState {
    AgentState(Listening, Some(0), {}, 1, map[0 := Loop(point, false)], false, false, false)
  }

  lemma LoopMoves(point: LoopPoint, event: Event, to: LoopPoint)
    requires MoveOne(Loop(point, false), false, false, false, false, event) == Moved(Loop(to, false), false, false)
    ensures Step(WithLoop(point), Move(0, event)) == WithLoop(to)
  {
  }

  /** Such a run exists: a server that cannot establish leadership transfers it, and then its monitor is deaf. */
  lemma DeafAgentIsReachable() returns (actions: seq<Action>)
    ensures Deaf(Run(INITIAL_AGENT, actions)) && !Run(INITIAL_AGENT, actions).shutdown
  {
    hide WithLoop, MoveLoop, Run, Deaf;
    var moves := [Move(0, Succeeds), Move(0, Fails), Move(0, Succeeds),
                  Move(0, Succeeds), Move(0, Succeeds), Move(0, Succeeds)];
    actions := [Notify(true)] + moves;
    LoopStarts();
    LoopMoves(Barrier, Succeeds, Preparing);
    LoopMoves(Preparing, Fails, Revoking);
    LoopMoves(Revoking, Succeeds, Transferring(TRANSFER_RETRIES));
    LoopMoves(Transferring(TRANSFER_RETRIES), Succeeds, Transferred);
    LoopMoves(Transferred, Succeeds, Returning);
    LoopMoves(Returning, Succeeds, Ended);
    hide Step;
    RunStep(INITIAL_AGENT, actions, moves);
    RunStep(WithLoop(Barrier), moves, moves[1..]);
    RunStep(WithLoop(Preparing), moves[1..], moves[2..]);
    RunStep(WithLoop(Revoking), moves[2..], moves[3..]);
    RunStep(WithLoop(Transferring(TRANSFER_RETRIES)), moves[3..], moves[4..]);
    RunStep(WithLoop(Transferred), moves[4..], moves[5..]);
    RunStep(WithLoop(Returning), moves[5..], []);
    EndedIsDeaf();
  }

  lemma EndedIsDeaf()
    ensures Deaf(WithLoop(Ended)) && !WithLoop(Ended).shutdown
  {
  }

  lemma LoopStarts()
    ensures Step(INITIAL_AGENT, Notify(true)) == WithLoop(Barrier)
  {
  }

  lemma RunStep(a: AgentState, actions: seq<Action>, rest: seq<Action>)
    requires actions != [] && actions[1..] == rest
    ensures Run(a, actions) == Run(Step(a, actions[0]), rest)
    ensures rest == [] ==> Run(a, actions) == Step(a, actions[0])
  {
  }
}
