/** The protocol by which a sector recovers from a lost OPC server (src/NSWSectorControllerRc.cpp,
    src/NSWSCAServiceRc.cpp), as a state machine. The SCA service writes a flag in the information service and messages
    the sector controller; the controller launches recovery tasks; a task asks the service to reconnect until it
    sees the flag. Handlers of the service exclude each other, and so do those of the controller; everything else
    interleaves freely, also in the middle of a handler. */
module RecoveryProtocol {
  import opened Utility

  datatype Message = ScaDisconnected | ScaReconnected

  /** Commands of the SCA service that touch the flag; all others leave the protocol alone. */
  datatype ServiceCommand =
    | Operate(checked: bool) // CONFIGURE, RESET_STGCTP, CONNECT, STOP, ENABLE_VMM; START is the one that is not checked
    | Recover(message: bool) // RECOVER_OPC_MESSAGE and RECOVER_OPC
    | Reconnect              // RECONNECT_OPC
    | Monitor
    | Other

  /** How the hardware part of a command ends. */
  datatype Outcome =
    | Fine
    | BeyondContinue // the failed fraction calls for a recovery
    | BeyondRecover  // the failed fraction is reported as fatal
    | NotRecovered   // `NSWConfig::recoverOpc` says no
    | OpcIssue       // a read, write or connection problem
    | OtherIssue     // any other exception

  /** Where the service's handler is. */
  datatype ServicePoint =
    | Idle
    | Operating(checked: bool)
    | Reconnecting
    | Monitoring
    | Marking(message: bool) // about to write that the SCA is unavailable
    | Sending(what: Message)

  datatype Sent = Sent(what: Message, flag: Option<bool>)

  /** A recovery task goes on until it sees the flag, or until its time is up. */
  datatype Task = Pinging | SawFlag | TimedOut

  datatype State = State(
    flag: Option<bool>,    // in the information service; absent before the first command
    service: ServicePoint,
    sent: seq<Sent>,       // all messages of the service, with the flag at that moment
    handled: nat,          // how many of them the controller has handled, in order
    running: seq<bool>,    // for each of those, whether the controller was in its running state
    launches: seq<nat>,    // the numbers of those that launched a task
    tasks: seq<Task>,      // the tasks they launched
    scaAvailable: bool)

  const INITIAL: State := State(None, Idle, [], 0, [], [], [], true)

  predicate Connected(flag: Option<bool>) { flag != Some(false) }

  /** One step of one of the actors. */
  datatype Action =
    | Start(command: ServiceCommand)
    | Finish(outcome: Outcome)
    | Mark
    | Send
    | Handle(isRunning: bool)
    | Ping(task: nat, timeUp: bool)

  /** A command writes the flag at once, before anything is known about the hardware. */
  function StartCommand(s: State, command: ServiceCommand): State {
    match command
    case Operate(checked) => s.(flag := Some(true), service := Operating(checked))
    case Recover(message) => s.(service := Marking(message))
    case Reconnect => s.(service := Reconnecting)
    case Monitor => s.(service := Monitoring)
    case Other => s
  }

  function FinishWork(s: State, outcome: Outcome): State {
    match s.service
    case Operating(checked) => s.(service := if checked && outcome == BeyondContinue then Marking(false) else Idle)
    case Reconnecting =>
      if outcome == Fine then s.(flag := Some(true), service := Sending(ScaReconnected)) else s.(service := Idle)
    case Monitoring => s.(service := if outcome == OpcIssue then Marking(false) else Idle)
    case _ => s
  }

  function MarkUnavailable(s: State): State {
    match s.service
    case Marking(message) => s.(flag := Some(false), service := if message then Sending(ScaDisconnected) else Idle)
    case _ => s
  }

  function SendMessage(s: State): State {
    match s.service
    case Sending(what) => s.(sent := s.sent + [Sent(what, s.flag)], service := Idle)
    case _ => s
  }

  /** The handler that launches a task stores its future, and that waits for the task of the future stored before. */
  predicate Blocked(s: State) { |s.tasks| >= 2 && s.tasks[|s.tasks| - 2] == Pinging }

  /** What the controller makes of a message: its own flag afterwards, and whether it launches a task. */
  function Reaction(scaAvailable: bool, what: Message, isRunning: bool): (bool, bool) {
    match what
    case ScaReconnected => (true, false)
    case ScaDisconnected => (false, scaAvailable && isRunning)
  }

  function HandleMessage(s: State, isRunning: bool): State {
    if Blocked(s) || s.handled >= |s.sent| then s
    else
      var reaction := Reaction(s.scaAvailable, s.sent[s.handled].what, isRunning);
      var t := s.(handled := s.handled + 1, running := s.running + [isRunning], scaAvailable := reaction.0);
      if reaction.1 then t.(launches := s.launches + [s.handled], tasks := s.tasks + [Pinging]) else t
  }

  /** A task looks at the flag; if it is not set it sends another command, which the service will start some time. */
  function PingTask(t: Task, flag: Option<bool>, timeUp: bool): Task {
    if t != Pinging then t else if Connected(flag) then SawFlag else if timeUp then TimedOut else Pinging
  }

  /** A task that is at work ends content when the flag is not cleared, ends in vain when it is and its time is up, and
      goes on otherwise; a task that has ended stays as it is, and an absent flag counts as set. */
  lemma {:induction false} LookMeans(s: State, k: nat, timeUp: bool)
    requires k < |s.tasks|
    ensures
      Step(s, Ping(k, timeUp))
      == s.(tasks := s.tasks[k :=
        if s.tasks[k] != Pinging then s.tasks[k]
        else if s.flag != Some(false) then SawFlag
        else if timeUp then TimedOut
        else Pinging])
  {
  }

  function Step(s: State, a: Action): State {
    match a
    case Start(command) => if s.service == Idle then StartCommand(s, command) else s
    case Finish(outcome) => FinishWork(s, outcome)
    case Mark => MarkUnavailable(s)
    case Send => SendMessage(s)
    case Handle(isRunning) => HandleMessage(s, isRunning)
    case Ping(k, timeUp) => if k < |s.tasks| then s.(tasks := s.tasks[k := PingTask(s.tasks[k], s.flag, timeUp)]) else s
  }

  function RunFrom(s: State, actions: seq<Action>): State
    decreases |actions|
  {
    if actions == [] then s else RunFrom(Step(s, actions[0]), actions[1..])
  }

  function Run(actions: seq<Action>): State { RunFrom(INITIAL, actions) }

  // ----- What every reachable state satisfies -----

  /** Inside a handler the flag is what the handler wrote: nobody else writes it. */
  predicate FlagAgrees(s: State) {
    match s.service
    case Operating(_) => s.flag == Some(true)
    case Sending(what) => s.flag == Some(what == ScaReconnected)
    case _ => true
  }

  ghost predicate SentWithFlag(s: State) {
    forall k | 0 <= k < |s.sent| :: s.sent[k].flag == Some(s.sent[k].what == ScaReconnected)
  }

  /** Message `k` is a disconnection that no other one precedes since the last reconnection. */
  predicate FirstDisconnection(sent: seq<Sent>, k: nat)
    requires k < |sent|
  {
    sent[k].what == ScaDisconnected && (k > 0 ==> sent[k - 1].what == ScaReconnected)
  }

  ghost predicate ControllerAgrees(s: State) {
    && s.handled == |s.running| <= |s.sent|
    && (s.scaAvailable <==> s.handled == 0 || s.sent[s.handled - 1].what == ScaReconnected)
  }

  /** The launches are exactly the first disconnections handled in the running state, in order. */
  ghost predicate LaunchesAgree(s: State)
    requires s.handled == |s.running| <= |s.sent|
  {
    && (forall k: nat | k < s.handled :: k in s.launches <==> s.running[k] && FirstDisconnection(s.sent, k))
    && (forall i | 0 <= i < |s.launches| :: s.launches[i] < s.handled)
    && (forall i, j | 0 <= i < j < |s.launches| :: s.launches[i] < s.launches[j])
  }

  /** Only the two newest tasks can be at work. */
  ghost predicate TasksAgree(s: State) {
    && |s.tasks| == |s.launches|
    && forall k | 0 <= k < |s.tasks| - 2 :: s.tasks[k] != Pinging
  }

  ghost predicate Invariant(s: State) {
    FlagAgrees(s) && SentWithFlag(s) && ControllerAgrees(s) && LaunchesAgree(s) && TasksAgree(s)
  }

  lemma {:induction false} StepKeeps(s: State, a: Action)
    requires Invariant(s)
    ensures Invariant(Step(s, a))
  {
    if a.Handle? {
      HandleKeeps(s, a.isRunning);
    } else if a.Send? {
      SendKeeps(s);
    } else {
      var t := Step(s, a);
      assert FlagAgrees(t);
      assert t.sent == s.sent && t.handled == s.handled && t.running == s.running && t.launches == s.launches;
    }
  }

  lemma {:induction false} SendKeeps(s: State)
    requires Invariant(s)
    ensures Invariant(SendMessage(s))
  {
    var t := SendMessage(s);
    assert forall k: nat | k < s.handled :: FirstDisconnection(t.sent, k) == FirstDisconnection(s.sent, k);
  }

  lemma {:induction false} HandleKeeps(s: State, isRunning: bool)
    requires Invariant(s)
    ensures Invariant(HandleMessage(s, isRunning))
  {
    var t := HandleMessage(s, isRunning);
    if t != s {
      var n := s.handled;
      assert FirstDisconnection(s.sent, n) <==> s.sent[n].what == ScaDisconnected && s.scaAvailable;
      forall k: nat | k < t.handled ensures k in t.launches <==> t.running[k] && FirstDisconnection(t.sent, k) {
        if k < n { assert k in s.launches <==> s.running[k] && FirstDisconnection(s.sent, k); }
      }
    }
  }

  lemma {:induction false} RunKeeps(s: State, actions: seq<Action>)
    requires Invariant(s)
    ensures Invariant(RunFrom(s, actions))
    decreases |actions|
  {
    hide Invariant;
    if actions != [] {
      StepKeeps(s, actions[0]);
      RunKeeps(Step(s, actions[0]), actions[1..]);
    }
  }

  lemma {:induction false} Reachable(actions: seq<Action>)
    ensures Invariant(Run(actions))
  {
    RunKeeps(INITIAL, actions);
  }

  // ----- Safety -----

  /** Between the messages behind any two launches the service has announced a reconnection, and it did so with the
      flag set; both disconnections were announced with the flag cleared. */
  lemma {:induction false} LaunchesAreSeparated(actions: seq<Action>, i: nat, j: nat)
    requires i < j < |Run(actions).launches|
    ensures
      var s := Run(actions);
      && s.launches[i] < s.launches[j] < s.handled <= |s.sent|
      && s.sent[s.launches[i]] == Sent(ScaDisconnected, Some(false))
      && s.sent[s.launches[j]] == Sent(ScaDisconnected, Some(false))
      && exists k: nat :: s.launches[i] < k < s.launches[j] && s.sent[k] == Sent(ScaReconnected, Some(true))
  {
    hide Run;
    Reachable(actions);
    var s := Run(actions);
    var a, b := s.launches[i], s.launches[j];
    assert a in s.launches && b in s.launches;
    assert FirstDisconnection(s.sent, a) && FirstDisconnection(s.sent, b);
    assert s.sent[b - 1].what == ScaReconnected;
  }

  /** A handled disconnection launches a task exactly when the controller was running and the message before it was no
      disconnection: one that is handled while not running costs every later one its launch, up to the next
      reconnection. */
  lemma {:induction false} LaunchIff(actions: seq<Action>, k: nat)
    requires k < Run(actions).handled
    ensures
      var s := Run(actions);
      && s.handled == |s.running| <= |s.sent|
      && (k in s.launches <==>
        s.running[k] && s.sent[k].what == ScaDisconnected && (k > 0 ==> s.sent[k - 1].what == ScaReconnected))
  {
    hide Run;
    Reachable(actions);
  }

  /** Every message was sent right after the flag was written accordingly, and the controller handles a prefix of what
      was sent. */
  lemma {:induction false} MessagesTellTheFlag(actions: seq<Action>)
    ensures
      var s := Run(actions);
      && s.handled <= |s.sent|
      && forall k | 0 <= k < |s.sent| :: s.sent[k].flag == Some(s.sent[k].what == ScaReconnected)
  {
    hide Run;
    Reachable(actions);
  }

  /** As many launches as there were reconnections, and one more, is all there can be. */
  lemma {:induction false} LaunchesBounded(actions: seq<Action>)
    ensures
      var s := Run(actions);
      && |s.launches| <= CountOf(s.sent, ScaDisconnected)
      && |s.launches| <= CountOf(s.sent, ScaReconnected) + 1
  {
    hide Run;
    Reachable(actions);
    var s := Run(actions);
    if |s.launches| > 0 {
      var last := s.launches[|s.launches| - 1];
      assert last in s.launches;
      CountLaunches(s, |s.launches| - 1);
      CountMonotone(s.sent, last + 1, |s.sent|, ScaDisconnected);
      CountMonotone(s.sent, last + 1, |s.sent|, ScaReconnected);
      assert s.sent[..|s.sent|] == s.sent;
    }
  }

  function CountOf(sent: seq<Sent>, what: Message): nat {
    if sent == [] then 0
    else CountOf(sent[..|sent| - 1], what) + (if sent[|sent| - 1].what == what then 1 else 0)
  }

  lemma {:induction false} CountStep(sent: seq<Sent>, n: nat, what: Message)
    requires n < |sent|
    ensures CountOf(sent[..n + 1], what) == CountOf(sent[..n], what) + (if sent[n].what == what then 1 else 0)
  {
    assert sent[..n + 1][..n] == sent[..n];
  }

  lemma {:induction false} CountMonotone(sent: seq<Sent>, m: nat, n: nat, what: Message)
    requires m <= n <= |sent|
    ensures CountOf(sent[..m], what) <= CountOf(sent[..n], what)
  {
    if m < n {
      CountMonotone(sent, m, n - 1, what);
      CountStep(sent, n - 1, what);
    }
  }

  lemma {:induction false} LaunchFacts(s: State, i: nat)
    requires Invariant(s) && i < |s.launches|
    ensures
      var b := s.launches[i];
      && b < |s.sent| && s.sent[b].what == ScaDisconnected
      && (i > 0 ==> s.launches[i - 1] < b && s.sent[b - 1].what == ScaReconnected)
  {
    assert s.launches[i] in s.launches;
    assert FirstDisconnection(s.sent, s.launches[i]);
  }

  /** Up to and including the message behind launch `i` there were `i + 1` disconnections and `i` reconnections. */
  lemma {:induction false} CountLaunches(s: State, i: nat)
    requires Invariant(s) && i < |s.launches|
    ensures s.launches[i] < |s.sent|
    ensures CountOf(s.sent[..s.launches[i] + 1], ScaDisconnected) >= i + 1
    ensures CountOf(s.sent[..s.launches[i] + 1], ScaReconnected) >= i
  {
    hide Invariant, CountOf;
    LaunchFacts(s, i);
    var b := s.launches[i];
    CountStep(s.sent, b, ScaDisconnected);
    CountStep(s.sent, b, ScaReconnected);
    if i > 0 {
      CountLaunches(s, i - 1);
      LaunchFacts(s, i - 1);
      var a := s.launches[i - 1];
      CountMonotone(s.sent, a + 1, b, ScaDisconnected);
      CountMonotone(s.sent, a + 1, b - 1, ScaReconnected);
      CountStep(s.sent, b - 1, ScaReconnected);
    }
  }

  /** Never more than two tasks are at work, and while two are the controller handles nothing, because the handler that
      launched the second waits for the first. */
  lemma {:induction false} AtMostTwoTasks(actions: seq<Action>, j: nat, k: nat, isRunning: bool)
    requires j < k < |Run(actions).tasks|
    requires Run(actions).tasks[j] == Pinging && Run(actions).tasks[k] == Pinging
    ensures k == j + 1 && k == |Run(actions).tasks| - 1
    ensures HandleMessage(Run(actions), isRunning) == Run(actions)
  {
    hide Run;
    Reachable(actions);
  }

  // ----- Runs worth knowing -----

  /** A disconnection reported by message, and its handling while running. */
  const DISCONNECT: seq<Action> := [Start(Recover(true)), Mark, Send, Handle(true)]

  /** A command to reconnect that succeeds, and the handling of its message. */
  const RECONNECT: seq<Action> := [Start(Reconnect), Finish(Fine), Send, Handle(true)]

  lemma {:induction false} RunConcat(s: State, a: seq<Action>, b: seq<Action>)
    ensures RunFrom(s, a + b) == RunFrom(RunFrom(s, a), b)
    decreases |a|
  {
    if a == [] {
      assert a + b == b;
    } else {
      assert (a + b)[1..] == a[1..] + b;
      RunConcat(Step(s, a[0]), a[1..], b);
    }
  }

  lemma {:induction false} DisconnectRun(s: State)
    requires s.service == Idle && s.handled == |s.sent| && !Blocked(s)
    ensures
      var t := RunFrom(s, DISCONNECT);
      && t.service == Idle && t.handled == |t.sent| && t.flag == Some(false) && !t.scaAvailable
      && t.tasks == s.tasks + (if s.scaAvailable then [Pinging] else [])
      && |t.launches| == |s.launches| + (if s.scaAvailable then 1 else 0)
  {
    var s1 := Step(s, Start(Recover(true)));
    var s2 := Step(s1, Mark);
    var s3 := Step(s2, Send);
    var t := Step(s3, Handle(true));
    assert DISCONNECT[1..][1..][1..][1..] == [];
    assert RunFrom(s, DISCONNECT) == RunFrom(s1, DISCONNECT[1..]);
    assert RunFrom(s1, DISCONNECT[1..]) == RunFrom(s2, DISCONNECT[1..][1..]);
    assert RunFrom(s2, DISCONNECT[1..][1..]) == RunFrom(s3, DISCONNECT[1..][1..][1..]);
    assert RunFrom(s3, DISCONNECT[1..][1..][1..]) == t;
  }

  lemma {:induction false} ReconnectRun(s: State)
    requires s.service == Idle && s.handled == |s.sent| && !Blocked(s)
    ensures
      var t := RunFrom(s, RECONNECT);
      && t.service == Idle && t.handled == |t.sent| && t.flag == Some(true) && t.scaAvailable
      && t.tasks == s.tasks && t.launches == s.launches
  {
    var s1 := Step(s, Start(Reconnect));
    var s2 := Step(s1, Finish(Fine));
    var s3 := Step(s2, Send);
    var t := Step(s3, Handle(true));
    assert RECONNECT[1..][1..][1..][1..] == [];
    assert RunFrom(s, RECONNECT) == RunFrom(s1, RECONNECT[1..]);
    assert RunFrom(s1, RECONNECT[1..]) == RunFrom(s2, RECONNECT[1..][1..]);
    assert RunFrom(s2, RECONNECT[1..][1..]) == RunFrom(s3, RECONNECT[1..][1..][1..]);
    assert RunFrom(s3, RECONNECT[1..][1..][1..]) == t;
  }

  /** Two tasks can be at work at once: the first still sleeps when the server was back and is lost again. */
  lemma {:induction false} TwoTasksHappen()
    ensures
      var s := Run(DISCONNECT + RECONNECT + DISCONNECT);
      s.tasks == [Pinging, Pinging] && s.flag == Some(false)
  {
    hide RunFrom;
    RunConcat(INITIAL, DISCONNECT + RECONNECT, DISCONNECT);
    RunConcat(INITIAL, DISCONNECT, RECONNECT);
    DisconnectRun(INITIAL);
    var s := RunFrom(INITIAL, DISCONNECT);
    ReconnectRun(s);
    DisconnectRun(RunFrom(s, RECONNECT));
  }

  /** Any command that operates the hardware sets the flag before anything is known about the hardware. A task that
      looks in that moment is content. */
  const LOOK_TOO_EARLY: seq<Action> := [Start(Operate(true)), Ping(0, false), Finish(OtherIssue)]

  lemma {:induction false} EarlyLookRun(s: State)
    requires s.service == Idle && s.handled == |s.sent| && s.tasks == [Pinging] && !s.scaAvailable
    ensures
      var t := RunFrom(s, LOOK_TOO_EARLY);
      t == s.(flag := Some(true), tasks := [SawFlag])
  {
    var s1 := Step(s, Start(Operate(true)));
    var s2 := Step(s1, Ping(0, false));
    var t := Step(s2, Finish(OtherIssue));
    assert LOOK_TOO_EARLY[1..][1..][1..] == [];
    assert RunFrom(s, LOOK_TOO_EARLY) == RunFrom(s1, LOOK_TOO_EARLY[1..]);
    assert RunFrom(s1, LOOK_TOO_EARLY[1..]) == RunFrom(s2, LOOK_TOO_EARLY[1..][1..]);
    assert RunFrom(s2, LOOK_TOO_EARLY[1..][1..]) == t;
  }

  /** So a sector can stay disconnected with no task at work: the server was lost, the task ended on a flag that was set
      too early, and the next disconnection, though handled while running, launches nothing. */
  lemma {:induction false} RecoveryCanBeLost()
    ensures
      var s := Run(DISCONNECT + LOOK_TOO_EARLY + DISCONNECT);
      && s.flag == Some(false) && s.handled == |s.sent| && !s.scaAvailable
      && s.tasks == [SawFlag] && |s.launches| == 1
  {
    hide RunFrom;
    RunConcat(INITIAL, DISCONNECT + LOOK_TOO_EARLY, DISCONNECT);
    RunConcat(INITIAL, DISCONNECT, LOOK_TOO_EARLY);
    DisconnectRun(INITIAL);
    EarlyLookRun(RunFrom(INITIAL, DISCONNECT));
    DisconnectRun(RunFrom(RunFrom(INITIAL, DISCONNECT), LOOK_TOO_EARLY));
  }
}
