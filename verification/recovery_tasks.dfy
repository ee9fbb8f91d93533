/** When a recovery task is at work: exactly, for every run of the recovery protocol. */
module RecoveryTasks {
  import opened Utility
  import opened RecoveryProtocol

  // ----- Runs, one action longer -----

  lemma {:induction false} RunLast(actions: seq<Action>)
    requires actions != []
    ensures Run(actions) == Step(Run(actions[..|actions| - 1]), actions[|actions| - 1])
  {
    var init, last := actions[..|actions| - 1], actions[|actions| - 1];
    assert actions == init + [last];
    RunConcat(INITIAL, init, [last]);
    assert [last][1..] == [];
    assert RunFrom(Run(init), [last]) == Step(Run(init), last);
  }

  /** Tasks are only ever added. */
  lemma {:induction false} TasksGrow(actions: seq<Action>, i: nat)
    requires i <= |actions|
    ensures |Run(actions[..i]).tasks| <= |Run(actions).tasks|
    decreases |actions|
  {
    hide Run;
    if i < |actions| {
      var init := actions[..|actions| - 1];
      assert init[..i] == actions[..i];
      TasksGrow(init, i);
      RunLast(actions);
    } else {
      assert actions[..i] == actions;
    }
  }

  // ----- A task at work -----

  /** Action `i` of the run is a look of task `k`, launched before, that ends it: it finds the flag set, or its time
      is up. */
  ghost predicate EndsAt(actions: seq<Action>, i: nat, k: nat)
    requires i < |actions|
  {
    && actions[i].Ping? && actions[i].task == k
    && k < |Run(actions[..i]).tasks|
    && (Run(actions[..i]).flag != Some(false) || actions[i].timeUp)
  }

  /** Since its launch the task never looked while the flag was set, and its time was never up. */
  ghost predicate Undisturbed(actions: seq<Action>, k: nat) {
    forall i: nat | i < |actions| :: !EndsAt(actions, i, k)
  }

  /** A task is at work exactly as long as that holds. */
  lemma {:induction false} AtWorkIff(actions: seq<Action>, k: nat)
    requires k < |Run(actions).tasks|
    ensures Run(actions).tasks[k] == Pinging <==> Undisturbed(actions, k)
    decreases |actions|
  {
    hide Run, EndsAt;
    if actions == [] {
      assert Run(actions) == INITIAL by { NothingRun(); }
    } else {
      var init, last := actions[..|actions| - 1], actions[|actions| - 1];
      RunLast(actions);
      UndisturbedStep(actions, k);
      if k < |Run(init).tasks| {
        AtWorkIff(init, k);
        LastLook(actions, k);
      } else {
        forall i: nat | i < |actions| ensures !EndsAt(actions, i, k) { NotYetLaunched(actions, i, k); }
      }
    }
  }

  lemma {:induction false} NothingRun()
    ensures Run([]) == INITIAL
  {
  }

  lemma {:induction false} LastLook(actions: seq<Action>, k: nat)
    requires actions != [] && k < |Run(actions[..|actions| - 1]).tasks|
    ensures
      var s, last := Run(actions[..|actions| - 1]), actions[|actions| - 1];
      EndsAt(actions, |actions| - 1, k) <==> last.Ping? && last.task == k && (Connected(s.flag) || last.timeUp)
  {
  }

  lemma {:induction false} NotYetLaunched(actions: seq<Action>, i: nat, k: nat)
    requires i < |actions| && |Run(actions[..|actions| - 1]).tasks| <= k
    ensures !EndsAt(actions, i, k)
  {
    hide Run;
    var init := actions[..|actions| - 1];
    TasksGrow(init, i);
    assert init[..i] == actions[..i];
  }

  lemma {:induction false} UndisturbedStep(actions: seq<Action>, k: nat)
    requires actions != []
    ensures
      Undisturbed(actions, k)
      <==> Undisturbed(actions[..|actions| - 1], k) && !EndsAt(actions, |actions| - 1, k)
  {
    var init := actions[..|actions| - 1];
    forall i: nat | i < |init| ensures EndsAt(actions, i, k) <==> EndsAt(init, i, k) {
      assert init[..i] == actions[..i];
    }
  }

  // ----- Two tasks -----

  /** A launch finds the previous task still at work, and so blocks the controller, exactly when that task was never
      disturbed. */
  lemma {:induction false} LaunchFindsPreviousIff(actions: seq<Action>, isRunning: bool)
    requires 0 < |Run(actions).tasks| < |Run(actions + [Handle(isRunning)]).tasks|
    ensures Blocked(Run(actions + [Handle(isRunning)])) <==> Undisturbed(actions, |Run(actions).tasks| - 1)
  {
    hide Run, Undisturbed;
    var more := actions + [Handle(isRunning)];
    RunLast(more);
    assert more[..|more| - 1] == actions;
    AtWorkIff(actions, |Run(actions).tasks| - 1);
  }

  /** Two tasks are at work exactly when neither of the two newest was ever disturbed. */
  lemma {:induction false} TwoAtWorkIff(actions: seq<Action>)
    ensures
      var n := |Run(actions).tasks|;
      (exists j, k :: 0 <= j < k < n && Run(actions).tasks[j] == Run(actions).tasks[k] == Pinging)
      <==> n >= 2 && Undisturbed(actions, n - 2) && Undisturbed(actions, n - 1)
  {
    hide Run, Undisturbed;
    var s, n := Run(actions), |Run(actions).tasks|;
    if j, k :| 0 <= j < k < n && s.tasks[j] == s.tasks[k] == Pinging {
      AtMostTwoTasks(actions, j, k, true);
      AtWorkIff(actions, j);
      AtWorkIff(actions, k);
    }
    if n >= 2 {
      AtWorkIff(actions, n - 2);
      AtWorkIff(actions, n - 1);
    }
  }

  // ----- A disconnected sector -----

  /** Where the current run of disconnections among the first `n` messages begins. */
  function Current(sent: seq<Sent>, n: nat): (d: nat)
    requires 0 < n <= |sent| && sent[n - 1].what == ScaDisconnected
    ensures d < n && FirstDisconnection(sent, d)
    ensures forall k | d <= k < n :: sent[k].what == ScaDisconnected
  {
    if n == 1 || sent[n - 2].what == ScaReconnected then n - 1 else Current(sent, n - 1)
  }

  /** While the controller takes the server to be gone, the task for this disconnection is at work exactly when the
      controller was running when it handled the first message of it, and the task was never disturbed since. */
  lemma {:induction false} DisconnectedAtWorkIff(actions: seq<Action>)
    requires !Run(actions).scaAvailable
    ensures
      var s := Run(actions);
      && 0 < s.handled == |s.running| <= |s.sent| && s.sent[s.handled - 1].what == ScaDisconnected
      && var d, n := Current(s.sent, s.handled), |s.tasks|;
         (n > 0 && n == |s.launches| && s.launches[n - 1] == d && s.tasks[n - 1] == Pinging)
         <==> s.running[d] && n > 0 && Undisturbed(actions, n - 1)
  {
    hide Run, Undisturbed;
    Reachable(actions);
    var s := Run(actions);
    var d, n := Current(s.sent, s.handled), |s.tasks|;
    if n > 0 { AtWorkIff(actions, n - 1); }
    assert d in s.launches <==> s.running[d];
    if d in s.launches { LastLaunch(s, d); }
    if n > 0 && s.launches[n - 1] == d { assert d in s.launches; }
  }

  lemma {:induction false} LastLaunch(s: State, d: nat)
    requires Invariant(s) && d in s.launches && d < s.handled
    requires forall k: nat | d < k < s.handled :: !FirstDisconnection(s.sent, k)
    ensures s.launches != [] && s.launches[|s.launches| - 1] == d
  {
    hide SentWithFlag, TasksAgree, FirstDisconnection;
    var last := s.launches[|s.launches| - 1];
    assert last in s.launches;
    assert last < s.handled && FirstDisconnection(s.sent, last);
    assert last <= d;
  }

  // ----- Who wrote the flag -----

  /** A write of the flag: by an operating command, after a reconnection, and before or without a message. */
  datatype Write = Operated | Restored | Announced | Silent

  function WriteOf(s: State, a: Action): Option<Write> {
    match a
    case Start(Operate(_)) => if s.service == Idle then Some(Operated) else None
    case Finish(outcome) => if s.service == Reconnecting && outcome == Fine then Some(Restored) else None
    case Mark => if s.service.Marking? then Some(if s.service.message then Announced else Silent) else None
    case _ => None
  }

  /** All writes of a run, in order. */
  function Writes(actions: seq<Action>): seq<Write> {
    if actions == [] then []
    else
      var init, last := actions[..|actions| - 1], actions[|actions| - 1];
      var write := WriteOf(Run(init), last);
      Writes(init) + (if write.Some? then [write.value] else [])
  }

  /** The messages that belong to the writes. */
  function Messages(ws: seq<Write>): seq<Message> {
    if ws == [] then []
    else
      Messages(ws[..|ws| - 1])
      + match ws[|ws| - 1]
        case Restored => [ScaReconnected]
        case Announced => [ScaDisconnected]
        case _ => []
  }

  function Whats(sent: seq<Sent>): seq<Message> {
    seq(|sent|, k requires 0 <= k < |sent| => sent[k].what)
  }

  /** The flag is that of the last write; the messages sent, and one on its way, are those of the writes. */
  ghost predicate Told(s: State, ws: seq<Write>) {
    && s.flag == (if ws == [] then None else Some(ws[|ws| - 1].Operated? || ws[|ws| - 1].Restored?))
    && Whats(s.sent) + (if s.service.Sending? then [s.service.what] else []) == Messages(ws)
  }

  lemma {:induction false} MessagesStep(ws: seq<Write>, w: Write)
    ensures
      Messages(ws + [w])
      == Messages(ws)
         + (if w == Restored then [ScaReconnected] else if w == Announced then [ScaDisconnected] else [])
  {
    assert (ws + [w])[..|ws|] == ws;
  }

  lemma {:induction false} TellStep(s: State, a: Action, ws: seq<Write>)
    requires Told(s, ws)
    ensures
      var write := WriteOf(s, a);
      Told(Step(s, a), ws + (if write.Some? then [write.value] else []))
  {
    hide Messages;
    var write, t := WriteOf(s, a), Step(s, a);
    assert ws + [] == ws;
    if write.Some? {
      MessagesStep(ws, write.value);
    } else if a.Handle? {
      assert t.flag == s.flag && t.sent == s.sent && t.service == s.service;
    } else if a.Send? && s.service.Sending? {
      assert Whats(t.sent) == Whats(s.sent) + [s.service.what];
      assert Whats(t.sent) + [] == Whats(t.sent);
    }
  }

  lemma {:induction false} WritesTell(actions: seq<Action>)
    ensures Told(Run(actions), Writes(actions))
    decreases |actions|
  {
    hide Run, WriteOf, Told;
    if actions == [] {
      NothingRun();
      assert Told(INITIAL, []) by { NothingTold(); }
    } else {
      var init, last := actions[..|actions| - 1], actions[|actions| - 1];
      WritesTell(init);
      RunLast(actions);
      TellStep(Run(init), last, Writes(init));
    }
  }

  lemma {:induction false} NothingTold()
    ensures Told(INITIAL, [])
  {
  }

  /** Nothing is under way: no handler of the service, and no message to the controller. */
  predicate AtRest(s: State) { s.service == Idle && s.handled == |s.sent| }

  /** At rest the controller still takes the server to be there although the flag is cleared, and will launch nothing,
      exactly when the last write of the flag was without a message, and the last one with a message, if any, was a
      reconnection. */
  lemma {:induction false} ClearedUnnoticedIff(actions: seq<Action>)
    requires AtRest(Run(actions))
    ensures
      var s, ws := Run(actions), Writes(actions);
      s.flag == Some(false) && s.scaAvailable
      <==> ws != [] && ws[|ws| - 1] == Silent
           && (Messages(ws) == [] || Messages(ws)[|Messages(ws)| - 1] == ScaReconnected)
  {
    hide Run, Writes, SentWithFlag, LaunchesAgree, TasksAgree;
    Reachable(actions);
    WritesTell(actions);
    var s, ws := Run(actions), Writes(actions);
    FlagSet(s.flag);
    assert s.scaAvailable <==> s.sent == [] || s.sent[|s.sent| - 1].what == ScaReconnected;
    assert Messages(ws) == Whats(s.sent);
    assert s.sent != [] ==> Messages(ws)[|Messages(ws)| - 1] == s.sent[|s.sent| - 1].what;
    if ws != [] {
      hide Messages;
      var w := ws[|ws| - 1];
      MessagesStep(ws[..|ws| - 1], w);
      assert ws[..|ws| - 1] + [w] == ws;
    }
  }

  /** A problem while monitoring clears the flag and tells nobody. So does RECOVER_OPC. */
  const LOSE_SILENTLY: seq<Action> := [Start(Monitor), Finish(OpcIssue), Mark]

  const RECOVER_SILENTLY: seq<Action> := [Start(Recover(false)), Mark]

  lemma {:induction false} SilentLossRun(s: State)
    requires s.service == Idle
    ensures RunFrom(s, LOSE_SILENTLY) == RunFrom(s, RECOVER_SILENTLY) == s.(flag := Some(false))
  {
    var s1 := Step(s, Start(Monitor));
    var s2 := Step(s1, Finish(OpcIssue));
    assert LOSE_SILENTLY[1..][1..][1..] == [];
    assert RunFrom(s, LOSE_SILENTLY) == RunFrom(s1, LOSE_SILENTLY[1..]) == RunFrom(s2, LOSE_SILENTLY[1..][1..]);
    assert RunFrom(s2, LOSE_SILENTLY[1..][1..]) == Step(s2, Mark);
    var t := Step(s, Start(Recover(false)));
    assert RECOVER_SILENTLY[1..][1..] == [];
    assert RunFrom(s, RECOVER_SILENTLY) == RunFrom(t, RECOVER_SILENTLY[1..]) == Step(t, Mark);
  }

  /** So from the start, with no operating command, time-out or controller that is not running, a sector can come to
      rest with its flag cleared and nobody to recover it. */
  lemma {:induction false} LossUnnoticed()
    ensures forall i | 0 <= i < |LOSE_SILENTLY| :: Careful(LOSE_SILENTLY[i])
    ensures
      var s := Run(LOSE_SILENTLY);
      AtRest(s) && s.flag == Some(false) && s.scaAvailable && s.tasks == []
  {
    SilentLossRun(INITIAL);
  }

  // ----- Runs in which recovery is assured -----

  /** No command operates the hardware, no task's time is up, and the controller is always running. */
  predicate Careful(a: Action) {
    && !(a.Start? && a.command.Operate?)
    && !(a.Ping? && a.timeUp)
    && (a.Handle? ==> a.isRunning)
  }

  /** The flag is only set on the way of a reconnection; until then the newest task of a disconnected sector works. */
  ghost predicate Watched(s: State) {
    && !s.service.Operating?
    && (s.flag == None ==> s.sent == [])
    && (s.flag == Some(true) ==>
      s.service == Sending(ScaReconnected) || (s.sent != [] && s.sent[|s.sent| - 1].what == ScaReconnected))
    && (!s.scaAvailable ==> s.tasks != [] && (s.tasks[|s.tasks| - 1] == Pinging || Returning(s)))
  }

  /** A reconnection is on its way to the controller. */
  ghost predicate Returning(s: State) {
    || s.service == Sending(ScaReconnected)
    || exists k :: s.handled <= k < |s.sent| && s.sent[k].what == ScaReconnected
  }

  lemma {:induction false} CarefulStep(s: State, a: Action)
    requires Invariant(s) && Watched(s) && Careful(a)
    ensures Watched(Step(s, a))
  {
    hide SentWithFlag, LaunchesAgree, TasksAgree, Returning;
    match a
    case Send => CarefulSend(s);
    case Handle(_) => CarefulHandle(s);
    case Ping(k, _) => CarefulPing(s, k);
    case _ => CarefulService(s, a);
  }

  lemma {:induction false} CarefulService(s: State, a: Action)
    requires Invariant(s) && Watched(s) && Careful(a) && (a.Start? || a.Finish? || a.Mark?)
    ensures Watched(Step(s, a))
  {
    hide SentWithFlag, LaunchesAgree, TasksAgree;
    var t := Step(s, a);
    assert t.service == s.service || s.service != Sending(ScaReconnected);
    assert t.sent == s.sent && t.handled == s.handled;
    assert Returning(s) ==> Returning(t);
  }

  lemma {:induction false} CarefulSend(s: State)
    requires Invariant(s) && Watched(s)
    ensures Watched(SendMessage(s))
  {
    hide SentWithFlag, LaunchesAgree, TasksAgree;
    if s.service.Sending? {
      var t, n := SendMessage(s), |s.sent|;
      assert t.sent[n].what == s.service.what;
      assert forall k | 0 <= k < n :: t.sent[k] == s.sent[k];
      assert Returning(s) ==> Returning(t);
    }
  }

  lemma {:induction false} CarefulPing(s: State, k: nat)
    requires Invariant(s) && Watched(s)
    ensures Watched(Step(s, Ping(k, false)))
  {
    hide SentWithFlag, LaunchesAgree, TasksAgree;
    assert Returning(s) <==> Returning(Step(s, Ping(k, false)));
    if Connected(s.flag) && !s.scaAvailable { SetFlagReturns(s); }
  }

  lemma {:induction false} FlagSet(flag: Option<bool>)
    ensures Connected(flag) <==> flag == None || flag == Some(true)
  {
    match flag
    case None =>
    case Some(true) =>
    case Some(false) =>
  }

  lemma {:induction false} SetFlagReturns(s: State)
    requires Invariant(s) && Watched(s) && Connected(s.flag) && !s.scaAvailable
    ensures Returning(s)
  {
    hide SentWithFlag, LaunchesAgree, TasksAgree;
    assert s.sent != [];
    FlagSet(s.flag);
    if s.service != Sending(ScaReconnected) {
      assert s.sent[|s.sent| - 1].what == ScaReconnected;
    }
  }

  lemma {:induction false} CarefulHandle(s: State)
    requires Invariant(s) && Watched(s)
    ensures Watched(HandleMessage(s, true))
  {
    hide SentWithFlag, LaunchesAgree, TasksAgree, FlagAgrees;
    var t := HandleMessage(s, true);
    if t != s && !t.scaAvailable && !s.scaAvailable && Returning(s) && s.service != Sending(ScaReconnected) {
      var k :| s.handled <= k < |s.sent| && s.sent[k].what == ScaReconnected;
      assert t.handled <= k;
    }
  }

  lemma {:induction false} CarefulRun(s: State, actions: seq<Action>)
    requires Invariant(s) && Watched(s) && forall i | 0 <= i < |actions| :: Careful(actions[i])
    ensures Invariant(RunFrom(s, actions)) && Watched(RunFrom(s, actions))
    decreases |actions|
  {
    hide Invariant, Watched, Careful;
    if actions != [] {
      StepKeeps(s, actions[0]);
      CarefulStep(s, actions[0]);
      CarefulRun(Step(s, actions[0]), actions[1..]);
    }
  }

  lemma {:induction false} CarefulRunFromStart(actions: seq<Action>)
    requires forall i | 0 <= i < |actions| :: Careful(actions[i])
    ensures Invariant(Run(actions)) && Watched(Run(actions))
  {
    CarefulRun(INITIAL, actions);
  }

  /** In such runs, whenever nothing is under way, a sector whose last message was a disconnection has its flag cleared
      and its newest task at work; and so has every sector whose flag is cleared, unless that was done without a
      message. */
  lemma {:induction false} RecoveryAssured(actions: seq<Action>)
    requires forall i | 0 <= i < |actions| :: Careful(actions[i])
    requires AtRest(Run(actions))
    ensures
      var s, ws := Run(actions), Writes(actions);
      && (s.sent != [] && s.sent[|s.sent| - 1].what == ScaDisconnected ==> s.flag == Some(false) && NewestAtWork(s))
      && (s.flag == Some(false) ==> ws != [] && (ws[|ws| - 1] != Silent ==> NewestAtWork(s)))
  {
    hide Run, Writes, Careful;
    CarefulRunFromStart(actions);
    var s, ws := Run(actions), Writes(actions);
    if s.sent != [] && s.sent[|s.sent| - 1].what == ScaDisconnected {
      FlagSet(s.flag);
      assert !s.scaAvailable && !Returning(s);
    }
    WritesTell(actions);
    if s.flag == Some(false) && ws[|ws| - 1] != Silent {
      MessagesStep(ws[..|ws| - 1], ws[|ws| - 1]);
      assert ws[..|ws| - 1] + [ws[|ws| - 1]] == ws;
      assert Whats(s.sent) == Messages(ws);
      assert s.sent[|s.sent| - 1].what == Messages(ws)[|Messages(ws)| - 1];
    }
  }

  predicate NewestAtWork(s: State) { s.tasks != [] && s.tasks[|s.tasks| - 1] == Pinging }

  /** Nor does anything clear the flag without a message. */
  predicate Announcing(a: Action) { Careful(a) && a != Start(Recover(false)) && a != Finish(OpcIssue) }

  lemma {:induction false} NothingSilent(actions: seq<Action>)
    requires forall i | 0 <= i < |actions| :: Announcing(actions[i])
    ensures Silent !in Writes(actions)
    ensures Run(actions).service != Marking(false) && !Run(actions).service.Operating?
    decreases |actions|
  {
    if actions == [] {
      NothingRun();
    } else {
      var init, last := actions[..|actions| - 1], actions[|actions| - 1];
      NothingSilent(init);
      RunLast(actions);
      assert Announcing(last);
      hide Run, Writes;
      AnnouncingStep(Run(init), last);
    }
  }

  lemma {:induction false} AnnouncingStep(s: State, a: Action)
    requires s.service != Marking(false) && !s.service.Operating? && Announcing(a)
    ensures Step(s, a).service != Marking(false) && !Step(s, a).service.Operating?
    ensures WriteOf(s, a) != Some(Silent)
  {
  }

  /** Then every sector at rest with its flag cleared has its newest task at work. */
  lemma {:induction false} ClearedFlagIsWatched(actions: seq<Action>)
    requires forall i | 0 <= i < |actions| :: Announcing(actions[i])
    requires AtRest(Run(actions)) && Run(actions).flag == Some(false)
    ensures NewestAtWork(Run(actions))
  {
    hide Run, Writes;
    NothingSilent(actions);
    RecoveryAssured(actions);
    WritesTell(actions);
  }
}
