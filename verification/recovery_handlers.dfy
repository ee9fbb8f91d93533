/** The command handlers behind the recovery protocol (src/NSWSCAServiceRc.cpp, src/NSWSectorControllerRc.cpp). */
module RecoveryHandlers {
  import opened Utility
  import opened RecoveryProtocol
  import opened OpcRetry

  datatype Command =
    | CONFIGURE | RESET_STGCTP | CONNECT | START | STOP | ENABLE_VMM
    | RECOVER_OPC | RECOVER_OPC_MESSAGE | RECONNECT_OPC
    | MONITOR | MON_IS_SERVER_NAME
    | SCA_DISCONNECTED | SCA_RECONNECTED
    | UNKNOWN(name: string)

  /** What the hardware does for one command. */
  datatype Hardware = Hardware(
    threw: Option<Outcome>, // `OpcIssue` or `OtherIssue` if it threw
    failedFraction: real,
    recovered: bool)

  datatype Severity = Info | Warning | Fatal

  /** How a failed fraction is judged. */
  function Judge(fraction: real, continueUpTo: real, recoverUpTo: real): Outcome {
    if fraction == 0.0 || fraction <= continueUpTo then Fine
    else if fraction <= recoverUpTo then BeyondContinue
    else BeyondRecover
  }

  /** The command as the protocol sees it. */
  function Role(command: Command, monitors: bool): ServiceCommand {
    match command
    case CONFIGURE | RESET_STGCTP | CONNECT | STOP | ENABLE_VMM => Operate(true)
    case START => Operate(false)
    case RECOVER_OPC => Recover(false)
    case RECOVER_OPC_MESSAGE => Recover(true)
    case RECONNECT_OPC => Reconnect
    case MONITOR => if monitors then Monitor else Other
    case _ => Other
  }

  function OutcomeOf(command: Command, hw: Hardware, continueUpTo: real, recoverUpTo: real): Outcome {
    if hw.threw.Some? then hw.threw.value
    else
      match command
      case RECONNECT_OPC => if hw.recovered then Fine else NotRecovered
      case MONITOR => Fine
      case _ => Judge(hw.failedFraction, continueUpTo, recoverUpTo)
  }

  /** One handler from beginning to end, if nothing comes in between; steps that do not apply do nothing. */
  function WholeHandler(role: ServiceCommand, outcome: Outcome): seq<Action> {
    [RecoveryProtocol.Start(role), Finish(outcome), Mark, Send]
  }

  function ServiceState(flag: Option<bool>, sent: seq<Sent>): State { INITIAL.(flag := flag, sent := sent) }

  lemma {:induction false} FourSteps(s: State, role: ServiceCommand, outcome: Outcome)
    ensures
      RunFrom(s, WholeHandler(role, outcome))
      == Step(Step(Step(Step(s, RecoveryProtocol.Start(role)), Finish(outcome)), Mark), Send)
  {
    var a := WholeHandler(role, outcome);
    assert a[1..][1..][1..][1..] == [];
    var s1 := Step(s, a[0]);
    var s2 := Step(s1, a[1..][0]);
    var s3 := Step(s2, a[1..][1..][0]);
    assert RunFrom(s1, a[1..]) == RunFrom(s2, a[1..][1..]);
    assert RunFrom(s2, a[1..][1..]) == RunFrom(s3, a[1..][1..][1..]);
  }

  /** What such a run does to the flag and the messages, command by command. */
  lemma {:induction false} HandlerRun(
    flag: Option<bool>, sent: seq<Sent>, command: Command, monitors: bool, hw: Hardware, continueUpTo: real,
    recoverUpTo: real)
    requires hw.threw.Some? ==> hw.threw.value in {OpcIssue, OtherIssue}
    ensures
      RunFrom(
        ServiceState(flag, sent),
        WholeHandler(Role(command, monitors), OutcomeOf(command, hw, continueUpTo, recoverUpTo)))
      == match command
        case CONFIGURE | RESET_STGCTP | CONNECT | STOP | ENABLE_VMM =>
          var beyond := hw.failedFraction != 0.0 && continueUpTo < hw.failedFraction <= recoverUpTo;
          ServiceState(Some(hw.threw.Some? || !beyond), sent)
        case START => ServiceState(Some(true), sent)
        case RECOVER_OPC => ServiceState(Some(false), sent)
        case RECOVER_OPC_MESSAGE => ServiceState(Some(false), sent + [Sent(ScaDisconnected, Some(false))])
        case RECONNECT_OPC =>
          if hw.threw.None? && hw.recovered
          then ServiceState(Some(true), sent + [Sent(ScaReconnected, Some(true))])
          else ServiceState(flag, sent)
        case MONITOR => ServiceState(if monitors && hw.threw == Some(OpcIssue) then Some(false) else flag, sent)
        case _ => ServiceState(flag, sent)
  {
    FourSteps(ServiceState(flag, sent), Role(command, monitors), OutcomeOf(command, hw, continueUpTo, recoverUpTo));
    hide RunFrom, WholeHandler;
  }

  // ----- The SCA service -----

  class ScaService {
    var flag: Option<bool>    // `scaAvailable` in the information service
    var sent: seq<Sent>       // messages to the sector controller
    var monitoringIsServerName: string
    const errorThresholdContinue: real
    const errorThresholdRecover: real

    constructor (continueUpTo: real, recoverUpTo: real)
      ensures flag == None && sent == [] && monitoringIsServerName == ""
      ensures errorThresholdContinue == continueUpTo && errorThresholdRecover == recoverUpTo
    {
      flag, sent, monitoringIsServerName := None, [], "";
      errorThresholdContinue, errorThresholdRecover := continueUpTo, recoverUpTo;
    }

    method NotifyScaUnavailable(command: Command)
      modifies `flag, `sent
      ensures flag == Some(false)
      ensures sent == old(sent) + if command == RECOVER_OPC_MESSAGE then [Sent(ScaDisconnected, Some(false))] else []
    {
      flag := Some(false);
      if command == RECOVER_OPC_MESSAGE { sent := sent + [Sent(ScaDisconnected, flag)]; }
    }

    method CheckErrorCounter(command: Command, failedFraction: real) returns (report: Severity)
      modifies `flag, `sent
      ensures
        var outcome := Judge(failedFraction, errorThresholdContinue, errorThresholdRecover);
        && report == (if failedFraction == 0.0 then Info else if outcome == BeyondRecover then Fatal else Warning)
        && (outcome != BeyondContinue ==> flag == old(flag) && sent == old(sent))
        && (outcome == BeyondContinue ==>
          && flag == Some(false)
          && sent == old(sent) + if command == RECOVER_OPC_MESSAGE then [Sent(ScaDisconnected, Some(false))] else [])
      ensures report == Info <==> failedFraction == 0.0
      ensures report == Fatal <==>
        failedFraction != 0.0 && failedFraction > errorThresholdContinue && failedFraction > errorThresholdRecover
      ensures
        if failedFraction != 0.0 && errorThresholdContinue < failedFraction <= errorThresholdRecover
        then flag == Some(false) && (command != RECOVER_OPC_MESSAGE ==> sent == old(sent))
        else flag == old(flag) && sent == old(sent)
    {
      if failedFraction == 0.0 {
        report := Info;
      } else if failedFraction <= errorThresholdContinue {
        report := Warning;
      } else if failedFraction <= errorThresholdRecover {
        report := Warning;
        NotifyScaUnavailable(command);
      } else {
        report := Fatal;
      }
    }

    /** The whole handler is a run of the protocol's steps. An exception the handler does not catch leaves it at
        once. */
    method User(command: Command, parameters: seq<string>, hw: Hardware) returns (escaped: bool)
      requires hw.threw.Some? ==> hw.threw.value in {OpcIssue, OtherIssue}
      modifies this
      ensures
        var monitors := old(monitoringIsServerName) != "" && parameters != [];
        var outcome := OutcomeOf(command, hw, errorThresholdContinue, errorThresholdRecover);
        ServiceState(flag, sent)
          == RunFrom(ServiceState(old(flag), old(sent)), WholeHandler(Role(command, monitors), outcome))
      ensures monitoringIsServerName ==
        if command == MON_IS_SERVER_NAME && |parameters| == 1 then parameters[0] else old(monitoringIsServerName)
      ensures command in {CONFIGURE, RESET_STGCTP, CONNECT, STOP, ENABLE_VMM} ==>
        && sent == old(sent) && escaped == hw.threw.Some?
        && flag == Some(
          hw.threw.Some? || hw.failedFraction == 0.0 || hw.failedFraction <= errorThresholdContinue
          || hw.failedFraction > errorThresholdRecover)
      ensures command == START ==> sent == old(sent) && escaped == hw.threw.Some? && flag == Some(true)
      ensures command == RECOVER_OPC ==> sent == old(sent) && !escaped && flag == Some(false)
      ensures command == RECOVER_OPC_MESSAGE ==>
        sent == old(sent) + [Sent(ScaDisconnected, Some(false))] && !escaped && flag == Some(false)
      ensures command == RECONNECT_OPC ==>
        && escaped == hw.threw.Some?
        && if hw.threw.None? && hw.recovered
          then sent == old(sent) + [Sent(ScaReconnected, Some(true))] && flag == Some(true)
          else sent == old(sent) && flag == old(flag)
      ensures command == MONITOR ==>
        && sent == old(sent)
        && (flag == if old(monitoringIsServerName) != "" && parameters != [] && hw.threw == Some(OpcIssue)
              then Some(false) else old(flag))
        && (escaped <==>
              old(monitoringIsServerName) != "" && (parameters == [] || hw.threw == Some(OtherIssue)))
      ensures
        command !in {CONFIGURE, RESET_STGCTP, CONNECT, STOP, ENABLE_VMM, START, RECOVER_OPC, RECOVER_OPC_MESSAGE,
          RECONNECT_OPC, MONITOR} ==>
        sent == old(sent) && flag == old(flag) && !escaped
    {
      ghost var monitors := monitoringIsServerName != "" && parameters != [];
      HandlerRun(flag, sent, command, monitors, hw, errorThresholdContinue, errorThresholdRecover);
      hide RunFrom, WholeHandler, Role, OutcomeOf, Judge;
      escaped := false;
      match command {
        case CONFIGURE | RESET_STGCTP | CONNECT | STOP | ENABLE_VMM =>
          flag := Some(true);
          if hw.threw.Some? { return true; }
          var report := CheckErrorCounter(command, hw.failedFraction);
        case START =>
          flag := Some(true);
          escaped := hw.threw.Some?;
        case RECOVER_OPC | RECOVER_OPC_MESSAGE =>
          NotifyScaUnavailable(command);
        case RECONNECT_OPC =>
          if hw.threw.Some? { return true; }
          if hw.recovered {
            flag := Some(true);
            sent := sent + [Sent(ScaReconnected, flag)];
          }
        case MONITOR =>
          if monitoringIsServerName == "" { return; }
          if parameters == [] { return true; }
          if hw.threw == Some(OpcIssue) {
            NotifyScaUnavailable(command);
          } else {
            escaped := hw.threw.Some?;
          }
        case MON_IS_SERVER_NAME =>
          if |parameters| == 1 { monitoringIsServerName := parameters[0]; }
        case _ =>
      }
    }
  }

  // ----- The sector controller -----

  class SectorController {
    var scaAvailable: bool
    var tasks: seq<Task>
    const retry: Settings

    constructor (settings: Settings)
      ensures scaAvailable && tasks == [] && retry == settings
    {
      scaAvailable, tasks, retry := true, [], settings;
    }

    /** Messages of the service change the controller as the protocol says; the other commands go to the configuration
        controller, again and again while the server is gone, and change nothing here. */
    method User(command: Command, isRunning: bool, w: World)
      returns (monitoringStopped: bool, operations: nat, issues: seq<Issue>)
      requires forall k: nat :: Clock(w.recovery(k).elapsed)
      modifies this
      ensures
        command == SCA_DISCONNECTED || command == SCA_RECONNECTED ==>
          var what := if command == SCA_DISCONNECTED then ScaDisconnected else ScaReconnected;
          var reaction := Reaction(old(scaAvailable), what, isRunning);
          && scaAvailable == reaction.0 && tasks == old(tasks) + (if reaction.1 then [Pinging] else [])
          && monitoringStopped == reaction.1
      ensures command == SCA_DISCONNECTED ==>
        && !scaAvailable && monitoringStopped == (old(scaAvailable) && isRunning)
        && tasks == if old(scaAvailable) && isRunning then old(tasks) + [Pinging] else old(tasks)
      ensures command == SCA_RECONNECTED ==> scaAvailable && !monitoringStopped && tasks == old(tasks)
      ensures
        command != SCA_DISCONNECTED && command != SCA_RECONNECTED ==>
          scaAvailable == old(scaAvailable) && tasks == old(tasks) && !monitoringStopped
      ensures
        if command == ENABLE_VMM || command == RESET_STGCTP
          then IsCalls(w, retry, operations) && issues == IssuesUpTo(w, retry, operations)
          else operations == 0 && issues == []
    {
      monitoringStopped, operations, issues := false, 0, [];
      if command == ENABLE_VMM {
        operations, issues := RetryOpc(w, retry);
      } else if command == SCA_DISCONNECTED {
        if scaAvailable {
          scaAvailable := false;
          if isRunning {
            monitoringStopped := true;
            tasks := tasks + [Pinging];
          }
        }
      } else if command == SCA_RECONNECTED {
        scaAvailable := true;
      } else if command == RESET_STGCTP {
        operations, issues := RetryOpc(w, retry);
      }
    }
  }
}
