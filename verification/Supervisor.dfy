/**
 The connector supervisor (`run_supervisor` and its helpers in
 `crates/runonmine-connectors/src/supervisor.rs`) against an arbitrary environment.

 Everything the supervisor cannot decide itself is given as a script: whether a spawn works,
 what each tick of the monitor finds, how a kill goes, how a backoff ends. A script that runs
 out stands for a run that has not got further yet, so the properties of all scripts are the
 properties of every prefix of every run.
 */
module Supervisor {
  import opened Common
  import opened RestartPolicies

  // ---- What is published ---------------------------------------------------------------------------

  datatype Category = Spawn | ProcessExit | ProcessStatus | Readiness | Cleanup

  datatype Failure = Failure(category: Category, retryable: bool)

  datatype CleanupState = NotRequired | Complete | Uncertain(orphanRisk: bool)

  datatype ProcessState =
    | Starting(attempt: nat)
    | Running(attempt: nat)
    | Backoff(attempt: nat, delayMs: nat)
    | Stopped(cleanup: CleanupState)
    | Failed(failure: Failure, cleanup: CleanupState)

  predicate Terminal(state: ProcessState) {
    state.Stopped? || state.Failed?
  }

  datatype ChildOutcome =
    | ChildStopped(cleanup: CleanupState)
    | Exited(success: bool, failure: Option<Failure>, stable: bool, cleanup: CleanupState)
    | Unhealthy(stable: bool, cleanup: CleanupState)

  // ---- `terminate_child` ------------------------------------------------------------------------------

  /** One `try_wait` after the kill; `Waiting(true)` is the poll that finds the deadline passed. */
  datatype Poll = Reaped | PollError | Waiting(expired: bool)

  datatype KillScript = KillScript(startKill: bool, polls: seq<Poll>)

  const STILL_WAITING: Poll := Waiting(false)

  /** A poll after the kill saw the exit before an error or the deadline. */
  ghost predicate KillConfirmed(kill: KillScript) {
    kill.startKill && exists k | 0 <= k < |kill.polls| ::
      kill.polls[k] == Reaped && forall j | 0 <= j < k :: kill.polls[j] == STILL_WAITING
  }

  ghost predicate KillPending(kill: KillScript) {
    kill.startKill && forall k | 0 <= k < |kill.polls| :: kill.polls[k] == STILL_WAITING
  }

  /** `terminate_child`; `reaped` says that a `try_wait` saw the child's exit. */
  method TerminateChild(kill: KillScript) returns (cleanup: Option<CleanupState>, reaped: bool)
    ensures cleanup.None? <==> KillPending(kill)
    ensures reaped <==> KillConfirmed(kill)
    ensures cleanup.Some? ==> cleanup.value == if reaped then Complete else Uncertain(true)
  {
    reaped := false;
    if !kill.startKill {
      return Some(Uncertain(true)), false;
    }
    var i := 0;
    while i < |kill.polls|
      invariant 0 <= i <= |kill.polls|
      invariant forall j | 0 <= j < i :: kill.polls[j] == STILL_WAITING
    {
      match kill.polls[i] {
        case Reaped => return Some(Complete), true;
        case PollError => return Some(Uncertain(true)), false;
        case Waiting(expired) =>
          if expired {
            return Some(Uncertain(true)), false;
          }
      }
      i := i + 1;
    }
    return None, false;
  }

  // ---- `monitor_child` -----------------------------------------------------------------------------------

  datatype Status = StillRunning | ExitStatus(success: bool) | StatusError

  /** A branch of the `select!`; `longLived` is `started.elapsed() >= STABLE_RUNTIME` at that moment. */
  datatype MonitorEvent =
    | ProcessTick(status: Status, longLived: bool)
    | StopChanged(stop: bool)
    | HealthTick(healthy: bool, longLived: bool)

  /** Failed health checks since the last one that passed. */
  function FailedInARow(events: seq<MonitorEvent>): nat {
    if events == [] then 0
    else
      var init, last := events[..|events| - 1], events[|events| - 1];
      if !last.HealthTick? then FailedInARow(init)
      else if last.healthy then 0
      else FailedInARow(init) + 1
  }

  ghost predicate HealthyOnce(events: seq<MonitorEvent>) {
    exists k | 0 <= k < |events| :: events[k].HealthTick? && events[k].healthy
  }

  /** Event `k` ends the monitoring: an exit, an unreadable status, a stop, or one failed check too many in a row. */
  ghost predicate Ends(threshold: nat, events: seq<MonitorEvent>, k: nat)
    requires k < |events|
  {
    match events[k]
    case ProcessTick(status, _) => status != StillRunning
    case StopChanged(stop) => stop
    case HealthTick(healthy, _) => !healthy && FailedInARow(events[..k + 1]) >= threshold
  }

  predicate SelfExit(event: MonitorEvent) {
    event.ProcessTick? && event.status.ExitStatus?
  }

  /** The outcome that the event which ends the monitoring calls for. */
  ghost function OutcomeAt(events: seq<MonitorEvent>, k: nat, kill: KillScript): ChildOutcome
    requires k < |events|
  {
    var exited := SelfExit(events[k]);
    var cleanup := if exited then NotRequired else if KillConfirmed(kill) then Complete else Uncertain(true);
    match events[k]
    case ProcessTick(status, longLived) =>
      var success := status == ExitStatus(true);
      Exited(success, if success then None else Some(Failure(if exited then ProcessExit else ProcessStatus, true)),
             HealthyOnce(events[..k]) || longLived, cleanup)
    case StopChanged(_) => ChildStopped(cleanup)
    case HealthTick(_, longLived) => Unhealthy(HealthyOnce(events[..k]) || longLived, cleanup)
  }

  ghost predicate FirstEnd(threshold: nat, events: seq<MonitorEvent>, k: nat) {
    k < |events| && Ends(threshold, events, k) && forall j | 0 <= j < k :: !Ends(threshold, events, j)
  }

  /** Nothing has ended the monitoring yet, or the kill it led to is still waited for. */
  ghost predicate Unfinished(threshold: nat, events: seq<MonitorEvent>, kill: KillScript) {
    || (forall k | 0 <= k < |events| :: !Ends(threshold, events, k))
    || (KillPending(kill) && exists k: nat :: FirstEnd(threshold, events, k) && !SelfExit(events[k]))
  }

  lemma FirstEndUnique(threshold: nat, events: seq<MonitorEvent>, j: nat, k: nat)
    requires FirstEnd(threshold, events, j) && FirstEnd(threshold, events, k)
    ensures j == k
  {
  }

  lemma EndFinishes(threshold: nat, events: seq<MonitorEvent>, kill: KillScript, k: nat)
    requires FirstEnd(threshold, events, k) && (SelfExit(events[k]) || !KillPending(kill))
    ensures !Unfinished(threshold, events, kill)
  {
  }

  lemma KillNotBoth(kill: KillScript)
    ensures !(KillPending(kill) && KillConfirmed(kill))
  {
  }

  lemma Prefix(events: seq<MonitorEvent>, k: nat)
    requires k < |events|
    ensures events[..k + 1][..k] == events[..k] && events[..k + 1][k] == events[k]
  {
  }

  /**
   `monitor_child`. It goes on until the first event that ends it, whatever came before, and
   the counter that saturates never hides or invents an unhealthy verdict. Either the exit of
   the child was seen or the cleanup says that an orphan is possible.
   */
  method MonitorChild(policy: RestartPolicy, events: seq<MonitorEvent>, kill: KillScript)
    returns (outcome: Option<ChildOutcome>, exitSeen: bool)
    requires Typed(policy)
    ensures outcome.None? ==> !exitSeen
    ensures outcome.Some? ==> exists k: nat ::
      && FirstEnd(policy.unhealthyThreshold, events, k) && outcome.value == OutcomeAt(events, k, kill)
      && (exitSeen <==> SelfExit(events[k]) || KillConfirmed(kill))
    ensures outcome.Some? ==> (exitSeen <==> outcome.value.cleanup != Uncertain(true))
    ensures outcome.None? <==> Unfinished(policy.unhealthyThreshold, events, kill)
  {
    hide KillConfirmed;
    hide KillPending;
    var failedHealthChecks, healthyOnce := 0, false;
    var k := 0;
    while k < |events|
      invariant 0 <= k <= |events|
      invariant failedHealthChecks == Min(FailedInARow(events[..k]), U32_MAX)
      invariant healthyOnce == HealthyOnce(events[..k])
      invariant forall j | 0 <= j < k :: !Ends(policy.unhealthyThreshold, events, j)
    {
      Prefix(events, k);
      match events[k] {
        case ProcessTick(status, longLived) =>
          match status {
            case ExitStatus(success) =>
              EndFinishes(policy.unhealthyThreshold, events, kill, k);
              return Some(Exited(success, if success then None else Some(Failure(ProcessExit, true)),
                                 healthyOnce || longLived, NotRequired)), true;
            case StillRunning =>
            case StatusError =>
              var cleanup, reaped := TerminateChild(kill);
              assert FirstEnd(policy.unhealthyThreshold, events, k);
              if cleanup.None? {
                return None, false;
              }
              EndFinishes(policy.unhealthyThreshold, events, kill, k);
              var failure := Failure(ProcessStatus, true);
              return Some(Exited(false, Some(failure), healthyOnce || longLived, cleanup.value)), reaped;
          }
        case StopChanged(stop) =>
          if stop {
            var cleanup, reaped := TerminateChild(kill);
            assert FirstEnd(policy.unhealthyThreshold, events, k);
            if cleanup.None? {
              return None, false;
            }
            EndFinishes(policy.unhealthyThreshold, events, kill, k);
            return Some(ChildStopped(cleanup.value)), reaped;
          }
        case HealthTick(healthy, longLived) =>
          if healthy {
            healthyOnce := true;
            failedHealthChecks := 0;
            assert events[..k + 1][k].healthy;
          } else {
            failedHealthChecks := SaturatingInc(failedHealthChecks);
            if failedHealthChecks >= policy.unhealthyThreshold {
              var cleanup, reaped := TerminateChild(kill);
              assert FirstEnd(policy.unhealthyThreshold, events, k);
              if cleanup.None? {
                return None, false;
              }
              EndFinishes(policy.unhealthyThreshold, events, kill, k);
              return Some(Unhealthy(healthyOnce || longLived, cleanup.value)), reaped;
            }
          }
      }
      k := k + 1;
    }
    return None, false;
  }

  // ---- Deciding what follows ------------------------------------------------------------------------------

  datatype Decision = Decision(restarts: nat, terminal: Option<ProcessState>)

  /** `update_restart_count`. */
  function UpdateRestartCount(stable: bool, restarts: nat): nat {
    SaturatingInc(if stable then 0 else restarts)
  }

  /** `decide_exit_outcome`. */
  function DecideExit(
    success: bool, failure: Option<Failure>, stable: bool, cleanup: CleanupState,
    policy: RestartPolicy, restarts: nat): Decision
  {
    if cleanup == Uncertain(true) then Decision(restarts, Some(Failed(Failure(Cleanup, false), cleanup)))
    else if success && !policy.restartOnCleanExit then Decision(restarts, Some(Stopped(cleanup)))
    else
      var updated := UpdateRestartCount(stable, restarts);
      Decision(updated,
        if PermitsRestart(policy, updated) then None
        else Some(Failed(if failure.Some? then failure.value else Failure(ProcessExit, false), cleanup)))
  }

  /** `decide_unhealthy_outcome`. */
  function DecideUnhealthy(stable: bool, cleanup: CleanupState, policy: RestartPolicy, restarts: nat): Decision {
    if cleanup == Uncertain(true) then Decision(restarts, Some(Failed(Failure(Cleanup, false), cleanup)))
    else
      var updated := UpdateRestartCount(stable, restarts);
      Decision(updated,
        if PermitsRestart(policy, updated) then None else Some(Failed(Failure(Readiness, false), cleanup)))
  }

  /** `decide_child_outcome`. */
  function DecideChild(outcome: ChildOutcome, policy: RestartPolicy, restarts: nat): Decision {
    match outcome
    case ChildStopped(cleanup) => Decision(restarts, Some(Stopped(cleanup)))
    case Exited(success, failure, stable, cleanup) => DecideExit(success, failure, stable, cleanup, policy, restarts)
    case Unhealthy(stable, cleanup) => DecideUnhealthy(stable, cleanup, policy, restarts)
  }

  // ---- Traces ---------------------------------------------------------------------------------------------

  datatype Action =
    | Published(state: ProcessState)
    | SpawnOk
    | SpawnError
    | ExitObserved
    | Decided(outcome: ChildOutcome)

  /** The states published, in order. */
  function States(trace: seq<Action>): seq<ProcessState> {
    if trace == [] then []
    else
      var last := trace[|trace| - 1];
      States(trace[..|trace| - 1]) + if last.Published? then [last.state] else []
  }

  function LastState(trace: seq<Action>): Option<ProcessState> {
    if trace == [] then None
    else if trace[|trace| - 1].Published? then Some(trace[|trace| - 1].state)
    else LastState(trace[..|trace| - 1])
  }

  /** A child was spawned and its exit has not been seen. */
  ghost predicate Live(trace: seq<Action>) {
    trace != [] &&
    match trace[|trace| - 1]
    case SpawnOk => true
    case ExitObserved => false
    case _ => Live(trace[..|trace| - 1])
  }

  /** Start attempts made. */
  function Starts(trace: seq<Action>): nat {
    if trace == [] then 0
    else
      var last := trace[|trace| - 1];
      Starts(trace[..|trace| - 1]) + if last.Published? && last.state.Starting? then 1 else 0
  }

  /** Outcomes of children that had been healthy once or had run long enough. */
  function StableOutcomes(trace: seq<Action>): nat {
    if trace == [] then 0
    else
      var last := trace[|trace| - 1];
      StableOutcomes(trace[..|trace| - 1])
        + if last.Decided? && !last.outcome.ChildStopped? && last.outcome.stable then 1 else 0
  }

  datatype Tally = Tally(spawns: nat, errors: nat, exits: nat, outcomes: seq<ChildOutcome>)

  /** How many spawns succeeded, how many failed, how many exits were seen, and what the children came to. */
  function TallyOf(trace: seq<Action>): Tally {
    if trace == [] then Tally(0, 0, 0, [])
    else
      var before := TallyOf(trace[..|trace| - 1]);
      match trace[|trace| - 1]
      case SpawnOk => before.(spawns := before.spawns + 1)
      case SpawnError => before.(errors := before.errors + 1)
      case ExitObserved => before.(exits := before.exits + 1)
      case Decided(outcome) => before.(outcomes := before.outcomes + [outcome])
      case _ => before
  }

  /** The order in which states may be published. */
  ghost predicate MayFollow(previous: Option<ProcessState>, next: ProcessState) {
    match previous
    case None => next == Starting(1) || next == Stopped(NotRequired)
    case Some(Starting(n)) => next == Running(n) || next.Backoff? || next == Failed(Failure(Spawn, false), NotRequired)
    case Some(Running(_)) => next.Backoff? || Terminal(next)
    case Some(Backoff(announced, _)) => (next.Starting? && announced <= next.attempt) || next == Stopped(NotRequired)
    case Some(_) => false
  }

  function DelayMs(policy: RestartPolicy, restart: nat): nat {
    Min(DelayForRestart(policy, restart) / 1_000_000, U64_MAX)
  }

  /** Failed starts and ended children since the last stable outcome, that one included. */
  function Streak(trace: seq<Action>): nat {
    if trace == [] then 0
    else
      var init, last := trace[..|trace| - 1], trace[|trace| - 1];
      match last
      case SpawnError => Streak(init) + 1
      case Decided(outcome) => if !outcome.ChildStopped? && outcome.stable then 1 else Streak(init) + 1
      case _ => Streak(init)
  }

  /** The streak as the 32-bit counter shows it. */
  function Counter(trace: seq<Action>): nat {
    Min(Streak(trace), U32_MAX)
  }

  /** An outcome after which the supervisor tries again if the policy permits one more restart. */
  predicate Restartable(policy: RestartPolicy, outcome: ChildOutcome) {
    && !outcome.ChildStopped?
    && outcome.cleanup != Uncertain(true)
    && !(outcome.Exited? && outcome.success && !policy.restartOnCleanExit)
  }

  /** The failure reported when no further restart is permitted. */
  function Reason(outcome: ChildOutcome): Failure {
    match outcome
    case Exited(_, Some(failure), _, _) => failure
    case Unhealthy(_, _) => Failure(Readiness, false)
    case _ => Failure(ProcessExit, false)
  }

  function Last(trace: seq<Action>): Option<Action> {
    if trace == [] then None else Some(trace[|trace| - 1])
  }

  /** The last thing that happened is that such a state was published. */
  predicate JustStarting(trace: seq<Action>) {
    Last(trace).Some? && Last(trace).value.Published? && Last(trace).value.state.Starting?
  }

  predicate JustRunning(trace: seq<Action>) {
    Last(trace).Some? && Last(trace).value.Published? && Last(trace).value.state.Running?
  }

  predicate JustBackoff(trace: seq<Action>) {
    Last(trace).Some? && Last(trace).value.Published? && Last(trace).value.state.Backoff?
  }

  /** Why a state may be published, in terms of everything that happened before. */
  ghost predicate Justified(policy: RestartPolicy, before: seq<Action>, state: ProcessState) {
    var last := Last(before);
    match state
    case Starting(attempt) => (before == [] || JustBackoff(before)) && attempt == Min(Starts(before) + 1, U32_MAX)
    case Running(_) => last == Some(SpawnOk)
    case Backoff(attempt, delayMs) =>
      && (last == Some(SpawnError) || (last.Some? && last.value.Decided? && Restartable(policy, last.value.outcome)))
      && PermitsRestart(policy, Counter(before))
      && attempt == SaturatingInc(Counter(before)) && delayMs == DelayMs(policy, Counter(before))
    case Failed(failure, cleanup) =>
      if last == Some(SpawnError) then failure == Failure(Spawn, false) && !PermitsRestart(policy, Counter(before))
      else
        && last.Some? && last.value.Decided? && last.value.outcome.cleanup == cleanup
        && !last.value.outcome.ChildStopped?
        && (if cleanup == Uncertain(true) then failure == Failure(Cleanup, false)
            else
              && Restartable(policy, last.value.outcome) && !PermitsRestart(policy, Counter(before))
              && failure == Reason(last.value.outcome))
    case Stopped(cleanup) =>
      if last.Some? && last.value.Decided?
      then
        && last.value.outcome.cleanup == cleanup && !Restartable(policy, last.value.outcome)
        && (cleanup == Uncertain(true) ==> last.value.outcome.ChildStopped?)
      else cleanup == NotRequired && (before == [] || JustBackoff(before))
  }

  ghost predicate ActionAllowed(policy: RestartPolicy, before: seq<Action>, action: Action) {
    match action
    case Published(state) => MayFollow(LastState(before), state) && Justified(policy, before, state)
    case SpawnOk => JustStarting(before) && !Live(before)
    case SpawnError => JustStarting(before)
    case ExitObserved => JustRunning(before)
    case Decided(outcome) =>
      if outcome.cleanup == Uncertain(true) then JustRunning(before) else Last(before) == Some(ExitObserved)
  }

  /** Every action was allowed when it happened. */
  ghost predicate Good(policy: RestartPolicy, trace: seq<Action>)
    decreases |trace|
  {
    trace == [] ||
    (Good(policy, trace[..|trace| - 1]) && ActionAllowed(policy, trace[..|trace| - 1], trace[|trace| - 1]))
  }

  /** How one more action changes what is read off a trace. */
  lemma Append(policy: RestartPolicy, trace: seq<Action>, action: Action)
    ensures var t := trace + [action];
      && Good(policy, t) == (Good(policy, trace) && ActionAllowed(policy, trace, action))
      && LastState(t) == (if action.Published? then Some(action.state) else LastState(trace))
      && Live(t) == (if action.SpawnOk? then true else if action.ExitObserved? then false else Live(trace))
      && Starts(t) == Starts(trace) + (if action.Published? && action.state.Starting? then 1 else 0)
      && StableOutcomes(t) == StableOutcomes(trace)
         + (if action.Decided? && !action.outcome.ChildStopped? && action.outcome.stable then 1 else 0)
      && Streak(t) == (
           if action.Decided? && !action.outcome.ChildStopped? && action.outcome.stable then 1
           else Streak(trace) + if action.SpawnError? || action.Decided? then 1 else 0)
      && var tally := TallyOf(trace);
         TallyOf(t) == (match action
           case SpawnOk => tally.(spawns := tally.spawns + 1)
           case SpawnError => tally.(errors := tally.errors + 1)
           case ExitObserved => tally.(exits := tally.exits + 1)
           case Decided(outcome) => tally.(outcomes := tally.outcomes + [outcome])
           case _ => tally)
  {
    assert (trace + [action])[..|trace|] == trace;
  }

  // ---- `run_supervisor` --------------------------------------------------------------------------------------

  /**
   The environment's part in one turn of the loop. `backoff` is how the wait ended: `true` for
   a stop (or a closed channel), `false` for going on; `None` when it has not ended.
   */
  datatype Round = Round(
    stopRequested: bool, spawnOk: bool, events: seq<MonitorEvent>, kill: KillScript, backoff: Option<bool>)

  datatype Run = Run(attempt: nat, restarts: nat, trace: seq<Action>)

  datatype Progress = Continues | Finished | Pending

  /** There is a limit, and one that the saturating counter can exceed. */
  ghost predicate Limited(policy: RestartPolicy) {
    policy.maxRestarts.Some? && policy.maxRestarts.value < U32_MAX
  }

  /** Every start so far was followed by a permitted restart. */
  ghost predicate Counted(policy: RestartPolicy, run: Run) {
    Limited(policy) ==>
      var m := policy.maxRestarts.value;
      run.restarts <= m && Starts(run.trace) <= m * StableOutcomes(run.trace) + run.restarts
  }

  /** The bound on start attempts. */
  ghost predicate Bounded(policy: RestartPolicy, trace: seq<Action>) {
    Limited(policy) ==> Starts(trace) <= 1 + policy.maxRestarts.value * (StableOutcomes(trace) + 1)
  }

  /** What holds at the top of the loop. */
  ghost predicate AtTop(policy: RestartPolicy, run: Run) {
    && Good(policy, run.trace) && !Live(run.trace)
    && run.attempt == Min(Starts(run.trace) + 1, U32_MAX) && run.restarts == Counter(run.trace)
    && (run.restarts < run.attempt || run.attempt == U32_MAX)
    && (run.trace == [] || JustBackoff(run.trace))
    && (match LastState(run.trace)
        case None => run.attempt == 1
        case Some(Backoff(announced, _)) => announced <= run.attempt
        case _ => false)
    && Counted(policy, run)
  }

  /** The supervisor is about to back off or has stopped: the part of `AtTop` that holds before `attempt` moves on. */
  ghost predicate BeforeBackoff(policy: RestartPolicy, run: Run) {
    && Good(policy, run.trace) && !Live(run.trace)
    && run.attempt == Min(Starts(run.trace), U32_MAX) && run.restarts == Counter(run.trace)
    && run.restarts <= run.attempt
    && run.trace != [] && PermitsRestart(policy, run.restarts)
    && (var last := run.trace[|run.trace| - 1];
        last == SpawnError || (last.Decided? && Restartable(policy, last.outcome)))
    && LastState(run.trace).Some? && (LastState(run.trace).value.Starting? || LastState(run.trace).value.Running?)
    && Counted(policy, run)
  }

  /** What holds wherever a run ends or is still going on. */
  ghost predicate Within(policy: RestartPolicy, trace: seq<Action>) {
    Good(policy, trace) && Bounded(policy, trace)
  }

  ghost predicate EndsTerminal(trace: seq<Action>) {
    LastState(trace).Some? && Terminal(LastState(trace).value)
  }

  /** A terminal state reports an orphan risk exactly when the exit of the last child was not seen. */
  ghost predicate ChildAccounted(trace: seq<Action>) {
    EndsTerminal(trace) ==> (Live(trace) <==> LastState(trace).value.cleanup == Uncertain(true))
  }

  // ---- What a round comes to, by its script -------------------------------------------------------------

  function BackoffProgress(round: Round): Progress {
    if round.backoff.None? then Pending else if round.backoff.value then Finished else Continues
  }

  function OutcomeRestarts(outcome: ChildOutcome, restarts: nat): nat {
    if outcome.ChildStopped? then restarts else UpdateRestartCount(outcome.stable, restarts)
  }

  /** A restart follows exactly a restartable outcome after which the policy permits one more. */
  function OutcomeProgress(policy: RestartPolicy, restarts: nat, outcome: ChildOutcome, round: Round): Progress {
    if Restartable(policy, outcome) && PermitsRestart(policy, OutcomeRestarts(outcome, restarts))
    then BackoffProgress(round)
    else Finished
  }

  /** What the script says the child came to: at most one outcome. */
  ghost function RoundOutcome(policy: RestartPolicy, round: Round): seq<ChildOutcome> {
    if Unfinished(policy.unhealthyThreshold, round.events, round.kill) then []
    else if k: nat :| FirstEnd(policy.unhealthyThreshold, round.events, k)
    then [OutcomeAt(round.events, k, round.kill)]
    else []
  }

  /** How a round ends that begins with `restarts` on the counter. */
  ghost function RoundProgress(policy: RestartPolicy, restarts: nat, round: Round): Progress {
    if round.stopRequested then Finished
    else if !round.spawnOk then
      if PermitsRestart(policy, SaturatingInc(restarts)) then BackoffProgress(round) else Finished
    else
      var outcome := RoundOutcome(policy, round);
      if outcome == [] then Pending else OutcomeProgress(policy, restarts, outcome[0], round)
  }

  /** The counter after a round that goes on. */
  ghost function RoundRestarts(policy: RestartPolicy, restarts: nat, round: Round): nat {
    if !round.spawnOk then SaturatingInc(restarts)
    else
      var outcome := RoundOutcome(policy, round);
      if outcome == [] then restarts else OutcomeRestarts(outcome[0], restarts)
  }

  ghost function RestartsAfter(policy: RestartPolicy, rounds: seq<Round>): nat {
    if rounds == [] then 0
    else RoundRestarts(policy, RestartsAfter(policy, rounds[..|rounds| - 1]), rounds[|rounds| - 1])
  }

  /** How round `k` of a script ends. */
  ghost function ProgressOf(policy: RestartPolicy, rounds: seq<Round>, k: nat): Progress
    requires k < |rounds|
  {
    RoundProgress(policy, RestartsAfter(policy, rounds[..k]), rounds[k])
  }

  // ---- The loop ------------------------------------------------------------------------------------------

  /** `wait_backoff` and the end of the turn. */
  method WaitBackoff(policy: RestartPolicy, run: Run, round: Round) returns (run': Run, progress: Progress)
    requires BeforeBackoff(policy, run)
    ensures progress.Continues? ==>
      AtTop(policy, run') && run' == Run(SaturatingInc(run.attempt), run.restarts, run'.trace)
    ensures Within(policy, run'.trace) && (progress.Finished? <==> EndsTerminal(run'.trace))
    ensures progress == BackoffProgress(round) && ChildAccounted(run'.trace)
    ensures run'.restarts == run.restarts
    ensures TallyOf(run'.trace) == TallyOf(run.trace)
    ensures Starts(run'.trace) == Starts(run.trace)
  {
    var backoff := Published(Backoff(SaturatingInc(run.restarts), DelayMs(policy, run.restarts)));
    Append(policy, run.trace, backoff);
    var trace := run.trace + [backoff];
    BoundBefore(policy, run);
    if round.backoff.None? {
      return run.(trace := trace), Pending;
    }
    if round.backoff.value {
      var stopped := Published(Stopped(NotRequired));
      Append(policy, trace, stopped);
      return run.(trace := trace + [stopped]), Finished;
    }
    return Run(SaturatingInc(run.attempt), run.restarts, trace), Continues;
  }

  lemma BoundBefore(policy: RestartPolicy, run: Run)
    requires Counted(policy, run)
    ensures Bounded(policy, run.trace)
  {
  }

  /** The arithmetic of one outcome: a stable one earns a new allowance, any other uses up one restart. */
  lemma OutcomeCounted(policy: RestartPolicy, outcome: ChildOutcome, restarts: nat, starts: nat, stable: nat)
    requires Limited(policy) && restarts <= policy.maxRestarts.value
    requires starts <= 1 + policy.maxRestarts.value * stable + restarts
    ensures var m := policy.maxRestarts.value;
      var stable' := stable + if !outcome.ChildStopped? && outcome.stable then 1 else 0;
      var decision := DecideChild(outcome, policy, restarts);
      && starts <= 1 + m * (stable' + 1)
      && (decision.terminal.None? ==> decision.restarts <= m && starts <= m * stable' + decision.restarts)
  {
    var m := policy.maxRestarts.value;
    assert m * (stable + 1) == m * stable + m;
    assert m * (stable + 2) == m * stable + m + m;
  }

  /** A start has been published and has not been answered by a restart yet. */
  ghost predicate Open(policy: RestartPolicy, run: Run) {
    && Good(policy, run.trace)
    && run.attempt == Min(Starts(run.trace), U32_MAX) && run.restarts == Counter(run.trace)
    && (run.restarts < run.attempt || run.attempt == U32_MAX)
    && (Limited(policy) ==>
      var m := policy.maxRestarts.value;
      run.restarts <= m && Starts(run.trace) <= 1 + m * StableOutcomes(run.trace) + run.restarts)
  }

  ghost predicate AtStart(policy: RestartPolicy, run: Run) {
    && Open(policy, run) && !Live(run.trace)
    && JustStarting(run.trace) && LastState(run.trace) == Some(Starting(run.attempt))
  }

  ghost predicate AtRunning(policy: RestartPolicy, run: Run) {
    Open(policy, run) && LastState(run.trace) == Some(Running(run.attempt))
  }

  /** The end of a child: its outcome is decided on and, if it is to be restarted, the backoff is waited for. */
  method FinishChild(policy: RestartPolicy, run: Run, outcome: ChildOutcome, round: Round)
    returns (run': Run, progress: Progress)
    requires AtRunning(policy, run)
    requires Live(run.trace) <==> outcome.cleanup == Uncertain(true)
    requires if Live(run.trace) then JustRunning(run.trace) else Last(run.trace) == Some(ExitObserved)
    ensures progress.Continues? ==> AtTop(policy, run')
    ensures Within(policy, run'.trace) && (progress.Finished? <==> EndsTerminal(run'.trace))
    ensures Starts(run'.trace) == Starts(run.trace)
    ensures TallyOf(run'.trace) == TallyOf(run.trace).(outcomes := TallyOf(run.trace).outcomes + [outcome])
    ensures progress == OutcomeProgress(policy, run.restarts, outcome, round) && ChildAccounted(run'.trace)
    ensures progress.Continues? ==> run'.restarts == OutcomeRestarts(outcome, run.restarts)
  {
    hide Good;
    hide Live;
    hide LastState;
    hide Starts;
    hide StableOutcomes;
    hide Streak;
    hide TallyOf;
    hide DelayMs;
    Append(policy, run.trace, Decided(outcome));
    var trace := run.trace + [Decided(outcome)];
    var decision := DecideChild(outcome, policy, run.restarts);
    if Limited(policy) {
      OutcomeCounted(policy, outcome, run.restarts, Starts(run.trace), StableOutcomes(run.trace));
    }
    if decision.terminal.Some? {
      var terminal := Published(decision.terminal.value);
      Append(policy, trace, terminal);
      return Run(run.attempt, decision.restarts, trace + [terminal]), Finished;
    }
    run', progress := WaitBackoff(policy, Run(run.attempt, decision.restarts, trace), round);
  }

  /** The script shows the exit of the child: it exited by itself first, or the kill was confirmed. */
  ghost predicate ExitConfirmed(policy: RestartPolicy, round: Round) {
    exists k: nat ::
      FirstEnd(policy.unhealthyThreshold, round.events, k) && (SelfExit(round.events[k]) || KillConfirmed(round.kill))
  }

  /** The turn after a spawn: the child is monitored until there is an outcome. */
  method Supervise(policy: RestartPolicy, run: Run, round: Round) returns (run': Run, progress: Progress)
    requires Typed(policy) && AtStart(policy, run) && round.spawnOk
    ensures progress.Continues? ==> AtTop(policy, run')
    ensures Within(policy, run'.trace) && (progress.Finished? <==> EndsTerminal(run'.trace))
    ensures Starts(run'.trace) == Starts(run.trace)
    ensures var before, after := TallyOf(run.trace), TallyOf(run'.trace);
      after == Tally(before.spawns + 1, before.errors, before.exits + (if ExitConfirmed(policy, round) then 1 else 0),
                     before.outcomes + RoundOutcome(policy, round))
    ensures !round.stopRequested ==> progress == RoundProgress(policy, run.restarts, round)
    ensures progress.Continues? ==> run'.restarts == RoundRestarts(policy, run.restarts, round)
    ensures ChildAccounted(run'.trace)
  {
    hide Good;
    hide Live;
    hide LastState;
    hide Starts;
    hide StableOutcomes;
    hide Streak;
    hide TallyOf;
    hide DelayMs;
    hide FirstEnd;
    hide KillConfirmed;
    hide KillPending;
    var running := Published(Running(run.attempt));
    Append(policy, run.trace, SpawnOk);
    var spawned := run.trace + [SpawnOk];
    Append(policy, spawned, running);
    var trace := spawned + [running];
    BoundOpen(policy, run);
    var outcome, exitSeen := MonitorChild(policy, round.events, round.kill);
    ScriptDecides(policy, round, outcome, exitSeen);
    hide ExitConfirmed;
    hide RoundOutcome;
    if outcome.None? {
      return run.(trace := trace), Pending;
    }
    if exitSeen {
      Append(policy, trace, ExitObserved);
      trace := trace + [ExitObserved];
    }
    run', progress := FinishChild(policy, run.(trace := trace), outcome.value, round);
  }

  /** What the contract of `MonitorChild` says, in terms of the script alone. */
  lemma ScriptDecides(policy: RestartPolicy, round: Round, outcome: Option<ChildOutcome>, exitSeen: bool)
    requires outcome.Some? ==> exists k: nat ::
      && FirstEnd(policy.unhealthyThreshold, round.events, k) && outcome.value == OutcomeAt(round.events, k, round.kill)
      && (exitSeen <==> SelfExit(round.events[k]) || KillConfirmed(round.kill))
    requires outcome.None? ==> !exitSeen
    requires outcome.None? <==> Unfinished(policy.unhealthyThreshold, round.events, round.kill)
    ensures exitSeen <==> ExitConfirmed(policy, round)
    ensures RoundOutcome(policy, round) == if outcome.None? then [] else [outcome.value]
  {
    hide KillPending;
    hide KillConfirmed;
    hide Ends;
    hide OutcomeAt;
    KillNotBoth(round.kill);
    if k: nat :| FirstEnd(policy.unhealthyThreshold, round.events, k) {
      forall j: nat | FirstEnd(policy.unhealthyThreshold, round.events, j) ensures j == k {
        FirstEndUnique(policy.unhealthyThreshold, round.events, j, k);
      }
    }
  }

  lemma BoundOpen(policy: RestartPolicy, run: Run)
    requires Open(policy, run)
    ensures Bounded(policy, run.trace)
  {
    hide Good;
    hide Streak;
    if Limited(policy) {
      var m, stable := policy.maxRestarts.value, StableOutcomes(run.trace);
      assert m * (stable + 1) == m * stable + m;
    }
  }

  /** A spawn that failed. */
  method SpawnFailed(policy: RestartPolicy, run: Run, round: Round) returns (run': Run, progress: Progress)
    requires AtStart(policy, run)
    ensures progress.Continues? ==> AtTop(policy, run')
    ensures Within(policy, run'.trace) && (progress.Finished? <==> EndsTerminal(run'.trace))
    ensures Starts(run'.trace) == Starts(run.trace)
    ensures TallyOf(run'.trace) == TallyOf(run.trace).(errors := TallyOf(run.trace).errors + 1)
    ensures run'.restarts == SaturatingInc(run.restarts) && ChildAccounted(run'.trace)
    ensures progress == if PermitsRestart(policy, run'.restarts) then BackoffProgress(round) else Finished
  {
    hide Good;
    hide Live;
    hide LastState;
    hide Starts;
    hide StableOutcomes;
    hide Streak;
    hide TallyOf;
    hide DelayMs;
    Append(policy, run.trace, SpawnError);
    var trace := run.trace + [SpawnError];
    var restarts := SaturatingInc(run.restarts);
    BoundOpen(policy, run);
    if !PermitsRestart(policy, restarts) {
      var failed := Published(Failed(Failure(Spawn, false), NotRequired));
      Append(policy, trace, failed);
      return Run(run.attempt, restarts, trace + [failed]), Finished;
    }
    run', progress := WaitBackoff(policy, Run(run.attempt, restarts, trace), round);
  }

  /** What a round adds to the tally: exactly what the environment did in it. */
  ghost function RoundTally(policy: RestartPolicy, round: Round, before: Tally): Tally {
    if round.stopRequested then before
    else if !round.spawnOk then before.(errors := before.errors + 1)
    else Tally(before.spawns + 1, before.errors, before.exits + (if ExitConfirmed(policy, round) then 1 else 0),
               before.outcomes + RoundOutcome(policy, round))
  }

  /** One turn of the loop of `run_supervisor`. */
  method PlayRound(policy: RestartPolicy, run: Run, round: Round) returns (run': Run, progress: Progress)
    requires Typed(policy) && AtTop(policy, run)
    ensures progress.Continues? ==> AtTop(policy, run')
    ensures Within(policy, run'.trace) && (progress.Finished? <==> EndsTerminal(run'.trace))
    ensures round.stopRequested ==> progress.Finished? && Starts(run'.trace) == Starts(run.trace)
    ensures !round.stopRequested ==> Starts(run'.trace) == Starts(run.trace) + 1
    ensures TallyOf(run'.trace) == RoundTally(policy, round, TallyOf(run.trace))
    ensures progress == RoundProgress(policy, run.restarts, round) && ChildAccounted(run'.trace)
    ensures progress.Continues? ==> run'.restarts == RoundRestarts(policy, run.restarts, round)
  {
    hide Good;
    hide Live;
    hide LastState;
    hide Starts;
    hide StableOutcomes;
    hide Streak;
    hide TallyOf;
    hide DelayMs;
    hide ExitConfirmed;
    hide RoundOutcome;
    hide Unfinished;
    BoundBefore(policy, run);
    if round.stopRequested {
      var stopped := Published(Stopped(NotRequired));
      Append(policy, run.trace, stopped);
      return run.(trace := run.trace + [stopped]), Finished;
    }
    var starting := Published(Starting(run.attempt));
    Append(policy, run.trace, starting);
    var started := run.(trace := run.trace + [starting]);
    if round.spawnOk {
      run', progress := Supervise(policy, started, round);
    } else {
      run', progress := SpawnFailed(policy, started, round);
    }
  }

  /** A round in which the spawn fails and the backoff runs its course. */
  ghost predicate SpawnFailsAndGoesOn(round: Round) {
    !round.stopRequested && !round.spawnOk && round.backoff == Some(false)
  }

  /** What a sequence of rounds adds up to. */
  ghost function RunTally(policy: RestartPolicy, rounds: seq<Round>): Tally {
    if rounds == [] then Tally(0, 0, 0, [])
    else RoundTally(policy, rounds[|rounds| - 1], RunTally(policy, rounds[..|rounds| - 1]))
  }

  /** Rounds are played until one ends the run or its script breaks off. */
  ghost predicate Played(policy: RestartPolicy, rounds: seq<Round>, played: nat) {
    && played <= |rounds| && (played == 0 <==> rounds == [])
    && (forall k | 0 <= k < played - 1 :: ProgressOf(policy, rounds, k).Continues?)
    && (played > 0 && ProgressOf(policy, rounds, played - 1).Continues? ==> played == |rounds|)
  }

  /** The last round played is over and ended the run. */
  ghost predicate EndedRun(policy: RestartPolicy, rounds: seq<Round>, played: nat) {
    0 < played <= |rounds| && ProgressOf(policy, rounds, played - 1).Finished?
  }

  /** Every round that was played made a start, unless a stop was requested before it. */
  function StartsIn(rounds: seq<Round>): nat {
    if rounds == [] then 0 else StartsIn(rounds[..|rounds| - 1]) + if rounds[|rounds| - 1].stopRequested then 0 else 1
  }

  /**
   `run_supervisor`. The trace of every run is good and bounded; its starts, spawns, exits and
   outcomes are those of the rounds played, and which rounds are played is decided by the
   policy and the script. It ends with a terminal state exactly when the last round played ended
   the run, and that state reports an orphan risk exactly when the last child's exit was not seen.
   */
  method RunSupervisor(policy: RestartPolicy, rounds: seq<Round>)
    returns (trace: seq<Action>, finished: bool, ghost played: nat)
    requires Typed(policy)
    ensures Good(policy, trace) && Bounded(policy, trace)
    ensures Played(policy, rounds, played)
    ensures finished <==> EndedRun(policy, rounds, played)
    ensures finished <==> EndsTerminal(trace)
    ensures TallyOf(trace) == RunTally(policy, rounds[..played]) && Starts(trace) == StartsIn(rounds[..played])
    ensures ChildAccounted(trace)
  {
    hide Good;
    hide Live;
    hide LastState;
    hide Starts;
    hide StableOutcomes;
    hide Streak;
    hide TallyOf;
    hide RoundProgress;
    hide RoundRestarts;
    hide RoundTally;
    hide Counted;
    var run := Run(1, 0, []);
    EmptyTrace(policy);
    var i := 0;
    while i < |rounds|
      invariant 0 <= i <= |rounds|
      invariant AtTop(policy, run) && run.restarts == RestartsAfter(policy, rounds[..i])
      invariant TallyOf(run.trace) == RunTally(policy, rounds[..i]) && Starts(run.trace) == StartsIn(rounds[..i])
      invariant forall k | 0 <= k < i :: ProgressOf(policy, rounds, k).Continues?
    {
      var progress;
      run, progress := PlayRound(policy, run, rounds[i]);
      assert rounds[..i + 1][..i] == rounds[..i];
      if !progress.Continues? {
        return run.trace, progress.Finished?, i + 1;
      }
      i := i + 1;
    }
    BoundBefore(policy, run);
    return run.trace, false, i;
  }

  lemma {:induction false} FailingCount(policy: RestartPolicy, rounds: seq<Round>)
    requires forall k | 0 <= k < |rounds| :: SpawnFailsAndGoesOn(rounds[k])
    ensures RestartsAfter(policy, rounds) == Min(|rounds|, U32_MAX) && StartsIn(rounds) == |rounds|
  {
    if rounds != [] {
      FailingCount(policy, rounds[..|rounds| - 1]);
    }
  }

  /**
   The other side of the bound: spawns that keep failing reach it when there is a limit below
   `u32::MAX`, and without one there is no bound.
   */
  lemma BoundReached(policy: RestartPolicy, rounds: seq<Round>, played: nat)
    requires Typed(policy) && Played(policy, rounds, played)
    requires forall k | 0 <= k < |rounds| :: SpawnFailsAndGoesOn(rounds[k])
    ensures StartsIn(rounds[..played]) ==
      if Limited(policy) then Min(|rounds|, policy.maxRestarts.value + 1) else |rounds|
  {
    forall k: nat | k < |rounds|
      ensures ProgressOf(policy, rounds, k) ==
        if PermitsRestart(policy, Min(k + 1, U32_MAX)) then Continues else Finished
    {
      FailingCount(policy, rounds[..k]);
    }
    hide ProgressOf;
    FailingCount(policy, rounds[..played]);
    if Limited(policy) && policy.maxRestarts.value < |rounds| {
      assert ProgressOf(policy, rounds, policy.maxRestarts.value).Finished?;
    }
  }

  // ---- The bound is attained ------------------------------------------------------------------------------

  const FAILED_SPAWN: Round := Round(false, false, [], KillScript(false, []), Some(false))

  /** A child that exits with an error after it has run long enough. */
  const STABLE_CRASH: Round :=
    Round(false, true, [ProcessTick(ExitStatus(false), true)], KillScript(false, []), Some(false))

  const CRASH: ChildOutcome := Exited(false, Some(Failure(ProcessExit, true)), true, NotRequired)

  function Failing(n: nat): seq<Round> {
    seq(n, _ => FAILED_SPAWN)
  }

  /** As many failing spawns as are permitted, then `s` times a stable crash and as many again. */
  function WorstCase(m: nat, s: nat): seq<Round>
    requires m >= 1
  {
    if s == 0 then Failing(m) else WorstCase(m, s - 1) + [STABLE_CRASH] + Failing(m - 1)
  }

  lemma CrashOutcome(policy: RestartPolicy)
    ensures RoundOutcome(policy, STABLE_CRASH) == [CRASH]
  {
    var events, kill := STABLE_CRASH.events, STABLE_CRASH.kill;
    assert Ends(policy.unhealthyThreshold, events, 0);
    assert FirstEnd(policy.unhealthyThreshold, events, 0);
    EndFinishes(policy.unhealthyThreshold, events, kill, 0);
    forall k: nat | FirstEnd(policy.unhealthyThreshold, events, k) ensures k == 0 {
      FirstEndUnique(policy.unhealthyThreshold, events, 0, k);
    }
    assert OutcomeAt(events, 0, kill) == CRASH;
  }

  /** The script goes on to its end, and what it adds up to. */
  ghost predicate GoesOn(policy: RestartPolicy, rounds: seq<Round>, restarts: nat, stable: nat) {
    && (forall k | 0 <= k < |rounds| :: ProgressOf(policy, rounds, k).Continues?)
    && RestartsAfter(policy, rounds) == restarts && StartsIn(rounds) == |rounds|
    && CountStable(RunTally(policy, rounds).outcomes) == stable
  }

  function CountStable(outcomes: seq<ChildOutcome>): nat {
    if outcomes == [] then 0
    else
      var last := outcomes[|outcomes| - 1];
      CountStable(outcomes[..|outcomes| - 1]) + if !last.ChildStopped? && last.stable then 1 else 0
  }

  /** The stable outcomes of a trace are those among the outcomes it tallies. */
  lemma {:induction false} StableTallied(trace: seq<Action>)
    ensures StableOutcomes(trace) == CountStable(TallyOf(trace).outcomes)
  {
    if trace != [] {
      var init, last := trace[..|trace| - 1], trace[|trace| - 1];
      StableTallied(init);
      if last.Decided? {
        var outcomes := TallyOf(init).outcomes;
        assert (outcomes + [last.outcome])[..|outcomes|] == outcomes;
      }
    }
  }

  lemma GoesOnThen(policy: RestartPolicy, rounds: seq<Round>, round: Round, restarts: nat, stable: nat)
    requires GoesOn(policy, rounds, restarts, stable) && !round.stopRequested
    requires RoundProgress(policy, restarts, round).Continues?
    ensures var ended := if round.spawnOk then RoundOutcome(policy, round) else [];
      var outcomes := RunTally(policy, rounds).outcomes + ended;
      GoesOn(policy, rounds + [round], RoundRestarts(policy, restarts, round), CountStable(outcomes))
  {
    hide RoundProgress;
    hide RoundRestarts;
    hide RoundOutcome;
    hide ExitConfirmed;
    var more := rounds + [round];
    assert more[..|rounds|] == rounds;
    forall k | 0 <= k < |more| ensures ProgressOf(policy, more, k).Continues? {
      assert more[..k] == rounds[..k];
      if k < |rounds| {
        assert ProgressOf(policy, rounds, k).Continues?;
      } else {
        assert rounds[..k] == rounds;
      }
    }
    assert RunTally(policy, rounds).outcomes + [] == RunTally(policy, rounds).outcomes;
  }

  lemma {:induction false} FailingGoesOn(
    policy: RestartPolicy, rounds: seq<Round>, n: nat, restarts: nat, stable: nat)
    requires Limited(policy) && GoesOn(policy, rounds, restarts, stable) && restarts + n <= policy.maxRestarts.value
    ensures GoesOn(policy, rounds + Failing(n), restarts + n, stable)
    decreases n
  {
    if n == 0 {
      assert rounds + Failing(0) == rounds;
    } else {
      FailingGoesOn(policy, rounds, n - 1, restarts, stable);
      hide GoesOn;
      GoesOnThen(policy, rounds + Failing(n - 1), FAILED_SPAWN, restarts + n - 1, stable);
      GoesOnCount(policy, rounds + Failing(n - 1), restarts + n - 1, stable);
      assert rounds + Failing(n) == rounds + Failing(n - 1) + [FAILED_SPAWN];
      var outcomes := RunTally(policy, rounds + Failing(n - 1)).outcomes;
      assert outcomes + [] == outcomes;
    }
  }

  lemma GoesOnCount(policy: RestartPolicy, rounds: seq<Round>, restarts: nat, stable: nat)
    requires GoesOn(policy, rounds, restarts, stable)
    ensures CountStable(RunTally(policy, rounds).outcomes) == stable
  {
  }

  lemma CrashGoesOn(policy: RestartPolicy, rounds: seq<Round>, restarts: nat, stable: nat)
    requires Limited(policy) && policy.maxRestarts.value >= 1 && GoesOn(policy, rounds, restarts, stable)
    ensures GoesOn(policy, rounds + [STABLE_CRASH], 1, stable + 1)
  {
    CrashOutcome(policy);
    GoesOnThen(policy, rounds, STABLE_CRASH, restarts, stable);
    var outcomes := RunTally(policy, rounds).outcomes;
    assert (outcomes + [CRASH])[..|outcomes|] == outcomes;
  }

  lemma {:induction false} WorstCaseGoesOn(policy: RestartPolicy, m: nat, s: nat)
    requires Limited(policy) && policy.maxRestarts.value == m >= 1
    ensures GoesOn(policy, WorstCase(m, s), m, s) && |WorstCase(m, s)| == m * (s + 1)
    decreases s
  {
    hide GoesOn;
    if s == 0 {
      NoRounds(policy);
      FailingGoesOn(policy, [], m, 0, 0);
      assert [] + Failing(m) == Failing(m);
    } else {
      WorstCaseGoesOn(policy, m, s - 1);
      CrashGoesOn(policy, WorstCase(m, s - 1), m, s - 1);
      FailingGoesOn(policy, WorstCase(m, s - 1) + [STABLE_CRASH], m - 1, 1, s);
      assert m * (s + 1) == m * s + m;
    }
  }

  lemma NoRounds(policy: RestartPolicy)
    ensures GoesOn(policy, [], 0, 0)
  {
  }

  /** The worst case, and one more spawn that fails. */
  function WorstScript(m: nat, s: nat): seq<Round>
    requires m >= 1
  {
    WorstCase(m, s) + [FAILED_SPAWN]
  }

  /**
   The bound cannot be lowered: for every limit from one on and every number of stable outcomes
   there is a script that is played to its end with exactly the bound of start attempts.
   */
  lemma BoundAttained(policy: RestartPolicy, s: nat, played: nat)
    requires Limited(policy) && policy.maxRestarts.value >= 1
    requires Played(policy, WorstScript(policy.maxRestarts.value, s), played)
    ensures var m := policy.maxRestarts.value; var rounds := WorstScript(m, s);
      && played == |rounds| && EndedRun(policy, rounds, played)
      && StartsIn(rounds[..played]) == 1 + m * (s + 1)
      && CountStable(RunTally(policy, rounds[..played]).outcomes) == s
  {
    var m := policy.maxRestarts.value;
    var first, rounds := WorstCase(m, s), WorstScript(m, s);
    WorstCaseGoesOn(policy, m, s);
    assert rounds[..|first|] == first && rounds[..|rounds|] == rounds;
    forall k | 0 <= k < |first| ensures ProgressOf(policy, rounds, k).Continues? {
      assert rounds[..k] == first[..k];
      assert ProgressOf(policy, first, k).Continues?;
    }
    assert ProgressOf(policy, rounds, |first|).Finished?;
  }

  lemma EmptyTrace(policy: RestartPolicy)
    ensures AtTop(policy, Run(1, 0, [])) && Starts([]) == 0 && TallyOf([]) == Tally(0, 0, 0, [])
  {
  }

  // ---- What a good trace means ---------------------------------------------------------------------------------

  lemma {:induction false} GoodPrefix(policy: RestartPolicy, trace: seq<Action>, j: nat)
    requires Good(policy, trace) && j < |trace|
    ensures Good(policy, trace[..j]) && ActionAllowed(policy, trace[..j], trace[j])
    decreases |trace|
  {
    var n := |trace| - 1;
    if j < n {
      GoodPrefix(policy, trace[..n], j);
      assert trace[..n][..j] == trace[..j];
    }
  }

  lemma {:induction false} NotLive(trace: seq<Action>, i: nat) returns (k: nat)
    requires i < |trace| && trace[i] == SpawnOk && !Live(trace)
    ensures i < k < |trace| && trace[k] == ExitObserved
    decreases |trace|
  {
    var n := |trace| - 1;
    if trace[n] == ExitObserved {
      k := n;
    } else {
      k := NotLive(trace[..n], i);
    }
  }

  /** Between two spawns the exit of the earlier child was seen: there is never more than one child. */
  lemma SpawnOnlyAfterExit(policy: RestartPolicy, trace: seq<Action>, i: nat, j: nat)
    requires Good(policy, trace) && i < j < |trace| && trace[i] == SpawnOk && trace[j] == SpawnOk
    ensures exists k | i < k < j :: trace[k] == ExitObserved
  {
    GoodPrefix(policy, trace, j);
    var k := NotLive(trace[..j], i);
    assert trace[k] == ExitObserved;
  }

  // ---- The announced delays ------------------------------------------------------------------------------------

  ghost predicate IsBackoff(trace: seq<Action>, i: nat) {
    i < |trace| && trace[i].Published? && trace[i].state.Backoff?
  }

  /** What a good trace says about a backoff: the streak has begun, and the delay is its delay in milliseconds. */
  lemma BackoffOfStreak(policy: RestartPolicy, trace: seq<Action>, i: nat)
    requires Good(policy, trace) && IsBackoff(trace, i)
    ensures var n := Streak(trace[..i]);
      n >= 1 && trace[i].state.delayMs == Min(DelayForRestart(policy, n) / 1_000_000, U64_MAX)
  {
    GoodPrefix(policy, trace, i);
    DelayOfCounter(policy, Streak(trace[..i]));
    assert trace[..i][i - 1] == trace[i - 1];
  }

  /**
   Every announced delay is, in whole milliseconds, the initial backoff times the multiplier to the
   power of the streak less one, capped at the maximum, while that power fits into 32 bits
   or the maximum has been reached; it always lies within the bounds of the policy.
   */
  lemma AnnouncedDelay(policy: RestartPolicy, trace: seq<Action>, i: nat)
    requires Typed(policy) && Validate(policy) && Good(policy, trace) && IsBackoff(trace, i)
    ensures Streak(trace[..i]) >= 1
    ensures var n, ms := Streak(trace[..i]), trace[i].state.delayMs;
      var ideal := Min(policy.maximumBackoff, policy.initialBackoff * Pow(policy.backoffMultiplier, n - 1));
      && (Pow(policy.backoffMultiplier, n - 1) <= U32_MAX
          || policy.initialBackoff * Min(Pow(policy.backoffMultiplier, 31), U32_MAX) >= policy.maximumBackoff ==>
           if ideal < (U64_MAX + 1) * 1_000_000 then ms * 1_000_000 <= ideal < (ms + 1) * 1_000_000 else ms == U64_MAX)
      && ms * 1_000_000 <= ideal
    ensures var ms := trace[i].state.delayMs;
      && ms * 1_000_000 <= policy.maximumBackoff
      && (policy.initialBackoff < (ms + 1) * 1_000_000 || ms == U64_MAX)
  {
    BackoffOfStreak(policy, trace, i);
    var n := Streak(trace[..i]);
    DelayIdealExactly(policy, n);
    DelayBounded(policy, n, n);
    hide DelayForRestart;
    hide Pow;
    hide Streak;
    hide Good;
    Milliseconds(DelayForRestart(policy, n));
  }

  /** Whole milliseconds in 64 bits. */
  lemma Milliseconds(delay: nat)
    ensures var ms := Min(delay / 1_000_000, U64_MAX);
      && ms * 1_000_000 <= delay
      && (if delay < (U64_MAX + 1) * 1_000_000 then delay < (ms + 1) * 1_000_000 else ms == U64_MAX)
  {
  }

  lemma {:induction false} StreakGrows(trace: seq<Action>, i: nat, j: nat)
    requires i <= j <= |trace|
    requires forall k | i <= k < j && trace[k].Decided? ::
      trace[k].outcome.ChildStopped? || !trace[k].outcome.stable
    ensures Streak(trace[..i]) <= Streak(trace[..j])
    decreases j
  {
    if i < j {
      StreakGrows(trace, i, j - 1);
      assert trace[..j][..j - 1] == trace[..j - 1] && trace[..j][j - 1] == trace[j - 1];
    }
  }

  /** Between two announcements with no stable outcome in between, the delay never falls. */
  lemma DelaysNeverFall(policy: RestartPolicy, trace: seq<Action>, i: nat, j: nat)
    requires Typed(policy) && Validate(policy) && Good(policy, trace)
    requires i <= j && IsBackoff(trace, i) && IsBackoff(trace, j)
    requires forall k | i <= k < j && trace[k].Decided? ::
      trace[k].outcome.ChildStopped? || !trace[k].outcome.stable
    ensures trace[i].state.delayMs <= trace[j].state.delayMs
  {
    BackoffOfStreak(policy, trace, i);
    BackoffOfStreak(policy, trace, j);
    StreakGrows(trace, i, j);
    DelayBounded(policy, Streak(trace[..i]), Streak(trace[..j]));
    hide DelayForRestart;
  }

  /** Every spawn belongs to the start published right before it, and a successful one is reported right after it. */
  lemma SpawnedThenRunning(policy: RestartPolicy, trace: seq<Action>, i: nat)
    requires Good(policy, trace) && i < |trace| && (trace[i] == SpawnOk || trace[i] == SpawnError)
    ensures i > 0 && trace[i - 1].Published? && trace[i - 1].state.Starting?
    ensures trace[i] == SpawnOk && i + 1 < |trace| ==>
      trace[i + 1] == Published(Running(trace[i - 1].state.attempt))
  {
    GoodPrefix(policy, trace, i);
    assert trace[..i][i - 1] == trace[i - 1];
    if trace[i] == SpawnOk && i + 1 < |trace| {
      GoodPrefix(policy, trace, i + 1);
      var before := trace[..i + 1];
      assert before[..i] == trace[..i] && before[i] == SpawnOk;
      assert LastState(before) == LastState(trace[..i]) == Some(trace[i - 1].state);
    }
  }

  lemma {:induction false} LastIsLast(trace: seq<Action>)
    ensures LastState(trace) == if States(trace) == [] then None else Some(States(trace)[|States(trace)| - 1])
  {
    if trace != [] {
      LastIsLast(trace[..|trace| - 1]);
    }
  }

  /** Published states follow the order of `MayFollow`, so a terminal state is the last one. */
  lemma {:induction false} StatesInOrder(policy: RestartPolicy, trace: seq<Action>, k: nat)
    requires Good(policy, trace) && k < |States(trace)|
    ensures MayFollow(if k == 0 then None else Some(States(trace)[k - 1]), States(trace)[k])
    ensures Terminal(States(trace)[k]) ==> k == |States(trace)| - 1
    decreases |trace|
  {
    var n := |trace| - 1;
    var before := States(trace[..n]);
    LastIsLast(trace[..n]);
    if k < |before| {
      StatesInOrder(policy, trace[..n], k);
    }
  }
}
