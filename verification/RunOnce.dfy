/**
 One-shot commands (`run_once` in `crates/runonmine-connectors/src/process.rs`): two readers
 redact the two pipes and share one budget while the child is waited for.
 */
module RunOnce {
  import opened Common
  import opened Redaction
  import opened Streaming
  import opened OutputBudget

  const MAXIMUM_OUTPUT_LIMIT: nat := 1024 * 1024

  /** The code a child exited with; none when a signal ended it. */
  datatype ExitStatus = ExitStatus(code: Option<int>)

  /** How waiting for the child went; after a timeout it is killed and waited for once more. */
  datatype Wait = Ended(status: ExitStatus) | WaitError | TimedOut(afterKill: Option<ExitStatus>)

  datatype Output = Output(
    success: bool, exitCode: Option<int>, stdout: Bytes, stderr: Bytes, truncated: bool, timedOut: bool)

  datatype Outcome =
    | InvalidLimits
    | SpawnFailed
    | WaitFailed
    | PipeFailed
    | NotASchedule  // the given steps are not a complete interleaving of the two readers
    | Finished(output: Output)

  lemma {:induction false} RunsThen(s: State, steps: seq<Step>, s': State, step: Step)
    requires Runs(s, steps, s') && Enabled(s', step)
    ensures Runs(s, steps + [step], Apply(s', step))
    decreases |steps|
  {
    if steps == [] {
      assert (steps + [step])[1..] == [];
    } else {
      RunsThen(Apply(s, steps[0]), steps[1..], s', step);
      assert (steps + [step])[1..] == steps[1..] + [step];
    }
  }

  /** Executes one interleaving; `None` when it is not one. */
  method Execute(start: State, schedule: seq<Step>) returns (end: Option<State>)
    ensures end.Some? ==> Runs(start, schedule, end.value)
    ensures end.None? ==> forall s :: !Runs(start, schedule, s)
  {
    var s := start;
    var k := 0;
    while k < |schedule|
      invariant 0 <= k <= |schedule|
      invariant Runs(start, schedule[..k], s)
      invariant forall s' :: Runs(start, schedule, s') <==> Runs(s, schedule[k..], s')
    {
      if !Enabled(s, schedule[k]) {
        return None;
      }
      RunsThen(start, schedule[..k], s, schedule[k]);
      assert schedule[..k] + [schedule[k]] == schedule[..k + 1];
      assert schedule[k..][1..] == schedule[k + 1..];
      s := Apply(s, schedule[k]);
      k := k + 1;
    }
    assert schedule[..k] == schedule;
    return Some(s);
  }

  predicate AllDone(s: State)
    ensures AllDone(s) == Done(s)
  {
    forall i | 0 <= i < |s.readers| :: s.readers[i].pc.Idle? && s.readers[i].next == |s.readers[i].pieces|
  }

  /** What the readers of a complete run kept of the two redacted streams. */
  lemma KeptOfTwo(maximum: nat, out: seq<Bytes>, err: seq<Bytes>, schedule: seq<Step>, end: State)
    requires [] !in out && [] !in err && Runs(Init(maximum, [out, err]), schedule, end) && Done(end)
    ensures |end.readers| == 2
    ensures var stdout, stderr := end.readers[0].output, end.readers[1].output;
      && stdout <= Flatten(out) && stderr <= Flatten(err)
      && |stdout| + |stderr| == Min(maximum, |Flatten(out)| + |Flatten(err)|)
      && (end.truncated <==> |Flatten(out)| + |Flatten(err)| > maximum)
  {
    hide Runs;
    hide Flatten;
    assert !EndsEmpty(out) && !EndsEmpty(err);
    Completed(maximum, [out, err], schedule, end);
    AskedOfTwo(out, err);
    TakenOfTwo(end.readers);
  }

  datatype Kept = Kept(stdout: Bytes, stderr: Bytes, truncated: bool)

  /** `schedule` is a complete interleaving of two readers that append these pieces. */
  ghost predicate Completes(maximum: nat, out: seq<Bytes>, err: seq<Bytes>, schedule: seq<Step>) {
    exists s :: Runs(Init(maximum, [out, err]), schedule, s) && Done(s)
  }

  /** Both kept a beginning of their own pieces, as much as the budget allows, and the flag is exact. */
  ghost predicate KeptRight(maximum: nat, out: Bytes, err: Bytes, kept: Kept) {
    && kept.stdout <= out && kept.stderr <= err
    && |kept.stdout| + |kept.stderr| == Min(maximum, |out| + |err|)
    && (kept.truncated <==> |out| + |err| > maximum)
  }

  /** The two readers share the budget as `schedule` says. */
  method Collect(maximum: nat, out: seq<Bytes>, err: seq<Bytes>, schedule: seq<Step>) returns (kept: Option<Kept>)
    requires [] !in out && [] !in err
    ensures kept.Some? <==> Completes(maximum, out, err, schedule)
    ensures kept.Some? ==> KeptRight(maximum, Flatten(out), Flatten(err), kept.value)
  {
    hide Runs;
    hide Flatten;
    hide Done;
    var start := Init(maximum, [out, err]);
    var end := Execute(start, schedule);
    if end.None? {
      return None;
    }
    if !AllDone(end.value) {
      forall s | Runs(start, schedule, s) ensures s == end.value {
        RunsOneWay(start, schedule, s, end.value);
      }
      return None;
    }
    KeptOfTwo(maximum, out, err, schedule, end.value);
    return Some(Kept(end.value.readers[0].output, end.value.readers[1].output, end.value.truncated));
  }

  // ---- Lossy decoding --------------------------------------------------------------------------------------

  /** `from_utf8_lossy` makes something of every text that is not empty. */
  ghost predicate KeepsText(lossy: Bytes -> Bytes) {
    forall text :: text != [] ==> lossy(text) != []
  }

  /** What is appended for the pieces: each is decoded on its own. */
  function Decoded(lossy: Bytes -> Bytes, pieces: seq<Bytes>): (decoded: seq<Bytes>)
    ensures |decoded| == |pieces| && forall i | 0 <= i < |pieces| :: decoded[i] == lossy(pieces[i])
  {
    seq(|pieces|, i requires 0 <= i < |pieces| => lossy(pieces[i]))
  }

  /** The decoding leaves these pieces as they are. */
  ghost predicate Intact(lossy: Bytes -> Bytes, pieces: seq<Bytes>) {
    forall i | 0 <= i < |pieces| :: lossy(pieces[i]) == pieces[i]
  }

  lemma DecodedFacts(lossy: Bytes -> Bytes, pieces: seq<Bytes>)
    requires KeepsText(lossy) && [] !in pieces
    ensures [] !in Decoded(lossy, pieces)
    ensures Intact(lossy, pieces) ==> Decoded(lossy, pieces) == pieces
  {
  }

  /**
   Whatever the reads were cut like and however the two readers interleave, what is kept of each
   pipe is a beginning of its own redaction, decoded piece by piece; together they fill the budget
   as far as they can, and `truncated` tells exactly whether anything was lost. `out` and `err` are
   the pieces of the two redactions before their decoding; a run is finished exactly when
   `schedule` is a complete interleaving of the appending of these.
   */
  method RunCommand(
    r: Redactor, lossy: Bytes -> Bytes, timeout: nat, maximum: nat, spawned: bool, wait: Wait,
    stdout: seq<Read>, stderr: seq<Read>, schedule: seq<Step>)
    returns (outcome: Outcome, ghost out: seq<Bytes>, ghost err: seq<Bytes>, ghost kept: Kept)
    requires Valid(r) && KeepsText(lossy)
    requires forall i | 0 <= i < |stdout| && stdout[i].Data? :: stdout[i].bytes != []
    requires forall i | 0 <= i < |stderr| && stderr[i].Data? :: stderr[i].bytes != []
    ensures outcome.InvalidLimits? <==> timeout == 0 || maximum == 0 || maximum > MAXIMUM_OUTPUT_LIMIT
    ensures outcome.SpawnFailed? <==> !outcome.InvalidLimits? && !spawned
    ensures outcome.WaitFailed? <==> !outcome.InvalidLimits? && spawned && wait.WaitError?
    ensures outcome.PipeFailed? <==>
      !outcome.InvalidLimits? && spawned && !wait.WaitError? && !(NoError(stdout) && NoError(stderr))
    ensures outcome.NotASchedule? || outcome.Finished? ==>
      && Flatten(out) == Redact(r, StreamOf(stdout)) && Flatten(err) == Redact(r, StreamOf(stderr))
      && [] !in out && [] !in err
      && (outcome.Finished? <==> Completes(maximum, Decoded(lossy, out), Decoded(lossy, err), schedule))
    ensures outcome.Finished? ==>
      var wholeOut, wholeErr := Flatten(Decoded(lossy, out)), Flatten(Decoded(lossy, err));
      && KeptRight(maximum, wholeOut, wholeErr, kept)
      && outcome.output.stdout == lossy(kept.stdout) && outcome.output.stderr == lossy(kept.stderr)
      && outcome.output.truncated == kept.truncated
      && (Intact(lossy, out) ==> wholeOut == Redact(r, StreamOf(stdout)))
      && (Intact(lossy, err) ==> wholeErr == Redact(r, StreamOf(stderr)))
    ensures outcome.Finished? ==>
      var output := outcome.output;
      && (output.success <==> wait == Ended(ExitStatus(Some(0)))) && output.timedOut == wait.TimedOut?
      && output.exitCode == match wait
        case Ended(status) => status.code
        case TimedOut(Some(status)) => status.code
        case _ => None
  {
    out, err, kept := [], [], Kept([], [], false);
    if timeout == 0 || maximum == 0 || maximum > MAXIMUM_OUTPUT_LIMIT {
      outcome := InvalidLimits;
      return;
    }
    if !spawned {
      outcome := SpawnFailed;
      return;
    }
    if wait.WaitError? {
      outcome := WaitFailed;
      return;
    }
    var status := if wait.Ended? then Some(wait.status) else wait.afterKill;
    hide Redact;
    hide Valid;
    hide Flatten;
    var outPieces := ReadRedacted(r, stdout);
    var errPieces := ReadRedacted(r, stderr);
    if outPieces.None? || errPieces.None? {
      outcome := PipeFailed;
      return;
    }
    out, err := outPieces.value, errPieces.value;
    DecodedFacts(lossy, out);
    DecodedFacts(lossy, err);
    hide Decoded;
    hide Intact;
    hide KeepsText;
    hide Completes;
    hide KeptRight;
    var collected := Collect(maximum, Decoded(lossy, outPieces.value), Decoded(lossy, errPieces.value), schedule);
    if collected.None? {
      outcome := NotASchedule;
      return;
    }
    kept := collected.value;
    var Kept(keptOut, keptErr, truncated) := collected.value;
    var success := status.Some? && status.value.code == Some(0) && !wait.TimedOut?;
    var exitCode := if status.Some? then status.value.code else None;
    outcome := Finished(Output(success, exitCode, lossy(keptOut), lossy(keptErr), truncated, wait.TimedOut?));
  }

  /** An interleaving leads to one state only. */
  lemma {:induction false} RunsOneWay(s: State, steps: seq<Step>, a: State, b: State)
    requires Runs(s, steps, a) && Runs(s, steps, b)
    ensures a == b
    decreases |steps|
  {
    if steps != [] {
      RunsOneWay(Apply(s, steps[0]), steps[1..], a, b);
    }
  }

  lemma AskedOfTwo(out: seq<Bytes>, err: seq<Bytes>)
    ensures TotalAsked([out, err]) == |Flatten(out)| + |Flatten(err)|
  {
    assert [out, err][1..] == [err];
    assert TotalAsked([err]) == |Flatten(err)| + TotalAsked([err][1..]);
  }

  lemma TakenOfTwo(readers: seq<Reader>)
    requires |readers| == 2 && readers[0].pc.Idle? && readers[1].pc.Idle?
    ensures TotalTaken(readers) == |readers[0].output| + |readers[1].output|
  {
    assert TotalTaken(readers[1..]) == Taken(readers[1]) + TotalTaken(readers[1..][1..]);
  }
}
