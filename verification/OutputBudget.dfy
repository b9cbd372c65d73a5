/**
 The output budget that several readers share (`SharedOutputBudget` in
 `crates/runonmine-connectors/src/output.rs`, and `append_shared` in `process.rs`).

 The readers run concurrently. One step of the machine is one atomic access: a load, one
 attempt of the weak compare-exchange (which may fail for no reason), or the later store of
 the flag. The theorems hold for every interleaving of any number of readers.
 */
module OutputBudget {
  import opened Common

  /** Where a reader is inside `reserve`; `Idle` is between two calls. */
  datatype Pc =
    | Idle
    | Loaded(seen: nat)
    | MustFlag(accepted: nat)

  /** A reader appends the pieces one after the other; `output` is what it was allowed to keep. */
  datatype Reader = Reader(pieces: seq<Bytes>, next: nat, pc: Pc, output: Bytes)

  datatype State = State(remaining: nat, truncated: bool, readers: seq<Reader>)

  datatype Step =
    | Load(i: nat)      // `remaining.load`
    | GiveUp(i: nat)    // zero was seen: store the flag, accept nothing
    | Exchange(i: nat)  // the compare-exchange succeeds
    | Refused(i: nat)   // it fails, spuriously or not, and yields the current value
    | Flag(i: nat)      // the store after an exchange that accepted less than was asked

  function Init(maximum: nat, pieces: seq<seq<Bytes>>): State {
    State(maximum, false, seq(|pieces|, i requires 0 <= i < |pieces| => Reader(pieces[i], 0, Idle, [])))
  }

  predicate Enabled(s: State, step: Step) {
    step.i < |s.readers| &&
    var reader := s.readers[step.i];
    reader.next < |reader.pieces| &&
    match step
    case Load(_) => reader.pc.Idle?
    case GiveUp(_) => reader.pc == Loaded(0)
    case Exchange(_) => reader.pc.Loaded? && reader.pc.seen != 0 && s.remaining == reader.pc.seen
    case Refused(_) => reader.pc.Loaded? && reader.pc.seen != 0
    case Flag(_) => reader.pc.MustFlag? && reader.pc.accepted <= |reader.pieces[reader.next]|
  }

  /** `reserve` returns and the accepted part of the piece is appended. */
  function Finish(reader: Reader, accepted: nat): Reader
    requires reader.next < |reader.pieces| && accepted <= |reader.pieces[reader.next]|
  {
    reader.(next := reader.next + 1, pc := Idle, output := reader.output + reader.pieces[reader.next][..accepted])
  }

  function Apply(s: State, step: Step): State
    requires Enabled(s, step)
  {
    var reader := s.readers[step.i];
    var asked := |reader.pieces[reader.next]|;
    match step
    case Load(i) => s.(readers := s.readers[i := reader.(pc := Loaded(s.remaining))])
    case GiveUp(i) => s.(truncated := true, readers := s.readers[i := Finish(reader, 0)])
    case Exchange(i) =>
      var accepted := Min(asked, s.remaining);
      var reader' := if accepted < asked then reader.(pc := MustFlag(accepted)) else Finish(reader, accepted);
      s.(remaining := s.remaining - accepted, readers := s.readers[i := reader'])
    case Refused(i) => s.(readers := s.readers[i := reader.(pc := Loaded(s.remaining))])
    case Flag(i) => s.(truncated := true, readers := s.readers[i := Finish(reader, reader.pc.accepted)])
  }

  /** `steps`, in this order, lead from `s` to `s'`. */
  ghost predicate Runs(s: State, steps: seq<Step>, s': State)
    decreases |steps|
  {
    if steps == [] then s == s'
    else Enabled(s, steps[0]) && Runs(Apply(s, steps[0]), steps[1..], s')
  }

  // ---- What every step keeps --------------------------------------------------------------------

  /** Everything the finished calls of this reader asked to append. */
  function Asked(reader: Reader): Bytes
    requires reader.next <= |reader.pieces|
  {
    Flatten(reader.pieces[..reader.next])
  }

  /** Bytes this reader has taken out of the budget. */
  function Taken(reader: Reader): nat {
    |reader.output| + if reader.pc.MustFlag? then reader.pc.accepted else 0
  }

  function TotalTaken(readers: seq<Reader>): nat {
    if readers == [] then 0 else Taken(readers[0]) + TotalTaken(readers[1..])
  }

  ghost predicate ReaderInv(reader: Reader, remaining: nat, truncated: bool) {
    && reader.next <= |reader.pieces|
    && (!reader.pc.Idle? ==> reader.next < |reader.pieces|)
    && reader.output <= Asked(reader)
    && (reader.output != Asked(reader) ==> remaining == 0 && truncated && (reader.pc.Idle? || reader.pc == Loaded(0)))
    && (reader.pc.Loaded? ==> remaining <= reader.pc.seen)
    && (reader.pc.MustFlag? ==> remaining == 0 && reader.pc.accepted < |reader.pieces[reader.next]|)
  }

  ghost predicate Inv(s: State, maximum: nat) {
    && TotalTaken(s.readers) + s.remaining == maximum
    && (forall i | 0 <= i < |s.readers| :: ReaderInv(s.readers[i], s.remaining, s.truncated))
    && (s.truncated ==> s.remaining == 0)
  }

  lemma {:induction false} TotalTakenUpdate(readers: seq<Reader>, i: nat, reader: Reader)
    requires i < |readers|
    ensures TotalTaken(readers[i := reader]) + Taken(readers[i]) == TotalTaken(readers) + Taken(reader)
  {
    if i == 0 {
      assert readers[0 := reader][1..] == readers[1..];
    } else {
      assert readers[i := reader][1..] == readers[1..][i - 1 := reader];
      TotalTakenUpdate(readers[1..], i - 1, reader);
    }
  }

  lemma FinishAsked(reader: Reader, accepted: nat)
    requires reader.next < |reader.pieces| && accepted <= |reader.pieces[reader.next]|
    ensures Asked(Finish(reader, accepted)) == Asked(reader) + reader.pieces[reader.next]
  {
    assert reader.pieces[..reader.next + 1] == reader.pieces[..reader.next] + [reader.pieces[reader.next]];
    FlattenSnoc(reader.pieces[..reader.next], reader.pieces[reader.next]);
  }

  /** What one step does to its own reader. */
  lemma StepReader(s: State, step: Step, maximum: nat)
    requires Inv(s, maximum) && Enabled(s, step)
    ensures var reader, s' := s.readers[step.i], Apply(s, step); var reader' := s'.readers[step.i];
      && s'.readers == s.readers[step.i := reader'] && reader'.pieces == reader.pieces
      && s'.remaining <= s.remaining && (s.truncated ==> s'.truncated)
      && Taken(reader') + s'.remaining == Taken(reader) + s.remaining
      && ReaderInv(reader', s'.remaining, s'.truncated)
      && (s'.truncated ==> s'.remaining == 0)
      && (s'.truncated && !s.truncated ==> step.GiveUp? || step.Flag?)
  {
    var reader := s.readers[step.i];
    assert ReaderInv(reader, s.remaining, s.truncated);
    var piece := reader.pieces[reader.next];
    hide Flatten;
    match step
    case GiveUp(_) => FinishAsked(reader, 0);
    case Exchange(_) => FinishAsked(reader, Min(|piece|, s.remaining));
    case Flag(_) => FinishAsked(reader, reader.pc.accepted);
    case _ =>
  }

  /** Less budget and a set flag cannot break what holds of a reader that did not move. */
  lemma ReaderInvStays(reader: Reader, remaining: nat, truncated: bool, remaining': nat, truncated': bool)
    requires ReaderInv(reader, remaining, truncated) && remaining' <= remaining && (truncated ==> truncated')
    ensures ReaderInv(reader, remaining', truncated')
  {
  }

  lemma StepKeepsInv(s: State, step: Step, maximum: nat)
    requires Inv(s, maximum) && Enabled(s, step)
    ensures Inv(Apply(s, step), maximum)
  {
    var s' := Apply(s, step);
    StepReader(s, step, maximum);
    TotalTakenUpdate(s.readers, step.i, s'.readers[step.i]);
    hide Apply;
    hide Taken;
    hide ReaderInv;
    forall i | 0 <= i < |s'.readers|
      ensures ReaderInv(s'.readers[i], s'.remaining, s'.truncated)
    {
      if i != step.i {
        ReaderInvStays(s.readers[i], s.remaining, s.truncated, s'.remaining, s'.truncated);
      }
    }
  }

  lemma {:induction false} RunKeepsInv(s: State, steps: seq<Step>, s': State, maximum: nat)
    requires Inv(s, maximum) && Runs(s, steps, s')
    ensures Inv(s', maximum)
    decreases |steps|
  {
    if steps != [] {
      hide Inv;
      StepKeepsInv(s, steps[0], maximum);
      RunKeepsInv(Apply(s, steps[0]), steps[1..], s', maximum);
    }
  }

  lemma {:induction false} NothingTaken(readers: seq<Reader>)
    requires forall i | 0 <= i < |readers| :: Taken(readers[i]) == 0
    ensures TotalTaken(readers) == 0
  {
    if readers != [] {
      NothingTaken(readers[1..]);
    }
  }

  lemma InitInv(maximum: nat, pieces: seq<seq<Bytes>>)
    ensures Inv(Init(maximum, pieces), maximum)
  {
    NothingTaken(Init(maximum, pieces).readers);
  }

  /** Every state any interleaving reaches: no byte of the budget is lost or spent twice. */
  lemma Conserved(maximum: nat, pieces: seq<seq<Bytes>>, steps: seq<Step>, s: State)
    requires Runs(Init(maximum, pieces), steps, s)
    ensures TotalTaken(s.readers) + s.remaining == maximum
    ensures Inv(s, maximum)
  {
    InitInv(maximum, pieces);
    RunKeepsInv(Init(maximum, pieces), steps, s, maximum);
  }

  /** The readers append these pieces. */
  ghost predicate Append(s: State, pieces: seq<seq<Bytes>>) {
    |s.readers| == |pieces| && forall i | 0 <= i < |pieces| :: s.readers[i].pieces == pieces[i]
  }

  lemma {:induction false} PiecesUnchanged(s: State, steps: seq<Step>, s': State, pieces: seq<seq<Bytes>>)
    requires Runs(s, steps, s') && Append(s, pieces)
    ensures Append(s', pieces)
    decreases |steps|
  {
    if steps != [] {
      PiecesUnchanged(Apply(s, steps[0]), steps[1..], s', pieces);
    }
  }

  // ---- When every reader is done -------------------------------------------------------------------

  ghost predicate Done(s: State) {
    forall i | 0 <= i < |s.readers| :: s.readers[i].pc.Idle? && s.readers[i].next == |s.readers[i].pieces|
  }

  /** The length of everything the streams asked for together. */
  function TotalAsked(pieces: seq<seq<Bytes>>): nat {
    if pieces == [] then 0 else |Flatten(pieces[0])| + TotalAsked(pieces[1..])
  }

  /** What was taken adds up to what is asked for unless some reader `k` has taken less. */
  lemma {:induction false} TakenVersusAsked(readers: seq<Reader>, pieces: seq<seq<Bytes>>, k: nat)
    requires |readers| == |pieces|
    requires forall i | 0 <= i < |readers| :: Taken(readers[i]) <= |Flatten(pieces[i])|
    ensures TotalTaken(readers) <= TotalAsked(pieces)
    ensures k < |readers| && Taken(readers[k]) < |Flatten(pieces[k])| ==> TotalTaken(readers) < TotalAsked(pieces)
    ensures (forall i | 0 <= i < |readers| :: Taken(readers[i]) == |Flatten(pieces[i])|) ==>
      TotalTaken(readers) == TotalAsked(pieces)
  {
    hide Flatten;
    hide Taken;
    if readers != [] {
      TakenVersusAsked(readers[1..], pieces[1..], if k > 0 then k - 1 else |readers|);
    }
  }

  ghost predicate EndsEmpty(pieces: seq<Bytes>) {
    pieces != [] && pieces[|pieces| - 1] == []
  }

  /** No reader takes more than its own stream, and it has taken less while there is something left to take. */
  lemma TakenBound(reader: Reader, remaining: nat, truncated: bool)
    requires ReaderInv(reader, remaining, truncated)
    ensures Taken(reader) <= |Flatten(reader.pieces)|
    ensures reader.pc.MustFlag? ==> Taken(reader) < |Flatten(reader.pieces)|
    ensures reader.next < |reader.pieces| && !EndsEmpty(reader.pieces) ==> Taken(reader) < |Flatten(reader.pieces)|
  {
    var done, left := reader.pieces[..reader.next], reader.pieces[reader.next..];
    assert reader.pieces == done + left;
    FlattenConcat(done, left);
    if left != [] {
      assert left == [left[0]] + left[1..];
      FlattenConcat([left[0]], left[1..]);
      assert Flatten([left[0]]) == left[0];
      assert Flatten(left) == Flatten(left[..|left| - 1]) + left[|left| - 1];
    }
  }

  /** The flag can be trusted: the budget is not used up exactly, or no stream ends in an empty piece. */
  ghost predicate FlagSafe(maximum: nat, pieces: seq<seq<Bytes>>) {
    TotalAsked(pieces) != maximum || forall i | 0 <= i < |pieces| :: !EndsEmpty(pieces[i])
  }

  lemma AllTakenBounds(s: State, maximum: nat, pieces: seq<seq<Bytes>>, k: nat)
    requires Inv(s, maximum) && Append(s, pieces)
    ensures TotalTaken(s.readers) <= TotalAsked(pieces)
    ensures k < |s.readers| && Taken(s.readers[k]) < |Flatten(pieces[k])| ==> TotalTaken(s.readers) < TotalAsked(pieces)
  {
    hide Flatten;
    hide Taken;
    forall i | 0 <= i < |pieces| ensures Taken(s.readers[i]) <= |Flatten(pieces[i])| {
      TakenBound(s.readers[i], s.remaining, s.truncated);
    }
    TakenVersusAsked(s.readers, pieces, k);
  }

  /** Without a loss no step raises the flag. */
  lemma StepNoAlarm(s: State, step: Step, maximum: nat, pieces: seq<seq<Bytes>>)
    requires Inv(s, maximum) && Append(s, pieces) && Enabled(s, step)
    requires TotalAsked(pieces) <= maximum && FlagSafe(maximum, pieces) && !s.truncated
    ensures !Apply(s, step).truncated
  {
    hide Flatten;
    hide Taken;
    hide TotalAsked;
    var reader := s.readers[step.i];
    assert ReaderInv(reader, s.remaining, s.truncated);
    TakenBound(reader, s.remaining, s.truncated);
    AllTakenBounds(s, maximum, pieces, step.i);
  }

  lemma {:induction false} RunNoAlarm(
    s: State, steps: seq<Step>, s': State, maximum: nat, pieces: seq<seq<Bytes>>)
    requires Inv(s, maximum) && Append(s, pieces) && Runs(s, steps, s')
    requires TotalAsked(pieces) <= maximum && FlagSafe(maximum, pieces) && !s.truncated
    ensures !s'.truncated
    decreases |steps|
  {
    if steps != [] {
      hide Inv;
      hide FlagSafe;
      hide TotalAsked;
      StepNoAlarm(s, steps[0], maximum, pieces);
      StepKeepsInv(s, steps[0], maximum);
      RunNoAlarm(Apply(s, steps[0]), steps[1..], s', maximum, pieces);
    }
  }

  /** What the flag of a complete run says is right. */
  ghost predicate FlagRight(s: State, maximum: nat, pieces: seq<seq<Bytes>>) {
    s.truncated <==> TotalAsked(pieces) > maximum
  }

  lemma DoneAsked(s: State, maximum: nat, pieces: seq<seq<Bytes>>, i: nat)
    requires Inv(s, maximum) && Append(s, pieces) && Done(s) && i < |pieces|
    ensures s.readers[i].output <= Flatten(pieces[i]) && Taken(s.readers[i]) == |s.readers[i].output|
    ensures s.readers[i].output != Flatten(pieces[i]) ==> s.remaining == 0 && s.truncated
  {
    assert ReaderInv(s.readers[i], s.remaining, s.truncated);
    assert pieces[i][..|pieces[i]|] == pieces[i];
  }

  /** When all readers are done, they have taken as much as the budget allows, and a loss is always flagged. */
  lemma DoneTaken(s: State, maximum: nat, pieces: seq<seq<Bytes>>)
    requires Inv(s, maximum) && Append(s, pieces) && Done(s)
    ensures TotalTaken(s.readers) == Min(maximum, TotalAsked(pieces))
    ensures TotalAsked(pieces) > maximum ==> s.truncated
  {
    hide Flatten;
    hide Taken;
    hide TotalAsked;
    hide TotalTaken;
    forall i | 0 <= i < |pieces|
      ensures s.readers[i].output <= Flatten(pieces[i]) && Taken(s.readers[i]) == |s.readers[i].output|
      ensures s.readers[i].output != Flatten(pieces[i]) ==> s.remaining == 0 && s.truncated
    {
      DoneAsked(s, maximum, pieces, i);
    }
    hide Done;
    if k :| 0 <= k < |pieces| && s.readers[k].output != Flatten(pieces[k]) {
      TakenVersusAsked(s.readers, pieces, k);
    } else {
      TakenVersusAsked(s.readers, pieces, 0);
    }
  }

  /**
   When all readers are done: each kept a beginning of its own stream, together they kept as
   much as the budget allows, and a loss is always flagged. The flag tells exactly whether
   anything was cut off wherever it is safe.
   */
  lemma Completed(maximum: nat, pieces: seq<seq<Bytes>>, steps: seq<Step>, s: State)
    requires Runs(Init(maximum, pieces), steps, s) && Done(s)
    ensures |s.readers| == |pieces|
    ensures forall i | 0 <= i < |pieces| :: s.readers[i].output <= Flatten(pieces[i])
    ensures TotalTaken(s.readers) == Min(maximum, TotalAsked(pieces))
    ensures TotalAsked(pieces) > maximum ==> s.truncated
    ensures FlagSafe(maximum, pieces) ==> FlagRight(s, maximum, pieces)
  {
    var start := Init(maximum, pieces);
    Conserved(maximum, pieces, steps, s);
    InitInv(maximum, pieces);
    PiecesUnchanged(start, steps, s, pieces);
    forall i | 0 <= i < |pieces| ensures s.readers[i].output <= Flatten(pieces[i]) {
      DoneAsked(s, maximum, pieces, i);
    }
    DoneTaken(s, maximum, pieces);
    if TotalAsked(pieces) <= maximum && FlagSafe(maximum, pieces) {
      RunNoAlarm(start, steps, s, maximum, pieces);
    }
  }

  // ---- No interleaving gets stuck ------------------------------------------------------------------

  lemma {:induction false} RunsJoin(s: State, first: seq<Step>, middle: State, second: seq<Step>, s': State)
    requires Runs(s, first, middle) && Runs(middle, second, s')
    ensures Runs(s, first + second, s')
    decreases |first|
  {
    if first == [] {
      assert first + second == second;
    } else {
      RunsJoin(Apply(s, first[0]), first[1..], middle, second, s');
      assert (first + second)[1..] == first[1..] + second;
    }
  }

  lemma OneStep(s: State, step: Step)
    requires Enabled(s, step)
    ensures Runs(s, [step], Apply(s, step))
  {
    assert [step][1..] == [];
  }

  /** `s'` differs from `s` in the budget and in reader `i`, which has finished one more call. */
  ghost predicate CallFinished(s: State, i: nat, s': State) {
    && i < |s.readers|
    && |s'.readers| == |s.readers|
    && s'.readers == s.readers[i := s'.readers[i]]
    && s'.readers[i].pieces == s.readers[i].pieces
    && s'.readers[i].next == s.readers[i].next + 1
    && s'.readers[i].pc.Idle?
  }

  /** Where the source can be: between calls, or inside one with a piece at hand. */
  ghost predicate AtCall(reader: Reader) {
    && reader.next <= |reader.pieces|
    && (!reader.pc.Idle? ==> reader.next < |reader.pieces|)
    && (reader.pc.MustFlag? ==> reader.pc.accepted <= |reader.pieces[reader.next]|)
  }

  /** A call that has begun, or is due, can be brought to its end by its own reader alone. */
  lemma {:induction false} FinishCall(s: State, i: nat, current: bool) returns (steps: seq<Step>, s': State)
    requires i < |s.readers| && AtCall(s.readers[i]) && s.readers[i].next < |s.readers[i].pieces|
    requires current ==> s.readers[i].pc == Loaded(s.remaining) || s.readers[i].pc.MustFlag?
    ensures Runs(s, steps, s') && CallFinished(s, i, s')
    decreases if current then (if s.readers[i].pc.Loaded? then 1 else 0) else 2
  {
    var reader := s.readers[i];
    hide Runs;
    var step := match reader.pc
      case Idle => Load(i)
      case Loaded(seen) => if seen == 0 then GiveUp(i) else if current then Exchange(i) else Refused(i)
      case MustFlag(_) => Flag(i);
    OneStep(s, step);
    s' := Apply(s, step);
    steps := [step];
    if !s'.readers[i].pc.Idle? {
      var rest, end := FinishCall(s', i, true);
      RunsJoin(s, steps, s', rest, end);
      assert s'.readers == s.readers[i := s'.readers[i]];
      steps, s' := steps + rest, end;
    }
  }

  /** The number of calls still to come before every reader has finished as many as it should. */
  function CallsLeft(readers: seq<Reader>, goal: seq<nat>): int
    requires |readers| == |goal|
  {
    if readers == [] then 0 else goal[0] - readers[0].next + CallsLeft(readers[1..], goal[1..])
  }

  lemma {:induction false} CallsLeftBounds(readers: seq<Reader>, goal: seq<nat>)
    requires |readers| == |goal| && forall i | 0 <= i < |readers| :: readers[i].next <= goal[i]
    ensures CallsLeft(readers, goal) >= 0
  {
    if readers != [] {
      CallsLeftBounds(readers[1..], goal[1..]);
    }
  }

  lemma {:induction false} CallsLeftUpdate(readers: seq<Reader>, goal: seq<nat>, i: nat, reader: Reader)
    requires |readers| == |goal| && i < |readers| && reader.next == readers[i].next + 1
    ensures CallsLeft(readers[i := reader], goal) == CallsLeft(readers, goal) - 1
  {
    if i == 0 {
      assert readers[0 := reader][1..] == readers[1..];
    } else {
      assert readers[i := reader][1..] == readers[1..][i - 1 := reader];
      CallsLeftUpdate(readers[1..], goal[1..], i - 1, reader);
    }
  }

  /** Every reader is at a call, and before or at its goal; inside a call it is before it. */
  ghost predicate Before(s: State, goal: seq<nat>) {
    && |s.readers| == |goal|
    && forall i | 0 <= i < |s.readers| ::
      && AtCall(s.readers[i])
      && s.readers[i].next <= goal[i] <= |s.readers[i].pieces|
      && (!s.readers[i].pc.Idle? ==> s.readers[i].next < goal[i])
  }

  ghost predicate Reached(s: State, goal: seq<nat>) {
    |s.readers| == |goal| && forall i | 0 <= i < |s.readers| :: s.readers[i].pc.Idle? && s.readers[i].next == goal[i]
  }

  lemma {:induction false} FinishTo(s: State, goal: seq<nat>) returns (steps: seq<Step>, s': State)
    requires Before(s, goal)
    ensures Runs(s, steps, s') && Reached(s', goal)
    decreases CallsLeft(s.readers, goal)
  {
    CallsLeftBounds(s.readers, goal);
    if i :| 0 <= i < |s.readers| && s.readers[i].next < goal[i] {
      var first, middle := FinishCall(s, i, false);
      CallsLeftUpdate(s.readers, goal, i, middle.readers[i]);
      CallsLeftBounds(middle.readers, goal);
      var second, end := FinishTo(middle, goal);
      hide Runs;
      RunsJoin(s, first, middle, second, end);
      steps, s' := first + second, end;
    } else {
      steps, s' := [], s;
    }
  }

  /** From every state any interleaving reaches, all readers can still finish. */
  lemma NeverStuck(maximum: nat, pieces: seq<seq<Bytes>>, steps: seq<Step>, s: State)
    returns (rest: seq<Step>, end: State)
    requires Runs(Init(maximum, pieces), steps, s)
    ensures Runs(Init(maximum, pieces), steps + rest, end) && Done(end)
  {
    Conserved(maximum, pieces, steps, s);
    var goal := seq(|s.readers|, i requires 0 <= i < |s.readers| => |s.readers[i].pieces|);
    forall i | 0 <= i < |s.readers| ensures AtCall(s.readers[i]) {
      assert ReaderInv(s.readers[i], s.remaining, s.truncated);
    }
    rest, end := FinishTo(s, goal);
    PiecesUnchanged(s, rest, end, seq(|s.readers|, i requires 0 <= i < |s.readers| => s.readers[i].pieces));
    hide Runs;
    RunsJoin(Init(maximum, pieces), steps, s, rest, end);
  }

  // ---- When the flag is wrong ----------------------------------------------------------------------------

  /** With everything taken but a last empty piece, reading that piece finds the budget spent. */
  lemma SpentBefore(s: State, maximum: nat, pieces: seq<seq<Bytes>>, k: nat)
    requires Inv(s, maximum) && Append(s, pieces) && TotalAsked(pieces) == maximum
    requires k < |pieces| && EndsEmpty(pieces[k])
    requires forall i | 0 <= i < |pieces| ::
      s.readers[i].pc.Idle? && s.readers[i].next == |pieces[i]| - if i == k then 1 else 0
    ensures s.remaining == 0
  {
    forall i | 0 <= i < |pieces| ensures Asked(s.readers[i]) == Flatten(pieces[i]) {
      assert s.readers[i].pieces == pieces[i];
      if i == k {
        assert Flatten(pieces[k]) == Flatten(pieces[k][..|pieces[k]| - 1]) + [];
      } else {
        assert pieces[i][..|pieces[i]|] == pieces[i];
      }
    }
    hide Flatten;
    hide Asked;
    hide TotalAsked;
    if j :| 0 <= j < |pieces| && s.readers[j].output != Flatten(pieces[j]) {
      assert ReaderInv(s.readers[j], s.remaining, s.truncated);
    } else {
      TakenVersusAsked(s.readers, pieces, 0);
    }
  }

  /** The two steps of a request that finds nothing left. */
  lemma GiveUpAtOnce(s: State, k: nat) returns (s': State)
    requires s.remaining == 0 && k < |s.readers| && s.readers[k].pc.Idle? && s.readers[k].next < |s.readers[k].pieces|
    ensures Runs(s, [Load(k)] + [GiveUp(k)], s') && s'.truncated
    ensures s'.readers == s.readers[k := Finish(s.readers[k], 0)]
  {
    hide Runs;
    OneStep(s, Load(k));
    var loaded := Apply(s, Load(k));
    OneStep(loaded, GiveUp(k));
    s' := Apply(loaded, GiveUp(k));
    RunsJoin(s, [Load(k)], loaded, [GiveUp(k)], s');
  }

  /** A stream ends in an empty piece and the budget is used up exactly: some run raises the flag for no loss. */
  lemma FalseAlarm(maximum: nat, pieces: seq<seq<Bytes>>, k: nat) returns (steps: seq<Step>, s: State)
    requires TotalAsked(pieces) == maximum && k < |pieces| && EndsEmpty(pieces[k])
    ensures Runs(Init(maximum, pieces), steps, s) && Done(s) && s.truncated
  {
    hide Runs;
    hide TotalAsked;
    hide Flatten;
    var start := Init(maximum, pieces);
    var goal := seq(|pieces|, i requires 0 <= i < |pieces| => if i == k then |pieces[i]| - 1 else |pieces[i]|);
    var first, spent := FinishTo(start, goal);
    Conserved(maximum, pieces, first, spent);
    PiecesUnchanged(start, first, spent, pieces);
    hide Inv;
    SpentBefore(spent, maximum, pieces, k);
    s := GiveUpAtOnce(spent, k);
    RunsJoin(start, first, spent, [Load(k)] + [GiveUp(k)], s);
    steps := first + ([Load(k)] + [GiveUp(k)]);
  }

  ghost predicate FlagAlwaysRight(maximum: nat, pieces: seq<seq<Bytes>>) {
    forall steps, s | Runs(Init(maximum, pieces), steps, s) && Done(s) :: FlagRight(s, maximum, pieces)
  }

  /**
   The flag is right in every complete run if and only if the budget is not used up exactly or
   no stream ends in an empty piece.
   */
  lemma FlagRightIff(maximum: nat, pieces: seq<seq<Bytes>>)
    ensures FlagAlwaysRight(maximum, pieces) <==> FlagSafe(maximum, pieces)
  {
    if FlagSafe(maximum, pieces) {
      forall steps, s | Runs(Init(maximum, pieces), steps, s) && Done(s) ensures FlagRight(s, maximum, pieces) {
        Completed(maximum, pieces, steps, s);
      }
    } else {
      var k :| 0 <= k < |pieces| && EndsEmpty(pieces[k]);
      var steps, s := FalseAlarm(maximum, pieces, k);
      assert !FlagRight(s, maximum, pieces);
    }
  }
}
