/**
 Any number of callers on one configuration file (`ConfigFileLock`, `AppConfig::update` and
 `update_with_activation` in `crates/runonmine-core/src/config.rs`).

 Each caller takes the lock, loads, mutates and saves; some then activate, and restore what they
 loaded if the activation fails. The steps of different callers interleave in every way the lock
 allows.
 */
module ConfigConcurrency {
  import opened Common
  import opened ConfigValidation
  import opened ConfigTransaction

  datatype Caller = Caller(update: AppConfig -> Option<AppConfig>, defaults: AppConfig, activates: bool)

  datatype Program = Program(toml: Toml, callers: seq<Caller>)

  /** What a caller left on disk in the end: nothing new, its configuration, or what it had loaded. */
  datatype Effect = Untouched | Committed | Restored

  /** `original` is the snapshot the source keeps; `ok` is what the caller was told. */
  datatype Pc =
    | Waiting
    | Holding
    | Loaded(original: Option<AppConfig>)
    | Mutated(original: Option<AppConfig>, config: AppConfig)
    | Activating(original: Option<AppConfig>, config: AppConfig)
    | Restoring(original: Option<AppConfig>, config: AppConfig)
    | Finished(ok: bool, effect: Effect)

  datatype Entry = Entry(caller: nat, effect: Effect)

  /**
   `acquired` are the callers that took the lock, in that order, `log` those that touched the file
   and how they left it, and `written` every configuration that reached the disk.
   */
  datatype State = State(
    file: File, holder: Option<nat>, pcs: seq<Pc>, acquired: seq<nat>, log: seq<Entry>, written: seq<AppConfig>)

  datatype Step =
    | Acquire(i: nat)
    | Fetch(i: nat)
    | Mutate(i: nat)
    | Write(i: nat, fault: Fault)
    | Activated(i: nat, ok: bool)
    | Restore(i: nat, fault: Fault)

  predicate Enabled(s: State, step: Step) {
    step.i < |s.pcs| &&
    match step
    case Acquire(i) => s.pcs[i].Waiting? && s.holder.None?
    case Fetch(i) => s.pcs[i].Holding?
    case Mutate(i) => s.pcs[i].Loaded?
    case Write(i, _) => s.pcs[i].Mutated?
    case Activated(i, _) => s.pcs[i].Activating?
    case Restore(i, _) => s.pcs[i].Restoring?
  }

  function Put(s: State, i: nat, pc: Pc): State
    requires i < |s.pcs|
  {
    s.(pcs := s.pcs[i := pc])
  }

  /** The caller is done and the lock is free again. */
  function Release(s: State, i: nat, ok: bool, effect: Effect): State
    requires i < |s.pcs|
  {
    Put(s, i, Finished(ok, effect)).(
      holder := None, log := s.log + if effect.Untouched? then [] else [Entry(i, effect)])
  }

  /** The file is replaced by the text of a configuration. */
  function Replace(toml: Toml, s: State, config: AppConfig): State {
    s.(file := Saved(toml, config), written := s.written + [config])
  }

  function OrDefault(original: Option<AppConfig>, defaults: AppConfig): AppConfig {
    if original.Some? then original.value else defaults
  }

  function Apply(p: Program, s: State, step: Step): State
    requires |p.callers| == |s.pcs| && Enabled(s, step)
  {
    match step
    case Acquire(i) => Put(s, i, Holding).(holder := Some(i), acquired := s.acquired + [i])
    case Fetch(i) => (
      match Read(p.toml, s.file)
      case NoFile => Put(s, i, Loaded(None))
      case Refused => Release(s, i, false, Untouched)
      case Loads(config) => Put(s, i, Loaded(Some(config))))
    case Mutate(i) =>
      var updated := p.callers[i].update(OrDefault(s.pcs[i].original, p.callers[i].defaults));
      if updated.Some? then Put(s, i, Mutated(s.pcs[i].original, updated.value)) else Release(s, i, false, Untouched)
    case Write(i, fault) =>
      var config := s.pcs[i].config;
      if !ConfigOk(config) || fault.BeforeRename? then Release(s, i, false, Untouched)
      else
        var saved := Replace(p.toml, s, config);
        if fault.AfterRename? then Release(saved, i, false, Committed)
        else if p.callers[i].activates then Put(saved, i, Activating(s.pcs[i].original, config))
        else Release(saved, i, true, Committed)
    case Activated(i, ok) =>
      if ok then Release(s, i, true, Committed) else Put(s, i, Restoring(s.pcs[i].original, s.pcs[i].config))
    case Restore(i, fault) =>
      if fault.BeforeRename? then Release(s, i, false, Committed)
      else if s.pcs[i].original.Some? then Release(Replace(p.toml, s, s.pcs[i].original.value), i, false, Restored)
      else Release(s.(file := Absent), i, false, Restored)
  }

  function Init(file: File, n: nat): State {
    State(file, None, seq(n, _ => Waiting), [], [], [])
  }

  ghost predicate Runs(p: Program, s: State, steps: seq<Step>, s': State)
    decreases |steps|
  {
    if steps == [] then s == s'
    else |p.callers| == |s.pcs| && Enabled(s, steps[0]) && Runs(p, Apply(p, s, steps[0]), steps[1..], s')
  }

  // ---- The sequential reading ---------------------------------------------------------------------

  /** One caller alone: load the file and mutate. */
  function Alone(p: Program, i: nat, file: File): Option<AppConfig> {
    if i >= |p.callers| || Load(p.toml, file, p.callers[i].defaults).None? then None
    else p.callers[i].update(Load(p.toml, file, p.callers[i].defaults).value)
  }

  /** What one caller, running alone, leaves of the file. */
  function ReplayOne(p: Program, file: File, entry: Entry): File {
    match entry.effect
    case Untouched => file
    case Restored => Rewritten(p.toml, file)
    case Committed =>
      var config := Alone(p, entry.caller, file);
      if config.Some? then Saved(p.toml, config.value) else file
  }

  /** The callers of `log`, one after the other. */
  function Replay(p: Program, file: File, log: seq<Entry>): File {
    if log == [] then file else ReplayOne(p, Replay(p, file, log[..|log| - 1]), log[|log| - 1])
  }

  /** Every caller of `log` could load the file and had something to write. */
  ghost predicate Real(p: Program, file: File, log: seq<Entry>) {
    log == [] ||
    var n := |log| - 1;
    Real(p, file, log[..n]) && Alone(p, log[n].caller, Replay(p, file, log[..n])).Some?
  }

  // ---- What every step keeps ------------------------------------------------------------------------

  ghost predicate Inside(pc: Pc) {
    !pc.Waiting? && !pc.Finished?
  }

  /** The holder has replaced the file and may still take that back. */
  predicate Tentative(pc: Pc) {
    pc.Activating? || pc.Restoring?
  }

  /** What a load gives as the snapshot. */
  function Snapshot(reading: Reading): Option<AppConfig> {
    if reading.Loads? then Some(reading.config) else None
  }

  /** A caller that is inside works on `file`, the one it found. */
  ghost predicate UpToDate(p: Program, i: nat, pc: Pc, file: File) {
    && (Inside(pc) && !pc.Holding? ==>
         !Read(p.toml, file).Refused? && pc.original == Snapshot(Read(p.toml, file)))
    && (pc.Mutated? || Tentative(pc) ==> Alone(p, i, file) == Some(pc.config))
  }

  /** The file as the holder found it, or as it is when nobody holds the lock. */
  ghost predicate FileInv(p: Program, s: State, settled: File) {
    match s.holder
    case None => s.file == settled
    case Some(i) =>
      && i < |s.pcs| && Inside(s.pcs[i]) && UpToDate(p, i, s.pcs[i], settled)
      && s.file == if Tentative(s.pcs[i]) then Saved(p.toml, s.pcs[i].config) else settled
  }

  /** At most one caller is inside. */
  ghost predicate LockInv(p: Program, s: State) {
    |s.pcs| == |p.callers| && forall i | 0 <= i < |s.pcs| :: Inside(s.pcs[i]) <==> s.holder == Some(i)
  }

  ghost predicate WrittenInv(s: State) {
    forall config | config in s.written :: ConfigOk(config)
  }

  ghost predicate Inv(p: Program, initial: File, s: State) {
    && LockInv(p, s) && OrderInv(s) && WrittenInv(s)
    && Real(p, initial, s.log) && FileInv(p, s, Replay(p, initial, s.log))
  }

  lemma StepKeepsLock(p: Program, s: State, step: Step)
    requires LockInv(p, s) && Enabled(s, step)
    ensures LockInv(p, Apply(p, s, step))
  {
    hide ConfigOk;
    hide Read;
    assert Inside(s.pcs[step.i]) <==> !step.Acquire?;
  }

  lemma StepKeepsWritten(p: Program, s: State, step: Step, settled: File)
    requires LockInv(p, s) && FileInv(p, s, settled) && WrittenInv(s) && Enabled(s, step)
    ensures WrittenInv(Apply(p, s, step))
  {
    ReadIsValid(p.toml, settled);
    hide ConfigOk;
    hide Read;
    hide Alone;
    assert Inside(s.pcs[step.i]) <==> !step.Acquire?;
  }

  // ---- The order of the lock --------------------------------------------------------------------------

  /** The callers that take the lock in the course of `steps`, in that order. */
  function Acquired(steps: seq<Step>): seq<nat> {
    if steps == [] then []
    else (if steps[0].Acquire? then [steps[0].i] else []) + Acquired(steps[1..])
  }

  /** The entry a caller has in the log. */
  function EntryOf(i: nat, pcs: seq<Pc>): seq<Entry> {
    if i < |pcs| && pcs[i].Finished? && !pcs[i].effect.Untouched? then [Entry(i, pcs[i].effect)] else []
  }

  function EntriesOf(order: seq<nat>, pcs: seq<Pc>): seq<Entry> {
    if order == [] then [] else EntriesOf(order[..|order| - 1], pcs) + EntryOf(order[|order| - 1], pcs)
  }

  /** Whoever took the lock is no longer waiting, took it once, and the holder took it last. */
  ghost predicate OrderInv(s: State) {
    && (forall k | 0 <= k < |s.acquired| :: s.acquired[k] < |s.pcs| && !s.pcs[s.acquired[k]].Waiting?)
    && (forall i | 0 <= i < |s.pcs| && !s.pcs[i].Waiting? :: i in s.acquired)
    && (forall j, k | 0 <= j < k < |s.acquired| :: s.acquired[j] != s.acquired[k])
    && (s.holder.Some? ==> s.acquired != [] && s.acquired[|s.acquired| - 1] == s.holder.value)
    && s.log == EntriesOf(s.acquired, s.pcs)
  }

  lemma {:induction false} SameEntries(order: seq<nat>, pcs: seq<Pc>, i: nat, pc: Pc)
    requires i < |pcs| && i !in order
    ensures EntriesOf(order, pcs[i := pc]) == EntriesOf(order, pcs)
  {
    if order != [] {
      var n := |order| - 1;
      assert order == order[..n] + [order[n]];
      SameEntries(order[..n], pcs, i, pc);
    }
  }

  /** A change of the caller that took the lock last shows in its own place only. */
  lemma LastEntry(order: seq<nat>, pcs: seq<Pc>, i: nat, pc: Pc)
    requires i < |pcs| && i !in order && !pcs[i].Finished?
    ensures EntriesOf(order + [i], pcs[i := pc]) == EntriesOf(order + [i], pcs) + EntryOf(i, pcs[i := pc])
  {
    assert (order + [i])[..|order|] == order;
    SameEntries(order, pcs, i, pc);
  }

  lemma AcquireKeepsOrder(p: Program, s: State, i: nat)
    requires LockInv(p, s) && OrderInv(s) && Enabled(s, Acquire(i))
    ensures OrderInv(Apply(p, s, Acquire(i)))
  {
    hide EntriesOf;
    var s' := Apply(p, s, Acquire(i));
    assert s'.acquired == s.acquired + [i] && s'.pcs == s.pcs[i := Holding];
    assert i !in s.acquired;
    LastEntry(s.acquired, s.pcs, i, Holding);
    NoEntry(s.acquired, s.pcs, i);
    hide Apply;
    forall j | 0 <= j < |s'.pcs| && !s'.pcs[j].Waiting? ensures j in s'.acquired {
      if j == i {
        assert s'.acquired[|s.acquired|] == i;
      } else {
        assert j in s.acquired;
      }
    }
  }

  lemma NoEntry(order: seq<nat>, pcs: seq<Pc>, i: nat)
    requires i < |pcs| && !pcs[i].Finished?
    ensures EntriesOf(order + [i], pcs) == EntriesOf(order, pcs)
  {
    assert (order + [i])[..|order|] == order;
  }

  /** What a step of the holder does to the record. */
  lemma HolderStep(p: Program, s: State, step: Step)
    requires LockInv(p, s) && Enabled(s, step) && !step.Acquire?
    ensures s.holder == Some(step.i) && !s.pcs[step.i].Finished?
    ensures var s' := Apply(p, s, step); var pc := s'.pcs[step.i];
      && s'.pcs == s.pcs[step.i := pc] && !pc.Waiting? && s'.acquired == s.acquired
      && s'.holder == (if pc.Finished? then None else s.holder)
      && s'.log == s.log + EntryOf(step.i, s'.pcs)
  {
    hide ConfigOk;
    hide Read;
    assert Inside(s.pcs[step.i]);
  }

  lemma HolderKeepsOrder(s: State, i: nat, pc: Pc, s': State)
    requires OrderInv(s) && s.holder == Some(i) && i < |s.pcs| && !s.pcs[i].Finished? && !pc.Waiting?
    requires s'.pcs == s.pcs[i := pc] && s'.acquired == s.acquired && (s'.holder.Some? ==> s'.holder == s.holder)
    requires s'.log == s.log + EntryOf(i, s'.pcs)
    ensures OrderInv(s')
  {
    hide EntriesOf;
    hide EntryOf;
    var before := s.acquired[..|s.acquired| - 1];
    assert s.acquired == before + [i];
    LastEntry(before, s.pcs, i, pc);
    assert forall j | 0 <= j < |s.pcs| && j != i :: s'.pcs[j] == s.pcs[j];
    assert s.acquired[|s.acquired| - 1] == i;
  }

  lemma StepKeepsOrder(p: Program, s: State, step: Step)
    requires LockInv(p, s) && OrderInv(s) && Enabled(s, step)
    ensures OrderInv(Apply(p, s, step))
  {
    hide OrderInv;
    hide Apply;
    if step.Acquire? {
      AcquireKeepsOrder(p, s, step.i);
    } else {
      HolderStep(p, s, step);
      HolderKeepsOrder(s, step.i, Apply(p, s, step).pcs[step.i], Apply(p, s, step));
    }
  }

  lemma {:induction false} AcquiredInRun(p: Program, s: State, steps: seq<Step>, s': State)
    requires Runs(p, s, steps, s')
    ensures s'.acquired == s.acquired + Acquired(steps)
    decreases |steps|
  {
    hide ConfigOk;
    hide Read;
    if steps == [] {
      assert s.acquired + [] == s.acquired;
    } else {
      var next := Apply(p, s, steps[0]);
      AcquiredInRun(p, next, steps[1..], s');
      var taken := if steps[0].Acquire? then [steps[0].i] else [];
      assert next.acquired == s.acquired + taken;
      PlusAssociative(s.acquired, taken, Acquired(steps[1..]));
    }
  }

  // ---- The file ---------------------------------------------------------------------------------------

  lemma ReplayThen(p: Program, file: File, log: seq<Entry>, entry: Entry)
    ensures Replay(p, file, log + [entry]) == ReplayOne(p, Replay(p, file, log), entry)
    ensures Real(p, file, log + [entry]) <==>
      Real(p, file, log) && Alone(p, entry.caller, Replay(p, file, log)).Some?
  {
    assert (log + [entry])[..|log|] == log;
  }

  /** The entry a step adds to the log, if any, and what it does to the file. */
  lemma StepFile(p: Program, s: State, step: Step, settled: File)
    requires LockInv(p, s) && FileInv(p, s, settled) && Enabled(s, step)
    ensures var s' := Apply(p, s, step);
      if s'.log == s.log then FileInv(p, s', settled)
      else
        s'.pcs[step.i].Finished? &&
        var entry := Entry(step.i, s'.pcs[step.i].effect);
        && s'.log == s.log + [entry] && s'.holder.None?
        && Alone(p, step.i, settled).Some? && s'.file == ReplayOne(p, settled, entry)
  {
    hide ConfigOk;
    hide Read;
    assert Inside(s.pcs[step.i]) <==> !step.Acquire?;
  }

  lemma StepKeepsInv(p: Program, initial: File, s: State, step: Step)
    requires Inv(p, initial, s) && Enabled(s, step)
    ensures Inv(p, initial, Apply(p, s, step))
  {
    hide OrderInv;
    hide FileInv;
    hide WrittenInv;
    hide Apply;
    hide Replay;
    hide Real;
    hide ReplayOne;
    hide Alone;
    var settled, s' := Replay(p, initial, s.log), Apply(p, s, step);
    StepKeepsLock(p, s, step);
    StepKeepsOrder(p, s, step);
    StepKeepsWritten(p, s, step, settled);
    StepFile(p, s, step, settled);
    if s'.log != s.log {
      ReplayThen(p, initial, s.log, Entry(step.i, s'.pcs[step.i].effect));
      SettledFile(p, s');
    }
  }

  lemma SettledFile(p: Program, s: State)
    requires s.holder.None?
    ensures FileInv(p, s, s.file)
  {
  }

  lemma {:induction false} RunKeepsInv(p: Program, initial: File, s: State, steps: seq<Step>, s': State)
    requires Inv(p, initial, s) && Runs(p, s, steps, s')
    ensures Inv(p, initial, s')
    decreases |steps|
  {
    if steps != [] {
      hide Inv;
      hide Apply;
      StepKeepsInv(p, initial, s, steps[0]);
      RunKeepsInv(p, initial, Apply(p, s, steps[0]), steps[1..], s');
    }
  }

  lemma InitInv(p: Program, initial: File)
    ensures Inv(p, initial, Init(initial, |p.callers|))
  {
  }

  // ---- What the callers were told ------------------------------------------------------------------------

  /** No save failed after its rename and no restore before its own. */
  ghost predicate NoFaultPastSave(steps: seq<Step>) {
    forall k | 0 <= k < |steps| ::
      && (steps[k].Write? ==> !steps[k].fault.AfterRename?)
      && (steps[k].Restore? ==> !steps[k].fault.BeforeRename?)
  }

  ghost predicate ToldRight(pc: Pc) {
    pc.Finished? ==> (pc.ok <==> pc.effect.Committed?)
  }

  /** The caller has not tried to save yet. */
  ghost predicate NoSave(steps: seq<Step>, i: nat) {
    && Write(i, Works) !in steps && Write(i, AfterRename) !in steps
    && Activated(i, true) !in steps && Activated(i, false) !in steps
  }

  /** How a caller got where it is, by the steps it has taken. */
  ghost predicate Explained(p: Program, steps: seq<Step>, i: nat, pc: Pc)
    requires i < |p.callers|
  {
    match pc
    case Activating(_, _) =>
      && p.callers[i].activates && Write(i, Works) in steps && Write(i, AfterRename) !in steps
      && Activated(i, true) !in steps && Activated(i, false) !in steps
    case Restoring(_, _) =>
      && p.callers[i].activates && Write(i, Works) in steps && Write(i, AfterRename) !in steps
      && Activated(i, true) !in steps && Activated(i, false) in steps
    case Finished(ok, effect) =>
      && (ok <==>
           && effect.Committed? && Write(i, Works) in steps
           && (p.callers[i].activates ==> Activated(i, true) in steps))
      && (effect.Restored? ==> Activated(i, false) in steps)
      && (effect.Committed? && !ok ==>
           Write(i, AfterRename) in steps || (Activated(i, false) in steps && Restore(i, BeforeRename) in steps))
    case _ => NoSave(steps, i)
  }

  lemma StepExplains(p: Program, before: seq<Step>, s: State, step: Step, i: nat)
    requires |p.callers| == |s.pcs| && Enabled(s, step) && i < |s.pcs| && Explained(p, before, i, s.pcs[i])
    ensures Explained(p, before + [step], i, Apply(p, s, step).pcs[i])
  {
    hide ConfigOk;
    hide Read;
    var after := before + [step];
    assert forall x :: x in after <==> x in before || x == step;
    hide NoSave;
    NoSaveThen(before, step, i);
    if i != step.i {
      assert Apply(p, s, step).pcs[i] == s.pcs[i];
    }
  }

  lemma NoSaveThen(before: seq<Step>, step: Step, i: nat)
    ensures NoSave(before + [step], i) <==>
      NoSave(before, i) && step != Write(i, Works) && step != Write(i, AfterRename)
      && step != Activated(i, true) && step != Activated(i, false)
    ensures NoSave(before, i) ==>
      && Write(i, Works) !in before && Write(i, AfterRename) !in before
      && Activated(i, true) !in before && Activated(i, false) !in before
  {
  }

  /** Every caller is told what its own steps came to. */
  lemma {:induction false} RunExplains(p: Program, before: seq<Step>, s: State, steps: seq<Step>, s': State, i: nat)
    requires Runs(p, s, steps, s') && |p.callers| == |s.pcs| && i < |s.pcs| && Explained(p, before, i, s.pcs[i])
    ensures |s'.pcs| == |s.pcs| && Explained(p, before + steps, i, s'.pcs[i])
    decreases |steps|
  {
    if steps == [] {
      assert before + steps == before;
    } else {
      hide Explained;
      StepExplains(p, before, s, steps[0], i);
      RunExplains(p, before + [steps[0]], Apply(p, s, steps[0]), steps[1..], s', i);
      assert (before + [steps[0]]) + steps[1..] == before + steps;
    }
  }

  /**
   In every run a caller is told `Ok` exactly when its configuration was committed by a save that
   worked and, if it activates, an activation that worked. It has restored only after a failed
   activation, and has committed against its answer only by a fault past its save.
   */
  lemma ToldByItsSteps(p: Program, initial: File, steps: seq<Step>, s: State, i: nat)
    requires Runs(p, Init(initial, |p.callers|), steps, s) && i < |p.callers|
    ensures |s.pcs| == |p.callers| && (s.pcs[i].Finished? ==>
      var Finished(ok, effect) := s.pcs[i];
      && (ok <==>
           && effect.Committed? && Write(i, Works) in steps
           && (p.callers[i].activates ==> Activated(i, true) in steps))
      && (effect.Restored? ==> Activated(i, false) in steps)
      && (effect.Committed? && !ok ==>
           Write(i, AfterRename) in steps || (Activated(i, false) in steps && Restore(i, BeforeRename) in steps)))
  {
    RunExplains(p, [], Init(initial, |p.callers|), steps, s, i);
    assert [] + steps == steps;
  }

  // ---- The theorems ---------------------------------------------------------------------------------------

  /** Nobody is about to take back what is in the file. */
  ghost predicate Quiet(s: State) {
    s.holder.Some? && s.holder.value < |s.pcs| ==> !Tentative(s.pcs[s.holder.value])
  }

  lemma ToldInRun(p: Program, initial: File, steps: seq<Step>, s: State)
    requires Runs(p, Init(initial, |p.callers|), steps, s) && |s.pcs| == |p.callers|
    ensures forall i | 0 <= i < |s.pcs| && s.pcs[i].Finished? && s.pcs[i].ok :: s.pcs[i].effect.Committed?
    ensures NoFaultPastSave(steps) ==> forall i | 0 <= i < |s.pcs| :: ToldRight(s.pcs[i])
  {
    forall i | 0 <= i < |p.callers|
      ensures s.pcs[i].Finished? && s.pcs[i].ok ==> s.pcs[i].effect.Committed?
      ensures NoFaultPastSave(steps) ==> ToldRight(s.pcs[i])
    {
      ToldByItsSteps(p, initial, steps, s, i);
    }
    hide Runs;
  }

  /**
   In every state any interleaving reaches, the file is what the callers of the log make of the
   initial file one after the other, in the order in which they held the lock: no update is lost
   and none is applied twice. While a caller activates, its own configuration is on disk instead.
   Every configuration written is valid, whoever was told `Ok` has committed, and exactly these
   have when there is no fault past a save.
   */
  lemma NoLostUpdate(p: Program, initial: File, steps: seq<Step>, s: State)
    requires Runs(p, Init(initial, |p.callers|), steps, s)
    ensures |s.pcs| == |p.callers|
    ensures Quiet(s) ==> s.file == Replay(p, initial, s.log)
    ensures !Quiet(s) ==>
      Alone(p, s.holder.value, Replay(p, initial, s.log)) == Some(s.pcs[s.holder.value].config)
      && s.file == Saved(p.toml, s.pcs[s.holder.value].config)
    ensures s.log == EntriesOf(Acquired(steps), s.pcs)
    ensures forall j, k | 0 <= j < k < |Acquired(steps)| :: Acquired(steps)[j] != Acquired(steps)[k]
    ensures forall config | config in s.written :: ConfigOk(config)
    ensures forall i | 0 <= i < |s.pcs| && s.pcs[i].Finished? :: i in Acquired(steps)
    ensures forall i | 0 <= i < |s.pcs| && s.pcs[i].Finished? && s.pcs[i].ok :: s.pcs[i].effect.Committed?
    ensures NoFaultPastSave(steps) ==> forall i | 0 <= i < |s.pcs| :: ToldRight(s.pcs[i])
  {
    InitInv(p, initial);
    var start := Init(initial, |p.callers|);
    AcquiredInRun(p, start, steps, s);
    assert start.acquired + Acquired(steps) == Acquired(steps);
    RunKeepsInv(p, initial, start, steps, s);
    ToldInRun(p, initial, steps, s);
    hide NoFaultPastSave;
    hide ToldRight;
    hide Runs;
    hide ConfigOk;
    hide Replay;
    hide EntriesOf;
    hide Alone;
  }

  /** The log without the callers that restored what they had found. */
  function Commits(log: seq<Entry>): seq<Entry> {
    if log == [] then []
    else Commits(log[..|log| - 1]) + if log[|log| - 1].effect.Committed? then [log[|log| - 1]] else []
  }

  /** The snapshot that entry `k` restored prints as a text that no load accepts. */
  ghost predicate Outgrown(p: Program, initial: File, log: seq<Entry>, k: nat) {
    && k < |log| && log[k].effect.Restored?
    && var reading := Read(p.toml, Replay(p, initial, log[..k]));
    reading.Loads? && |p.toml.render(reading.config)| > MAX_CONFIG_BYTES
  }

  ghost predicate AnyOutgrown(p: Program, initial: File, log: seq<Entry>) {
    exists k: nat :: Outgrown(p, initial, log, k)
  }

  lemma AloneByReading(p: Program, i: nat, a: File, b: File)
    requires Read(p.toml, a) == Read(p.toml, b)
    ensures Alone(p, i, a) == Alone(p, i, b)
  {
    hide Read;
  }

  /** What an outgrown snapshot leaves can not be loaded, so it ends the log. */
  lemma {:induction false} OutgrownIsLast(p: Program, initial: File, log: seq<Entry>, k: nat)
    requires Lossless(p.toml) && Real(p, initial, log) && Outgrown(p, initial, log, k)
    ensures k == |log| - 1 && Read(p.toml, Replay(p, initial, log)).Refused?
    decreases |log|
  {
    var n := |log| - 1;
    if k < n {
      assert log[..n][..k] == log[..k];
      OutgrownIsLast(p, initial, log[..n], k);
    } else {
      var before := Replay(p, initial, log[..n]);
      ReadIsValid(p.toml, before);
      LoadsBackIff(p.toml, Read(p.toml, before).config, Read(p.toml, before).config);
    }
  }

  lemma {:induction false} OutgrownEarlier(p: Program, initial: File, log: seq<Entry>)
    requires log != []
    ensures AnyOutgrown(p, initial, log) <==>
      AnyOutgrown(p, initial, log[..|log| - 1]) || Outgrown(p, initial, log, |log| - 1)
  {
    var n := |log| - 1;
    forall k: nat | k < n ensures Outgrown(p, initial, log, k) <==> Outgrown(p, initial, log[..n], k) {
      assert log[..n][..k] == log[..k];
    }
    if k: nat :| Outgrown(p, initial, log[..n], k) {
      assert Outgrown(p, initial, log, k);
    }
  }

  /** As long as nothing is outgrown, leaving out the restored callers changes no reading. */
  lemma {:induction false} RestoredLeaveNoTrace(p: Program, initial: File, log: seq<Entry>)
    requires Lossless(p.toml) && Real(p, initial, log) && !AnyOutgrown(p, initial, log)
    requires forall entry | entry in log :: !entry.effect.Untouched?
    ensures Read(p.toml, Replay(p, initial, log)) == Read(p.toml, Replay(p, initial, Commits(log)))
    decreases |log|
  {
    hide Read;
    if log != [] {
      var n := |log| - 1;
      var last := log[n];
      var with, without := Replay(p, initial, log[..n]), Replay(p, initial, Commits(log[..n]));
      OutgrownEarlier(p, initial, log);
      RestoredLeaveNoTrace(p, initial, log[..n]);
      if last.effect.Committed? {
        ReplayThen(p, initial, Commits(log[..n]), last);
        AloneByReading(p, last.caller, with, without);
      } else {
        RestoredReading(p.toml, with);
        assert Commits(log) == Commits(log[..n]) + [] == Commits(log[..n]);
      }
    }
  }

  /**
   With a lossless TOML, the file reads as the composition of the committed callers alone, in lock
   order, if and only if no caller restored a snapshot whose text is too long to be loaded again.
   */
  lemma CompositionIff(p: Program, initial: File, steps: seq<Step>, s: State)
    requires Lossless(p.toml) && Runs(p, Init(initial, |p.callers|), steps, s) && Quiet(s)
    ensures Read(p.toml, s.file) == Read(p.toml, Replay(p, initial, Commits(s.log))) <==>
      !AnyOutgrown(p, initial, s.log)
  {
    NoLostUpdate(p, initial, steps, s);
    InitInv(p, initial);
    RunKeepsInv(p, initial, Init(initial, |p.callers|), steps, s);
    EntriesTouch(s.acquired, s.pcs);
    ReadingIff(p, initial, s.log);
  }

  lemma {:induction false} EntriesTouch(order: seq<nat>, pcs: seq<Pc>)
    ensures forall entry | entry in EntriesOf(order, pcs) :: !entry.effect.Untouched?
  {
    if order != [] {
      EntriesTouch(order[..|order| - 1], pcs);
    }
  }

  lemma ReadingIff(p: Program, initial: File, log: seq<Entry>)
    requires Lossless(p.toml) && Real(p, initial, log)
    requires forall entry | entry in log :: !entry.effect.Untouched?
    ensures Read(p.toml, Replay(p, initial, log)) == Read(p.toml, Replay(p, initial, Commits(log))) <==>
      !AnyOutgrown(p, initial, log)
  {
    if k: nat :| Outgrown(p, initial, log, k) {
      OutgrownIsLast(p, initial, log, k);
      var before := log[..|log| - 1];
      if j: nat :| Outgrown(p, initial, before, j) {
        assert before[..j] == log[..j];
        OutgrownIsLast(p, initial, log, j);
      }
      RestoredLeaveNoTrace(p, initial, before);
      assert Commits(log) == Commits(before) + [] == Commits(before);
    } else {
      RestoredLeaveNoTrace(p, initial, log);
    }
  }
}
