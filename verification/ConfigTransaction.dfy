/**
 The locked configuration transactions (`update_with_rollback` and `update_with_activation`
 in `crates/runonmine-core/src/config.rs`).

 Where a step can fail, the caller says whether it does. Replacing the file has two ways to
 fail: before the rename, which leaves the old file, and after it (syncing the directory,
 restricting the mode), which reports an error although the new file is in place. Within one
 transaction the checks that look at other files keep their answer. The file holds text; what
 TOML makes of it is arbitrary, and a load refuses a text that is too long although a save may
 write one.
 */
module ConfigTransaction {
  import opened Common
  import opened ConfigValidation

  /** The largest file that a load accepts. */
  const MAX_CONFIG_BYTES: nat := 1_048_576

  /** `NotAFile` is anything else at the path. */
  datatype File = Absent | NotAFile | Contents(text: Bytes)

  /** Printing and parsing; a parse also fails where the text is not UTF-8. */
  datatype Toml = Toml(render: AppConfig -> Bytes, parse: Bytes -> Option<AppConfig>)

  datatype Fault = Works | BeforeRename | AfterRename

  /** What the transaction does to its surroundings, in order, with the file as it is at that moment. */
  datatype Call = Lock | Update | Activate(file: File) | Rollback(file: File) | Unlock(file: File)

  // ---- Loading and saving -------------------------------------------------------------------------------

  /** What `load_unlocked` answers. */
  datatype Reading = NoFile | Refused | Loads(config: AppConfig)

  function Read(toml: Toml, file: File): Reading {
    match file
    case Absent => NoFile
    case NotAFile => Refused
    case Contents(text) =>
      if |text| > MAX_CONFIG_BYTES then Refused
      else
        match toml.parse(text)
        case None => Refused
        case Some(config) => if ConfigOk(Cleared(config)) then Loads(Cleared(config)) else Refused
  }

  /** The configuration an update starts from: what is loaded, or the defaults when there is no file. */
  function Load(toml: Toml, file: File, defaults: AppConfig): Option<AppConfig> {
    match Read(toml, file)
    case NoFile => Some(defaults)
    case Refused => None
    case Loads(config) => Some(config)
  }

  /** `save_unlocked` when its rename happens: the size of the text is not checked. */
  function Saved(toml: Toml, config: AppConfig): File {
    Contents(toml.render(config))
  }

  /** The text of `written` is short enough and is parsed as `loaded`, up to what a load clears. */
  predicate ComesBackAs(toml: Toml, written: AppConfig, loaded: AppConfig) {
    && |toml.render(written)| <= MAX_CONFIG_BYTES
    && toml.parse(toml.render(written)).Some?
    && Cleared(toml.parse(toml.render(written)).value) == loaded
  }

  /** Every valid configuration is parsed back from its text. */
  ghost predicate Lossless(toml: Toml) {
    forall config {:trigger toml.render(config)} | ConfigOk(config) :: toml.parse(toml.render(config)) == Some(config)
  }

  /**
   When a load gives `config` for what was saved. With a lossless TOML a saved configuration loads
   back if and only if its text is within the limit; otherwise the program refuses its own file.
   */
  lemma LoadsBackIff(toml: Toml, written: AppConfig, config: AppConfig)
    requires ConfigOk(written) && ConfigOk(config)
    ensures Read(toml, Saved(toml, written)) == Loads(config) <==> ComesBackAs(toml, written, config)
    ensures Lossless(toml) ==>
      Read(toml, Saved(toml, written)) == if |toml.render(written)| <= MAX_CONFIG_BYTES then Loads(written) else Refused
  {
    ValidIsCleared(written);
    hide ConfigOk;
    hide Cleared;
  }

  // ---- A transaction ------------------------------------------------------------------------------------

  /** Everything outside the transaction's own control. */
  datatype World = World(
    toml: Toml,
    lock: bool,
    defaults: AppConfig,
    update: AppConfig -> Option<AppConfig>,
    save: Fault,
    activate: bool,
    restore: Fault)

  /** The configuration the mutation produces, if the transaction gets that far. */
  function Updated(file: File, w: World): Option<AppConfig> {
    var loaded := Load(w.toml, file, w.defaults);
    if !w.lock || loaded.None? then None else w.update(loaded.value)
  }

  /** The new file reached the disk. */
  predicate Renamed(file: File, w: World) {
    Updated(file, w).Some? && ConfigOk(Updated(file, w).value) && !w.save.BeforeRename?
  }

  predicate Succeeds(file: File, w: World) {
    Renamed(file, w) && w.save.Works? && w.activate
  }

  /** The two ways in which an error leaves the new configuration on disk. */
  predicate LeftBehind(file: File, w: World) {
    Renamed(file, w) && (w.save.AfterRename? || (w.save.Works? && !w.activate && w.restore.BeforeRename?))
  }

  /** A successful `restore_config_snapshot`: what was loaded is printed again. */
  function Rewritten(toml: Toml, file: File): File {
    match Read(toml, file)
    case NoFile => Absent
    case Refused => file
    case Loads(config) => Saved(toml, config)
  }

  /** The file after `update_with_activation`. */
  function FileAfter(file: File, w: World): File {
    if !Renamed(file, w) then file
    else if Succeeds(file, w) || LeftBehind(file, w) then Saved(w.toml, Updated(file, w).value)
    else Rewritten(w.toml, file)
  }

  class ConfigStore {
    var file: File
    var calls: seq<Call>
    /** Every configuration this store has written. */
    ghost var written: seq<AppConfig>

    constructor (file: File)
      ensures this.file == file && calls == [] && written == []
    {
      this.file := file;
      calls, written := [], [];
    }

    /** `save_unlocked`: nothing invalid is ever written. */
    method Save(toml: Toml, config: AppConfig, fault: Fault) returns (ok: bool)
      modifies `file, `written
      ensures ok <==> ConfigOk(config) && fault.Works?
      ensures if ConfigOk(config) && !fault.BeforeRename?
        then file == Saved(toml, config) && written == old(written) + [config]
        else file == old(file) && written == old(written)
    {
      var valid := Validate(config);
      if !valid || fault.BeforeRename? {
        return false;
      }
      file := Contents(toml.render(config));
      written := written + [config];
      return fault.Works?;
    }

    /** `restore_config_snapshot`. */
    method Restore(toml: Toml, original: Option<AppConfig>, fault: Fault) returns (ok: bool)
      requires original.Some? ==> ConfigOk(original.value)
      modifies `file, `written
      ensures ok <==> fault.Works?
      ensures fault.BeforeRename? ==> file == old(file) && written == old(written)
      ensures !fault.BeforeRename? ==>
        if original.Some? then file == Saved(toml, original.value) && written == old(written) + [original.value]
        else file == Absent && written == old(written)
    {
      if original.Some? {
        ok := Save(toml, original.value, fault);
      } else {
        if !fault.BeforeRename? {
          file := Absent;
        }
        ok := fault.Works?;
      }
    }

    method Record(call: Call)
      modifies `calls
      ensures calls == old(calls) + [call]
    {
      calls := calls + [call];
    }

    /**
     `update_with_rollback`. It succeeds exactly when nothing fails. The mutation is rolled back
     once, before the lock is released, exactly when it ran and the transaction failed. An error
     leaves the file alone unless the save failed after the rename.
     */
    method UpdateWithRollback(w: World) returns (ok: bool)
      modifies this
      ensures ok <==> Renamed(old(file), w) && w.save.Works?
      ensures file == (if Renamed(old(file), w) then Saved(w.toml, Updated(old(file), w).value) else old(file))
      ensures written == old(written) + if Renamed(old(file), w) then [Updated(old(file), w).value] else []
      ensures calls == old(calls) + (
        if !w.lock then []
        else if Load(w.toml, old(file), w.defaults).None? then [Lock, Unlock(file)]
        else if ok then [Lock, Update, Unlock(file)]
        else [Lock, Update, Rollback(file), Unlock(file)])
    {
      hide ConfigOk;
      if !w.lock {
        return false;
      }
      Record(Lock);
      var loaded := Load(w.toml, file, w.defaults);
      if loaded.None? {
        Record(Unlock(file));
        return false;
      }
      Record(Update);
      var updated := w.update(loaded.value);
      ok := false;
      if updated.Some? {
        ok := Save(w.toml, updated.value, w.save);
      }
      if !ok {
        Record(Rollback(file));
      }
      Record(Unlock(file));
    }

    /**
     `update_with_activation`. On success the activation ran once, after the save, and the
     rollback never did. On failure the rollback ran once, after the file was restored and before
     the lock was released, whenever the mutation ran at all. `ErrorRestoresIff` says when the
     file is then what it was.
     */
    method UpdateWithActivation(w: World) returns (ok: bool)
      modifies this
      ensures ok <==> Succeeds(old(file), w)
      ensures file == FileAfter(old(file), w)
      ensures forall config | config in written && config !in old(written) :: ConfigOk(config)
      ensures calls == old(calls) + (
        if !w.lock then []
        else if Load(w.toml, old(file), w.defaults).None? then [Lock, Unlock(file)]
        else if !Renamed(old(file), w) || !w.save.Works? then [Lock, Update, Rollback(file), Unlock(file)]
        else if ok then [Lock, Update, Activate(Saved(w.toml, Updated(old(file), w).value)), Unlock(file)]
        else [Lock, Update, Activate(Saved(w.toml, Updated(old(file), w).value)), Rollback(file), Unlock(file)])
    {
      hide ConfigOk;
      hide Cleared;
      if !w.lock {
        return false;
      }
      Record(Lock);
      var loaded := Load(w.toml, file, w.defaults);
      if loaded.None? {
        Record(Unlock(file));
        return false;
      }
      var original := if file.Absent? then None else loaded;
      Record(Update);
      var updated := w.update(loaded.value);
      var saved := false;
      if updated.Some? {
        saved := Save(w.toml, updated.value, w.save);
      }
      if !saved {
        Record(Rollback(file));
        Record(Unlock(file));
        return false;
      }
      Record(Activate(file));
      if !w.activate {
        var restored := Restore(w.toml, original, w.restore);
        Record(Rollback(file));
        Record(Unlock(file));
        return false;
      }
      Record(Unlock(file));
      return true;
    }
  }

  /** How the program saw the file, whether it is refused or not. */
  lemma RestoredReading(toml: Toml, file: File)
    ensures Read(toml, Rewritten(toml, file)) == Read(toml, file) <==>
      (Read(toml, file).Loads? ==> ComesBackAs(toml, Read(toml, file).config, Read(toml, file).config))
    ensures Lossless(toml) && Read(toml, file).Loads? ==>
      (Read(toml, Rewritten(toml, file)) == Read(toml, file) <==>
        |toml.render(Read(toml, file).config)| <= MAX_CONFIG_BYTES)
  {
    if Read(toml, file).Loads? {
      var config := Read(toml, file).config;
      LoadsBackIff(toml, config, config);
    }
  }

  /**
   After an error every later load sees what it saw before, or no file if there was none, exactly
   in these cases: the new file never reached the disk; it was left behind and loads as the
   original did; or the original was restored, and there was none or its text comes back.
   With a lossless TOML that is a matter of equality and of size.
   */
  lemma ErrorRestoresIff(file: File, w: World)
    requires !Succeeds(file, w)
    ensures var before := Read(w.toml, file); var same := Read(w.toml, FileAfter(file, w)) == before;
      same <==>
        if !Renamed(file, w) then true
        else if LeftBehind(file, w) then before.Loads? && ComesBackAs(w.toml, Updated(file, w).value, before.config)
        else before.NoFile? || ComesBackAs(w.toml, before.config, before.config)
    ensures var before := Read(w.toml, file); var same := Read(w.toml, FileAfter(file, w)) == before;
      Lossless(w.toml) ==> (same <==>
        if !Renamed(file, w) then true
        else if LeftBehind(file, w) then
          before == Loads(Updated(file, w).value) && |w.toml.render(before.config)| <= MAX_CONFIG_BYTES
        else before.NoFile? || |w.toml.render(before.config)| <= MAX_CONFIG_BYTES)
  {
    hide ConfigOk;
    hide ComesBackAs;
    RestoredReading(w.toml, file);
    if LeftBehind(file, w) {
      var updated, before := Updated(file, w).value, Read(w.toml, file);
      ReadIsValid(w.toml, file);
      LoadsBackIff(w.toml, updated, if before.Loads? then before.config else updated);
    }
  }

  lemma ReadIsValid(toml: Toml, file: File)
    ensures Read(toml, file).Loads? ==> ConfigOk(Read(toml, file).config)
  {
  }

  /** A failure of the save after its rename does break the promise: the error comes with a new file. */
  lemma LateSaveFaultLeavesFile(toml: Toml, defaults: AppConfig)
    requires ConfigOk(defaults)
    ensures var w := World(toml, true, defaults, c => Some(c), AfterRename, true, Works);
      !Succeeds(Absent, w) && FileAfter(Absent, w) == Saved(toml, defaults)
      && Read(toml, FileAfter(Absent, w)) != Read(toml, Absent)
  {
    hide ConfigOk;
  }

  /** A configuration that is read from a short text and printed as one that is too long. */
  function LongWinded(config: AppConfig): Toml {
    Toml(_ => seq(MAX_CONFIG_BYTES + 1, _ => 0), _ => Some(config))
  }

  /** With no fault but the failing activation, the restored file is refused by every later load. */
  lemma RestoredTooLong(config: AppConfig, w: World)
    requires ConfigOk(config)
    requires w == World(LongWinded(config), true, config, c => Some(c), Works, false, Works)
    ensures Read(w.toml, Contents([])) == Loads(config)
    ensures !LeftBehind(Contents([]), w) && Read(w.toml, FileAfter(Contents([]), w)) == Refused
  {
    ValidIsCleared(config);
    hide ConfigOk;
  }
}
