/**
 The store of immutable binary versions (`crates/runonmine-connectors/src/versioned_binary.rs`).

 The disk is the versions directory, the staging directories inside it and the active
 manifest. Each operation is a sequence of single file-system steps, and for each step the
 caller says whether it works, fails, or whether the process dies right before it. Every state
 the disk goes through is recorded, so what holds of the record holds at every crash point.
 SHA-256 is an arbitrary function and need not be collision free.
 */
module VersionStore {
  import opened Common
  import opened ActivationStack
  import opened StringOrder

  const MAX_MANIFEST_BYTES: nat := 64 * 1024

  datatype VersionDir = VersionDir(binary: Option<Bytes>, receipt: Option<Bytes>)

  datatype Disk = Disk(versions: map<string, VersionDir>, staging: map<nat, VersionDir>, active: Option<Manifest>)

  /** `validate_version_id`: 64 lower-case hexadecimal digits. */
  predicate ValidVersionId(id: string) {
    |id| == 64 && forall i | 0 <= i < |id| :: '0' <= id[i] <= '9' || 'a' <= id[i] <= 'f'
  }

  /** `validate_manifest`. */
  predicate ValidManifest(m: Manifest) {
    m.version == MANIFEST_VERSION && m.activationId != NIL && ValidVersionId(m.versionId)
  }

  /** `verify_version_files`: both files are there, the digest is the name, the receipt is bounded. */
  predicate VersionFilesOk(digest: Bytes -> string, id: string, dir: VersionDir) {
    && ValidVersionId(id)
    && dir.binary.Some? && dir.receipt.Some?
    && digest(dir.binary.value) == id
    && 0 < |dir.receipt.value| <= MAX_MANIFEST_BYTES
  }

  const HEX_DIGITS := "0123456789abcdef"

  /** What the two checks come to, field by field. */
  lemma FilesOkMeans(digest: Bytes -> string, id: string, dir: VersionDir)
    ensures VersionFilesOk(digest, id, dir) <==>
      && |id| == 64 && (forall c | c in id :: c in HEX_DIGITS)
      && dir.binary.Some? && digest(dir.binary.value) == id
      && dir.receipt.Some? && 1 <= |dir.receipt.value| <= 65536
  {
    forall i | 0 <= i < |id| ensures id[i] in HEX_DIGITS <==> '0' <= id[i] <= '9' || 'a' <= id[i] <= 'f' {
      HexDigit(id[i]);
    }
  }

  lemma HexDigit(c: char)
    ensures c in HEX_DIGITS <==> '0' <= c <= '9' || 'a' <= c <= 'f'
  {
    if '0' <= c <= '9' {
      assert HEX_DIGITS[c as int - '0' as int] == c;
    } else if 'a' <= c <= 'f' {
      assert HEX_DIGITS[c as int - 'a' as int + 10] == c;
    }
  }

  /** The version is there and `verify_version_files` accepts it. */
  predicate Verifies(digest: Bytes -> string, disk: Disk, id: string) {
    id in disk.versions && VersionFilesOk(digest, id, disk.versions[id])
  }

  /**
   What a store that was opened on `initial` keeps: every version directory it added is what its
   name says, the others are as they were found, and a manifest it wrote names a verified version.
   */
  ghost predicate Sound(digest: Bytes -> string, initial: Disk, disk: Disk) {
    && (forall id | id in disk.versions ::
         || VersionFilesOk(digest, id, disk.versions[id])
         || (id in initial.versions && disk.versions[id] == initial.versions[id]))
    && (disk.active.Some? ==>
         || disk.active == initial.active
         || (ValidManifest(disk.active.value) && Verifies(digest, disk, disk.active.value.versionId)))
  }

  /** Every version directory is what its name says and the active manifest names one of them. */
  ghost predicate Whole(digest: Bytes -> string, disk: Disk) {
    && (forall id | id in disk.versions :: VersionFilesOk(digest, id, disk.versions[id]))
    && (disk.active.Some? ==> ValidManifest(disk.active.value) && disk.active.value.versionId in disk.versions)
  }

  /** No version directory disappears or changes. */
  ghost predicate Preserves(before: Disk, after: Disk) {
    forall id | id in before.versions :: id in after.versions && after.versions[id] == before.versions[id]
  }

  /** All recorded states are sound from the first one on, and each keeps the versions of all earlier ones. */
  ghost predicate Immutable(digest: Bytes -> string, history: seq<Disk>) {
    && (forall i | 0 <= i < |history| :: Sound(digest, history[0], history[i]))
    && (forall i, j | 0 <= i <= j < |history| :: Preserves(history[i], history[j]))
  }

  lemma ImmutableGrows(digest: Bytes -> string, history: seq<Disk>, next: Disk)
    requires history != [] && Immutable(digest, history)
    requires Sound(digest, history[0], next) && Preserves(history[|history| - 1], next)
    ensures Immutable(digest, history + [next])
  {
    hide Sound;
    var grown := history + [next];
    var last := history[|history| - 1];
    forall i, j | 0 <= i <= j < |grown| ensures Preserves(grown[i], grown[j]) {
      if i < j == |history| {
        assert Preserves(history[i], last);
      }
    }
  }

  /** Opened on a whole disk, a store leaves it whole at every recorded moment. */
  lemma WholeThroughout(digest: Bytes -> string, history: seq<Disk>, i: nat)
    requires Immutable(digest, history) && i < |history| && Whole(digest, history[0])
    ensures Whole(digest, history[i])
  {
    assert Preserves(history[0], history[i]) && Sound(digest, history[0], history[i]);
  }

  /**
   In every recorded state of a store that was opened on a disk whose directories were named by
   the digest of their binary, an empty one for instance, every directory is, and holds a receipt
   of 1 to 65536 bytes; what is active is such a directory, under a proper manifest.
   */
  lemma NamesAreDigests(digest: Bytes -> string, history: seq<Disk>, i: nat)
    requires Immutable(digest, history) && i < |history|
    requires forall id | id in history[0].versions ::
      var dir := history[0].versions[id];
      && |id| == 64 && (forall c | c in id :: c in HEX_DIGITS)
      && dir.binary.Some? && digest(dir.binary.value) == id
      && dir.receipt.Some? && 1 <= |dir.receipt.value| <= 65536
    requires history[0].active.Some? ==>
      var m := history[0].active.value; m.version == 1 && m.activationId != 0 && m.versionId in history[0].versions
    ensures forall id | id in history[i].versions ::
      var dir := history[i].versions[id];
      && |id| == 64 && (forall c | c in id :: c in HEX_DIGITS)
      && dir.binary.Some? && digest(dir.binary.value) == id
      && dir.receipt.Some? && 1 <= |dir.receipt.value| <= 65536
    ensures history[i].active.Some? ==>
      var m := history[i].active.value; m.version == 1 && m.activationId != 0 && m.versionId in history[i].versions
  {
    forall id, dir ensures VersionFilesOk(digest, id, dir) <==>
      && |id| == 64 && (forall c | c in id :: c in HEX_DIGITS)
      && dir.binary.Some? && digest(dir.binary.value) == id
      && dir.receipt.Some? && 1 <= |dir.receipt.value| <= 65536
    {
      FilesOkMeans(digest, id, dir);
    }
    hide VersionFilesOk;
    if history[0].active.Some? {
      ValidIdOf(digest, history[0], history[0].active.value.versionId);
    }
    WholeThroughout(digest, history, i);
  }

  lemma ValidIdOf(digest: Bytes -> string, disk: Disk, id: string)
    requires id in disk.versions && VersionFilesOk(digest, id, disk.versions[id])
    ensures ValidVersionId(id)
  {
  }

  // ---- Tampering ---------------------------------------------------------------------------------------

  /** The active manifest, if there is one, can be read and its version verifies. */
  ghost predicate ActiveOk(digest: Bytes -> string, disk: Disk) {
    disk.active.Some? ==> ValidManifest(disk.active.value) && Verifies(digest, disk, disk.active.value.versionId)
  }

  /** The disk after the files of one version were replaced from outside. */
  function Tampered(disk: Disk, id: string, binary: Option<Bytes>, receipt: Option<Bytes>): Disk {
    disk.(versions := disk.versions[id := VersionDir(binary, receipt)])
  }

  /**
   Whatever replaces the files of a version, it verifies again exactly if the binary still has the
   digest that is the version's name and the receipt has 1 to 65536 bytes; a replaced active version
   is refused otherwise, and other versions are not affected.
   */
  lemma TamperingShows(digest: Bytes -> string, disk: Disk, id: string, binary: Option<Bytes>, receipt: Option<Bytes>)
    requires Verifies(digest, disk, id)
    ensures var tampered := Tampered(disk, id, binary, receipt);
      var intact := binary.Some? && digest(binary.value) == id && receipt.Some? && 1 <= |receipt.value| <= 65536;
      && (Verifies(digest, tampered, id) <==> intact)
      && (forall other | other != id :: Verifies(digest, tampered, other) <==> Verifies(digest, disk, other))
      && (ActiveOk(digest, disk) && disk.active.Some? ==>
           (ActiveOk(digest, tampered) <==> disk.active.value.versionId != id || intact))
  {
    FilesOkMeans(digest, id, disk.versions[id]);
    FilesOkMeans(digest, id, VersionDir(binary, receipt));
    hide VersionFilesOk;
    hide ValidManifest;
  }

  datatype Fate = Works | Fails | Dies

  datatype Entry = Version(id: string) | Staging(name: nat)

  datatype Result<+T> = Ok(value: T) | Err | Died

  class VersionedBinaryStore {
    const digest: Bytes -> string
    var disk: Disk
    /** Every state of the disk so far, the present one last. */
    ghost var history: seq<Disk>
    ghost var past: Past

    ghost predicate Valid()
      reads this
    {
      && history != [] && history[|history| - 1] == disk && Immutable(digest, history)
      && Consistent(past) && disk.active == Top(past) && past.base == history[0].active
      && (forall t | t in past.issued :: t.previous.Some? ==> NamesVersion(t.previous.value))
    }

    ghost predicate NamesVersion(m: Manifest)
      reads this
    {
      ValidManifest(m) && (Some(m) == past.base || Verifies(digest, disk, m.versionId))
    }

    /** A store can be opened on any disk, whatever is found there. */
    constructor (digest: Bytes -> string, disk: Disk)
      ensures Valid() && this.digest == digest && this.disk == disk && past.stack == [] && history == [disk]
    {
      this.digest := digest;
      this.disk := disk;
      history := [disk];
      past := Past(disk.active, [], {}, if disk.active.Some? then {disk.active.value.activationId} else {});
    }

    /** One file-system step that leaves the active manifest alone. */
    method Step(fate: Fate, next: Disk) returns (done: bool)
      requires Valid()
      requires next.active == disk.active && Sound(digest, history[0], next) && Preserves(disk, next)
      modifies `disk, `history
      ensures Valid() && done == fate.Works?
      ensures disk == (if done then next else old(disk))
      ensures history == (if done then old(history) + [next] else old(history))
    {
      done := fate.Works?;
      if done {
        ImmutableGrows(digest, history, next);
        hide Immutable;
        disk := next;
        history := history + [next];
      }
    }

    lemma NowSound()
      requires Valid()
      ensures Sound(digest, history[0], disk) && Preserves(disk, disk)
    {
      assert Sound(digest, history[0], history[|history| - 1]);
    }

    lemma StagingOnly(staging: map<nat, VersionDir>)
      requires Valid()
      ensures Sound(digest, history[0], disk.(staging := staging)) && Preserves(disk, disk.(staging := staging))
    {
      NowSound();
    }

    /** A step that only touches a staging directory. */
    method StageStep(fate: Fate, staging: map<nat, VersionDir>) returns (done: bool)
      requires Valid()
      modifies `disk, `history
      ensures Valid() && done == fate.Works? && past == old(past)
      ensures disk == (if done then old(disk).(staging := staging) else old(disk))
      ensures old(history) <= history
    {
      StagingOnly(staging);
      hide Sound;
      hide Preserves;
      hide Immutable;
      hide Consistent;
      done := Step(fate, disk.(staging := staging));
    }

    /**
     The steps of `prepare_locked` from the new staging directory up to the rename: copy the binary
     (a crash can leave any `partial` beginning of it), write the receipt, hash the copy. The copy
     may differ from what was hashed before.
     */
    method Stage(id: string, copied: Bytes, partial: nat, receipt: Bytes, name: nat, fates: nat -> Fate)
      returns (r: Result<()>)
      requires Valid() && name in disk.staging
      modifies `disk, `history
      ensures Valid() && past == old(past) && old(history) <= history
      ensures disk.versions == old(disk.versions) && disk.active == old(disk.active)
      ensures name in disk.staging && disk.staging - {name} == old(disk.staging) - {name}
      ensures r.Ok? <==>
        && fates(3).Works? && fates(4).Works? && fates(5).Works? && fates(6).Works? && digest(copied) == id
      ensures r.Died? ==> fates(3).Dies? || fates(4).Dies? || fates(5).Dies? || fates(6).Dies?
      ensures r.Ok? ==> disk.staging[name] == VersionDir(Some(copied), Some(receipt))
    {
      hide Sound;
      hide Preserves;
      hide Immutable;
      hide Consistent;
      var begun := StageStep(fates(3), disk.staging[name := VersionDir(Some(copied[..Min(partial, |copied|)]), None)]);
      if !begun {
        return if fates(3).Dies? then Died else Err;
      }
      var copiedAll := StageStep(fates(4), disk.staging[name := VersionDir(Some(copied), None)]);
      if !copiedAll {
        return if fates(4).Dies? then Died else Err;
      }
      var written := StageStep(fates(5), disk.staging[name := VersionDir(Some(copied), Some(receipt))]);
      if !written {
        return if fates(5).Dies? then Died else Err;
      }
      if fates(6).Dies? {
        return Died;
      }
      if fates(6).Fails? || digest(copied) != id {
        return Err;
      }
      return Ok(());
    }

    lemma Publishing(id: string, name: nat)
      requires Valid() && id !in disk.versions && name in disk.staging
      requires VersionFilesOk(digest, id, disk.staging[name])
      ensures var next := Disk(disk.versions[id := disk.staging[name]], disk.staging - {name}, disk.active);
        Sound(digest, history[0], next) && Preserves(disk, next)
    {
      NowSound();
    }

    /** The staging directory becomes the version directory. */
    static predicate Publishes(digest: Bytes -> string, id: string, copied: Bytes, fates: nat -> Fate) {
      digest(copied) == id && forall i: nat | 1 <= i <= 7 :: fates(i).Works?
    }

    /** No staging directory is left: it was not made, it was renamed, or it was removed again. */
    static predicate StagingGone(digest: Bytes -> string, id: string, copied: Bytes, fates: nat -> Fate) {
      !fates(1).Works? || Publishes(digest, id, copied, fates) || (fates(2).Works? && fates(10).Works?)
    }

    /** The guarded part of `prepare_locked`: `Stage`, rename and sync, and removal of the directory after an error. */
    method Publish(id: string, copied: Bytes, partial: nat, receipt: Bytes, name: nat, fates: nat -> Fate)
      returns (r: Result<()>)
      requires Valid() && name in disk.staging
      requires id !in disk.versions && ValidVersionId(id) && 0 < |receipt| <= MAX_MANIFEST_BYTES
      modifies `disk, `history
      ensures Valid() && past == old(past) && disk.active == old(disk.active) && old(history) <= history
      ensures var renamed := digest(copied) == id && forall i: nat | 3 <= i <= 7 :: fates(i).Works?;
        && disk.versions == (
             if renamed then old(disk.versions)[id := VersionDir(Some(copied), Some(receipt))] else old(disk.versions))
        && (r.Ok? <==> renamed && fates(8).Works?)
        && (!r.Died? ==> (name !in disk.staging <==> renamed || fates(10).Works?))
      ensures disk.staging - {name} == old(disk.staging) - {name}
      ensures r.Died? ==> exists i: nat :: fates(i).Dies?
    {
      hide Sound;
      hide Preserves;
      hide Immutable;
      hide Consistent;
      hide ValidVersionId;
      r := Stage(id, copied, partial, receipt, name, fates);
      if r.Died? {
        return;
      }
      if r.Ok? {
        Publishing(id, name);
        var published := Disk(disk.versions[id := disk.staging[name]], disk.staging - {name}, disk.active);
        var renamed := Step(fates(7), published);
        if fates(7).Dies? || (renamed && fates(8).Dies?) {
          return Died;
        }
        if renamed && fates(8).Works? {
          return Ok(());
        }
      }
      // `remove_owned_directory`; nothing is left to remove when only the directory sync failed.
      var cleaned := StageStep(fates(10), disk.staging - {name});
      return if fates(10).Dies? then Died else Err;
    }

    /**
     The part of `prepare_locked` for a version that is not there yet. The steps are: make the
     staging directory, restrict it, the guarded part, the final check. The first two are outside
     the guarded part, so an error of the second leaves the directory there.
     */
    method AddVersion(id: string, copied: Bytes, partial: nat, receipt: Bytes, name: nat, fates: nat -> Fate)
      returns (r: Result<string>)
      requires Valid() && name !in disk.staging
      requires id !in disk.versions && ValidVersionId(id) && 0 < |receipt| <= MAX_MANIFEST_BYTES
      modifies `disk, `history
      ensures Valid() && past == old(past) && disk.active == old(disk.active) && old(history) <= history
      ensures disk.versions ==
        if Publishes(digest, id, copied, fates)
        then old(disk.versions)[id := VersionDir(Some(copied), Some(receipt))]
        else old(disk.versions)
      ensures r.Ok? <==> Publishes(digest, id, copied, fates) && fates(8).Works? && fates(9).Works?
      ensures r.Ok? ==> r.value == id && id in disk.versions && disk.versions[id].receipt == Some(receipt)
      ensures r.Ok? ==> Verifies(digest, disk, id)
      ensures disk.staging - {name} == old(disk.staging)
      ensures !r.Died? ==> (disk.staging == old(disk.staging) <==> StagingGone(digest, id, copied, fates))
      ensures r.Died? ==> exists i: nat :: fates(i).Dies?
    {
      hide Sound;
      hide Preserves;
      hide Immutable;
      hide Consistent;
      hide ValidVersionId;
      var made := StageStep(fates(1), disk.staging[name := VersionDir(None, None)]);
      if !made {
        return if fates(1).Dies? then Died else Err;
      }
      if !fates(2).Works? {
        return if fates(2).Dies? then Died else Err;
      }
      var published := Publish(id, copied, partial, receipt, name, fates);
      assert name !in disk.staging ==> disk.staging == disk.staging - {name};
      if !published.Ok? {
        return if published.Died? then Died else Err;
      }
      r := VerifyVersion(id, receipt, fates(9));
    }

    /** When `prepare` answers `Ok`, for every fate of its steps. */
    ghost predicate Prepares(hashed: Bytes, copied: Bytes, receipt: Bytes, fates: nat -> Fate)
      reads this
    {
      var id := digest(hashed);
      && 0 < |receipt| <= MAX_MANIFEST_BYTES && fates(0).Works? && ValidVersionId(id)
      && if id in disk.versions
         then
           && fates(1).Works? && VersionFilesOk(digest, id, disk.versions[id])
           && disk.versions[id].receipt == Some(receipt)
         else Publishes(digest, id, copied, fates) && fates(8).Works? && fates(9).Works?
    }

    /**
     `prepare`. Whatever fails, and wherever the process dies, versions are only added, and
     only whole ones whose digest is their name. The answer is `Ok` exactly when `Prepares` says
     so, and then the version is there with the given receipt.
     */
    method Prepare(hashed: Bytes, copied: Bytes, partial: nat, receipt: Bytes, name: nat, fates: nat -> Fate)
      returns (r: Result<string>)
      requires Valid() && name !in disk.staging
      modifies `disk, `history
      ensures Valid() && past == old(past) && disk.active == old(disk.active) && old(history) <= history
      ensures Preserves(old(disk), disk)
      ensures disk.versions == old(disk.versions) || (digest(hashed) !in old(disk.versions)
        && disk.versions == old(disk.versions)[digest(hashed) := VersionDir(Some(copied), Some(receipt))])
      ensures r.Ok? <==> old(Prepares(hashed, copied, receipt, fates))
      ensures r.Ok? ==>
        && r.value == digest(hashed) && r.value in disk.versions
        && disk.versions[r.value].binary.Some? && digest(disk.versions[r.value].binary.value) == r.value
      ensures r.Ok? ==> disk.versions[r.value].receipt == Some(receipt) && disk.staging == old(disk.staging)
      ensures (forall i :: fates(i).Works?) ==> disk.staging == old(disk.staging)
    {
      hide Immutable;
      hide Consistent;
      if receipt == [] || |receipt| > MAX_MANIFEST_BYTES || fates(0).Fails? {
        return Err;
      }
      if fates(0).Dies? {
        return Died;
      }
      var id := digest(hashed);
      if !ValidVersionId(id) {
        return Err;
      }
      if id in disk.versions {
        r := VerifyVersion(id, receipt, fates(1));
        return;
      }
      r := AddVersion(id, copied, partial, receipt, name, fates);
    }

    /** `verify_version_files`, check by check. */
    method VerifyVersionFiles(id: string) returns (ok: bool)
      ensures ok <==> Verifies(digest, disk, id)
      ensures ok ==>
        id in disk.versions && disk.versions[id].binary.Some? && digest(disk.versions[id].binary.value) == id
    {
      if !ValidVersionId(id) || id !in disk.versions {
        return false;
      }
      var dir := disk.versions[id];
      if dir.binary.None? || dir.receipt.None? {
        return false;
      }
      if digest(dir.binary.value) != id {
        return false;
      }
      if |dir.receipt.value| == 0 || |dir.receipt.value| > MAX_MANIFEST_BYTES {
        return false;
      }
      return true;
    }

    /** `verify_version`: the files must verify and the receipt must be the given one. */
    method VerifyVersion(id: string, receipt: Bytes, fate: Fate) returns (r: Result<string>)
      ensures r.Ok? <==>
        fate.Works? && Verifies(digest, disk, id) && disk.versions[id].receipt == Some(receipt)
      ensures r.Ok? ==>
        && r.value == id && id in disk.versions
        && disk.versions[id].binary.Some? && digest(disk.versions[id].binary.value) == id
      ensures r.Died? <==> fate.Dies?
    {
      if fate.Dies? {
        return Died;
      }
      if fate.Fails? {
        return Err;
      }
      var intact := VerifyVersionFiles(id);
      if !intact || disk.versions[id].receipt != Some(receipt) {
        return Err;
      }
      return Ok(id);
    }

    // ---- Activation ---------------------------------------------------------------------------------

    /** The atomic replacement (or removal) of the active manifest. */
    method SwitchActive(next: Option<Manifest>, ghost past': Past)
      requires Valid() && Consistent(past') && Top(past') == next && past'.base == past.base
      requires next.Some? ==> NamesVersion(next.value)
      requires forall t | t in past'.issued :: t.previous.Some? ==> NamesVersion(t.previous.value)
      modifies this
      ensures Valid() && past == past' && disk == old(disk).(active := next)
      ensures history == old(history) + [disk]
    {
      NowSound();
      ImmutableGrows(digest, history, disk.(active := next));
      hide Immutable;
      hide Consistent;
      disk := disk.(active := next);
      history := history + [disk];
      past := past';
    }

    /** The check, the read, the temporary file and the rename all work: the manifest is replaced. */
    static predicate Switches(fates: nat -> Fate) {
      fates(0).Works? && fates(1).Works? && fates(2).Works? && fates(3).Works?
    }

    /** The version verifies and the manifest that is there, if any, can be read. */
    ghost predicate CanActivate(versionId: string)
      reads this
    {
      Verifies(digest, disk, versionId) && (disk.active.Some? ==> ValidManifest(disk.active.value))
    }

    /**
     `activate_version`. The steps are: verify the files, read the old manifest, write the new
     one to a temporary file, rename it, sync the directory. The activation is pushed exactly
     when the rename happens; if the sync after it fails the caller gets an error although the
     new version is active. Otherwise an error leaves the disk as it was.
     */
    method Activate(versionId: string, freshId: nat, fates: nat -> Fate) returns (r: Result<Token>)
      requires Valid() && freshId !in past.ids && freshId != NIL
      modifies this
      ensures Valid() && old(history) <= history
      ensures if old(CanActivate(versionId)) && Switches(fates)
        then disk == old(disk).(active := Some(Manifest(MANIFEST_VERSION, versionId, freshId)))
          && past == Push(old(past), disk.active.value)
        else disk == old(disk) && past == old(past) && history == old(history)
      ensures r.Ok? <==> old(CanActivate(versionId)) && Switches(fates) && fates(4).Works?
      ensures r.Ok? ==> past.stack == old(past.stack) + [r.value]
      ensures disk != old(disk) ==>
        && versionId in disk.versions
        && disk.versions[versionId].binary.Some? && digest(disk.versions[versionId].binary.value) == versionId
    {
      hide Immutable;
      hide Consistent;
      if !fates(0).Works? {
        return if fates(0).Dies? then Died else Err;
      }
      var intact := VerifyVersionFiles(versionId);
      if !intact {
        return Err;
      }
      if !fates(1).Works? {
        return if fates(1).Dies? then Died else Err;
      }
      if disk.active.Some? && !ValidManifest(disk.active.value) {
        return Err;
      }
      if !fates(2).Works? {
        return if fates(2).Dies? then Died else Err;
      }
      if !fates(3).Works? {
        return if fates(3).Dies? then Died else Err;
      }
      var current := Manifest(MANIFEST_VERSION, versionId, freshId);
      var token := Token(disk.active, current);
      PushKeeps(past, current);
      NowSound();
      SwitchActive(Some(current), Push(past, current));
      return match fates(4) case Works => Ok(token) case Fails => Err case Dies => Died;
    }

    lemma OnStackIssued(token: Token)
      requires Valid() && token in past.stack
      ensures token in past.issued
    {
      MoreIssued(past, past.issued, past.ids);
    }

    /**
     `rollback`, of a token handed out on this disk or of any other that does not name the active
     manifest. Only the activation on top can be rolled back, and that restores exactly what was
     active before it; any other token is refused and changes nothing.
     */
    method Rollback(token: Token, fates: nat -> Fate) returns (r: Result<()>)
      requires Valid() && (token in past.issued || disk.active != Some(token.current))
      modifies this
      ensures Valid() && old(history) <= history
      ensures var onTop := old(past.stack) != [] && old(past.stack)[|old(past.stack)| - 1] == token;
        && (if onTop && Switches(fates)
            then past == Pop(old(past)) && disk == old(disk).(active := token.previous)
            else disk == old(disk) && past == old(past) && history == old(history))
        && (r.Ok? <==> onTop && Switches(fates) && fates(4).Works?)
    {
      hide Immutable;
      hide Consistent;
      if !fates(0).Works? {
        return if fates(0).Dies? then Died else Err;
      }
      if past.stack != [] {
        OnStackIssued(past.stack[|past.stack| - 1]);
      }
      if token in past.issued {
        UsableIffTop(past, token);
      }
      if disk.active != Some(token.current) {
        return Err;
      }
      if !fates(1).Works? {
        return if fates(1).Dies? then Died else Err;
      }
      if !fates(2).Works? {
        return if fates(2).Dies? then Died else Err;
      }
      if !fates(3).Works? {
        return if fates(3).Dies? then Died else Err;
      }
      PopKeeps(past);
      SwitchActive(token.previous, Pop(past));
      return match fates(4) case Works => Ok(()) case Fails => Err case Dies => Died;
    }

    // ---- Reading ----------------------------------------------------------------------------------------

    /** What this store activated verifies for ever, and so does what is active on a disk that was whole at first. */
    lemma ActivatedVerifies()
      requires Valid()
      ensures past.stack != [] || Whole(digest, history[0]) ==> ActiveOk(digest, disk)
    {
      var n := |history| - 1;
      NowSound();
      if Whole(digest, history[0]) {
        WholeThroughout(digest, history, n);
      } else if past.stack != [] {
        OnStackIssued(past.stack[|past.stack| - 1]);
      }
    }

    /** `resolve_active`: it finds the version on top of the history, or refuses it. */
    method ResolveActive(fate: Fate) returns (r: Result<Option<string>>)
      requires Valid()
      ensures r.Ok? <==> fate.Works? && ActiveOk(digest, disk)
      ensures past.stack != [] || Whole(digest, history[0]) ==> (r.Ok? <==> fate.Works?)
      ensures r.Ok? ==> (r.value.None? <==> Top(past).None?)
      ensures r.Ok? && r.value.Some? ==>
        && r.value.value == Top(past).value.versionId && r.value.value in disk.versions
        && disk.versions[r.value.value].binary.Some?
        && digest(disk.versions[r.value.value].binary.value) == r.value.value
    {
      ActivatedVerifies();
      if !fate.Works? {
        return if fate.Dies? then Died else Err;
      }
      if disk.active.None? {
        return Ok(None);
      }
      var manifest := disk.active.value;
      var intact := VerifyVersionFiles(manifest.versionId);
      if !ValidManifest(manifest) || !intact {
        return Err;
      }
      return Ok(Some(manifest.versionId));
    }

    /** An entry of the versions directory: a version, or a staging directory a crash has left behind. */
    ghost predicate Lists(entries: seq<Entry>)
      reads this
    {
      && (forall i, j | 0 <= i < j < |entries| :: entries[i] != entries[j])
      && (forall id :: Version(id) in entries <==> id in disk.versions)
      && (forall name :: Staging(name) in entries <==> name in disk.staging)
    }

    /**
     `list_versions`: leftover staging directories are skipped, every other entry is verified,
     and the versions are listed in order of their ids.
     */
    method ListVersions(entries: seq<Entry>, fate: Fate) returns (r: Result<seq<string>>)
      requires Lists(entries)
      ensures r.Ok? <==> fate.Works? && forall id | id in disk.versions :: Verifies(digest, disk, id)
      ensures r.Ok? ==> forall id | id in disk.versions ::
        disk.versions[id].binary.Some? && digest(disk.versions[id].binary.value) == id
      ensures r.Ok? ==> Increasing(r.value) && forall id :: id in r.value <==> id in disk.versions
    {
      if !fate.Works? {
        return if fate.Dies? then Died else Err;
      }
      var found: seq<string> := [];
      for i := 0 to |entries|
        invariant forall id :: id in found <==> Version(id) in entries[..i]
        invariant forall j, k | 0 <= j < k < |found| :: found[j] != found[k]
        invariant forall id | id in found :: Verifies(digest, disk, id)
      {
        assert entries[i] !in entries[..i];
        assert entries[..i + 1] == entries[..i] + [entries[i]];
        if entries[i].Staging? {
          continue;
        }
        var id := entries[i].id;
        assert Version(id) in entries;
        var intact := VerifyVersionFiles(id);
        if !intact {
          return Err;
        }
        found := found + [id];
      }
      assert entries[..|entries|] == entries;
      SortSorts(found);
      return Ok(Sort(found));
    }
  }
}
