/**
 Threshold-signed release provenance (`crates/runonmine-connectors/src/provenance.rs`, with the
 asset checks of `installer.rs`). JSON, base64, UTF-8, Ed25519 and the per-field string checks are
 the functions of `World`; everything decided from their answers is modelled.
 */
module Provenance {
  import opened Common

  const ENVELOPE_VERSION: nat := 1
  const MANIFEST_VERSION: nat := 1
  const SIGNATURE_THRESHOLD: nat := 2
  const MAX_ENVELOPE_BYTES: nat := 64 * 1024
  const MAX_PAYLOAD_BYTES: nat := 48 * 1024
  const MAX_SIGNATURES: nat := 8
  const MAX_ASSETS: nat := 16
  const DEFAULT_ARTIFACT_LIMIT: nat := 128 * 1024 * 1024

  datatype Provider = Cloudflared | OpenAiTunnelClient

  datatype Format = RawExecutable | TarGz | Zip

  datatype Signature = Signature(keyId: string, signature: string)

  datatype Envelope = Envelope(version: nat, payload: string, signatures: seq<Signature>)

  datatype Asset = Asset(
    name: string, url: string, sha256: string, size: nat, format: Format, archiveBinaryName: Option<string>)

  datatype Manifest = Manifest(
    version: nat, provider: Provider, sourceRepository: string, sourceCommit: string, releaseTag: string,
    sequence: nat, assets: seq<Asset>)

  datatype Verified = Verified(manifest: Manifest, evidence: Bytes)

  datatype Selection = Selection(name: string, format: Format, archiveBinaryName: Option<string>)

  datatype Channel = Latest | Tag(tag: string)

  datatype Artifact = Artifact(
    provider: Provider, releaseTag: string, asset: Asset, sha256: Bytes, provenance: Bytes)

  /**
   What the libraries and the platform answer. `verifies(keyId, payload, signature)` covers the
   decoding of the signature and of the root's key as well as the strict verification.
   */
  datatype World = World(
    parseEnvelope: Bytes -> Option<Envelope>,
    decodeBase64: string -> Option<Bytes>,
    parseManifest: Bytes -> Option<Manifest>,
    isUtf8: Bytes -> bool,
    verifies: (string, Bytes, string) -> bool,
    selectedAsset: (Provider, string) -> Option<Selection>,
    releaseTagOk: string -> bool,
    assetUrlOk: (Provider, string, string, string) -> bool,
    basenameOk: string -> bool,
    parseDigest: string -> Option<Bytes>)

  // ---- Trust roots -------------------------------------------------------------------------------------

  const GLOBAL_ROOT := "sha256:d74dbbf1b4ad7bdd"

  function ProviderRoot(provider: Provider): string {
    match provider
    case Cloudflared => "sha256:d6a6730f94f7c7e8"
    case OpenAiTunnelClient => "sha256:ba83f17223abc580"
  }

  predicate IsRoot(provider: Provider, keyId: string) {
    keyId == GLOBAL_ROOT || keyId == ProviderRoot(provider)
  }

  lemma RootsDiffer(provider: Provider)
    ensures GLOBAL_ROOT != ProviderRoot(provider)
  {
    assert GLOBAL_ROOT[7] == 'd' && GLOBAL_ROOT[8] == '7';
    assert ProviderRoot(provider)[7] == 'b' || ProviderRoot(provider)[8] == '6';
  }

  // ---- Manifest ----------------------------------------------------------------------------------------

  function Repository(provider: Provider): string {
    match provider
    case Cloudflared => "cloudflare/cloudflared"
    case OpenAiTunnelClient => "openai/tunnel-client"
  }

  predicate LowerHex(c: char) {
    '0' <= c <= '9' || 'a' <= c <= 'f'
  }

  ghost predicate UniqueNames(assets: seq<Asset>) {
    forall i, j | 0 <= i < j < |assets| :: assets[i].name != assets[j].name
  }

  /** Everything `validate_manifest` asks. */
  ghost predicate ManifestOk(provider: Provider, m: Manifest) {
    && m.version == MANIFEST_VERSION
    && m.provider == provider
    && m.sourceRepository == Repository(provider)
    && |m.sourceCommit| == 40
    && (forall i | 0 <= i < |m.sourceCommit| :: LowerHex(m.sourceCommit[i]))
    && m.sequence != 0
    && 0 < |m.assets| <= MAX_ASSETS
    && UniqueNames(m.assets)
  }

  /** `ReleaseProvider::repository`. */
  function OwnerAndName(provider: Provider): (string, string) {
    match provider
    case Cloudflared => ("cloudflare", "cloudflared")
    case OpenAiTunnelClient => ("openai", "tunnel-client")
  }

  lemma RepositoryName(provider: Provider)
    ensures var (owner, name) := OwnerAndName(provider); owner + "/" + name == Repository(provider)
  {
  }

  /** `bytes().all(..)`: hexadecimal digits, none of them upper case. */
  method AllLowerHex(text: string) returns (ok: bool)
    ensures ok <==> forall i | 0 <= i < |text| :: LowerHex(text[i])
  {
    for i := 0 to |text|
      invariant forall k | 0 <= k < i :: LowerHex(text[k])
    {
      var hexDigit := '0' <= text[i] <= '9' || 'a' <= text[i] <= 'f' || 'A' <= text[i] <= 'F';
      if !hexDigit || 'A' <= text[i] <= 'Z' {
        return false;
      }
    }
    return true;
  }

  method ValidateManifest(provider: Provider, manifest: Manifest) returns (ok: bool)
    ensures ok <==> ManifestOk(provider, manifest)
  {
    if manifest.version != MANIFEST_VERSION {
      return false;
    }
    if manifest.provider != provider {
      return false;
    }
    var (owner, name) := OwnerAndName(provider);
    RepositoryName(provider);
    hide Repository;
    hide OwnerAndName;
    hide LowerHex;
    if manifest.sourceRepository != owner + "/" + name {
      return false;
    }
    var lowerHex := AllLowerHex(manifest.sourceCommit);
    if |manifest.sourceCommit| != 40 || !lowerHex {
      return false;
    }
    if manifest.sequence == 0 {
      return false;
    }
    if manifest.assets == [] || |manifest.assets| > MAX_ASSETS {
      return false;
    }
    ok := DistinctNames(manifest.assets);
  }

  /** The loop over the assets. */
  method DistinctNames(assets: seq<Asset>) returns (ok: bool)
    ensures ok <==> UniqueNames(assets)
  {
    var names: set<string> := {};
    for i := 0 to |assets|
      invariant forall k | 0 <= k < i :: assets[k].name in names
      invariant forall name | name in names :: exists k | 0 <= k < i :: assets[k].name == name
      invariant UniqueNames(assets[..i])
    {
      if assets[i].name in names {
        return false;
      }
      names := names + {assets[i].name};
    }
    assert assets[..|assets|] == assets;
    return true;
  }

  // ---- Signatures --------------------------------------------------------------------------------------

  ghost predicate DistinctIds(signatures: seq<Signature>) {
    forall i, j | 0 <= i < j < |signatures| :: signatures[i].keyId != signatures[j].keyId
  }

  ghost predicate TrustedVerify(world: World, provider: Provider, payload: Bytes, signatures: seq<Signature>) {
    forall i | 0 <= i < |signatures| && IsRoot(provider, signatures[i].keyId) ::
      world.verifies(signatures[i].keyId, payload, signatures[i].signature)
  }

  ghost predicate Signed(signatures: seq<Signature>, keyId: string) {
    exists i | 0 <= i < |signatures| :: signatures[i].keyId == keyId
  }

  /** The two-root rule. */
  ghost predicate Threshold(world: World, provider: Provider, payload: Bytes, signatures: seq<Signature>) {
    && DistinctIds(signatures)
    && TrustedVerify(world, provider, payload, signatures)
    && Signed(signatures, GLOBAL_ROOT)
    && Signed(signatures, ProviderRoot(provider))
  }

  function Ids(signatures: seq<Signature>): set<string> {
    set signature | signature in signatures :: signature.keyId
  }

  /** What one more entry does to the rule. */
  lemma OneMore(world: World, provider: Provider, payload: Bytes, signatures: seq<Signature>, i: nat)
    requires i < |signatures|
    ensures var next := signatures[i];
      && Ids(signatures[..i + 1]) == Ids(signatures[..i]) + {next.keyId}
      && (DistinctIds(signatures[..i + 1]) <==> DistinctIds(signatures[..i]) && next.keyId !in Ids(signatures[..i]))
      && (TrustedVerify(world, provider, payload, signatures[..i + 1]) <==>
           && TrustedVerify(world, provider, payload, signatures[..i])
           && (IsRoot(provider, next.keyId) ==> world.verifies(next.keyId, payload, next.signature)))
  {
    hide IsRoot;
    assert signatures[..i + 1] == signatures[..i] + [signatures[i]];
  }

  /** What is wrong with the first entries is wrong with all. */
  lemma FirstOfAll(world: World, provider: Provider, payload: Bytes, signatures: seq<Signature>, i: nat)
    requires i <= |signatures|
    ensures DistinctIds(signatures) ==> DistinctIds(signatures[..i])
    ensures TrustedVerify(world, provider, payload, signatures) ==>
      TrustedVerify(world, provider, payload, signatures[..i])
  {
    hide IsRoot;
  }

  lemma SignedIsSeen(signatures: seq<Signature>, keyId: string)
    ensures Signed(signatures, keyId) <==> keyId in Ids(signatures)
  {
    if keyId in Ids(signatures) {
      var signature :| signature in signatures && signature.keyId == keyId;
      var k :| 0 <= k < |signatures| && signatures[k] == signature;
    }
  }

  /** The signature loop of `verify_envelope`. */
  method CheckSignatures(world: World, provider: Provider, payload: Bytes, signatures: seq<Signature>)
    returns (ok: bool)
    ensures ok <==> Threshold(world, provider, payload, signatures)
  {
    hide IsRoot;
    hide DistinctIds;
    hide TrustedVerify;
    hide Signed;
    hide Ids;
    NoEntries(world, provider, payload);
    var seen: set<string> := {};
    var verified: set<string> := {};
    for i := 0 to |signatures|
      invariant seen == Ids(signatures[..i]) && DistinctIds(signatures[..i])
      invariant TrustedVerify(world, provider, payload, signatures[..i])
      invariant forall id :: id in verified <==> id in seen && IsRoot(provider, id)
    {
      var candidate := signatures[i];
      OneMore(world, provider, payload, signatures, i);
      FirstOfAll(world, provider, payload, signatures, i + 1);
      if candidate.keyId in seen {
        return false;
      }
      seen := seen + {candidate.keyId};
      if !IsRoot(provider, candidate.keyId) {
        continue;
      }
      if !world.verifies(candidate.keyId, payload, candidate.signature) {
        return false;
      }
      verified := verified + {candidate.keyId};
    }
    assert signatures[..|signatures|] == signatures;
    SignedIsSeen(signatures, GLOBAL_ROOT);
    SignedIsSeen(signatures, ProviderRoot(provider));
    BothRoots(provider, seen, verified);
    ok := |verified| >= SIGNATURE_THRESHOLD;
  }

  lemma NoEntries(world: World, provider: Provider, payload: Bytes)
    ensures Ids([]) == {} && DistinctIds([]) && TrustedVerify(world, provider, payload, [])
  {
  }

  /** Of two roots, two verified means both. */
  lemma BothRoots(provider: Provider, seen: set<string>, verified: set<string>)
    requires forall id :: id in verified <==> id in seen && IsRoot(provider, id)
    ensures |verified| >= SIGNATURE_THRESHOLD <==> GLOBAL_ROOT in seen && ProviderRoot(provider) in seen
  {
    RootsDiffer(provider);
    hide ProviderRoot;
    var roots := {GLOBAL_ROOT, ProviderRoot(provider)};
    assert |roots| == 2;
    assert verified <= roots;
    if GLOBAL_ROOT in seen && ProviderRoot(provider) in seen {
      assert verified == roots;
    } else {
      var missing := if GLOBAL_ROOT in seen then ProviderRoot(provider) else GLOBAL_ROOT;
      assert verified <= roots - {missing};
      Smaller(verified, roots - {missing});
      assert |roots - {missing}| == 1;
    }
  }

  lemma {:induction false} Smaller(a: set<string>, b: set<string>)
    requires a <= b
    ensures |a| <= |b|
    decreases |a|
  {
    if a != {} {
      var x :| x in a;
      Smaller(a - {x}, b - {x});
    }
  }

  // ---- Order of signatures -----------------------------------------------------------------------------------

  lemma TwiceMeansRepeated(s: seq<Signature>, i: nat, j: nat)
    requires i < j < |s| && s[i] == s[j]
    ensures multiset(s)[s[i]] >= 2
  {
    assert s == s[..j] + s[j..];
    assert s[..j][i] == s[i] && s[j..][0] == s[i];
    assert multiset(s) == multiset(s[..j]) + multiset(s[j..]);
  }

  lemma {:induction false} RepeatedMeansTwice(s: seq<Signature>, x: Signature)
    requires multiset(s)[x] >= 2
    ensures exists i, j :: 0 <= i < j < |s| && s[i] == x && s[j] == x
    decreases |s|
  {
    var last := |s| - 1;
    assert s == s[..last] + [s[last]];
    if s[last] == x {
      assert multiset(s[..last])[x] >= 1;
      var i :| 0 <= i < last && s[..last][i] == x;
      assert s[i] == x && s[last] == x;
    } else {
      RepeatedMeansTwice(s[..last], x);
      var i, j :| 0 <= i < j < last && s[..last][i] == x && s[..last][j] == x;
      assert s[i] == x && s[j] == x;
    }
  }

  lemma SameMembers(a: seq<Signature>, b: seq<Signature>, i: nat) returns (k: nat)
    requires multiset(a) == multiset(b) && i < |a|
    ensures k < |b| && b[k] == a[i]
  {
    assert a[i] in multiset(a);
    k :| k < |b| && b[k] == a[i];
  }

  lemma DistinctAnyOrder(a: seq<Signature>, b: seq<Signature>)
    requires multiset(a) == multiset(b) && DistinctIds(a)
    ensures DistinctIds(b)
  {
    forall i, j | 0 <= i < j < |b|
      ensures b[i].keyId != b[j].keyId
    {
      if b[i] == b[j] {
        TwiceMeansRepeated(b, i, j);
        RepeatedMeansTwice(a, b[i]);
        assert false;
      } else {
        var p := SameMembers(b, a, i);
        var q := SameMembers(b, a, j);
        assert p != q;
      }
    }
  }

  lemma SignedAnyOrder(a: seq<Signature>, b: seq<Signature>, keyId: string)
    requires multiset(a) == multiset(b) && Signed(a, keyId)
    ensures Signed(b, keyId)
  {
    var i :| 0 <= i < |a| && a[i].keyId == keyId;
    var k := SameMembers(a, b, i);
  }

  lemma TrustedAnyOrder(
    world: World, provider: Provider, payload: Bytes, a: seq<Signature>, b: seq<Signature>)
    requires multiset(a) == multiset(b) && TrustedVerify(world, provider, payload, a)
    ensures TrustedVerify(world, provider, payload, b)
  {
    hide IsRoot;
    forall i | 0 <= i < |b| && IsRoot(provider, b[i].keyId)
      ensures world.verifies(b[i].keyId, payload, b[i].signature)
    {
      var k := SameMembers(b, a, i);
    }
  }

  lemma ThresholdAnyOrder(
    world: World, provider: Provider, payload: Bytes, a: seq<Signature>, b: seq<Signature>)
    requires multiset(a) == multiset(b) && Threshold(world, provider, payload, a)
    ensures Threshold(world, provider, payload, b)
  {
    DistinctAnyOrder(a, b);
    TrustedAnyOrder(world, provider, payload, a, b);
    SignedAnyOrder(a, b, GLOBAL_ROOT);
    SignedAnyOrder(a, b, ProviderRoot(provider));
  }

  // ---- Envelope ----------------------------------------------------------------------------------------

  ghost predicate EnvelopeOk(world: World, provider: Provider, e: Envelope, m: Manifest) {
    && e.version == ENVELOPE_VERSION
    && SIGNATURE_THRESHOLD <= |e.signatures| <= MAX_SIGNATURES
    && world.decodeBase64(e.payload).Some?
    && var payload := world.decodeBase64(e.payload).value;
    && 0 < |payload| <= MAX_PAYLOAD_BYTES
    && world.parseManifest(payload) == Some(m)
    && ManifestOk(provider, m)
    && Threshold(world, provider, payload, e.signatures)
  }

  /** When the bytes are accepted as carrying `m`. */
  ghost predicate Accepts(world: World, provider: Provider, bytes: Bytes, m: Manifest) {
    && 0 < |bytes| <= MAX_ENVELOPE_BYTES
    && world.parseEnvelope(bytes).Some?
    && EnvelopeOk(world, provider, world.parseEnvelope(bytes).value, m)
    && world.isUtf8(bytes)
  }

  method VerifyEnvelope(world: World, provider: Provider, bytes: Bytes) returns (r: Option<Verified>)
    ensures forall m :: Accepts(world, provider, bytes, m) <==> r == Some(Verified(m, bytes))
    ensures r.Some? ==> r.value.evidence == bytes
  {
    hide ManifestOk;
    hide Threshold;
    r := None;
    if |bytes| == 0 || |bytes| > MAX_ENVELOPE_BYTES {
      return;
    }
    var parsed := world.parseEnvelope(bytes);
    if parsed.None? {
      return;
    }
    var envelope := parsed.value;
    if envelope.version != ENVELOPE_VERSION {
      return;
    }
    if |envelope.signatures| < SIGNATURE_THRESHOLD || |envelope.signatures| > MAX_SIGNATURES {
      return;
    }
    var decoded := world.decodeBase64(envelope.payload);
    if decoded.None? {
      return;
    }
    var payload := decoded.value;
    if |payload| == 0 || |payload| > MAX_PAYLOAD_BYTES {
      return;
    }
    var manifest := world.parseManifest(payload);
    if manifest.None? {
      return;
    }
    var valid := ValidateManifest(provider, manifest.value);
    if !valid {
      return;
    }
    var signed := CheckSignatures(world, provider, payload, envelope.signatures);
    if !signed || !world.isUtf8(bytes) {
      return;
    }
    r := Some(Verified(manifest.value, bytes));
  }

  /** Two envelopes that differ only in the order of their signatures are accepted alike. */
  lemma AcceptanceIgnoresOrder(world: World, provider: Provider, a: Envelope, b: Envelope, m: Manifest)
    requires a.version == b.version && a.payload == b.payload
    requires multiset(a.signatures) == multiset(b.signatures)
    ensures EnvelopeOk(world, provider, a, m) <==> EnvelopeOk(world, provider, b, m)
  {
    hide Threshold;
    hide ManifestOk;
    assert |a.signatures| == |multiset(a.signatures)| == |b.signatures|;
    if EnvelopeOk(world, provider, a, m) {
      ThresholdAnyOrder(world, provider, world.decodeBase64(a.payload).value, a.signatures, b.signatures);
    }
    if EnvelopeOk(world, provider, b, m) {
      ThresholdAnyOrder(world, provider, world.decodeBase64(a.payload).value, b.signatures, a.signatures);
    }
  }

  // ---- Resolving a release ------------------------------------------------------------------------------------

  /** What makes an artifact the one to install: the selected asset of the manifest, and nothing wrong with it. */
  ghost predicate IsSelected(world: World, provider: Provider, m: Manifest, a: Artifact) {
    && a.asset in m.assets
    && world.selectedAsset(provider, m.releaseTag) ==
       Some(Selection(a.asset.name, a.asset.format, a.asset.archiveBinaryName))
    && world.releaseTagOk(m.releaseTag)
    && world.assetUrlOk(provider, m.releaseTag, a.asset.name, a.asset.url)
    && 0 < a.asset.size <= DEFAULT_ARTIFACT_LIMIT
    && (a.asset.archiveBinaryName.None? <==> a.asset.format == RawExecutable)
    && (a.asset.archiveBinaryName.Some? ==> world.basenameOk(a.asset.archiveBinaryName.value))
    && world.parseDigest(a.asset.sha256) == Some(a.sha256)
    && a.provider == provider && a.releaseTag == m.releaseTag
  }

  /** What a resolve returns: the selected artifact of an accepted manifest for the channel, with its envelope. */
  ghost predicate Resolves(world: World, provider: Provider, channel: Channel, bytes: Bytes, artifact: Artifact) {
    exists m ::
      && Accepts(world, provider, bytes, m)
      && (channel.Tag? ==> channel.tag == m.releaseTag)
      && IsSelected(world, provider, m, artifact) && artifact.provenance == bytes
  }

  /** `iter().find(..)`: the first asset of that name. */
  method FindAsset(assets: seq<Asset>, name: string) returns (r: Option<Asset>)
    ensures r.Some? ==> r.value in assets && r.value.name == name
    ensures r.None? ==> forall a | a in assets :: a.name != name
  {
    for i := 0 to |assets|
      invariant forall k | 0 <= k < i :: assets[k].name != name
    {
      if assets[i].name == name {
        return Some(assets[i]);
      }
    }
    return None;
  }

  /** `VerifiedArtifact::from_verified_manifest`, check by check. */
  method FromVerifiedManifest(world: World, provider: Provider, tag: string, asset: Asset, evidence: Bytes)
    returns (r: Option<Artifact>)
    ensures r.Some? <==>
      && world.releaseTagOk(tag) && world.assetUrlOk(provider, tag, asset.name, asset.url)
      && 0 < asset.size <= DEFAULT_ARTIFACT_LIMIT
      && (asset.archiveBinaryName.None? <==> asset.format == RawExecutable)
      && (asset.archiveBinaryName.Some? ==> world.basenameOk(asset.archiveBinaryName.value))
      && world.parseDigest(asset.sha256).Some?
    ensures r.Some? ==> r.value == Artifact(provider, tag, asset, world.parseDigest(asset.sha256).value, evidence)
  {
    if !world.releaseTagOk(tag) || !world.assetUrlOk(provider, tag, asset.name, asset.url) {
      return None;
    }
    if asset.size == 0 || asset.size > DEFAULT_ARTIFACT_LIMIT {
      return None;
    }
    match (asset.format, asset.archiveBinaryName) {
      case (RawExecutable, None) =>
      case (TarGz, Some(name)) =>
        if !world.basenameOk(name) {
          return None;
        }
      case (Zip, Some(name)) =>
        if !world.basenameOk(name) {
          return None;
        }
      case _ => return None;
    }
    var digest := world.parseDigest(asset.sha256);
    if digest.None? {
      return None;
    }
    return Some(Artifact(provider, tag, asset, digest.value, evidence));
  }

  /** The part of `resolve_envelope` after the tag has been compared. */
  method SelectArtifact(world: World, provider: Provider, verified: Verified) returns (r: Option<Artifact>)
    requires UniqueNames(verified.manifest.assets)
    ensures forall artifact :: r == Some(artifact) <==>
      IsSelected(world, provider, verified.manifest, artifact) && artifact.provenance == verified.evidence
  {
    var m := verified.manifest;
    var selection := world.selectedAsset(provider, m.releaseTag);
    if selection.None? {
      return None;
    }
    var found := FindAsset(m.assets, selection.value.name);
    if found.None? {
      return None;
    }
    var asset := found.value;
    OneAssetPerName(m.assets, asset);
    if asset.format != selection.value.format || asset.archiveBinaryName != selection.value.archiveBinaryName {
      return None;
    }
    r := FromVerifiedManifest(world, provider, m.releaseTag, asset, verified.evidence);
  }

  method ResolveEnvelope(world: World, provider: Provider, channel: Channel, bytes: Bytes)
    returns (r: Option<Artifact>)
    ensures forall artifact :: r == Some(artifact) <==> Resolves(world, provider, channel, bytes, artifact)
  {
    hide Accepts;
    hide IsSelected;
    r := None;
    var verified := VerifyEnvelope(world, provider, bytes);
    if verified.None? {
      return;
    }
    AcceptedIsSigned(world, provider, bytes, verified.value.manifest);
    match channel {
      case Latest =>
      case Tag(expected) =>
        if expected != verified.value.manifest.releaseTag {
          return;
        }
    }
    r := SelectArtifact(world, provider, verified.value);
  }

  method VerifyInstallProvenance(world: World, provider: Provider, evidence: Bytes, tag: string, sha256: Bytes)
    returns (ok: bool)
    ensures ok <==>
      exists artifact :: Resolves(world, provider, Tag(tag), evidence, artifact) && artifact.sha256 == sha256
  {
    hide Resolves;
    var artifact := ResolveEnvelope(world, provider, Tag(tag), evidence);
    ok := artifact.Some? && artifact.value.sha256 == sha256;
  }

  /** The manifest an envelope carries is a function of its bytes. */
  lemma OneManifest(world: World, p: Provider, q: Provider, bytes: Bytes, m: Manifest, n: Manifest)
    requires Accepts(world, p, bytes, m) && Accepts(world, q, bytes, n)
    ensures m == n && p == q
  {
    hide Threshold;
    hide UniqueNames;
  }

  lemma SelectedTag(world: World, provider: Provider, m: Manifest, a: Artifact)
    requires IsSelected(world, provider, m, a)
    ensures a.releaseTag == m.releaseTag
  {
  }

  /** At most one artifact is selected from a manifest. */
  lemma OneSelected(world: World, provider: Provider, m: Manifest, a: Artifact, b: Artifact)
    requires UniqueNames(m.assets) && IsSelected(world, provider, m, a) && IsSelected(world, provider, m, b)
    ensures a.asset == b.asset && a.sha256 == b.sha256
  {
    OneAssetPerName(m.assets, a.asset);
  }

  /** Evidence from an accepted resolve re-verifies for its own tag and digest and for no other. */
  lemma EvidenceReverifiesIff(
    world: World, provider: Provider, channel: Channel, bytes: Bytes, artifact: Artifact, tag: string, sha256: Bytes)
    requires Resolves(world, provider, channel, bytes, artifact)
    ensures artifact.provenance == bytes
    ensures (exists a :: Resolves(world, provider, Tag(tag), artifact.provenance, a) && a.sha256 == sha256) <==>
      tag == artifact.releaseTag && sha256 == artifact.sha256
  {
    hide Accepts;
    hide IsSelected;
    var m :| Accepts(world, provider, bytes, m) && IsSelected(world, provider, m, artifact);
    SelectedTag(world, provider, m, artifact);
    if tag == artifact.releaseTag && sha256 == artifact.sha256 {
      assert Resolves(world, provider, Tag(tag), bytes, artifact);
    }
    if a :| Resolves(world, provider, Tag(tag), bytes, a) && a.sha256 == sha256 {
      var n :| Accepts(world, provider, bytes, n) && tag == n.releaseTag && IsSelected(world, provider, n, a);
      OneManifest(world, provider, provider, bytes, m, n);
      SelectedTag(world, provider, n, a);
      AcceptedIsSigned(world, provider, bytes, m);
      OneSelected(world, provider, m, artifact, a);
    }
  }

  /** Both roots signed the payload `m` was read from. */
  ghost predicate BothSigned(world: World, provider: Provider, m: Manifest) {
    exists payload, g, p ::
      && world.parseManifest(payload) == Some(m)
      && world.verifies(GLOBAL_ROOT, payload, g)
      && world.verifies(ProviderRoot(provider), payload, p)
  }

  lemma AcceptedManifest(world: World, provider: Provider, bytes: Bytes, m: Manifest)
    requires Accepts(world, provider, bytes, m)
    ensures ManifestOk(provider, m)
  {
    hide ManifestOk;
    hide Threshold;
  }

  /** What an accepted envelope vouches for, over the fields of its manifest. */
  lemma AcceptedIsSigned(world: World, provider: Provider, bytes: Bytes, m: Manifest)
    requires Accepts(world, provider, bytes, m)
    ensures BothSigned(world, provider, m) && UniqueNames(m.assets)
    ensures m.version == 1 && m.provider == provider && m.sequence >= 1 && 1 <= |m.assets| <= 16
    ensures |m.sourceCommit| == 40 && forall c | c in m.sourceCommit :: '0' <= c <= '9' || 'a' <= c <= 'f'
    ensures m.sourceRepository == match provider
      case Cloudflared => "cloudflare/cloudflared"
      case OpenAiTunnelClient => "openai/tunnel-client"
  {
    AcceptedManifest(world, provider, bytes, m);
    hide ManifestOk;
    var e := world.parseEnvelope(bytes).value;
    var payload := world.decodeBase64(e.payload).value;
    var i :| 0 <= i < |e.signatures| && e.signatures[i].keyId == GLOBAL_ROOT;
    var j :| 0 <= j < |e.signatures| && e.signatures[j].keyId == ProviderRoot(provider);
    assert IsRoot(provider, e.signatures[i].keyId) && IsRoot(provider, e.signatures[j].keyId);
    assert world.verifies(GLOBAL_ROOT, payload, e.signatures[i].signature);
    assert world.verifies(ProviderRoot(provider), payload, e.signatures[j].signature);
  }

  /**
   A resolved artifact is the asset that the platform selects by name, format and archive entry from
   a manifest that both roots of the provider signed; it is the only one of that name there, and
   its digest is that asset's.
   */
  lemma ResolvedIsTheSignedAsset(
    world: World, provider: Provider, channel: Channel, bytes: Bytes, artifact: Artifact)
    requires Resolves(world, provider, channel, bytes, artifact)
    ensures exists m ::
      && BothSigned(world, provider, m)
      && m.provider == artifact.provider == provider
      && m.releaseTag == artifact.releaseTag
      && artifact.asset in m.assets
      && (forall other | other in m.assets && other.name == artifact.asset.name :: other == artifact.asset)
    ensures var asset := artifact.asset;
      && world.selectedAsset(provider, artifact.releaseTag) ==
         Some(Selection(asset.name, asset.format, asset.archiveBinaryName))
      && 1 <= asset.size <= 134_217_728 && world.parseDigest(asset.sha256) == Some(artifact.sha256)
      && world.releaseTagOk(artifact.releaseTag)
      && world.assetUrlOk(provider, artifact.releaseTag, asset.name, asset.url)
    ensures channel.Tag? ==> channel.tag == artifact.releaseTag
  {
    hide Accepts;
    hide BothSigned;
    var m :| Accepts(world, provider, bytes, m) && IsSelected(world, provider, m, artifact)
      && (channel.Tag? ==> channel.tag == m.releaseTag);
    AcceptedIsSigned(world, provider, bytes, m);
    OneAssetPerName(m.assets, artifact.asset);
  }

  lemma OneAssetPerName(assets: seq<Asset>, asset: Asset)
    requires UniqueNames(assets) && asset in assets
    ensures forall other | other in assets && other.name == asset.name :: other == asset
  {
  }
}
