/**
 The configuration and its validators (`crates/runonmine-core/src/config.rs`).

 A connector's own text (its id and name, its policy rules, paths, host names, tunnel ids) is
 checked field by field without looking at `enabled` or at other connectors; `wellFormed`
 stands for the outcome of those checks, and `limitsOk` and `browserOk` for those of the two
 sections that do not mention connectors.
 */
module ConfigValidation {
  import opened Common

  const CONFIG_VERSION: nat := 1
  const MAX_CONNECTORS: nat := 64
  const MAX_ROOTS: nat := 256

  datatype ConnectorKind = LocalStdio | LocalHttp | CloudflareQuick | CloudflareOauth | OpenAiTunnel

  /** The three optional settings are represented by the auxiliary port each of them brings. */
  datatype Connector = Connector(
    id: string,
    kind: ConnectorKind,
    enabled: bool,
    publicUrl: Option<string>,
    quick: Option<nat>,
    named: Option<nat>,
    hasOwner: bool,
    openAi: Option<nat>,
    wellFormed: bool)

  datatype AppConfig = AppConfig(
    version: nat,
    bindHost: string,
    port: nat,
    allowedRoots: seq<string>,
    connectors: seq<Connector>,
    limitsOk: bool,
    browserOk: bool)

  // ---- One connector ----------------------------------------------------------------------------

  /** The `settings_match` of `validate_connector_settings`. */
  predicate SettingsMatch(c: Connector) {
    match c.kind
    case LocalStdio => c.quick.None? && c.named.None? && !c.hasOwner && c.openAi.None? && c.publicUrl.None?
    case LocalHttp => c.quick.None? && c.named.None? && !c.hasOwner && c.openAi.None? && c.publicUrl.None?
    case CloudflareQuick => c.quick.Some? && c.named.None? && !c.hasOwner && c.openAi.None? && c.publicUrl.None?
    case CloudflareOauth => c.quick.None? && c.named.Some? && c.hasOwner && c.openAi.None? && c.publicUrl.Some?
    case OpenAiTunnel => c.quick.None? && c.named.None? && !c.hasOwner && c.openAi.Some? && c.publicUrl.None?
  }

  /** `validate_auxiliary_port`, for a port that may not be configured. */
  predicate PortAllowed(port: Option<nat>, agentPort: nat) {
    port.Some? ==> port.value != 0 && port.value != agentPort
  }

  predicate ConnectorOk(c: Connector, agentPort: nat) {
    && c.wellFormed && SettingsMatch(c)
    && PortAllowed(c.quick, agentPort) && PortAllowed(c.named, agentPort) && PortAllowed(c.openAi, agentPort)
  }

  /** The auxiliary port, as the `or_else` chain of `validate_connector_ports` picks it. */
  function AuxiliaryPort(c: Connector): Option<nat> {
    if c.quick.Some? then c.quick else if c.named.Some? then c.named else c.openAi
  }

  // ---- All connectors, by quantifiers ----------------------------------------------------------------

  predicate EachOk(cs: seq<Connector>, agentPort: nat) {
    forall i | 0 <= i < |cs| :: ConnectorOk(cs[i], agentPort)
  }

  predicate UniqueIds(cs: seq<Connector>) {
    forall i, j | 0 <= i < j < |cs| :: cs[i].id != cs[j].id
  }

  predicate ClashingPorts(a: Connector, b: Connector) {
    a.enabled && b.enabled && AuxiliaryPort(a).Some? && AuxiliaryPort(a) == AuxiliaryPort(b)
  }

  predicate DistinctPorts(cs: seq<Connector>) {
    forall i, j | 0 <= i < j < |cs| :: !ClashingPorts(cs[i], cs[j])
  }

  /** Counts towards the limit of one: any OpenAI tunnel, or an enabled connector of the other kinds. */
  predicate CountsAs(c: Connector, kind: ConnectorKind) {
    c.kind == kind && (kind.OpenAiTunnel? || c.enabled)
  }

  predicate AtMostOne(cs: seq<Connector>, kind: ConnectorKind) {
    forall i, j | 0 <= i < j < |cs| :: !(CountsAs(cs[i], kind) && CountsAs(cs[j], kind))
  }

  predicate Singletons(cs: seq<Connector>) {
    && AtMostOne(cs, LocalHttp) && AtMostOne(cs, CloudflareQuick)
    && AtMostOne(cs, CloudflareOauth) && AtMostOne(cs, OpenAiTunnel)
  }

  predicate ConnectorsOk(cs: seq<Connector>, agentPort: nat) {
    |cs| <= MAX_CONNECTORS && EachOk(cs, agentPort) && UniqueIds(cs) && DistinctPorts(cs) && Singletons(cs)
  }

  predicate ConfigOk(config: AppConfig) {
    && config.version == CONFIG_VERSION && config.bindHost == "127.0.0.1" && config.port != 0
    && config.limitsOk && config.browserOk && |config.allowedRoots| <= MAX_ROOTS
    && ConnectorsOk(config.connectors, config.port)
  }

  // ---- The same over the fields -------------------------------------------------------------------------

  /** The ports a connector is configured with. */
  ghost function Ports(c: Connector): set<nat> {
    (if c.quick.Some? then {c.quick.value} else {})
    + (if c.named.Some? then {c.named.value} else {})
    + (if c.openAi.Some? then {c.openAi.value} else {})
  }

  /** One connector: which settings go with which kind, and which ports are reserved. */
  lemma ConnectorOkMeans(c: Connector, agentPort: nat)
    ensures ConnectorOk(c, agentPort) <==>
      && c.wellFormed
      && (c.quick.Some? <==> c.kind == CloudflareQuick)
      && (c.named.Some? <==> c.kind == CloudflareOauth)
      && (c.hasOwner <==> c.kind == CloudflareOauth)
      && (c.publicUrl.Some? <==> c.kind == CloudflareOauth)
      && (c.openAi.Some? <==> c.kind == OpenAiTunnel)
      && 0 !in Ports(c) && agentPort !in Ports(c)
  {
  }

  /** Two connectors of one list: ids, shared ports of enabled ones, and kinds of which there is one only. */
  ghost predicate Compatible(a: Connector, b: Connector) {
    && a.id != b.id
    && (a.enabled && b.enabled ==> Ports(a) !! Ports(b))
    && (a.kind == b.kind ==>
         || a.kind == LocalStdio
         || (a.kind != OpenAiTunnel && !(a.enabled && b.enabled)))
  }

  lemma PairMeans(a: Connector, b: Connector, agentPort: nat)
    requires ConnectorOk(a, agentPort) && ConnectorOk(b, agentPort)
    ensures Compatible(a, b) <==>
      && a.id != b.id && !ClashingPorts(a, b)
      && !(CountsAs(a, LocalHttp) && CountsAs(b, LocalHttp))
      && !(CountsAs(a, CloudflareQuick) && CountsAs(b, CloudflareQuick))
      && !(CountsAs(a, CloudflareOauth) && CountsAs(b, CloudflareOauth))
      && !(CountsAs(a, OpenAiTunnel) && CountsAs(b, OpenAiTunnel))
  {
    ConnectorOkMeans(a, agentPort);
    ConnectorOkMeans(b, agentPort);
    if Ports(a) * Ports(b) != {} {
      var port :| port in Ports(a) * Ports(b);
    }
    hide ConnectorOk;
    if ClashingPorts(a, b) {
      assert AuxiliaryPort(a).value in Ports(a) * Ports(b);
    }
  }

  /**
   What an accepted list of connectors is, over the fields: at most 64, each with the settings of
   its kind and no port that is 0 or the agent's, and any two of them compatible.
   */
  lemma ConnectorsOkMeans(cs: seq<Connector>, agentPort: nat)
    ensures ConnectorsOk(cs, agentPort) <==>
      && |cs| <= 64
      && (forall i | 0 <= i < |cs| :: ConnectorOk(cs[i], agentPort))
      && (forall i, j | 0 <= i < j < |cs| :: Compatible(cs[i], cs[j]))
  {
    hide ConnectorOk;
    hide Compatible;
    hide ClashingPorts;
    hide CountsAs;
    if EachOk(cs, agentPort) {
      forall i, j | 0 <= i < j < |cs|
        ensures Compatible(cs[i], cs[j]) <==>
          && cs[i].id != cs[j].id && !ClashingPorts(cs[i], cs[j])
          && !(CountsAs(cs[i], LocalHttp) && CountsAs(cs[j], LocalHttp))
          && !(CountsAs(cs[i], CloudflareQuick) && CountsAs(cs[j], CloudflareQuick))
          && !(CountsAs(cs[i], CloudflareOauth) && CountsAs(cs[j], CloudflareOauth))
          && !(CountsAs(cs[i], OpenAiTunnel) && CountsAs(cs[j], OpenAiTunnel))
      {
        PairMeans(cs[i], cs[j], agentPort);
      }
    }
  }

  /** A list in which some connector, enabled or not, has a reserved port is rejected. */
  lemma ReservedPortRejected(cs: seq<Connector>, agentPort: nat, i: nat, port: nat)
    requires i < |cs| && (port == 0 || port == agentPort)
    requires cs[i].quick == Some(port) || cs[i].named == Some(port) || cs[i].openAi == Some(port)
    ensures !ConnectorsOk(cs, agentPort)
  {
    ConnectorOkMeans(cs[i], agentPort);
    hide ConnectorOk;
  }

  /** What a valid configuration is, over the fields. */
  lemma ConfigOkMeans(config: AppConfig)
    ensures ConfigOk(config) <==>
      && config.version == 1 && config.bindHost == "127.0.0.1" && config.port > 0
      && config.limitsOk && config.browserOk && |config.allowedRoots| <= 256
      && ConnectorsOk(config.connectors, config.port)
  {
  }

  // ---- The validators, as the source runs them ----------------------------------------------------------

  /** `validate_connector_ports`. */
  method ValidatePorts(cs: seq<Connector>) returns (ok: bool)
    ensures ok <==> DistinctPorts(cs)
  {
    var seen: set<nat> := {};
    for i := 0 to |cs|
      invariant DistinctPorts(cs[..i])
      invariant forall port | port in seen ::
        exists j | 0 <= j < i :: cs[j].enabled && AuxiliaryPort(cs[j]) == Some(port)
      invariant forall j | 0 <= j < i && cs[j].enabled && AuxiliaryPort(cs[j]).Some? ::
        AuxiliaryPort(cs[j]).value in seen
    {
      var port := AuxiliaryPort(cs[i]);
      if cs[i].enabled && port.Some? {
        if port.value in seen {
          var j :| 0 <= j < i && cs[j].enabled && AuxiliaryPort(cs[j]) == port;
          assert ClashingPorts(cs[j], cs[i]);
          return false;
        }
        seen := seen + {port.value};
      }
    }
    assert cs[..|cs|] == cs;
    return true;
  }

  /** `filter(..).count()`. */
  function Count(cs: seq<Connector>, kind: ConnectorKind): nat {
    if cs == [] then 0
    else Count(cs[..|cs| - 1], kind) + if CountsAs(cs[|cs| - 1], kind) then 1 else 0
  }

  lemma {:induction false} CountMeaning(cs: seq<Connector>, kind: ConnectorKind)
    ensures Count(cs, kind) == 0 <==> forall i | 0 <= i < |cs| :: !CountsAs(cs[i], kind)
    ensures Count(cs, kind) <= 1 <==> AtMostOne(cs, kind)
  {
    if cs != [] {
      var n := |cs| - 1;
      CountMeaning(cs[..n], kind);
      if CountsAs(cs[n], kind) && Count(cs[..n], kind) != 0 {
        var i :| 0 <= i < n && CountsAs(cs[..n][i], kind);
        assert CountsAs(cs[i], kind);
      }
    }
  }

  /** `validate_singleton_connectors`. */
  method ValidateSingletons(cs: seq<Connector>) returns (ok: bool)
    ensures ok <==> Singletons(cs)
  {
    var kinds := [LocalHttp, CloudflareQuick, CloudflareOauth, OpenAiTunnel];
    for k := 0 to |kinds|
      invariant forall j | 0 <= j < k :: AtMostOne(cs, kinds[j])
    {
      CountMeaning(cs, kinds[k]);
      if Count(cs, kinds[k]) > 1 {
        return false;
      }
    }
    assert AtMostOne(cs, kinds[0]) && AtMostOne(cs, kinds[1]) && AtMostOne(cs, kinds[2]) && AtMostOne(cs, kinds[3]);
    return true;
  }

  /** `validate_connector_settings`, with the checks of single fields as they came out. */
  method ValidateSettings(c: Connector, agentPort: nat) returns (ok: bool)
    ensures ok <==> ConnectorOk(c, agentPort)
  {
    var settingsMatch := match c.kind
      case LocalStdio => c.quick.None? && c.named.None? && !c.hasOwner && c.openAi.None? && c.publicUrl.None?
      case LocalHttp => c.quick.None? && c.named.None? && !c.hasOwner && c.openAi.None? && c.publicUrl.None?
      case CloudflareQuick => c.quick.Some? && c.named.None? && !c.hasOwner && c.openAi.None? && c.publicUrl.None?
      case CloudflareOauth => c.quick.None? && c.named.Some? && c.hasOwner && c.openAi.None? && c.publicUrl.Some?
      case OpenAiTunnel => c.quick.None? && c.named.None? && !c.hasOwner && c.openAi.Some? && c.publicUrl.None?;
    if !settingsMatch {
      return false;
    }
    if c.quick.Some? {
      if c.quick.value == 0 || c.quick.value == agentPort {
        return false;
      }
    }
    if c.named.Some? {
      if c.named.value == 0 || c.named.value == agentPort {
        return false;
      }
    }
    if c.openAi.Some? {
      if c.openAi.value == 0 || c.openAi.value == agentPort {
        return false;
      }
    }
    return c.wellFormed;
  }

  /** `validate_connectors`: the loops accept exactly what the quantified reading allows. */
  method ValidateConnectors(cs: seq<Connector>, agentPort: nat) returns (ok: bool)
    ensures ok <==> ConnectorsOk(cs, agentPort)
  {
    if |cs| > MAX_CONNECTORS {
      return false;
    }
    hide ConnectorOk;
    hide DistinctPorts;
    hide Singletons;
    var ids: set<string> := {};
    for i := 0 to |cs|
      invariant EachOk(cs[..i], agentPort) && UniqueIds(cs[..i])
      invariant forall id :: id in ids <==> exists j | 0 <= j < i :: cs[j].id == id
    {
      if cs[i].id in ids {
        return false;
      }
      ids := ids + {cs[i].id};
      var settings := ValidateSettings(cs[i], agentPort);
      if !settings {
        return false;
      }
    }
    assert cs[..|cs|] == cs;
    var ports := ValidatePorts(cs);
    if !ports {
      return false;
    }
    ok := ValidateSingletons(cs);
  }

  /** `validate`. */
  method Validate(config: AppConfig) returns (ok: bool)
    ensures ok <==> ConfigOk(config)
  {
    if config.version != CONFIG_VERSION {
      return false;
    }
    if config.bindHost != "127.0.0.1" {
      return false;
    }
    if config.port == 0 {
      return false;
    }
    if !config.limitsOk || !config.browserOk || |config.allowedRoots| > MAX_ROOTS {
      return false;
    }
    ok := ValidateConnectors(config.connectors, config.port);
  }

  // ---- Removing and disabling ---------------------------------------------------------------------------------

  /** Validity is about single connectors and pairs, so it carries over to any selection of them in order. */
  lemma SelectionKeepsValid(cs: seq<Connector>, picked: seq<Connector>, from: seq<nat>, agentPort: nat)
    requires ConnectorsOk(cs, agentPort)
    requires |picked| == |from| <= |cs|
    requires forall i | 0 <= i < |from| :: from[i] < |cs|
    requires forall i, j | 0 <= i < j < |from| :: from[i] < from[j]
    requires forall i | 0 <= i < |from| :: picked[i] == cs[from[i]] || picked[i] == cs[from[i]].(enabled := false)
    ensures ConnectorsOk(picked, agentPort)
  {
    forall i | 0 <= i < |picked| ensures ConnectorOk(picked[i], agentPort) {
      assert ConnectorOk(cs[from[i]], agentPort);
    }
    hide ConnectorOk;
    forall i, j | 0 <= i < j < |picked|
      ensures picked[i].id != picked[j].id && !ClashingPorts(picked[i], picked[j])
      ensures forall kind | AtMostOne(cs, kind) :: !(CountsAs(picked[i], kind) && CountsAs(picked[j], kind))
    {
      var a, b := cs[from[i]], cs[from[j]];
      assert from[i] < from[j];
      assert a.id != b.id && !ClashingPorts(a, b);
    }
  }

  lemma RemovalKeepsValid(cs: seq<Connector>, k: nat, agentPort: nat)
    requires ConnectorsOk(cs, agentPort) && k < |cs|
    ensures ConnectorsOk(cs[..k] + cs[k + 1..], agentPort)
  {
    var picked := cs[..k] + cs[k + 1..];
    SelectionKeepsValid(cs, picked, seq(|picked|, i requires 0 <= i => if i < k then i else i + 1), agentPort);
  }

  lemma DisablingKeepsValid(cs: seq<Connector>, k: nat, agentPort: nat)
    requires ConnectorsOk(cs, agentPort) && k < |cs|
    ensures ConnectorsOk(cs[k := cs[k].(enabled := false)], agentPort)
  {
    SelectionKeepsValid(cs, cs[k := cs[k].(enabled := false)], seq(|cs|, i requires 0 <= i => i), agentPort);
  }

  // ---- Legacy runtime URLs ---------------------------------------------------------------------------------------

  function ClearedConnector(c: Connector): Connector {
    if c.kind.CloudflareQuick? then c.(publicUrl := None) else c
  }

  function ClearedAll(cs: seq<Connector>): (cleared: seq<Connector>)
    ensures |cleared| == |cs| && forall i | 0 <= i < |cs| :: cleared[i] == ClearedConnector(cs[i])
  {
    seq(|cs|, i requires 0 <= i < |cs| => ClearedConnector(cs[i]))
  }

  /** The configuration as `load` sees it. */
  function Cleared(config: AppConfig): AppConfig {
    config.(connectors := ClearedAll(config.connectors))
  }

  /** `clear_legacy_quick_runtime_urls`: only the URLs of Quick connectors go, and a change is reported as such. */
  method ClearLegacyUrls(config: AppConfig) returns (cleared: AppConfig, changed: bool)
    ensures cleared == Cleared(config)
    ensures cleared == config.(connectors := cleared.connectors) && |cleared.connectors| == |config.connectors|
    ensures forall i | 0 <= i < |config.connectors| ::
      var before, after := config.connectors[i], cleared.connectors[i];
      after == before.(publicUrl := if before.kind == CloudflareQuick then None else before.publicUrl)
    ensures changed <==>
      exists i | 0 <= i < |config.connectors| ::
        config.connectors[i].kind == CloudflareQuick && config.connectors[i].publicUrl.Some?
    ensures changed <==> cleared != config
  {
    changed := false;
    var connectors: seq<Connector> := [];
    for i := 0 to |config.connectors|
      invariant |connectors| == i && forall j | 0 <= j < i :: connectors[j] == ClearedConnector(config.connectors[j])
      invariant changed <==> exists j | 0 <= j < i ::
        config.connectors[j].kind == CloudflareQuick && config.connectors[j].publicUrl.Some?
    {
      var c := config.connectors[i];
      if c.kind == CloudflareQuick && c.publicUrl.Some? {
        changed := true;
        c := c.(publicUrl := None);
      }
      connectors := connectors + [c];
    }
    assert connectors == ClearedAll(config.connectors);
    cleared := config.(connectors := connectors);
    if changed {
      var j :| 0 <= j < |connectors| &&
        config.connectors[j].kind == CloudflareQuick && config.connectors[j].publicUrl.Some?;
      assert connectors[j] != config.connectors[j];
    } else {
      assert connectors == config.connectors;
    }
  }

  /** What is valid has nothing to clear, so saving and loading again changes nothing. */
  lemma ValidIsCleared(config: AppConfig)
    requires ConfigOk(config)
    ensures Cleared(config) == config
  {
    forall i | 0 <= i < |config.connectors| ensures ClearedConnector(config.connectors[i]) == config.connectors[i] {
      assert ConnectorOk(config.connectors[i], config.port);
    }
    assert ClearedAll(config.connectors) == config.connectors;
  }
}
