/** Approval principals: their fingerprint and their stored form (`crates/runonmine-core/src/approval.rs`). */
module Approval {
  import opened Common
  import opened Encodings

  /** Strings are their UTF-8 bytes. */
  datatype Principal =
    | LocalStdio
    | LocalHttp
    | QuickTunnel
    | OAuth(clientId: Bytes, subject: Bytes)
    | Legacy

  function StorageKind(p: Principal): Bytes {
    match p
    case LocalStdio => Ascii("local_stdio")
    case LocalHttp => Ascii("local_http")
    case QuickTunnel => Ascii("quick_tunnel")
    case OAuth(_, _) => Ascii("oauth")
    case Legacy => Ascii("legacy")
  }

  function OauthClientId(p: Principal): Option<Bytes> {
    if p.OAuth? then Some(p.clientId) else None
  }

  function OauthSubject(p: Principal): Option<Bytes> {
    if p.OAuth? then Some(p.subject) else None
  }

  function OrEmpty(value: Option<Bytes>): Bytes {
    if value.Some? then value.value else []
  }

  predicate Fits(p: Principal) {
    p.OAuth? ==> |p.clientId| <= U64_MAX && |p.subject| <= U64_MAX
  }

  lemma FitsMeans(p: Principal)
    ensures Fits(p) <==> |OrEmpty(OauthClientId(p))| < Pow256(8) && |OrEmpty(OauthSubject(p))| < Pow256(8)
  {
    assert Pow256(8) == U64_MAX + 1;
  }

  /** The kinds have pairwise different lengths, so they are told apart. */
  lemma KindTells(p: Principal, q: Principal)
    ensures |StorageKind(p)| <= 12
    ensures StorageKind(p) == StorageKind(q) ==>
      p.LocalStdio? == q.LocalStdio? && p.LocalHttp? == q.LocalHttp? && p.QuickTunnel? == q.QuickTunnel? &&
      p.OAuth? == q.OAuth?
  {
    hide Ascii;
  }

  // ---- Fingerprint -------------------------------------------------------------------------------------

  function Domain(): Bytes {
    Ascii("runonmine.approval-principal.v1\0")
  }

  function FingerprintBytes(p: Principal): Bytes
    requires Fits(p)
  {
    KindTells(p, p);
    Domain() + Prefixed(LittleEndian, StorageKind(p)) + Prefixed(LittleEndian, OrEmpty(OauthClientId(p))) +
    Prefixed(LittleEndian, OrEmpty(OauthSubject(p)))
  }

  /** `blake3` stands for the hash and its hex encoding. */
  method Fingerprint<D>(blake3: Bytes -> D, p: Principal) returns (fingerprint: D)
    requires Fits(p)
    ensures fingerprint == blake3(FingerprintBytes(p))
  {
    hide Domain;
    hide Prefixed;
    KindTells(p, p);
    hide StorageKind;
    var hasher := new Hasher();
    hasher.Update(Domain());
    assert hasher.fed == Domain();
    hasher.UpdatePrefixed(LittleEndian, StorageKind(p));
    hasher.UpdatePrefixed(LittleEndian, OrEmpty(OauthClientId(p)));
    hasher.UpdatePrefixed(LittleEndian, OrEmpty(OauthSubject(p)));
    fingerprint := blake3(hasher.fed);
  }

  /** The fingerprint input determines the principal. */
  lemma FingerprintBytesInjective(p: Principal, q: Principal)
    requires Fits(p) && Fits(q)
    requires FingerprintBytes(p) == FingerprintBytes(q)
    ensures p == q
  {
    hide Domain;
    hide Prefixed;
    KindTells(p, q);
    KindTells(q, p);
    hide StorageKind;
    var pk, qk := StorageKind(p), StorageKind(q);
    var pc, qc := OrEmpty(OauthClientId(p)), OrEmpty(OauthClientId(q));
    var ps, qs := OrEmpty(OauthSubject(p)), OrEmpty(OauthSubject(q));
    var p2 := Prefixed(LittleEndian, pc) + Prefixed(LittleEndian, ps);
    var q2 := Prefixed(LittleEndian, qc) + Prefixed(LittleEndian, qs);
    FourParts(Domain(), Prefixed(LittleEndian, pk), Prefixed(LittleEndian, pc), Prefixed(LittleEndian, ps));
    FourParts(Domain(), Prefixed(LittleEndian, qk), Prefixed(LittleEndian, qc), Prefixed(LittleEndian, qs));
    SameHead(Domain(), Prefixed(LittleEndian, pk) + p2, Prefixed(LittleEndian, qk) + q2);
    PrefixedSplit(LittleEndian, pk, p2, qk, q2);
    PairSplit(LittleEndian, pc, ps, qc, qs);
  }

  lemma FourParts(a: Bytes, b: Bytes, c: Bytes, d: Bytes)
    ensures a + b + c + d == a + (b + (c + d))
  {
  }

  /** Where each part of a fingerprint lies: 32 bytes of domain, and each length in 8 bytes before its value. */
  lemma FingerprintLayout(p: Principal)
    requires Fits(p)
    ensures var all := FingerprintBytes(p); var kind := StorageKind(p);
      var client := if p.OAuth? then p.clientId else []; var subject := if p.OAuth? then p.subject else [];
      var k, c, s := |kind|, |client|, |subject|;
      && k <= 12 && |all| == 56 + k + c + s
      && all[..32] == Ascii("runonmine.approval-principal.v1\0")
      && all[32..40 + k] == Word(LittleEndian, k) + kind
      && all[40 + k..48 + k + c] == Word(LittleEndian, c) + client
      && all[48 + k + c..] == Word(LittleEndian, s) + subject
  {
    assert |"runonmine.approval-principal.v1\0"| == 32;
    KindTells(p, p);
    hide Ascii;
    hide Word;
    hide StorageKind;
    PlaceOfFour(Domain(), Prefixed(LittleEndian, StorageKind(p)), Prefixed(LittleEndian, OrEmpty(OauthClientId(p))),
                Prefixed(LittleEndian, OrEmpty(OauthSubject(p))));
  }

  lemma PlaceOfFour(a: Bytes, b: Bytes, c: Bytes, d: Bytes)
    ensures var all := a + b + c + d; var i, j, k := |a|, |a| + |b|, |a| + |b| + |c|;
      && |all| == k + |d| && all[..i] == a && all[i..j] == b && all[j..k] == c && all[k..] == d
  {
  }

  // ---- Stored form ---------------------------------------------------------------------------------------

  function NonEmpty(value: Option<Bytes>): Option<Bytes> {
    if value == Some([]) then None else value
  }

  /** `from_storage`: the principal of a stored row, or nothing for an invalid one. */
  function FromStorage(kind: Bytes, clientId: Option<Bytes>, subject: Option<Bytes>): Option<Principal> {
    var bare := clientId.None? && subject.None?;
    if kind == StorageKind(LocalStdio) && bare then Some(LocalStdio)
    else if kind == StorageKind(LocalHttp) && bare then Some(LocalHttp)
    else if kind == StorageKind(QuickTunnel) && bare then Some(QuickTunnel)
    else if kind == Ascii("oauth") then
      match (NonEmpty(clientId), NonEmpty(subject))
      case (Some(c), Some(s)) => Some(OAuth(c, s))
      case _ => None
    else if kind == StorageKind(Legacy) && bare then Some(Legacy)
    else None
  }

  /** A principal whose row can be read back: every one but an OAuth principal with an empty field. */
  predicate Complete(p: Principal) {
    p.OAuth? ==> p.clientId != [] && p.subject != []
  }

  /** A row is accepted as `p` exactly when it is the row `p` is stored as and `p` is complete. */
  lemma FromStorageIff(kind: Bytes, clientId: Option<Bytes>, subject: Option<Bytes>, p: Principal)
    ensures FromStorage(kind, clientId, subject) == Some(p) <==>
      kind == StorageKind(p) && clientId == OauthClientId(p) && subject == OauthSubject(p) && Complete(p)
  {
    KindTells(p, LocalStdio);
    KindTells(p, LocalHttp);
    KindTells(p, QuickTunnel);
    KindTells(p, OAuth([], []));
    KindTells(p, Legacy);
    assert StorageKind(OAuth([], [])) == Ascii("oauth");
    match p
    case OAuth(_, _) => assert StorageKind(p) == Ascii("oauth");
    case _ => hide StorageKind;
  }

  /** The rows the program reads: the kind is one of five names, and only an OAuth row has the other columns. */
  lemma StoredRows(kind: Bytes, clientId: Option<Bytes>, subject: Option<Bytes>)
    ensures FromStorage(kind, clientId, subject) == Some(LocalStdio) <==>
      kind == Ascii("local_stdio") && clientId == None && subject == None
    ensures FromStorage(kind, clientId, subject) == Some(LocalHttp) <==>
      kind == Ascii("local_http") && clientId == None && subject == None
    ensures FromStorage(kind, clientId, subject) == Some(QuickTunnel) <==>
      kind == Ascii("quick_tunnel") && clientId == None && subject == None
    ensures FromStorage(kind, clientId, subject) == Some(Legacy) <==>
      kind == Ascii("legacy") && clientId == None && subject == None
    ensures forall c, s :: FromStorage(kind, clientId, subject) == Some(OAuth(c, s)) <==>
      kind == Ascii("oauth") && clientId == Some(c) && subject == Some(s) && c != [] && s != []
  {
    FromStorageIff(kind, clientId, subject, LocalStdio);
    FromStorageIff(kind, clientId, subject, LocalHttp);
    FromStorageIff(kind, clientId, subject, QuickTunnel);
    FromStorageIff(kind, clientId, subject, Legacy);
    forall c, s ensures FromStorage(kind, clientId, subject) == Some(OAuth(c, s)) <==>
      kind == Ascii("oauth") && clientId == Some(c) && subject == Some(s) && c != [] && s != []
    {
      FromStorageIff(kind, clientId, subject, OAuth(c, s));
    }
    hide FromStorage;
    hide Ascii;
  }
}
