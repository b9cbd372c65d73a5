/** The audit record and tail MACs (`crates/runonmine-core/src/audit_mac.rs`). */
module AuditMac {
  import opened Common
  import opened Encodings

  datatype Record = Record(sequence: nat, previousHash: Bytes, recordHash: Bytes, payload: Bytes)

  datatype Tail = Tail(anchorHash: Bytes, sequence: nat, recordHash: Bytes, recordMac: Bytes)

  /** What the source's types allow: 64-bit sequence numbers and lengths. */
  predicate RecordFits(r: Record) {
    r.sequence <= U64_MAX && |r.previousHash| <= U64_MAX && |r.recordHash| <= U64_MAX && |r.payload| <= U64_MAX
  }

  predicate TailFits(t: Tail) {
    t.sequence <= U64_MAX && |t.anchorHash| <= U64_MAX && |t.recordHash| <= U64_MAX && |t.recordMac| <= U64_MAX
  }

  /** The limits are those of 64-bit numbers. */
  lemma FitsMeans(r: Record, t: Tail)
    ensures RecordFits(r) <==>
      r.sequence < Pow256(8) && |r.previousHash| < Pow256(8) && |r.recordHash| < Pow256(8) && |r.payload| < Pow256(8)
    ensures TailFits(t) <==>
      t.sequence < Pow256(8) && |t.anchorHash| < Pow256(8) && |t.recordHash| < Pow256(8) && |t.recordMac| < Pow256(8)
  {
    assert Pow256(8) == U64_MAX + 1;
  }

  function RecordDomain(): Bytes {
    Ascii("RunOnMine audit record MAC v1\0")
  }

  function TailDomain(): Bytes {
    Ascii("RunOnMine audit tail MAC v1\0")
  }

  function RecordBytes(r: Record): Bytes
    requires RecordFits(r)
  {
    RecordDomain() + Word(BigEndian, r.sequence) + Prefixed(BigEndian, r.previousHash) +
    Prefixed(BigEndian, r.recordHash) + Prefixed(BigEndian, r.payload)
  }

  function TailBytes(t: Tail): Bytes
    requires TailFits(t)
  {
    TailDomain() + Prefixed(BigEndian, t.anchorHash) + Word(BigEndian, t.sequence) +
    Prefixed(BigEndian, t.recordHash) + Prefixed(BigEndian, t.recordMac)
  }

  /** `hmac` stands for HMAC-SHA-256 under the store's key, followed by hex encoding. */
  method RecordMac<D>(hmac: Bytes -> D, record: Record) returns (mac: D)
    requires RecordFits(record)
    ensures mac == hmac(RecordBytes(record))
  {
    hide RecordDomain;
    hide Word;
    hide Prefixed;
    var hasher := new Hasher();
    hasher.Update(RecordDomain());
    assert hasher.fed == RecordDomain();
    hasher.Update(Word(BigEndian, record.sequence));
    hasher.UpdatePrefixed(BigEndian, record.previousHash);
    hasher.UpdatePrefixed(BigEndian, record.recordHash);
    hasher.UpdatePrefixed(BigEndian, record.payload);
    mac := hmac(hasher.fed);
  }

  method TailMac<D>(hmac: Bytes -> D, tail: Tail) returns (mac: D)
    requires TailFits(tail)
    ensures mac == hmac(TailBytes(tail))
  {
    hide TailDomain;
    hide Word;
    hide Prefixed;
    var hasher := new Hasher();
    hasher.Update(TailDomain());
    assert hasher.fed == TailDomain();
    hasher.UpdatePrefixed(BigEndian, tail.anchorHash);
    hasher.Update(Word(BigEndian, tail.sequence));
    hasher.UpdatePrefixed(BigEndian, tail.recordHash);
    hasher.UpdatePrefixed(BigEndian, tail.recordMac);
    mac := hmac(hasher.fed);
  }

  /** The MAC input determines the record. */
  lemma RecordBytesInjective(r: Record, s: Record)
    requires RecordFits(r) && RecordFits(s)
    requires RecordBytes(r) == RecordBytes(s)
    ensures r == s
  {
    hide RecordDomain;
    hide Word;
    hide Prefixed;
    FiveParts(RecordDomain(), Word(BigEndian, r.sequence), Prefixed(BigEndian, r.previousHash),
              Prefixed(BigEndian, r.recordHash), Prefixed(BigEndian, r.payload));
    FiveParts(RecordDomain(), Word(BigEndian, s.sequence), Prefixed(BigEndian, s.previousHash),
              Prefixed(BigEndian, s.recordHash), Prefixed(BigEndian, s.payload));
    var r3 := Prefixed(BigEndian, r.recordHash) + Prefixed(BigEndian, r.payload);
    var s3 := Prefixed(BigEndian, s.recordHash) + Prefixed(BigEndian, s.payload);
    var r2, s2 := Prefixed(BigEndian, r.previousHash) + r3, Prefixed(BigEndian, s.previousHash) + s3;
    SameHead(RecordDomain(), Word(BigEndian, r.sequence) + r2, Word(BigEndian, s.sequence) + s2);
    WordSplit(BigEndian, r.sequence, r2, s.sequence, s2);
    PrefixedSplit(BigEndian, r.previousHash, r3, s.previousHash, s3);
    PairSplit(BigEndian, r.recordHash, r.payload, s.recordHash, s.payload);
  }

  /** The MAC input determines the tail. */
  lemma TailBytesInjective(t: Tail, u: Tail)
    requires TailFits(t) && TailFits(u)
    requires TailBytes(t) == TailBytes(u)
    ensures t == u
  {
    hide TailDomain;
    hide Word;
    hide Prefixed;
    FiveParts(TailDomain(), Prefixed(BigEndian, t.anchorHash), Word(BigEndian, t.sequence),
              Prefixed(BigEndian, t.recordHash), Prefixed(BigEndian, t.recordMac));
    FiveParts(TailDomain(), Prefixed(BigEndian, u.anchorHash), Word(BigEndian, u.sequence),
              Prefixed(BigEndian, u.recordHash), Prefixed(BigEndian, u.recordMac));
    var t3 := Prefixed(BigEndian, t.recordHash) + Prefixed(BigEndian, t.recordMac);
    var u3 := Prefixed(BigEndian, u.recordHash) + Prefixed(BigEndian, u.recordMac);
    var t2, u2 := Word(BigEndian, t.sequence) + t3, Word(BigEndian, u.sequence) + u3;
    SameHead(TailDomain(), Prefixed(BigEndian, t.anchorHash) + t2, Prefixed(BigEndian, u.anchorHash) + u2);
    PrefixedSplit(BigEndian, t.anchorHash, t2, u.anchorHash, u2);
    WordSplit(BigEndian, t.sequence, t3, u.sequence, u3);
    PairSplit(BigEndian, t.recordHash, t.recordMac, u.recordHash, u.recordMac);
  }

  lemma DomainsDiffer()
    ensures |RecordDomain()| > 16 && |TailDomain()| > 16 && RecordDomain()[16] != TailDomain()[16]
  {
    assert "RunOnMine audit record MAC v1\0"[16] == 'r';
    assert "RunOnMine audit tail MAC v1\0"[16] == 't';
  }

  lemma HeadByte(a: Bytes, b: Bytes, c: Bytes, d: Bytes, e: Bytes, i: nat)
    requires i < |a|
    ensures |a + b + c + d + e| > i && (a + b + c + d + e)[i] == a[i]
  {
  }

  /** No byte string is both a record's and a tail's. */
  lemma RecordIsNotTail(r: Record, t: Tail)
    requires RecordFits(r) && TailFits(t)
    ensures RecordBytes(r) != TailBytes(t)
  {
    hide RecordDomain;
    hide TailDomain;
    hide Word;
    hide Prefixed;
    DomainsDiffer();
    HeadByte(RecordDomain(), Word(BigEndian, r.sequence), Prefixed(BigEndian, r.previousHash),
             Prefixed(BigEndian, r.recordHash), Prefixed(BigEndian, r.payload), 16);
    HeadByte(TailDomain(), Prefixed(BigEndian, t.anchorHash), Word(BigEndian, t.sequence),
             Prefixed(BigEndian, t.recordHash), Prefixed(BigEndian, t.recordMac), 16);
  }

  lemma PlaceOfFive(a: Bytes, b: Bytes, c: Bytes, d: Bytes, e: Bytes)
    ensures var all := a + b + c + d + e; var i, j, k, l := |a|, |a| + |b|, |a| + |b| + |c|, |a| + |b| + |c| + |d|;
      && |all| == l + |e| && all[..i] == a && all[i..j] == b && all[j..k] == c && all[k..l] == d && all[l..] == e
  {
  }

  /** Where each field of a record lies: 30 bytes of domain, 8 of sequence, each length in 8 bytes before its value. */
  lemma RecordLayout(r: Record)
    requires RecordFits(r)
    ensures var all := RecordBytes(r); var p, h, n := |r.previousHash|, |r.recordHash|, |r.payload|;
      && |all| == 62 + p + h + n
      && all[..30] == Ascii("RunOnMine audit record MAC v1\0")
      && all[30..38] == Word(BigEndian, r.sequence)
      && all[38..46 + p] == Word(BigEndian, p) + r.previousHash
      && all[46 + p..54 + p + h] == Word(BigEndian, h) + r.recordHash
      && all[54 + p + h..] == Word(BigEndian, n) + r.payload
  {
    assert |"RunOnMine audit record MAC v1\0"| == 30;
    hide Ascii;
    hide Word;
    PlaceOfFive(RecordDomain(), Word(BigEndian, r.sequence), Prefixed(BigEndian, r.previousHash),
                Prefixed(BigEndian, r.recordHash), Prefixed(BigEndian, r.payload));
  }

  /** Where each field of a tail lies. */
  lemma TailLayout(t: Tail)
    requires TailFits(t)
    ensures var all := TailBytes(t); var a, h, m := |t.anchorHash|, |t.recordHash|, |t.recordMac|;
      && |all| == 60 + a + h + m
      && all[..28] == Ascii("RunOnMine audit tail MAC v1\0")
      && all[28..36 + a] == Word(BigEndian, a) + t.anchorHash
      && all[36 + a..44 + a] == Word(BigEndian, t.sequence)
      && all[44 + a..52 + a + h] == Word(BigEndian, h) + t.recordHash
      && all[52 + a + h..] == Word(BigEndian, m) + t.recordMac
  {
    assert |"RunOnMine audit tail MAC v1\0"| == 28;
    hide Ascii;
    hide Word;
    PlaceOfFive(TailDomain(), Prefixed(BigEndian, t.anchorHash), Word(BigEndian, t.sequence),
                Prefixed(BigEndian, t.recordHash), Prefixed(BigEndian, t.recordMac));
  }

  /** The sequence number is read most significant byte first. */
  lemma SequenceBytes(r: Record, i: nat)
    requires RecordFits(r) && i < 8
    ensures |RecordBytes(r)| >= 38 && Pow256(7 - i) >= 1
    ensures RecordBytes(r)[30 + i] as int == r.sequence / Pow256(7 - i) % 256
  {
    RecordLayout(r);
    DigitAt(BigEndian, r.sequence, 8, i);
    assert RecordBytes(r)[30..38][i] == RecordBytes(r)[30 + i];
  }
}
