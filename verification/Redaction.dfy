/**
 Secret redaction of child-process output (`crates/runonmine-connectors/src/process.rs`).

 A stream is cut into spans, each either one byte that is passed through or one whole secret
 that is replaced by the marker. The reference meaning is `LeftmostLongest`: scanning from the
 left, a secret is hidden wherever one starts, and the longest one that starts there is chosen.
 */
module Redaction {
  import opened Common

  const MAX_SECRET_BYTES: nat := 16 * 1024

  const LF: byte := 10
  const CR: byte := 13

  /** The bytes of `[REDACTED]`. */
  const REDACTED: Bytes := [91, 82, 69, 68, 65, 67, 84, 69, 68, 93]

  // ---- Secrets and the redactor --------------------------------------------------------

  ghost predicate ValidSecret(value: Bytes) {
    0 < |value| <= MAX_SECRET_BYTES && 0 !in value && CR !in value && LF !in value
  }

  datatype SecretError = Empty | TooLong | Forbidden

  datatype SecretResult = Accepted(secret: Bytes) | Rejected(error: SecretError)

  /** `SecretValue::new`: the checks in the order the source makes them. */
  function NewSecret(value: Bytes): (r: SecretResult)
    ensures r.Accepted? <==> ValidSecret(value)
    ensures r.Accepted? ==> r.secret == value
    ensures r == Rejected(Empty) <==> |value| == 0
    ensures r == Rejected(TooLong) <==> |value| > MAX_SECRET_BYTES
    ensures r == Rejected(Forbidden) <==> 0 < |value| <= MAX_SECRET_BYTES && (0 in value || CR in value || LF in value)
  {
    if value == [] then Rejected(Empty)
    else if |value| > MAX_SECRET_BYTES then Rejected(TooLong)
    else if exists i | 0 <= i < |value| :: value[i] == 0 || value[i] == CR || value[i] == LF then Rejected(Forbidden)
    else Accepted(value)
  }

  /** An argument or an environment value of the command. */
  datatype CommandValue = Public(text: Bytes) | Secret(secret: Bytes)

  function SecretsOf(values: seq<CommandValue>): (secrets: seq<Bytes>)
  {
    if values == [] then []
    else (if values[0].Secret? then [values[0].secret] else []) + SecretsOf(values[1..])
  }

  /** Stable insertion after every element that is at least as long. */
  function InsertByLength(secret: Bytes, sorted: seq<Bytes>): seq<Bytes> {
    if sorted == [] || |sorted[0]| < |secret| then [secret] + sorted
    else [sorted[0]] + InsertByLength(secret, sorted[1..])
  }

  /** `sort_by_key(Reverse(len))`, built from the right end so that equal lengths keep their order. */
  function SortByLength(secrets: seq<Bytes>): seq<Bytes> {
    if secrets == [] then []
    else
      var n := |secrets| - 1;
      InsertByLength(secrets[n], SortByLength(secrets[..n]))
  }

  /** `Vec::dedup`: only neighbouring repeats are dropped. */
  function Dedup(secrets: seq<Bytes>): seq<Bytes> {
    if |secrets| < 2 then secrets
    else if secrets[0] == secrets[1] then Dedup(secrets[1..])
    else [secrets[0]] + Dedup(secrets[1..])
  }

  datatype Redactor = Redactor(secrets: seq<Bytes>)

  /** `CommandSpec::redactor`. */
  function MakeRedactor(args: seq<CommandValue>, environment: seq<CommandValue>): Redactor {
    Redactor(Dedup(SortByLength(SecretsOf(args) + SecretsOf(environment))))
  }

  ghost predicate LongestFirst(secrets: seq<Bytes>) {
    forall i, j | 0 <= i < j < |secrets| :: |secrets[j]| <= |secrets[i]|
  }

  /** What every redactor the program builds satisfies: real secrets, longest first. */
  ghost predicate Valid(r: Redactor) {
    LongestFirst(r.secrets) && forall s | s in r.secrets :: ValidSecret(s)
  }

  lemma {:induction false} InsertByLengthKeeps(secret: Bytes, sorted: seq<Bytes>)
    requires LongestFirst(sorted)
    ensures LongestFirst(InsertByLength(secret, sorted))
    ensures forall s :: s in InsertByLength(secret, sorted) <==> s == secret || s in sorted
  {
    if sorted != [] && |sorted[0]| >= |secret| {
      var rest := sorted[1..];
      InsertByLengthKeeps(secret, rest);
      var out := InsertByLength(secret, rest);
      forall j | 0 <= j < |out| ensures |out[j]| <= |sorted[0]| {
        assert out[j] in out;
      }
      assert sorted == [sorted[0]] + rest;
    }
  }

  lemma {:induction false} SortByLengthKeeps(secrets: seq<Bytes>)
    ensures LongestFirst(SortByLength(secrets))
    ensures forall s :: s in SortByLength(secrets) <==> s in secrets
  {
    if secrets != [] {
      var n := |secrets| - 1;
      SortByLengthKeeps(secrets[..n]);
      InsertByLengthKeeps(secrets[n], SortByLength(secrets[..n]));
      assert secrets == secrets[..n] + [secrets[n]];
    }
  }

  /** The secrets of one length, in the order in which they stand. */
  ghost function OfLength(n: nat, secrets: seq<Bytes>): seq<Bytes> {
    if secrets == [] then []
    else (if |secrets[0]| == n then [secrets[0]] else []) + OfLength(n, secrets[1..])
  }

  lemma {:induction false} NoneOfLength(n: nat, secrets: seq<Bytes>)
    requires forall s | s in secrets :: |s| < n
    ensures OfLength(n, secrets) == []
  {
    if secrets != [] {
      assert secrets[0] in secrets;
      NoneOfLength(n, secrets[1..]);
    }
  }

  lemma {:induction false} OfLengthThen(n: nat, secrets: seq<Bytes>, last: Bytes)
    ensures OfLength(n, secrets + [last]) == OfLength(n, secrets) + if |last| == n then [last] else []
  {
    if secrets != [] {
      OfLengthThen(n, secrets[1..], last);
      assert (secrets + [last])[1..] == secrets[1..] + [last];
    }
  }

  lemma {:induction false} InsertIsStable(n: nat, secret: Bytes, sorted: seq<Bytes>)
    requires LongestFirst(sorted)
    ensures OfLength(n, InsertByLength(secret, sorted)) == OfLength(n, sorted) + if |secret| == n then [secret] else []
  {
    if sorted == [] || |sorted[0]| < |secret| {
      assert ([secret] + sorted)[1..] == sorted;
      if |secret| == n {
        NoneOfLength(n, sorted);
      }
    } else {
      InsertIsStable(n, secret, sorted[1..]);
      var out := InsertByLength(secret, sorted[1..]);
      assert ([sorted[0]] + out)[1..] == out;
    }
  }

  /**
   Sorting keeps every occurrence, and secrets of one length in the order in which the command names them: with
   `LongestFirst`, that determines the sorted list.
   */
  lemma {:induction false} SortIsStable(n: nat, secrets: seq<Bytes>)
    ensures OfLength(n, SortByLength(secrets)) == OfLength(n, secrets)
  {
    if secrets != [] {
      var last := |secrets| - 1;
      SortByLengthKeeps(secrets[..last]);
      SortIsStable(n, secrets[..last]);
      InsertIsStable(n, secrets[last], SortByLength(secrets[..last]));
      OfLengthThen(n, secrets[..last], secrets[last]);
      assert secrets == secrets[..last] + [secrets[last]];
    }
  }

  ghost predicate NeighboursDiffer(secrets: seq<Bytes>) {
    forall i | 0 < i < |secrets| :: secrets[i - 1] != secrets[i]
  }

  lemma {:induction false} DedupDiffers(secrets: seq<Bytes>)
    ensures NeighboursDiffer(Dedup(secrets))
    ensures secrets != [] ==> Dedup(secrets) != [] && Dedup(secrets)[0] == secrets[0]
  {
    if |secrets| >= 2 {
      DedupDiffers(secrets[1..]);
    }
  }

  lemma {:induction false} DedupKeeps(secrets: seq<Bytes>)
    requires LongestFirst(secrets)
    ensures LongestFirst(Dedup(secrets))
    ensures forall s :: s in Dedup(secrets) <==> s in secrets
  {
    if |secrets| >= 2 {
      var rest := secrets[1..];
      DedupKeeps(rest);
      assert secrets == [secrets[0]] + rest;
      forall j | 0 <= j < |Dedup(rest)| ensures |Dedup(rest)[j]| <= |secrets[0]| {
        assert Dedup(rest)[j] in rest;
      }
    }
  }

  /**
   The redactor holds exactly the command's secrets, longest first and no two neighbours equal: nothing is lost by
   sorting or dedup.
   */
  lemma MakeRedactorComplete(args: seq<CommandValue>, environment: seq<CommandValue>)
    ensures LongestFirst(MakeRedactor(args, environment).secrets)
    ensures NeighboursDiffer(MakeRedactor(args, environment).secrets)
    ensures forall s :: s in MakeRedactor(args, environment).secrets <==> Secret(s) in args || Secret(s) in environment
    ensures (forall s | Secret(s) in args || Secret(s) in environment :: ValidSecret(s)) ==>
      Valid(MakeRedactor(args, environment))
  {
    var all := SecretsOf(args) + SecretsOf(environment);
    SortByLengthKeeps(all);
    DedupKeeps(SortByLength(all));
    DedupDiffers(SortByLength(all));
    hide NeighboursDiffer;
    SecretsOfMembers(args);
    SecretsOfMembers(environment);
  }

  lemma {:induction false} SecretsOfMembers(values: seq<CommandValue>)
    ensures forall s :: s in SecretsOf(values) <==> Secret(s) in values
  {
    if values != [] {
      SecretsOfMembers(values[1..]);
      assert values == [values[0]] + values[1..];
    }
  }

  function MaxLength(secrets: seq<Bytes>): (m: nat)
    ensures forall s | s in secrets :: |s| <= m
    ensures secrets != [] ==> exists s | s in secrets :: |s| == m
  {
    if secrets == [] then 0
    else
      assert secrets == [secrets[0]] + secrets[1..];
      var rest := MaxLength(secrets[1..]);
      if |secrets[0]| >= rest then |secrets[0]| else rest
  }

  /** `overlap_len`: one byte less than the longest secret, zero when there is none. */
  function OverlapLen(r: Redactor): (n: nat)
    ensures forall s | s in r.secrets :: |s| <= n + 1
    ensures r.secrets == [] ==> n == 0
    ensures Valid(r) && r.secrets != [] ==> exists s | s in r.secrets :: |s| == n + 1
    ensures Valid(r) ==> n < MAX_SECRET_BYTES
  {
    var longest := if r.secrets == [] then 1 else MaxLength(r.secrets);
    if longest == 0 then 0 else longest - 1
  }

  // ---- The one-shot pass ------------------------------------------------------------------

  predicate OccursAt(stream: Bytes, at: nat, secret: Bytes) {
    at + |secret| <= |stream| && stream[at..at + |secret|] == secret
  }

  /**
   The length of the first listed secret that starts at `at`, zero when none does
   (`secrets.iter().find(|secret| input[at..].starts_with(secret))`).
   */
  function MatchAt(secrets: seq<Bytes>, stream: Bytes, at: nat): (n: nat)
    ensures at <= |stream| ==> at + n <= |stream|
  {
    if secrets == [] then 0
    else if OccursAt(stream, at, secrets[0]) then |secrets[0]|
    else MatchAt(secrets[1..], stream, at)
  }

  /** How far one turn of the scan moves from `at`. */
  function Advance(r: Redactor, stream: Bytes, at: nat): (n: nat)
    requires at < |stream|
    ensures 0 < n <= |stream| - at
  {
    var n := MatchAt(r.secrets, stream, at);
    if n == 0 then 1 else n
  }

  /** What one turn of the scan writes. */
  function Emit(r: Redactor, stream: Bytes, at: nat): (out: Bytes)
    requires at < |stream|
    ensures out != []
  {
    if MatchAt(r.secrets, stream, at) == 0 then [stream[at]] else REDACTED
  }

  /** The one-shot pass over the stream from `at` to its end. */
  function RedactFrom(r: Redactor, stream: Bytes, at: nat): Bytes
    requires at <= |stream|
    decreases |stream| - at
  {
    if at == |stream| then []
    else Emit(r, stream, at) + RedactFrom(r, stream, at + Advance(r, stream, at))
  }

  function Redact(r: Redactor, stream: Bytes): Bytes {
    RedactFrom(r, stream, 0)
  }

  /** The marker, spelled out. */
  lemma MarkerReads()
    ensures var text := "[REDACTED]";
      |REDACTED| == |text| && forall i | 0 <= i < |text| :: REDACTED[i] as int == text[i] as int
  {
  }

  // ---- Its reference meaning ------------------------------------------------------------------

  /** Bytes `start..end` of the stream, passed through or replaced by the marker. */
  datatype Span = Span(start: nat, end: nat, hidden: bool)

  /** `n` is the length of the longest of the secrets that start at `at`. */
  ghost predicate LongestAt(secrets: set<Bytes>, stream: Bytes, at: nat, n: nat) {
    && (exists s | s in secrets :: OccursAt(stream, at, s) && |s| == n)
    && (forall s | s in secrets && OccursAt(stream, at, s) :: |s| <= n)
  }

  /** The reference meaning of a redaction of the stream from `at` on: a set of secrets and no algorithm. */
  ghost predicate LeftmostLongest(secrets: set<Bytes>, stream: Bytes, spans: seq<Span>, at: nat)
    decreases |spans|
  {
    if spans == [] then at == |stream|
    else
      && spans[0].start == at
      && SpanRight(secrets, stream, spans[0])
      && LeftmostLongest(secrets, stream, spans[1..], spans[0].end)
  }

  ghost predicate SpanRight(secrets: set<Bytes>, stream: Bytes, span: Span) {
    && span.start < span.end <= |stream|
    && (if span.hidden then LongestAt(secrets, stream, span.start, span.end - span.start)
        else span.end == span.start + 1 && forall s | s in secrets :: !OccursAt(stream, span.start, s))
  }

  function RenderSpan(stream: Bytes, span: Span): Bytes {
    if span.hidden then REDACTED
    else if span.start < |stream| then [stream[span.start]]
    else []
  }

  /** The bytes written for the spans. */
  function Render(stream: Bytes, spans: seq<Span>): Bytes {
    if spans == [] then [] else RenderSpan(stream, spans[0]) + Render(stream, spans[1..])
  }

  ghost function SetOf(secrets: seq<Bytes>): set<Bytes> {
    set s | s in secrets
  }

  lemma {:induction false} MatchAtComplete(secrets: seq<Bytes>, stream: Bytes, at: nat)
    requires LongestFirst(secrets) && [] !in secrets
    ensures var n := MatchAt(secrets, stream, at);
      if n == 0 then forall s | s in secrets :: !OccursAt(stream, at, s)
      else LongestAt(SetOf(secrets), stream, at, n)
  {
    if secrets != [] {
      assert secrets == [secrets[0]] + secrets[1..];
      if OccursAt(stream, at, secrets[0]) {
        forall s | s in secrets ensures |s| <= |secrets[0]| {
          var j :| 0 <= j < |secrets| && secrets[j] == s;
        }
      } else {
        MatchAtComplete(secrets[1..], stream, at);
      }
    }
  }

  /** The spans of the pass from `at` on. */
  function Spans(r: Redactor, stream: Bytes, at: nat): seq<Span>
    requires at <= |stream|
    decreases |stream| - at
  {
    if at == |stream| then []
    else
      var next := at + Advance(r, stream, at);
      [Span(at, next, MatchAt(r.secrets, stream, at) != 0)] + Spans(r, stream, next)
  }

  lemma {:induction false} RedactFromSpans(r: Redactor, stream: Bytes, at: nat)
    requires Valid(r) && at <= |stream|
    ensures LeftmostLongest(SetOf(r.secrets), stream, Spans(r, stream, at), at)
    ensures RedactFrom(r, stream, at) == Render(stream, Spans(r, stream, at))
    decreases |stream| - at
  {
    if at < |stream| {
      MatchAtComplete(r.secrets, stream, at);
      var next := at + Advance(r, stream, at);
      RedactFromSpans(r, stream, next);
      var spans := Spans(r, stream, at);
      assert spans[0] == Span(at, next, MatchAt(r.secrets, stream, at) != 0);
      assert spans[1..] == Spans(r, stream, next);
    }
  }

  /** What the pass writes is the leftmost, longest-first redaction, whatever the order of equally long secrets. */
  lemma RedactIsLeftmostLongest(r: Redactor, stream: Bytes)
    requires Valid(r)
    ensures LeftmostLongest(SetOf(r.secrets), stream, Spans(r, stream, 0), 0)
    ensures Redact(r, stream) == Render(stream, Spans(r, stream, 0))
  {
    RedactFromSpans(r, stream, 0);
  }

  /** The reference meaning leaves no choice. */
  lemma {:induction false} LeftmostLongestUnique(
    secrets: set<Bytes>, stream: Bytes, a: seq<Span>, b: seq<Span>, at: nat)
    requires LeftmostLongest(secrets, stream, a, at) && LeftmostLongest(secrets, stream, b, at)
    ensures a == b
    decreases |a|
  {
    if a != [] && b != [] {
      assert a[0] == b[0];
      LeftmostLongestUnique(secrets, stream, a[1..], b[1..], a[0].end);
      assert a == [a[0]] + a[1..] && b == [b[0]] + b[1..];
    }
  }

  /**
   The first byte of every occurrence of every secret is inside a hidden span, and the whole
   occurrence is hidden unless it starts strictly inside another, earlier hidden secret.
   */
  lemma {:induction false} OccurrenceHidden(
    secrets: set<Bytes>, stream: Bytes, spans: seq<Span>, at: nat, secret: Bytes, where: nat)
    returns (span: Span)
    requires LeftmostLongest(secrets, stream, spans, at)
    requires secret in secrets && secret != [] && at <= where && OccursAt(stream, where, secret)
    ensures span in spans && span.hidden && span.start <= where < span.end
    ensures span.start == where ==> where + |secret| <= span.end
    decreases |spans|
  {
    if where < spans[0].end {
      span := spans[0];
    } else {
      span := OccurrenceHidden(secrets, stream, spans[1..], spans[0].end, secret, where);
    }
  }
}
