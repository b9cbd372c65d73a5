/**
 Occurrences that overlap (`redact_prefix` in `crates/runonmine-connectors/src/process.rs`).

 An occurrence that begins inside a replaced one is not replaced by a marker of its own. Whether
 all of it is still hidden depends on the secrets alone, and the two theorems here say how.
 */
module Overlaps {
  import opened Common
  import opened Redaction
  import opened Streaming

  /** A stream can run from the first secret, at its offset `at`, into the second. */
  ghost predicate RunsInto(first: Bytes, second: Bytes, at: nat) {
    0 < at < |first| && |first| - at < |second| && first[at..] == second[..|first| - at]
  }

  /** The shortest stream in which that happens. */
  function Joined(first: Bytes, second: Bytes, at: nat): Bytes {
    (if at <= |first| then first[..at] else first) + second
  }

  lemma JoinedShowsBoth(first: Bytes, second: Bytes, at: nat)
    requires RunsInto(first, second, at)
    ensures OccursAt(Joined(first, second, at), 0, first) && OccursAt(Joined(first, second, at), at, second)
    ensures |Joined(first, second, at)| > |first|
  {
    var stream := Joined(first, second, at);
    assert stream[at..] == second && stream[..at] == first[..at];
    assert stream[..|first|] == stream[..at] + stream[at..|first|];
    assert first == first[..at] + first[at..];
    SliceSlice(stream, at, |stream|, 0, |first| - at);
  }

  lemma OverlapRunsInto(stream: Bytes, start: nat, first: Bytes, where: nat, second: Bytes)
    requires OccursAt(stream, start, first) && OccursAt(stream, where, second)
    requires start < where < start + |first| < where + |second|
    ensures RunsInto(first, second, where - start)
    ensures stream[start..where + |second|] == Joined(first, second, where - start)
  {
    SliceSlice(stream, start, start + |first|, where - start, |first|);
    SliceSlice(stream, where, where + |second|, 0, start + |first| - where);
    SliceSlice(stream, start, start + |first|, 0, where - start);
    assert stream[start..where] + stream[where..where + |second|] == stream[start..where + |second|];
  }

  // ---- Spans ---------------------------------------------------------------------------------------------

  lemma {:induction false} SpanInStream(secrets: set<Bytes>, stream: Bytes, spans: seq<Span>, at: nat, span: Span)
    requires LeftmostLongest(secrets, stream, spans, at) && span in spans
    ensures SpanRight(secrets, stream, span) && at <= span.start
    ensures span == spans[0] || spans[0].end <= span.start
    decreases |spans|
  {
    if span != spans[0] {
      SpanInStream(secrets, stream, spans[1..], spans[0].end, span);
    }
  }

  /** A hidden span of the scan holds one of the secrets. */
  lemma SpanSecret(r: Redactor, stream: Bytes, span: Span) returns (first: Bytes)
    requires Valid(r) && span in Spans(r, stream, 0) && span.hidden
    ensures span.start < span.end <= |stream|
    ensures first in r.secrets && OccursAt(stream, span.start, first) && |first| == span.end - span.start
  {
    hide Spans;
    hide LeftmostLongest;
    RedactIsLeftmostLongest(r, stream);
    SpanInStream(SetOf(r.secrets), stream, Spans(r, stream, 0), 0, span);
    first :| first in SetOf(r.secrets) && OccursAt(stream, span.start, first) && |first| == span.end - span.start;
  }

  /** The span that hides the beginning of an occurrence; if it ends too early, its secret runs into the other. */
  lemma HidingSpan(r: Redactor, stream: Bytes, secret: Bytes, where: nat) returns (span: Span, first: Bytes)
    requires Valid(r) && secret in r.secrets && OccursAt(stream, where, secret)
    ensures span in Spans(r, stream, 0) && span.hidden && span.start <= where < span.end <= |stream|
    ensures first in r.secrets
    ensures span.end < where + |secret| ==>
      && RunsInto(first, secret, where - span.start)
      && stream[span.start..where + |secret|] == Joined(first, secret, where - span.start)
  {
    hide Spans;
    hide LeftmostLongest;
    hide RunsInto;
    hide Joined;
    RedactIsLeftmostLongest(r, stream);
    assert secret in SetOf(r.secrets) && ValidSecret(secret);
    span := OccurrenceHidden(SetOf(r.secrets), stream, Spans(r, stream, 0), 0, secret, where);
    first := SpanSecret(r, stream, span);
    hide Valid;
    hide SetOf;
    if span.end < where + |secret| {
      OverlapRunsInto(stream, span.start, first, where, secret);
    }
  }

  /** Where a secret occurs at the very beginning, the first span hides at least that much. */
  lemma FirstSpan(r: Redactor, stream: Bytes, secret: Bytes) returns (span: Span)
    requires Valid(r) && secret in r.secrets && OccursAt(stream, 0, secret)
    ensures Spans(r, stream, 0) != [] && span == Spans(r, stream, 0)[0]
    ensures span.hidden && span.start == 0 && |secret| <= span.end <= |stream|
    ensures exists s | s in r.secrets :: OccursAt(stream, 0, s) && |s| == span.end
  {
    assert ValidSecret(secret);
    MatchAtComplete(r.secrets, stream, 0);
    span := Spans(r, stream, 0)[0];
  }

  // ---- Replaced by one marker -------------------------------------------------------------------------------

  ghost predicate InOneSpan(spans: seq<Span>, where: nat, length: nat) {
    exists span | span in spans :: span.hidden && span.start <= where && where + length <= span.end
  }

  /** Every occurrence of every secret in every stream is replaced by a single marker. */
  ghost predicate AlwaysInOneSpan(r: Redactor) {
    forall stream, secret, where: nat | secret in r.secrets && OccursAt(stream, where, secret) ::
      InOneSpan(Spans(r, stream, 0), where, |secret|)
  }

  /** Whatever two secrets that run into each other look like together is a secret too. */
  ghost predicate JoinsAreSecrets(r: Redactor) {
    forall first, second, at: nat | first in r.secrets && second in r.secrets && RunsInto(first, second, at) ::
      Joined(first, second, at) in r.secrets
  }

  lemma JoinsInOneSpan(r: Redactor, stream: Bytes, secret: Bytes, where: nat)
    requires Valid(r) && JoinsAreSecrets(r) && secret in r.secrets && OccursAt(stream, where, secret)
    ensures InOneSpan(Spans(r, stream, 0), where, |secret|)
  {
    hide RunsInto;
    var span, first := HidingSpan(r, stream, secret, where);
    if span.end < where + |secret| {
      var joined := Joined(first, secret, where - span.start);
      assert OccursAt(stream, span.start, joined);
      RedactIsLeftmostLongest(r, stream);
      SpanInStream(SetOf(r.secrets), stream, Spans(r, stream, 0), 0, span);
    }
  }

  lemma OneSpanMeansSecret(r: Redactor, first: Bytes, second: Bytes, at: nat)
    requires Valid(r) && AlwaysInOneSpan(r)
    requires first in r.secrets && second in r.secrets && RunsInto(first, second, at)
    ensures Joined(first, second, at) in r.secrets
  {
    var stream := Joined(first, second, at);
    JoinedShowsBoth(first, second, at);
    hide RunsInto;
    hide Spans;
    var spans := Spans(r, stream, 0);
    var head := FirstSpan(r, stream, first);
    assert InOneSpan(spans, at, |second|);
    var span :| span in spans && span.hidden && span.start <= at && at + |second| <= span.end;
    RedactIsLeftmostLongest(r, stream);
    SpanInStream(SetOf(r.secrets), stream, spans, 0, span);
    var s :| s in r.secrets && OccursAt(stream, 0, s) && |s| == head.end;
    assert stream[0..|stream|] == stream;
  }

  /** Every occurrence is replaced by one marker if and only if the secrets are closed under joining. */
  lemma OneMarkerIff(r: Redactor)
    requires Valid(r)
    ensures AlwaysInOneSpan(r) <==> JoinsAreSecrets(r)
  {
    hide RunsInto;
    hide InOneSpan;
    hide Spans;
    hide Valid;
    if JoinsAreSecrets(r) {
      forall stream, secret, where: nat | secret in r.secrets && OccursAt(stream, where, secret)
        ensures InOneSpan(Spans(r, stream, 0), where, |secret|)
      {
        JoinsInOneSpan(r, stream, secret, where);
      }
    }
    if AlwaysInOneSpan(r) {
      forall first, second, at: nat | first in r.secrets && second in r.secrets && RunsInto(first, second, at)
        ensures Joined(first, second, at) in r.secrets
      {
        OneSpanMeansSecret(r, first, second, at);
      }
    }
  }

  // ---- No byte stays ------------------------------------------------------------------------------------------

  ghost predicate HiddenAt(spans: seq<Span>, i: nat) {
    exists span | span in spans :: span.hidden && span.start <= i < span.end
  }

  ghost predicate AllHidden(spans: seq<Span>, from: nat, to: nat) {
    forall i: nat | from <= i < to :: HiddenAt(spans, i)
  }

  /** No byte of any occurrence of any secret in any stream is passed through. */
  ghost predicate NoByteStays(r: Redactor) {
    forall stream, secret, where: nat | secret in r.secrets && OccursAt(stream, where, secret) ::
      AllHidden(Spans(r, stream, 0), where, where + |secret|)
  }

  /** Taking the longest secret off the front again and again uses the text up. */
  predicate MadeOfSecrets(r: Redactor, text: Bytes)
    decreases |text|
  {
    text == [] ||
    var n := MatchAt(r.secrets, text, 0);
    n != 0 && MadeOfSecrets(r, text[n..])
  }

  ghost predicate JoinsAreMadeOfSecrets(r: Redactor) {
    forall first, second, at: nat | first in r.secrets && second in r.secrets && RunsInto(first, second, at) ::
      MadeOfSecrets(r, Joined(first, second, at))
  }

  /** The longest secret at `at` is the longest that fits before `to`, or reaches past it. */
  lemma WindowMatch(r: Redactor, stream: Bytes, at: nat, to: nat)
    requires Valid(r) && at < to <= |stream|
    ensures var inside, whole := MatchAt(r.secrets, stream[at..to], 0), MatchAt(r.secrets, stream, at);
      inside <= whole && (whole == inside || at + whole > to)
  {
    hide LongestAt;
    var window := stream[at..to];
    var inside, whole := MatchAt(r.secrets, window, 0), MatchAt(r.secrets, stream, at);
    LongestMatch(r, window, 0);
    LongestMatch(r, stream, at);
    hide Valid;
    hide MatchAt;
    if inside != 0 {
      var s :| s in r.secrets && OccursAt(window, 0, s) && |s| == inside;
      OccursInWindow(stream, at, to, 0, s);
    }
    if whole != 0 && at + whole <= to {
      var s :| s in r.secrets && OccursAt(stream, at, s) && |s| == whole;
      OccursInWindow(stream, at, to, 0, s);
    }
  }

  lemma LongestMatch(r: Redactor, stream: Bytes, at: nat)
    requires Valid(r)
    ensures var n := MatchAt(r.secrets, stream, at);
      && (n != 0 ==> exists s | s in r.secrets :: OccursAt(stream, at, s) && |s| == n)
      && (forall s | s in r.secrets && OccursAt(stream, at, s) :: |s| <= n)
  {
    MatchAtComplete(r.secrets, stream, at);
  }

  /** A stretch of the stream that is made of secrets is hidden when the scan gets to its beginning. */
  lemma {:induction false} MadeOfSecretsHides(r: Redactor, stream: Bytes, at: nat, to: nat)
    requires Valid(r) && at <= to <= |stream| && MadeOfSecrets(r, stream[at..to])
    ensures AllHidden(Spans(r, stream, at), at, to)
    decreases |stream| - at
  {
    if at < to {
      WindowMatch(r, stream, at, to);
      hide MatchAt;
      hide Valid;
      var next := at + MatchAt(r.secrets, stream, at);
      if next < to {
        DropDrop(stream[..to], at, next - at);
        assert stream[..to][at..] == stream[at..to] && stream[..to][next..] == stream[next..to];
        MadeOfSecretsHides(r, stream, next, to);
      }
      forall i: nat | at <= i < to ensures HiddenAt(Spans(r, stream, at), i) {
        if i < next {
          assert Spans(r, stream, at)[0] == Span(at, next, true);
        } else {
          HiddenLater(r, stream, at, i);
        }
      }
    }
  }

  lemma HiddenLater(r: Redactor, stream: Bytes, at: nat, i: nat)
    requires at < |stream|
    ensures var next := at + Advance(r, stream, at);
      i >= next ==> (HiddenAt(Spans(r, stream, at), i) <==> HiddenAt(Spans(r, stream, next), i))
  {
    var next := at + Advance(r, stream, at);
    var head, rest := Span(at, next, MatchAt(r.secrets, stream, at) != 0), Spans(r, stream, next);
    assert Spans(r, stream, at) == [head] + rest;
    assert forall span :: span in [head] + rest <==> span == head || span in rest;
  }

  /** The spans from a span of the scan on are spans of the scan. */
  lemma {:induction false} SpansFrom(r: Redactor, stream: Bytes, at: nat, span: Span, later: Span)
    requires at <= |stream| && span in Spans(r, stream, at)
    ensures at <= span.start < |stream|
    ensures later in Spans(r, stream, span.start) ==> later in Spans(r, stream, at)
    decreases |stream| - at
  {
    var spans := Spans(r, stream, at);
    var rest := Spans(r, stream, at + Advance(r, stream, at));
    assert spans == [spans[0]] + rest;
    if span != spans[0] {
      SpansFrom(r, stream, at + Advance(r, stream, at), span, later);
    }
  }

  lemma MadeOfSecretsNoByteStays(r: Redactor, stream: Bytes, secret: Bytes, where: nat)
    requires Valid(r) && JoinsAreMadeOfSecrets(r) && secret in r.secrets && OccursAt(stream, where, secret)
    ensures AllHidden(Spans(r, stream, 0), where, where + |secret|)
  {
    hide RunsInto;
    hide Spans;
    hide MadeOfSecrets;
    var span, first := HidingSpan(r, stream, secret, where);
    var end := where + |secret|;
    var spans := Spans(r, stream, 0);
    if span.end < end {
      MadeOfSecretsHides(r, stream, span.start, end);
      forall i: nat | where <= i < end ensures HiddenAt(spans, i) {
        assert HiddenAt(Spans(r, stream, span.start), i);
        var later :| later in Spans(r, stream, span.start) && later.hidden && later.start <= i < later.end;
        SpansFrom(r, stream, 0, span, later);
      }
    }
  }

  lemma {:induction false} AllHiddenMeansMade(r: Redactor, stream: Bytes, at: nat)
    requires Valid(r) && at <= |stream| && AllHidden(Spans(r, stream, at), at, |stream|)
    ensures MadeOfSecrets(r, stream[at..])
    decreases |stream| - at
  {
    hide Spans;
    hide HiddenAt;
    if at < |stream| {
      assert stream[at..|stream|] == stream[at..];
      MatchInWindow(r.secrets, stream, at, |stream|, 0);
      StartHidden(r, stream, at);
      hide MatchAt;
      hide Valid;
      var next := at + MatchAt(r.secrets, stream, at);
      forall i: nat | next <= i < |stream| ensures HiddenAt(Spans(r, stream, next), i) {
        HiddenLater(r, stream, at, i);
      }
      AllHiddenMeansMade(r, stream, next);
      DropDrop(stream, at, next - at);
    }
  }

  lemma StartHidden(r: Redactor, stream: Bytes, at: nat)
    requires Valid(r) && at < |stream| && HiddenAt(Spans(r, stream, at), at)
    ensures MatchAt(r.secrets, stream, at) != 0
  {
    hide LeftmostLongest;
    var spans := Spans(r, stream, at);
    var span :| span in spans && span.hidden && span.start <= at < span.end;
    RedactFromSpans(r, stream, at);
    SpanInStream(SetOf(r.secrets), stream, spans, at, span);
  }

  lemma NoByteStaysMeansMade(r: Redactor, first: Bytes, second: Bytes, at: nat)
    requires Valid(r) && NoByteStays(r)
    requires first in r.secrets && second in r.secrets && RunsInto(first, second, at)
    ensures MadeOfSecrets(r, Joined(first, second, at))
  {
    var stream := Joined(first, second, at);
    JoinedShowsBoth(first, second, at);
    hide MadeOfSecrets;
    hide Spans;
    var spans := Spans(r, stream, 0);
    var head := FirstSpan(r, stream, first);
    assert AllHidden(spans, at, at + |second|);
    forall i: nat | 0 <= i < |stream| ensures HiddenAt(spans, i) {
      if i < at {
        assert head in spans;
      }
    }
    AllHiddenMeansMade(r, stream, 0);
    assert stream[0..] == stream;
  }

  /**
   No byte of any occurrence stays if and only if every join of two secrets is made of secrets.
   There are finitely many joins, so this can be decided from the secrets before anything is read.
   */
  lemma NoByteStaysIff(r: Redactor)
    requires Valid(r)
    ensures NoByteStays(r) <==> JoinsAreMadeOfSecrets(r)
  {
    hide RunsInto;
    hide AllHidden;
    hide Spans;
    hide Valid;
    hide MadeOfSecrets;
    if JoinsAreMadeOfSecrets(r) {
      forall stream, secret, where: nat | secret in r.secrets && OccursAt(stream, where, secret)
        ensures AllHidden(Spans(r, stream, 0), where, where + |secret|)
      {
        MadeOfSecretsNoByteStays(r, stream, secret, where);
      }
    }
    if NoByteStays(r) {
      forall first, second, at: nat | first in r.secrets && second in r.secrets && RunsInto(first, second, at)
        ensures MadeOfSecrets(r, Joined(first, second, at))
      {
        NoByteStaysMeansMade(r, first, second, at);
      }
    }
  }

  // ---- The three cases --------------------------------------------------------------------------------------

  const AB: Bytes := [97, 98]
  const BC: Bytes := [98, 99]
  const C: Bytes := [99]
  const ABC: Bytes := [97, 98, 99]

  lemma AbRunsIntoBc()
    ensures RunsInto(AB, BC, 1) && Joined(AB, BC, 1) == ABC
  {
    assert AB[1..] == [98] && BC[..1] == [98] && AB[..1] == [97];
  }

  /** `ab` and `bc`: the last byte of `abc` stays. */
  lemma SomeByteStays()
    ensures var r := Redactor([AB, BC]); Valid(r) && !NoByteStays(r)
  {
    var r := Redactor([AB, BC]);
    AbRunsIntoBc();
    assert ABC[0..2] == AB && ABC[2..] == C;
    assert OccursAt(ABC, 0, AB);
    assert MatchAt(r.secrets, ABC, 0) == 2;
    assert r.secrets[1..] == [BC] && [BC][1..] == [];
    assert MatchAt([BC], C, 0) == 0;
    assert MatchAt(r.secrets, C, 0) == 0;
    assert !MadeOfSecrets(r, ABC);
    assert AB in r.secrets && BC in r.secrets;
    NoByteStaysIff(r);
  }

  /** With `c` as well, `abc` is hidden by two markers. */
  lemma HiddenByTwo()
    ensures var r := Redactor([AB, BC, C]); Valid(r) && NoByteStays(r) && !AlwaysInOneSpan(r)
  {
    var r := Redactor([AB, BC, C]);
    AbRunsIntoBc();
    assert ABC[0..2] == AB && ABC[2..] == C && C[0..1] == C && C[1..] == [];
    assert MatchAt(r.secrets, ABC, 0) == 2;
    assert r.secrets[1..] == [BC, C] && [BC, C][1..] == [C];
    assert OccursAt(C, 0, C) && MatchAt([C], C, 0) == 1;
    assert MatchAt([BC, C], C, 0) == 1;
    assert MatchAt(r.secrets, C, 0) == 1;
    assert MadeOfSecrets(r, C);
    forall first, second, at: nat | first in r.secrets && second in r.secrets && RunsInto(first, second, at)
      ensures first == AB && second == BC && at == 1
    {
      assert first[at..][0] == second[..|first| - at][0];
    }
    assert AB in r.secrets && BC in r.secrets && ABC !in r.secrets;
    OneMarkerIff(r);
    NoByteStaysIff(r);
  }

  /** With `abc` as well, one marker is enough although `ab` still runs into `bc`. */
  lemma HiddenByOne()
    ensures var r := Redactor([ABC, AB, BC]); Valid(r) && AlwaysInOneSpan(r) && RunsInto(AB, BC, 1)
  {
    var r := Redactor([ABC, AB, BC]);
    AbRunsIntoBc();
    forall first, second, at: nat | first in r.secrets && second in r.secrets && RunsInto(first, second, at)
      ensures first == AB && second == BC && at == 1
    {
      assert first[at..][0] == second[..|first| - at][0];
    }
    OneMarkerIff(r);
  }
}
