/**
 Redaction of a stream that arrives in pieces (`redact_prefix` and `read_redacted_capped` in
 `crates/runonmine-connectors/src/process.rs`).

 A driver holds the raw bytes read so far and has already written out the segments of some
 of them. `Settled` says that this was right whatever arrives later; each cut rule is shown
 to keep it.
 */
module Streaming {
  import opened Common
  import opened Redaction

  const ONE_SHOT_READ_BYTES: nat := 4 * 1024

  // ---- `redact_prefix` -------------------------------------------------------------------------

  datatype Walked = Walked(output: Bytes, cursor: nat)

  /** What the loop of `redact_prefix` does from `cursor` on: it looks at the window only. */
  function Walk(r: Redactor, window: Bytes, cursor: nat, safePrefix: nat): (w: Walked)
    requires cursor <= |window| && safePrefix <= |window|
    ensures cursor <= w.cursor <= |window| && safePrefix <= w.cursor
    ensures cursor < safePrefix ==> w.output != []
    decreases |window| - cursor
  {
    if cursor >= safePrefix then Walked([], cursor)
    else
      var rest := Walk(r, window, cursor + Advance(r, window, cursor), safePrefix);
      Walked(Emit(r, window, cursor) + rest.output, rest.cursor)
  }

  /** `Redactor::redact_prefix`, before the lossy decoding of its output. */
  method RedactPrefix(r: Redactor, input: Bytes, safePrefix: nat) returns (output: Bytes, consumed: nat)
    ensures Walked(output, consumed) == Walk(r, input, 0, Min(safePrefix, |input|))
  {
    var safe := Min(safePrefix, |input|);
    output := [];
    consumed := 0;
    while consumed < safe
      invariant consumed <= |input|
      invariant var rest := Walk(r, input, consumed, safe);
        Walk(r, input, 0, safe) == Walked(output + rest.output, rest.cursor)
      decreases |input| - consumed
    {
      ghost var next := consumed + Advance(r, input, consumed);
      ghost var tail := Walk(r, input, next, safe).output;
      PlusAssociative(output, Emit(r, input, consumed), tail);
      var matched := MatchAt(r.secrets, input, consumed);
      if matched != 0 {
        output := output + REDACTED;
        consumed := consumed + matched;
      } else {
        output := output + [input[consumed]];
        consumed := consumed + 1;
      }
    }
    assert output + [] == output;
  }

  // ---- Cutting a stream ---------------------------------------------------------------------------

  /** No secret that starts at `at` reaches past `end`. */
  ghost predicate Fits(secrets: seq<Bytes>, stream: Bytes, at: nat, end: nat) {
    forall s | s in secrets && OccursAt(stream, at, s) :: at + |s| <= end
  }

  lemma OccursInWindow(stream: Bytes, lo: nat, hi: nat, p: nat, secret: Bytes)
    requires lo <= hi <= |stream|
    ensures OccursAt(stream[lo..hi], p, secret) <==> OccursAt(stream, lo + p, secret) && lo + p + |secret| <= hi
  {
    if lo + p + |secret| <= hi {
      SliceSlice(stream, lo, hi, p, p + |secret|);
    }
  }

  /** The window at `lo` shows the same secret at its offset `p` as the stream does. */
  ghost predicate SameMatch(r: Redactor, stream: Bytes, lo: nat, window: Bytes, p: nat) {
    MatchAt(r.secrets, window, p) == MatchAt(r.secrets, stream, lo + p)
  }

  lemma {:induction false} MatchInWindow(secrets: seq<Bytes>, stream: Bytes, lo: nat, hi: nat, p: nat)
    requires lo + p < hi <= |stream| && Fits(secrets, stream, lo + p, hi)
    ensures MatchAt(secrets, stream[lo..hi], p) == MatchAt(secrets, stream, lo + p)
  {
    if secrets != [] {
      OccursInWindow(stream, lo, hi, p, secrets[0]);
      assert secrets[0] in secrets;
      assert forall s | s in secrets[1..] :: s in secrets;
      MatchInWindow(secrets[1..], stream, lo, hi, p);
    }
  }

  lemma SameStep(r: Redactor, stream: Bytes, lo: nat, window: Bytes, p: nat)
    requires lo + |window| <= |stream| && window == stream[lo..lo + |window|]
    requires p < |window| && SameMatch(r, stream, lo, window, p)
    ensures Advance(r, window, p) == Advance(r, stream, lo + p)
    ensures Emit(r, window, p) == Emit(r, stream, lo + p)
  {
  }

  /** Walking a window is the same as walking the stream as long as the window shows the same secrets. */
  lemma {:induction false} WalkAgrees(
    r: Redactor, stream: Bytes, lo: nat, window: Bytes, cursor: nat, at: nat, safePrefix: nat)
    requires lo + |window| <= |stream| && window == stream[lo..lo + |window|]
    requires cursor <= |window| && at == lo + cursor && safePrefix <= |window|
    requires forall p | 0 <= p < safePrefix :: SameMatch(r, stream, lo, window, p)
    ensures var w := Walk(r, window, cursor, safePrefix);
      RedactFrom(r, stream, at) == w.output + RedactFrom(r, stream, lo + w.cursor)
    decreases |window| - cursor
  {
    hide Emit;
    hide Advance;
    if cursor < safePrefix {
      SameStep(r, stream, lo, window, cursor);
      var step := Advance(r, window, cursor);
      WalkAgrees(r, stream, lo, window, cursor + step, at + step, safePrefix);
      var rest := Walk(r, window, cursor + step, safePrefix);
      PlusAssociative(Emit(r, stream, at), rest.output, RedactFrom(r, stream, lo + rest.cursor));
    }
  }

  /**
   `out` is the redaction of the first `position` bytes of every stream that begins with
   `fed`: what was written so far stays right whatever is read next.
   */
  ghost predicate Settled(r: Redactor, fed: Bytes, out: Bytes, position: nat) {
    && position <= |fed|
    && forall stream: Bytes {:trigger Redact(r, stream)} | fed <= stream ::
      Redact(r, stream) == out + RedactFrom(r, stream, position)
  }

  /** The two reasons for which the program redacts the first `safePrefix` bytes of what is pending. */
  ghost predicate EnoughAhead(r: Redactor, pending: Bytes, safePrefix: nat) {
    safePrefix + OverlapLen(r) <= |pending|
  }

  ghost predicate EndsLine(pending: Bytes, safePrefix: nat) {
    0 < safePrefix <= |pending| && pending[safePrefix - 1] == LF
  }

  ghost predicate SafeCut(r: Redactor, pending: Bytes, safePrefix: nat) {
    EnoughAhead(r, pending, safePrefix) || EndsLine(pending, safePrefix)
  }

  /** Where the cut is safe, no secret is cut off by the end of the window. */
  lemma CutFits(r: Redactor, fed: Bytes, stream: Bytes, position: nat, safePrefix: nat, at: nat)
    requires Valid(r) && fed <= stream && position <= at < position + safePrefix <= |fed|
    requires SafeCut(r, fed[position..], safePrefix)
    ensures Fits(r.secrets, stream, at, |fed|)
  {
    if EndsLine(fed[position..], safePrefix) {
      var newline := position + safePrefix - 1;
      forall s | s in r.secrets && OccursAt(stream, at, s) ensures at + |s| <= |fed| {
        assert ValidSecret(s);
        assert LF !in stream[at..at + |s|];
        assert stream[newline] == LF;
      }
    }
  }

  lemma CutSameMatch(r: Redactor, fed: Bytes, stream: Bytes, position: nat, safePrefix: nat, p: nat)
    requires Valid(r) && fed <= stream && position + safePrefix <= |fed| && p < safePrefix
    requires SafeCut(r, fed[position..], safePrefix)
    ensures SameMatch(r, stream, position, fed[position..], p)
  {
    CutFits(r, fed, stream, position, safePrefix, position + p);
    PrefixSlice(fed, stream, position);
    hide MatchAt;
    hide Fits;
    hide Valid;
    hide SafeCut;
    MatchInWindow(r.secrets, stream, position, |fed|, p);
  }

  lemma CutOne(r: Redactor, fed: Bytes, stream: Bytes, position: nat, safePrefix: nat)
    requires Valid(r) && fed <= stream && position + safePrefix <= |fed|
    requires SafeCut(r, fed[position..], safePrefix)
    ensures var w := Walk(r, fed[position..], 0, safePrefix);
      RedactFrom(r, stream, position) == w.output + RedactFrom(r, stream, position + w.cursor)
  {
    hide RedactFrom;
    hide Walk;
    var window := fed[position..];
    forall p | 0 <= p < safePrefix ensures SameMatch(r, stream, position, window, p) {
      CutSameMatch(r, fed, stream, position, safePrefix, p);
    }
    assert stream[position..position + |window|] == window;
    WalkAgrees(r, stream, position, window, 0, position, safePrefix);
  }

  /** A cut with enough look-ahead, or at the end of a line, keeps everything written so far right. */
  lemma CutSettles(r: Redactor, fed: Bytes, out: Bytes, position: nat, safePrefix: nat)
    requires Valid(r) && Settled(r, fed, out, position) && position + safePrefix <= |fed|
    requires SafeCut(r, fed[position..], safePrefix)
    ensures var w := Walk(r, fed[position..], 0, safePrefix);
      Settled(r, fed, out + w.output, position + w.cursor)
  {
    hide RedactFrom;
    hide Walk;
    hide Valid;
    hide SafeCut;
    var w := Walk(r, fed[position..], 0, safePrefix);
    forall stream: Bytes {:trigger Redact(r, stream)} | fed <= stream
      ensures Redact(r, stream) == (out + w.output) + RedactFrom(r, stream, position + w.cursor)
    {
      CutOne(r, fed, stream, position, safePrefix);
      PlusAssociative(out, w.output, RedactFrom(r, stream, position + w.cursor));
    }
  }

  lemma NothingSettled(r: Redactor)
    ensures Settled(r, [], [], 0)
  {
  }

  lemma MoreFedSettled(r: Redactor, fed: Bytes, more: Bytes, out: Bytes, position: nat)
    requires Settled(r, fed, out, position)
    ensures Settled(r, fed + more, out, position)
  {
    forall stream: Bytes {:trigger Redact(r, stream)} | fed + more <= stream
      ensures Redact(r, stream) == out + RedactFrom(r, stream, position)
    {
      assert fed <= stream;
    }
  }

  /** At the end of the stream the rest of the buffer is redacted whole. */
  lemma EndSettles(r: Redactor, fed: Bytes, out: Bytes, position: nat)
    requires Settled(r, fed, out, position)
    ensures var w := Walk(r, fed[position..], 0, |fed| - position);
      w.cursor == |fed| - position && Redact(r, fed) == out + w.output
    ensures position == |fed| ==> Redact(r, fed) == out
  {
    var w := Walk(r, fed[position..], 0, |fed| - position);
    var window := fed[position..];
    assert fed[position..|fed|] == window;
    forall p | 0 <= p < |window| ensures SameMatch(r, fed, position, window, p) {
      MatchInWindow(r.secrets, fed, position, |fed|, p);
    }
    WalkAgrees(r, fed, position, window, 0, position, |window|);
    assert w.output + [] == w.output;
  }

  // ---- `read_redacted_capped` -----------------------------------------------------------------------

  /** One answer of the pipe: bytes, or an I/O error. Running out of answers is the end of the stream. */
  datatype Read = Data(bytes: Bytes) | ReadError

  /** Everything read before an error. */
  function StreamOf(chunks: seq<Read>): Bytes {
    if chunks == [] || chunks[0].ReadError? then [] else chunks[0].bytes + StreamOf(chunks[1..])
  }

  ghost predicate NoError(chunks: seq<Read>) {
    forall i | 0 <= i < |chunks| :: chunks[i].Data?
  }

  lemma {:induction false} StreamOfSplit(chunks: seq<Read>, i: nat)
    requires i <= |chunks| && NoError(chunks[..i])
    ensures StreamOf(chunks) == StreamOf(chunks[..i]) + StreamOf(chunks[i..])
  {
    if i > 0 {
      assert chunks[..i][0] == chunks[0];
      assert chunks[..i][1..] == chunks[1..][..i - 1];
      StreamOfSplit(chunks[1..], i - 1);
    }
  }

  lemma StreamOfNext(chunks: seq<Read>, i: nat)
    requires i < |chunks| && NoError(chunks[..i]) && chunks[i].Data?
    ensures NoError(chunks[..i + 1])
    ensures StreamOf(chunks[..i + 1]) == StreamOf(chunks[..i]) + chunks[i].bytes
  {
    var upTo := chunks[..i + 1];
    assert upTo[..i] == chunks[..i] && upTo[i..] == [chunks[i]];
    StreamOfSplit(upTo, i);
  }

  /** The pieces written so far settle the first `position` bytes read, and the rest is pending. */
  ghost predicate Holding(r: Redactor, fed: Bytes, position: nat, pieces: seq<Bytes>, pending: Bytes) {
    && Settled(r, fed, Flatten(pieces), position)
    && position <= |fed| && pending == fed[position..]
    && [] !in pieces
  }

  lemma MoreHeld(r: Redactor, fed: Bytes, position: nat, pieces: seq<Bytes>, pending: Bytes, more: Bytes)
    requires Holding(r, fed, position, pieces, pending)
    ensures Holding(r, fed + more, position, pieces, pending + more)
  {
    hide Settled;
    hide Flatten;
    MoreFedSettled(r, fed, more, Flatten(pieces), position);
  }

  /** The inner loop of `read_redacted_capped`: whole blocks with full look-ahead. */
  method WriteBlocks(r: Redactor, unread: Bytes, before: seq<Bytes>, ghost fed: Bytes, ghost from: nat)
    returns (pending: Bytes, pieces: seq<Bytes>, ghost position: nat)
    requires Valid(r) && Holding(r, fed, from, before, unread)
    ensures Holding(r, fed, position, pieces, pending)
    ensures |pending| <= ONE_SHOT_READ_BYTES + OverlapLen(r)
  {
    hide Settled;
    hide Walk;
    hide Flatten;
    hide Valid;
    hide OverlapLen;
    pending, pieces, position := unread, before, from;
    while |pending| > ONE_SHOT_READ_BYTES + OverlapLen(r)
      invariant Holding(r, fed, position, pieces, pending)
      decreases |pending|
    {
      var text, consumed := RedactPrefix(r, pending, ONE_SHOT_READ_BYTES);
      CutSettles(r, fed, Flatten(pieces), position, ONE_SHOT_READ_BYTES);
      FlattenSnoc(pieces, text);
      DropDrop(fed, position, consumed);
      pieces := pieces + [text];
      pending := pending[consumed..];
      position := position + consumed;
    }
  }

  /** The end of the stream: what is pending is written as one last piece. */
  method WriteRest(r: Redactor, pending: Bytes, before: seq<Bytes>, ghost fed: Bytes, ghost position: nat)
    returns (pieces: seq<Bytes>)
    requires Holding(r, fed, position, before, pending)
    ensures Flatten(pieces) == Redact(r, fed) && [] !in pieces
  {
    hide Settled;
    hide Walk;
    hide Flatten;
    hide Redact;
    EndSettles(r, fed, Flatten(before), position);
    pieces := before;
    if pending != [] {
      var text, consumed := RedactPrefix(r, pending, |pending|);
      FlattenSnoc(before, text);
      pieces := before + [text];
    }
  }

  /**
   `read_redacted_capped`: the pieces handed to `append_shared`, in order. However the reads
   cut the stream, together they are one redaction of the whole stream, and none is empty.
   A read error gives up and returns no output.
   */
  method ReadRedacted(r: Redactor, chunks: seq<Read>) returns (pieces: Option<seq<Bytes>>)
    requires Valid(r)
    requires forall i | 0 <= i < |chunks| && chunks[i].Data? :: chunks[i].bytes != []
    ensures pieces.Some? <==> NoError(chunks)
    ensures pieces.Some? ==> Flatten(pieces.value) == Redact(r, StreamOf(chunks))
    ensures pieces.Some? ==> [] !in pieces.value
  {
    NothingSettled(r);
    var pending: Bytes, out: seq<Bytes> := [], [];
    ghost var fed: Bytes, position: nat := [], 0;
    assert Holding(r, fed, position, out, pending);
    hide Holding;
    hide Valid;
    hide Redact;
    hide Flatten;
    var i := 0;
    while i < |chunks|
      invariant 0 <= i <= |chunks| && NoError(chunks[..i])
      invariant fed == StreamOf(chunks[..i])
      invariant Holding(r, fed, position, out, pending)
    {
      if chunks[i].ReadError? {
        return None;
      }
      StreamOfNext(chunks, i);
      MoreHeld(r, fed, position, out, pending, chunks[i].bytes);
      fed := fed + chunks[i].bytes;
      pending, out, position := WriteBlocks(r, pending + chunks[i].bytes, out, fed, position);
      i := i + 1;
    }
    assert chunks[..i] == chunks;
    out := WriteRest(r, pending, out, fed, position);
    pieces := Some(out);
  }
}
