/**
 The supervisor's line-oriented reader (`spawn_output_reader`, `drain_pending_log` and
 `emit_log_text` in `crates/runonmine-connectors/src/supervisor.rs`).

 The reader redacts line by line and keeps no look-ahead past a newline. That agrees with one
 redaction of the whole stream, up to the line ends it strips, because no secret contains one.
 */
module LogReader {
  import opened Common
  import opened Redaction
  import opened Streaming
  import opened LogText
  import opened LogLines

  // ---- The reader --------------------------------------------------------------------------------------

  lemma {:induction false} NoNewlineFlatten(lines: seq<Bytes>)
    requires LF !in Flatten(lines)
    ensures forall line | line in lines :: LF !in line
    decreases |lines|
  {
    if lines != [] {
      var init := lines[..|lines| - 1];
      assert Flatten(lines) == Flatten(init) + lines[|lines| - 1];
      NoNewlineFlatten(init);
      assert lines == init + [lines[|lines| - 1]];
    }
  }

  ghost predicate Bounded(events: seq<Bytes>) {
    forall event | event in events :: |event| <= MAX_LOG_EVENT_BYTES
  }

  class LineReader {
    const redactor: Redactor
    /** Bytes read and not yet written out. */
    var pending: Bytes
    /** The lines sent so far. */
    var events: seq<Bytes>
    /** Everything read so far, and the redaction of the part that is no longer pending. */
    ghost var fed: Bytes
    ghost var written: Bytes

    /** What has been sent is right whatever is read next, up to line ends; no event holds a newline. */
    ghost predicate Valid()
      reads this
    {
      && Redaction.Valid(redactor)
      && |pending| <= |fed| && pending == fed[|fed| - |pending|..]
      && Settled(redactor, fed, written, |fed| - |pending|)
      && Erase(Flatten(events)) == Erase(written)
      && (forall event | event in events :: event != [] && LF !in event)
      && (Calm(fed) ==> Bounded(events))
    }

    constructor (redactor: Redactor)
      requires Redaction.Valid(redactor)
      ensures Valid() && this.redactor == redactor
      ensures pending == [] && events == [] && fed == []
    {
      this.redactor := redactor;
      pending, events, fed, written := [], [], [], [];
      NothingSettled(redactor);
    }

    /** One call of `emit_log_text`. */
    method Send(text: Bytes)
      requires LF !in text
      modifies `events
      ensures events == old(events) + Pieces(text)
      ensures Flatten(events) == Flatten(old(events)) + text
      ensures forall event | event in events && event !in old(events) :: event != [] && LF !in event
      ensures Calm(text) && Bounded(old(events)) ==> Bounded(events)
    {
      hide Pieces;
      hide Flatten;
      var lines := EmitLogText(text);
      PiecesJoin(text);
      if Calm(text) {
        PiecesBounded(text);
      }
      FlattenConcat(events, lines);
      NoNewlineFlatten(lines);
      events := events + lines;
    }

    /** `pending.extend_from_slice`. */
    method Feed(bytes: Bytes)
      requires Valid()
      modifies `pending, `fed
      ensures Valid() && fed == old(fed) + bytes && pending == old(pending) + bytes
    {
      hide Settled;
      hide Erase;
      hide Flatten;
      hide Redaction.Valid;
      MoreFedSettled(redactor, fed, bytes, written, |fed| - |pending|);
      if Calm(fed + bytes) {
        CalmSlice(fed + bytes, 0, |fed|);
        assert (fed + bytes)[0..|fed|] == fed;
      }
      hide Calm;
      fed := fed + bytes;
      pending := pending + bytes;
    }

    /** What is written for a part of what is pending has short runs if everything read has. */
    lemma WrittenCalm(safePrefix: nat)
      requires Valid() && safePrefix <= |pending| && Calm(fed)
      ensures var text := Walk(redactor, pending, 0, safePrefix).output; Calm(text) && Calm(TrimEnd(text))
    {
      hide Settled;
      hide Redaction.Valid;
      hide Walk;
      hide Erase;
      hide Flatten;
      CalmSlice(fed, |fed| - |pending|, |fed|);
      assert fed[|fed| - |pending|..|fed|] == pending;
      WalkCalm(redactor, pending, safePrefix);
      var text := Walk(redactor, pending, 0, safePrefix).output;
      CalmSlice(text, 0, |TrimEnd(text)|);
      assert text[0..|TrimEnd(text)|] == TrimEnd(text);
    }

    /** The end of the stream: the rest of the buffer is written whole. */
    method Flush()
      requires Valid() && LF !in pending
      modifies this
      ensures pending == []
      ensures events == old(events) + if old(pending) == [] then [] else LineEvents(redactor, old(pending))
      ensures Erase(Flatten(events)) == Erase(Redact(redactor, old(fed)))
      ensures forall event | event in events :: event != [] && LF !in event
      ensures Calm(old(fed)) ==> Bounded(events)
    {
      hide Settled;
      hide Walk;
      hide Redact;
      hide Erase;
      hide Flatten;
      hide Redaction.Valid;
      hide Calm;
      hide Bounded;
      hide Pieces;
      EndSettles(redactor, fed, written, |fed| - |pending|);
      WalkWhole(redactor, pending);
      if Calm(fed) {
        WrittenCalm(|pending|);
      }
      while pending != []
        invariant fed == old(fed)
        invariant forall event | event in events :: event != [] && LF !in event
        invariant Calm(fed) ==> Bounded(events)
        invariant if pending == []
          then Erase(Flatten(events)) == Erase(Redact(redactor, fed))
            && events == old(events) + if old(pending) == [] then [] else LineEvents(redactor, old(pending))
          else pending == old(pending) && written == old(written) && events == old(events)
        decreases |pending|
      {
        var text, consumed := RedactPrefix(redactor, pending, |pending|);
        SizeCut(redactor, pending, 0, |pending|);
        EraseConcat(Flatten(events), text);
        EraseConcat(written, text);
        Send(text);
        pending := pending[consumed..];
      }
    }

    /** The first newline that is pending decides the cut; `0` stands for stopping. */
    function SafePrefix(): (n: nat)
      reads this
      ensures n <= |pending|
      ensures n != 0 && NewlineFrom(pending, 0) != Some(n - 1) ==>
        EnoughAhead(redactor, pending, n) && forall k | 0 <= k < n :: pending[k] != LF
      ensures forall k | NewlineFrom(pending, 0) == Some(k) && k < 16384 :: n == k + 1
      ensures Redaction.Valid(redactor) && n != 0 && NewlineFrom(pending, 0) != Some(n - 1) ==>
        n <= 16384 && forall k: nat | n < k <= 16384 :: !EnoughAhead(redactor, pending, k)
      ensures NewlineFrom(pending, 0).None? ==> (n != 0 <==> |pending| > 16384 + OverlapLen(redactor))
      ensures n == 0 && Redaction.Valid(redactor) ==>
        LF !in pending && |pending| <= MAX_LOG_EVENT_BYTES + OverlapLen(redactor)
    {
      var overlap := OverlapLen(redactor);
      match NewlineFrom(pending, 0)
      case Some(index) =>
        if index + 1 <= MAX_LOG_EVENT_BYTES then index + 1
        else if |pending| > overlap then Min(MAX_LOG_EVENT_BYTES, |pending| - overlap)
        else 0
      case None => if |pending| > MAX_LOG_EVENT_BYTES + overlap then MAX_LOG_EVENT_BYTES else 0
    }

    /** One turn of the loop of `drain_pending_log`. */
    method DrainOnce(safePrefix: nat)
      requires Valid() && safePrefix == SafePrefix() && safePrefix != 0
      modifies this
      ensures Valid() && fed == old(fed) && old(events) <= events
      ensures |pending| < |old(pending)|
      ensures NewlineFrom(old(pending), 0) == Some(safePrefix - 1) ==>
        && pending == old(pending)[safePrefix..]
        && events == old(events) + LineEvents(redactor, old(pending)[..safePrefix])
    {
      hide Settled;
      hide Walk;
      hide Erase;
      hide Flatten;
      hide TrimEnd;
      hide Redact;
      hide Redaction.Valid;
      hide Calm;
      hide Bounded;
      hide Pieces;
      hide NewlineFrom;
      hide OverlapLen;
      hide LineText;
      ghost var position := |fed| - |pending|;
      var text, consumed := RedactPrefix(redactor, pending, safePrefix);
      CutSettles(redactor, fed, written, position, safePrefix);
      CutHasNoNewline(redactor, pending, safePrefix);
      if NewlineFrom(pending, 0) == Some(safePrefix - 1) {
        LineSent(redactor, pending, safePrefix);
      }
      if Calm(fed) {
        WrittenCalm(safePrefix);
      }
      DropDrop(fed, position, consumed);
      EraseConcat(Flatten(events), TrimEnd(text));
      EraseConcat(written, text);
      Send(TrimEnd(text));
      pending := pending[consumed..];
      written := written + text;
    }

    /** While all lines are short, only whole lines are cut off. */
    lemma ShortCut()
      requires ShortLines(pending)
      ensures SafePrefix() != 0 ==> NewlineFrom(pending, 0) == Some(SafePrefix() - 1)
    {
      match NewlineFrom(pending, 0)
      case Some(k) =>
        FirstLine(pending, k);
        assert pending[..k + 1] in Lines(pending);
      case None =>
        if pending != [] {
          assert Lines(pending) == [pending];
        }
    }

    /** What has been sent is a beginning of the redaction, however the stream goes on. */
    lemma SentSoFar()
      requires Valid()
      ensures forall later: Bytes :: Erase(Flatten(events)) <= Erase(Redact(redactor, fed + later))
      ensures forall event | event in events :: event != [] && LF !in event
      ensures Calm(fed) ==> Bounded(events)
    {
      hide Settled;
      hide Redact;
      hide Erase;
      hide Flatten;
      hide Calm;
      forall later: Bytes ensures Erase(Flatten(events)) <= Erase(Redact(redactor, fed + later)) {
        PrefixSettled(redactor, fed, written, |fed| - |pending|, later);
      }
    }

    /** All pending lines are short, and what has been sent is the events of the lines cut off. */
    ghost predicate LineByLine(lines: seq<Bytes>)
      reads this
    {
      ShortLines(pending) && ByLines(redactor, fed, pending, events, lines)
    }

    /** A turn of the drain that knows which lines have been cut off. */
    method DrainLine(safePrefix: nat, ghost before: seq<Bytes>) returns (ghost lines: seq<Bytes>)
      requires Valid() && safePrefix == SafePrefix() && safePrefix != 0
      modifies this
      ensures Valid() && fed == old(fed) && old(events) <= events
      ensures |pending| < |old(pending)|
      ensures old(LineByLine(before)) ==> LineByLine(lines)
    {
      hide ShortLines;
      hide ByLines;
      hide LineEvents;
      hide NewlineFrom;
      hide LineReader.Valid;
      hide SafePrefix;
      lines := before + [pending[..safePrefix]];
      if LineByLine(before) {
        ShortCut();
        CutByLines(redactor, fed, pending, events, before);
      }
      DrainOnce(safePrefix);
    }

    /**
     `drain_pending_log`: afterwards no newline is pending and the buffer is bounded. When all
     pending lines are short, what has been sent stays the events of the lines cut off.
     */
    method DrainPendingLog(ghost before: seq<Bytes>) returns (ghost lines: seq<Bytes>)
      requires Valid()
      modifies this
      ensures Valid() && fed == old(fed) && old(events) <= events
      ensures LF !in pending && |pending| <= MAX_LOG_EVENT_BYTES + OverlapLen(redactor)
      ensures old(LineByLine(before)) ==> LineByLine(lines)
    {
      assert Redaction.Valid(redactor);
      hide LineByLine;
      hide LineReader.Valid;
      hide Redaction.Valid;
      hide SafePrefix;
      hide OverlapLen;
      lines := before;
      var safePrefix := SafePrefix();
      while safePrefix != 0
        invariant Valid() && fed == old(fed) && old(events) <= events
        invariant safePrefix == SafePrefix()
        invariant old(LineByLine(before)) ==> LineByLine(lines)
        decreases |pending|
      {
        lines := DrainLine(safePrefix, lines);
        safePrefix := SafePrefix();
      }
    }
  }

  /** What `drain_pending_log` writes for one cut holds no newline once its end is trimmed. */
  lemma CutHasNoNewline(r: Redactor, pending: Bytes, safePrefix: nat)
    requires Redaction.Valid(r) && 0 < safePrefix <= |pending|
    requires NewlineFrom(pending, 0) == Some(safePrefix - 1) || forall k | 0 <= k < safePrefix :: pending[k] != LF
    ensures LF !in TrimEnd(Walk(r, pending, 0, safePrefix).output)
  {
    if NewlineFrom(pending, 0) == Some(safePrefix - 1) {
      LineCut(r, pending, 0, safePrefix - 1);
    } else {
      SizeCut(r, pending, 0, safePrefix);
    }
  }

  /** Cutting off the first line consumes it and writes its text. */
  lemma LineSent(r: Redactor, pending: Bytes, n: nat)
    requires Redaction.Valid(r) && 0 < n <= |pending| && NewlineFrom(pending, 0) == Some(n - 1)
    ensures var w := Walk(r, pending, 0, n); w.cursor == n && TrimEnd(w.output) == LineText(r, pending[..n])
  {
    hide Walk;
    hide Redact;
    hide TrimEnd;
    LineCut(r, pending, 0, n - 1);
    LineAlone(r, pending, n - 1);
    assert pending[..n][n - 1] == LF;
  }

  lemma PrefixSettled(r: Redactor, fed: Bytes, written: Bytes, position: nat, later: Bytes)
    requires Settled(r, fed, written, position)
    ensures Erase(written) <= Erase(Redact(r, fed + later))
  {
    var stream := fed + later;
    assert fed <= stream;
    EraseConcat(written, RedactFrom(r, stream, position));
    assert Redact(r, stream) == written + RedactFrom(r, stream, position);
  }

  /**
   `spawn_output_reader`: the lines sent for one output stream. At the end of the stream they
   are, up to CR and LF, the redaction of the whole stream. After a read error they are a
   beginning of it, whatever the pipe would still have delivered. When every line fits into one
   event, they are the redactions of the lines, in order; after an error, of the ended lines.
   */
  method ReadLines(r: Redactor, chunks: seq<Read>) returns (events: seq<Bytes>)
    requires Redaction.Valid(r)
    ensures NoError(chunks) ==> Erase(Flatten(events)) == Erase(Redact(r, StreamOf(chunks)))
    ensures !NoError(chunks) ==>
      forall later: Bytes :: Erase(Flatten(events)) <= Erase(Redact(r, StreamOf(chunks) + later))
    ensures forall event | event in events :: event != [] && LF !in event
    ensures Calm(StreamOf(chunks)) ==> Bounded(events)
    ensures ShortLines(StreamOf(chunks)) ==>
      events == AllEvents(r, if NoError(chunks) then Lines(StreamOf(chunks)) else EndedLines(StreamOf(chunks)))
  {
    hide Settled;
    hide Redact;
    hide Erase;
    hide Flatten;
    hide Walk;
    hide Redaction.Valid;
    hide Calm;
    hide ShortLines;
    hide AllEvents;
    hide LineEvents;
    hide Lines;
    hide EndedLines;
    hide ByLines;
    hide LineReader.Valid;
    hide Bounded;
    var reader := new LineReader(r);
    ghost var stream := StreamOf(chunks);
    ghost var lines: seq<Bytes> := [];
    NoLinesYet(r);
    var i := 0;
    while i < |chunks|
      invariant 0 <= i <= |chunks| && NoError(chunks[..i])
      invariant reader.Valid() && reader.redactor == r && fresh(reader)
      invariant reader.fed == StreamOf(chunks[..i])
      invariant LF !in reader.pending
      invariant ShortLines(stream) ==> ByLines(r, reader.fed, reader.pending, reader.events, lines)
    {
      if chunks[i].ReadError? {
        StreamOfError(chunks, i);
        reader.SentSoFar();
        if ShortLines(stream) {
          EndByLines(r, reader.fed, reader.pending, reader.events, lines);
        }
        return reader.events;
      }
      StreamOfNext(chunks, i);
      StreamOfSplit(chunks, i + 1);
      if ShortLines(stream) {
        ghost var later := StreamOf(chunks[i + 1..]);
        MoreByLines(r, stream, reader.fed, reader.pending, chunks[i].bytes, later, reader.events, lines);
      }
      reader.Feed(chunks[i].bytes);
      lines := reader.DrainPendingLog(lines);
      i := i + 1;
    }
    assert chunks[..i] == chunks;
    if ShortLines(stream) {
      EndByLines(r, reader.fed, reader.pending, reader.events, lines);
    }
    reader.Flush();
    return reader.events;
  }

  lemma StreamOfError(chunks: seq<Read>, i: nat)
    requires i < |chunks| && NoError(chunks[..i]) && chunks[i].ReadError?
    ensures StreamOf(chunks) == StreamOf(chunks[..i])
  {
    StreamOfSplit(chunks, i);
  }
}
