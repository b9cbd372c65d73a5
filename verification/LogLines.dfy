/**
 What the log events of a stream are, line by line (`spawn_output_reader` in
 `crates/runonmine-connectors/src/supervisor.rs`). Redaction works line by line because no
 secret contains a newline.
 */
module LogLines {
  import opened Common
  import opened Redaction
  import opened Streaming
  import opened LogText

  /** The lines of a stream, each with its newline; the last may have none. */
  function Lines(stream: Bytes): seq<Bytes>
    decreases |stream|
  {
    if stream == [] then []
    else
      match NewlineFrom(stream, 0)
      case None => [stream]
      case Some(k) => [stream[..k + 1]] + Lines(stream[k + 1..])
  }

  ghost predicate AllLines(lines: seq<Bytes>) {
    forall line | line in lines :: IsLine(line)
  }

  /** Every line fits into one event. */
  ghost predicate ShortLines(stream: Bytes) {
    forall line | line in Lines(stream) :: |line| <= MAX_LOG_EVENT_BYTES
  }

  /** The first newline of a line followed by anything is the line's own. */
  lemma LineThen(line: Bytes, rest: Bytes)
    requires IsLine(line)
    ensures NewlineFrom(line + rest, 0) == Some(|line| - 1)
    ensures Lines(line + rest) == [line] + Lines(rest)
  {
    var stream := line + rest;
    var found := NewlineFrom(stream, 0);
    assert stream[|line| - 1] == LF;
    assert forall i | 0 <= i < |line| - 1 :: stream[i] == line[..|line| - 1][i];
    assert stream[..|line|] == line && stream[|line|..] == rest;
  }

  lemma FirstLine(stream: Bytes, k: nat)
    requires NewlineFrom(stream, 0) == Some(k)
    ensures IsLine(stream[..k + 1]) && Lines(stream) == [stream[..k + 1]] + Lines(stream[k + 1..])
  {
  }

  /** Whole lines before anything are the first lines of the whole. */
  lemma {:induction false} LinesThen(lines: seq<Bytes>, rest: Bytes)
    requires AllLines(lines)
    ensures Lines(Flatten(lines) + rest) == lines + Lines(rest)
    decreases |lines|
  {
    hide Lines;
    hide IsLine;
    if lines == [] {
      assert Flatten(lines) + rest == rest && lines + Lines(rest) == Lines(rest);
    } else {
      var init, last := lines[..|lines| - 1], lines[|lines| - 1];
      assert lines == init + [last];
      LinesThen(init, last + rest);
      LineThen(last, rest);
      PlusAssociative(Flatten(init), last, rest);
      PlusAssociative(init, [last], Lines(rest));
    }
  }

  lemma ShortLinesAfter(lines: seq<Bytes>, rest: Bytes)
    requires AllLines(lines) && ShortLines(Flatten(lines) + rest)
    ensures ShortLines(rest)
  {
    LinesThen(lines, rest);
  }

  /** Text without a newline is part of the first line of whatever it begins. */
  lemma FirstHolds(stream: Bytes, more: Bytes)
    requires stream != [] && LF !in stream
    ensures Lines(stream + more) != [] && |stream| <= |Lines(stream + more)[0]|
  {
    var whole := stream + more;
    match NewlineFrom(whole, 0)
    case None => assert Lines(whole) == [whole];
    case Some(k) => assert forall i | 0 <= i < |stream| :: whole[i] == stream[i];
  }

  lemma ShortFirst(line: Bytes, rest: Bytes)
    requires IsLine(line)
    ensures ShortLines(line + rest) <==> |line| <= MAX_LOG_EVENT_BYTES && ShortLines(rest)
  {
    hide Lines;
    hide IsLine;
    LineThen(line, rest);
    assert forall x :: x in [line] + Lines(rest) <==> x == line || x in Lines(rest);
  }

  lemma ShortNoNewline(stream: Bytes, more: Bytes)
    requires stream != [] && NewlineFrom(stream, 0).None? && ShortLines(stream + more)
    ensures ShortLines(stream)
  {
    FirstHolds(stream, more);
    assert Lines(stream) == [stream];
    hide Lines;
    assert Lines(stream + more)[0] in Lines(stream + more);
  }

  lemma SplitFirstLine(stream: Bytes) returns (line: Bytes, rest: Bytes)
    requires NewlineFrom(stream, 0).Some?
    ensures stream == line + rest && IsLine(line) && |rest| < |stream|
    ensures NewlineFrom(stream, 0) == Some(|line| - 1)
  {
    var k := NewlineFrom(stream, 0).value;
    FirstLine(stream, k);
    hide IsLine;
    line, rest := stream[..k + 1], stream[k + 1..];
  }

  lemma {:induction false} ShortLinesPrefix(stream: Bytes, more: Bytes)
    requires ShortLines(stream + more)
    ensures ShortLines(stream)
    decreases |stream|
  {
    if stream != [] {
      hide ShortLines;
      hide NewlineFrom;
      hide IsLine;
      if NewlineFrom(stream, 0).None? {
        ShortNoNewline(stream, more);
      } else {
        var line, rest := SplitFirstLine(stream);
        PlusAssociative(line, rest, more);
        ShortFirst(line, rest + more);
        ShortLinesPrefix(rest, more);
        ShortFirst(line, rest);
      }
    }
  }

  // ---- Events ------------------------------------------------------------------------------------------

  /** The text sent for a line: its redaction, without the line end if it has one. */
  function LineText(r: Redactor, line: Bytes): Bytes {
    if line != [] && line[|line| - 1] == LF then TrimEnd(Redact(r, line)) else Redact(r, line)
  }

  function LineEvents(r: Redactor, line: Bytes): seq<Bytes> {
    Pieces(LineText(r, line))
  }

  /** The lines of a stream that is cut off: what comes after the last newline is not one yet. */
  function EndedLines(stream: Bytes): seq<Bytes> {
    var lines := Lines(stream);
    var n := |lines| - 1;
    if lines != [] && LF !in lines[n] then lines[..n] else lines
  }

  /** When what is left has no newline, the lines before it are the ended ones. */
  lemma EndedLinesAre(lines: seq<Bytes>, rest: Bytes)
    requires AllLines(lines) && LF !in rest
    ensures EndedLines(Flatten(lines) + rest) == lines
    ensures Lines(Flatten(lines) + rest) == lines + if rest == [] then [] else [rest]
  {
    LinesThen(lines, rest);
    if rest == [] {
      assert lines + [] == lines;
      assert lines != [] ==> lines[|lines| - 1] in lines;
    } else {
      assert Lines(rest) == [rest];
      assert (lines + [rest])[..|lines|] == lines;
    }
  }

  /** The events of the lines, one line after the other. */
  function AllEvents(r: Redactor, lines: seq<Bytes>): seq<Bytes> {
    if lines == [] then [] else AllEvents(r, lines[..|lines| - 1]) + LineEvents(r, lines[|lines| - 1])
  }

  lemma AllEventsThen(r: Redactor, lines: seq<Bytes>, line: Bytes)
    ensures AllEvents(r, lines + [line]) == AllEvents(r, lines) + LineEvents(r, line)
  {
    assert (lines + [line])[..|lines|] == lines;
  }

  /** The texts of the lines, without the empty ones. */
  function Texts(r: Redactor, lines: seq<Bytes>): seq<Bytes> {
    if lines == [] then []
    else
      var text := LineText(r, lines[|lines| - 1]);
      Texts(r, lines[..|lines| - 1]) + if text == [] then [] else [text]
  }

  /** When every redacted line fits into an event, there is one event per line that is not empty. */
  lemma {:induction false} OneEventPerLine(r: Redactor, lines: seq<Bytes>)
    requires forall line | line in lines :: |LineText(r, line)| <= MAX_LOG_EVENT_BYTES
    ensures AllEvents(r, lines) == Texts(r, lines)
    decreases |lines|
  {
    hide Pieces;
    hide LineText;
    if lines != [] {
      OneEventPerLine(r, lines[..|lines| - 1]);
      OnePiece(LineText(r, lines[|lines| - 1]));
    }
  }

  /** Walking a whole window is redacting it. */
  lemma WalkWhole(r: Redactor, window: Bytes)
    ensures Walk(r, window, 0, |window|).output == Redact(r, window)
  {
    hide Walk;
    NothingSettled(r);
    MoreFedSettled(r, [], window, [], 0);
    assert [] + window == window;
    EndSettles(r, window, [], 0);
    var w := Walk(r, window, 0, |window|);
    assert window[0..] == window && [] + w.output == w.output;
  }

  lemma {:induction false} WalkSame(r: Redactor, a: Bytes, b: Bytes, cursor: nat, safePrefix: nat)
    requires cursor <= |b| <= |a| && a[..|b|] == b && safePrefix <= |b|
    requires forall p: nat | p < safePrefix :: MatchAt(r.secrets, a, p) == MatchAt(r.secrets, b, p)
    ensures Walk(r, a, cursor, safePrefix) == Walk(r, b, cursor, safePrefix)
    decreases |b| - cursor
  {
    hide MatchAt;
    if cursor < safePrefix {
      assert a[cursor] == b[cursor];
      WalkSame(r, a, b, cursor + Advance(r, b, cursor), safePrefix);
    }
  }

  /** A line that is cut at its newline is redacted as if it were alone, whatever comes after it. */
  lemma LineAlone(r: Redactor, pending: Bytes, newline: nat)
    requires Valid(r) && newline < |pending| && pending[newline] == LF
    ensures Walk(r, pending, 0, newline + 1).output == Redact(r, pending[..newline + 1])
  {
    hide Walk;
    hide Redact;
    var line := pending[..newline + 1];
    assert pending[0..|line|] == line && line[0..] == line;
    forall p: nat | p < |line| ensures MatchAt(r.secrets, pending, p) == MatchAt(r.secrets, line, p) {
      CutFits(r, line, pending, 0, |line|, p);
      MatchInWindow(r.secrets, pending, 0, |line|, p);
    }
    WalkSame(r, pending, line, 0, |line|);
    WalkWhole(r, line);
  }

  // ---- A reader's progress ---------------------------------------------------------------------------------

  /** What has been sent so far is the events of the lines that were cut off, and the rest is pending. */
  ghost predicate ByLines(r: Redactor, fed: Bytes, pending: Bytes, events: seq<Bytes>, lines: seq<Bytes>) {
    AllLines(lines) && fed == Flatten(lines) + pending && events == AllEvents(r, lines)
  }

  lemma NoLinesYet(r: Redactor)
    ensures ByLines(r, [], [], [], [])
  {
  }

  lemma MoreByLines(
    r: Redactor, stream: Bytes, fed: Bytes, pending: Bytes, bytes: Bytes, later: Bytes, events: seq<Bytes>,
    lines: seq<Bytes>)
    requires ByLines(r, fed, pending, events, lines)
    requires ShortLines(stream) && stream == (fed + bytes) + later
    ensures ShortLines(pending + bytes)
    ensures ByLines(r, fed + bytes, pending + bytes, events, lines)
  {
    hide ShortLines;
    hide AllEvents;
    hide Flatten;
    PlusAssociative(Flatten(lines), pending, bytes);
    PlusAssociative(Flatten(lines), pending + bytes, later);
    ShortLinesAfter(lines, (pending + bytes) + later);
    ShortLinesPrefix(pending + bytes, later);
  }

  lemma CutByLines(r: Redactor, fed: Bytes, pending: Bytes, events: seq<Bytes>, lines: seq<Bytes>)
    requires ByLines(r, fed, pending, events, lines) && ShortLines(pending) && NewlineFrom(pending, 0).Some?
    ensures var n := NewlineFrom(pending, 0).value + 1; var line := pending[..n];
      && n <= MAX_LOG_EVENT_BYTES && ShortLines(pending[n..])
      && ByLines(r, fed, pending[n..], events + LineEvents(r, line), lines + [line])
  {
    hide ShortLines;
    hide AllEvents;
    hide LineEvents;
    hide Flatten;
    hide IsLine;
    hide NewlineFrom;
    var line, rest := SplitFirstLine(pending);
    assert pending[..|line|] == line && pending[|line|..] == rest;
    ShortFirst(line, rest);
    FlattenSnoc(lines, line);
    PlusAssociative(Flatten(lines), line, rest);
    AllEventsThen(r, lines, line);
  }

  lemma EndByLines(r: Redactor, fed: Bytes, pending: Bytes, events: seq<Bytes>, lines: seq<Bytes>)
    requires ByLines(r, fed, pending, events, lines) && LF !in pending
    ensures events == AllEvents(r, EndedLines(fed))
    ensures events + (if pending == [] then [] else LineEvents(r, pending)) == AllEvents(r, Lines(fed))
  {
    hide IsLine;
    hide LineEvents;
    hide Lines;
    hide EndedLines;
    EndedLinesAre(lines, pending);
    if pending == [] {
      assert lines + [] == lines && events + [] == events;
    } else {
      AllEventsThen(r, lines, pending);
    }
  }
}
