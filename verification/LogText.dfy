/**
 The text side of the supervisor's log reader (`drain_pending_log` and `emit_log_text` in
 `crates/runonmine-connectors/src/supervisor.rs`): line ends, cuts at a newline, and the
 splitting of a text into events.
 */
module LogText {
  import opened Common
  import opened Redaction
  import opened Streaming

  const MAX_LOG_EVENT_BYTES: nat := 16 * 1024

  // ---- Line ends -----------------------------------------------------------------------------

  predicate IsLineEnd(b: byte) {
    b == CR || b == LF
  }

  /** The text with every CR and LF taken out. */
  function Erase(text: Bytes): Bytes {
    if text == [] then []
    else Erase(text[..|text| - 1]) + (if IsLineEnd(text[|text| - 1]) then [] else [text[|text| - 1]])
  }

  lemma {:induction false} EraseConcat(a: Bytes, b: Bytes)
    ensures Erase(a + b) == Erase(a) + Erase(b)
    decreases |b|
  {
    if b == [] {
      assert a + b == a;
    } else {
      var init := b[..|b| - 1];
      EraseConcat(a, init);
      assert (a + b)[..|a + b| - 1] == a + init;
    }
  }

  /** `trim_end_matches(['\r', '\n'])`. */
  function TrimEnd(text: Bytes): (t: Bytes)
    ensures t <= text
    ensures Erase(t) == Erase(text)
    ensures text != [] && IsLineEnd(text[|text| - 1]) ==> t <= text[..|text| - 1]
  {
    if text != [] && IsLineEnd(text[|text| - 1]) then TrimEnd(text[..|text| - 1]) else text
  }

  /** What is trimmed off is all the line ends at the end, and nothing else. */
  lemma {:induction false} TrimEndMeans(text: Bytes, k: nat)
    ensures TrimEnd(text) != [] ==> TrimEnd(text)[|TrimEnd(text)| - 1] != CR && TrimEnd(text)[|TrimEnd(text)| - 1] != LF
    ensures |TrimEnd(text)| <= k < |text| ==> text[k] == CR || text[k] == LF
    decreases |text|
  {
    if text != [] && IsLineEnd(text[|text| - 1]) {
      TrimEndMeans(text[..|text| - 1], k);
    }
  }

  /** `iter().position(|byte| *byte == b'\n')`, counted from `from`. */
  function NewlineFrom(bytes: Bytes, from: nat): (i: Option<nat>)
    requires from <= |bytes|
    ensures i.Some? ==> from <= i.value < |bytes| && bytes[i.value] == LF
    ensures forall k | from <= k < (if i.Some? then i.value else |bytes|) :: bytes[k] != LF
    decreases |bytes| - from
  {
    if from == |bytes| then None
    else if bytes[from] == LF then Some(from)
    else NewlineFrom(bytes, from + 1)
  }

  /** A secret found before a newline ends before it, and none is found at it. */
  lemma MatchStopsAtNewline(r: Redactor, window: Bytes, at: nat, newline: nat)
    requires Redaction.Valid(r) && at <= newline < |window| && window[newline] == LF
    ensures at + MatchAt(r.secrets, window, at) <= newline
  {
    if MatchAt(r.secrets, window, at) != 0 {
      SomeSecretMatches(r.secrets, window, at);
    }
  }

  lemma {:induction false} SomeSecretMatches(secrets: seq<Bytes>, window: Bytes, at: nat)
    requires MatchAt(secrets, window, at) != 0
    ensures exists s | s in secrets :: OccursAt(window, at, s) && |s| == MatchAt(secrets, window, at)
  {
    if !OccursAt(window, at, secrets[0]) {
      SomeSecretMatches(secrets[1..], window, at);
    }
  }

  lemma EmitNewline(r: Redactor, window: Bytes, at: nat)
    requires at < |window|
    ensures window[at] != LF ==> LF !in Emit(r, window, at)
    ensures MatchAt(r.secrets, window, at) == 0 ==> Emit(r, window, at) == [window[at]]
  {
  }

  /** One newline, at the end. */
  ghost predicate IsLine(line: Bytes) {
    line != [] && line[|line| - 1] == LF && LF !in line[..|line| - 1]
  }

  /** A turn of the scan before a newline does not pass it, and one at it moves by one byte. */
  lemma AdvanceInLine(r: Redactor, window: Bytes, at: nat, newline: nat)
    requires Redaction.Valid(r) && at <= newline < |window| && window[newline] == LF
    ensures at < newline ==> at + Advance(r, window, at) <= newline
    ensures at == newline ==> MatchAt(r.secrets, window, at) == 0 && Advance(r, window, at) == 1
  {
    MatchStopsAtNewline(r, window, at, newline);
  }

  /** A newline that is the only one and comes last still does so behind text without any. */
  lemma OneLast(head: Bytes, rest: Bytes)
    requires LF !in head && IsLine(rest)
    ensures IsLine(head + rest)
  {
    var all := head + rest;
    assert all[..|all| - 1] == head + rest[..|rest| - 1];
  }

  lemma WalkTurn(r: Redactor, window: Bytes, cursor: nat, safePrefix: nat)
    requires cursor < safePrefix <= |window|
    ensures var rest := Walk(r, window, cursor + Advance(r, window, cursor), safePrefix);
      Walk(r, window, cursor, safePrefix) == Walked(Emit(r, window, cursor) + rest.output, rest.cursor)
  {
  }

  /** Cutting after a newline consumes exactly the line, and its newline is the last byte written. */
  lemma {:induction false} LineCut(r: Redactor, window: Bytes, cursor: nat, newline: nat)
    requires Redaction.Valid(r) && cursor <= newline < |window| && window[newline] == LF
    requires forall k | cursor <= k < newline :: window[k] != LF
    ensures var w := Walk(r, window, cursor, newline + 1);
      w.cursor == newline + 1 && IsLine(w.output)
    decreases newline - cursor
  {
    AdvanceInLine(r, window, cursor, newline);
    EmitNewline(r, window, cursor);
    hide Redaction.Valid;
    hide MatchAt;
    hide Emit;
    hide Advance;
    WalkTurn(r, window, cursor, newline + 1);
    var next := cursor + Advance(r, window, cursor);
    if cursor < newline {
      hide Walk;
      hide IsLine;
      LineCut(r, window, next, newline);
      OneLast(Emit(r, window, cursor), Walk(r, window, next, newline + 1).output);
    } else {
      assert Walk(r, window, cursor, newline + 1).output == [LF] + [] == [LF];
    }
  }

  /** A cut before the first newline writes none. */
  lemma {:induction false} SizeCut(r: Redactor, window: Bytes, cursor: nat, safePrefix: nat)
    requires cursor <= |window| && safePrefix <= |window|
    requires forall k | cursor <= k < safePrefix :: window[k] != LF
    ensures LF !in Walk(r, window, cursor, safePrefix).output
    decreases |window| - cursor
  {
    hide Emit;
    if cursor < safePrefix {
      EmitNewline(r, window, cursor);
      SizeCut(r, window, cursor + Advance(r, window, cursor), safePrefix);
    }
  }

  // ---- `emit_log_text` ---------------------------------------------------------------------------

  predicate Continuation(b: byte) {
    0x80 <= b < 0xC0
  }

  /** The length a leading byte announces, zero for a byte that leads nothing. */
  function SequenceLength(lead: byte): nat {
    if lead < 0x80 then 1
    else if lead < 0xC0 then 0
    else if lead < 0xE0 then 2
    else if lead < 0xF0 then 3
    else if lead < 0xF8 then 4
    else 0
  }

  /** The two by their leading bits: 10 continues; 0, 110, 1110 and 11110 lead one to four bytes. */
  lemma LeadingBits(b: byte)
    ensures Continuation(b) <==> b as int / 64 == 2
    ensures SequenceLength(b) ==
      if b as int / 128 == 0 then 1
      else if b as int / 32 == 6 then 2
      else if b as int / 16 == 14 then 3
      else if b as int / 8 == 30 then 4
      else 0
  {
  }

  /** A leading byte, followed by the continuation bytes it announces. */
  predicate StartsCharacter(text: Bytes) {
    && text != []
    && 0 < SequenceLength(text[0]) <= |text|
    && (forall k | 1 <= k < SequenceLength(text[0]) :: Continuation(text[k]))
  }

  /** The shape of UTF-8: one character after the other. */
  ghost predicate Utf8(text: Bytes)
    decreases |text|
  {
    text == [] || (StartsCharacter(text) && Utf8(text[SequenceLength(text[0])..]))
  }

  /** `str::is_char_boundary`. */
  predicate CharBoundary(text: Bytes, i: nat) {
    i == 0 || i == |text| || (i < |text| && !Continuation(text[i]))
  }

  /** A boundary after the start lies after the first character, which a cut there keeps. */
  lemma BoundaryAfterFirst(text: Bytes, i: nat)
    requires StartsCharacter(text) && 0 < i <= |text| && CharBoundary(text, i)
    ensures SequenceLength(text[0]) <= i && StartsCharacter(text[..i])
    ensures CharBoundary(text[SequenceLength(text[0])..], i - SequenceLength(text[0]))
  {
    hide Continuation;
    assert text[..i][0] == text[0];
  }

  lemma Utf8First(text: Bytes)
    requires text != []
    ensures Utf8(text) ==> StartsCharacter(text) && Utf8(text[SequenceLength(text[0])..])
    ensures StartsCharacter(text) && Utf8(text[SequenceLength(text[0])..]) ==> Utf8(text)
  {
  }

  /** Cutting UTF-8 at a boundary leaves UTF-8 on both sides. */
  lemma {:induction false} Utf8Cut(text: Bytes, i: nat)
    requires Utf8(text) && i <= |text| && CharBoundary(text, i)
    ensures Utf8(text[..i]) && Utf8(text[i..])
    decreases |text|
  {
    if i == 0 {
      assert text[0..] == text;
    } else {
      Utf8First(text);
      BoundaryAfterFirst(text, i);
      hide CharBoundary;
      hide StartsCharacter;
      hide SequenceLength;
      hide Utf8;
      var head, n := text[..i], SequenceLength(text[0]);
      Utf8Cut(text[n..], i - n);
      DropDrop(text, n, i - n);
      TakeDrop(text, n, i);
      Utf8First(head);
    }
  }

  /** Of four neighbouring positions in UTF-8 one is a boundary. */
  lemma {:induction false} Utf8BoundaryNear(text: Bytes, i: nat)
    requires Utf8(text) && 3 <= i <= |text|
    ensures CharBoundary(text, i) || CharBoundary(text, i - 1) || CharBoundary(text, i - 2) || CharBoundary(text, i - 3)
    decreases |text|
  {
    var n := SequenceLength(text[0]);
    if n < i {
      var rest := text[n..];
      assert forall k | n <= k < |text| :: text[k] == rest[k - n];
      if i - n >= 3 {
        Utf8BoundaryNear(rest, i - n);
      } else {
        assert n < |text| ==> SequenceLength(rest[0]) != 0;
        assert CharBoundary(text, n);
      }
    }
  }

  // ---- Splitting a text into events ---------------------------------------------------------------------

  /** Four continuation bytes in a row, which UTF-8 never has. */
  predicate LongRunAt(text: Bytes, i: nat) {
    i + 3 < |text| && Continuation(text[i]) && Continuation(text[i + 1]) && Continuation(text[i + 2])
    && Continuation(text[i + 3])
  }

  ghost predicate Calm(text: Bytes) {
    forall i: nat :: !LongRunAt(text, i)
  }

  lemma Utf8Calm(text: Bytes)
    requires Utf8(text)
    ensures Calm(text)
  {
    forall i: nat | i + 3 < |text| ensures !LongRunAt(text, i) {
      Utf8BoundaryNear(text, i + 3);
    }
  }

  /** The backwards search for a boundary. */
  function CutBack(text: Bytes, end: nat): (n: nat)
    requires end <= |text|
    ensures n <= end && CharBoundary(text, n)
    ensures forall k | n < k <= end :: !CharBoundary(text, k)
  {
    if CharBoundary(text, end) then end else CutBack(text, end - 1)
  }

  /** Where the first event of a text ends. */
  function FirstCut(text: Bytes): (n: nat)
    requires text != []
    ensures 0 < n <= |text| && CharBoundary(text, n)
  {
    var end := CutBack(text, Min(MAX_LOG_EVENT_BYTES, |text|));
    if end == 0 then |text| else end
  }

  lemma FirstCutBounded(text: Bytes)
    requires text != []
    ensures |text| <= MAX_LOG_EVENT_BYTES ==> FirstCut(text) == |text|
    ensures Calm(text) ==> FirstCut(text) <= MAX_LOG_EVENT_BYTES
  {
    if |text| > MAX_LOG_EVENT_BYTES {
      assert !LongRunAt(text, MAX_LOG_EVENT_BYTES - 3) ==>
        || CharBoundary(text, MAX_LOG_EVENT_BYTES) || CharBoundary(text, MAX_LOG_EVENT_BYTES - 1)
        || CharBoundary(text, MAX_LOG_EVENT_BYTES - 2) || CharBoundary(text, MAX_LOG_EVENT_BYTES - 3);
    }
  }

  /** The events of a text: as much of it as fits, cut at a boundary, again and again. */
  function Pieces(text: Bytes): seq<Bytes> {
    if text == [] then [] else [text[..FirstCut(text)]] + Pieces(text[FirstCut(text)..])
  }

  lemma PiecesStep(text: Bytes)
    requires text != []
    ensures var n := FirstCut(text);
      && Pieces(text) == [text[..n]] + Pieces(text[n..])
      && text[..n] != [] && text == text[..n] + text[n..] && |text[n..]| < |text|
  {
    hide FirstCut;
  }

  /** The pieces are not empty and together they are the text. */
  lemma {:induction false} PiecesJoin(text: Bytes)
    ensures Flatten(Pieces(text)) == text && [] !in Pieces(text)
    decreases |text|
  {
    if text != [] {
      PiecesStep(text);
      hide FirstCut;
      hide Flatten;
      hide Pieces;
      var head, rest := text[..FirstCut(text)], text[FirstCut(text)..];
      PiecesJoin(rest);
      FlattenCons(head, Pieces(rest));
    }
  }

  /** A text that fits is one piece, and none when it is empty. */
  lemma OnePiece(text: Bytes)
    requires |text| <= MAX_LOG_EVENT_BYTES
    ensures Pieces(text) == if text == [] then [] else [text]
  {
    if text != [] {
      FirstCutBounded(text);
      assert text[..|text|] == text;
    }
  }

  /** Every piece fits into one event unless the text has four continuation bytes in a row. */
  lemma {:induction false} PiecesBounded(text: Bytes)
    requires Calm(text)
    ensures forall piece | piece in Pieces(text) :: |piece| <= MAX_LOG_EVENT_BYTES
    decreases |text|
  {
    if text != [] {
      var n := FirstCut(text);
      FirstCutBounded(text);
      CalmRest(text, n);
      hide FirstCut;
      hide Calm;
      PiecesBounded(text[n..]);
    }
  }

  lemma CalmRest(text: Bytes, n: nat)
    requires Calm(text) && n <= |text|
    ensures Calm(text[n..])
  {
    forall i: nat ensures !LongRunAt(text[n..], i) {
      assert !LongRunAt(text, n + i);
    }
  }

  lemma CalmSlice(text: Bytes, lo: nat, hi: nat)
    requires Calm(text) && lo <= hi <= |text|
    ensures Calm(text[lo..hi])
  {
    forall i: nat ensures !LongRunAt(text[lo..hi], i) {
      assert !LongRunAt(text, lo + i);
    }
  }

  /** The pieces of UTF-8 are UTF-8. */
  lemma {:induction false} PiecesUtf8(text: Bytes)
    requires Utf8(text)
    ensures forall piece | piece in Pieces(text) :: Utf8(piece) && |piece| <= MAX_LOG_EVENT_BYTES
    decreases |text|
  {
    if text != [] {
      var n := FirstCut(text);
      Utf8Calm(text);
      FirstCutBounded(text);
      Utf8Cut(text, n);
      hide FirstCut;
      hide Utf8;
      hide Calm;
      PiecesUtf8(text[n..]);
    }
  }

  /** `n` is the greatest character boundary of a text within the first 16384 bytes, its start aside. */
  ghost predicate GreatestBoundary(text: Bytes, n: nat) {
    && 0 < n <= |text| && n <= 16384 && CharBoundary(text, n)
    && forall k: nat | n < k <= |text| && k <= 16384 :: !CharBoundary(text, k)
  }

  /**
   The events of a text, said without the search: each is as long as a boundary within the first
   16384 bytes of what is left allows, or all that is left where there is no boundary.
   */
  ghost predicate Greedy(text: Bytes, pieces: seq<Bytes>)
    decreases |pieces|
  {
    if text == [] then pieces == []
    else
      && pieces != [] && pieces[0] != [] && pieces[0] <= text
      && (if exists n: nat :: GreatestBoundary(text, n) then GreatestBoundary(text, |pieces[0]|) else pieces[0] == text)
      && Greedy(text[|pieces[0]|..], pieces[1..])
  }

  lemma FirstCutIsGreatest(text: Bytes, n: nat)
    requires text != []
    ensures GreatestBoundary(text, n) ==> n == FirstCut(text)
    ensures FirstCut(text) <= 16384 ==> GreatestBoundary(text, FirstCut(text))
    ensures FirstCut(text) > 16384 ==> FirstCut(text) == |text| && forall k: nat :: !GreatestBoundary(text, k)
  {
    var limit := Min(MAX_LOG_EVENT_BYTES, |text|);
    assert CharBoundary(text, |text|);
  }

  /** The split into events is the greedy one, and there is no other. */
  lemma {:induction false} PiecesGreedyIff(text: Bytes, pieces: seq<Bytes>)
    ensures Greedy(text, pieces) <==> pieces == Pieces(text)
    decreases |text|
  {
    if text != [] {
      var n := FirstCut(text);
      FirstCutIsGreatest(text, n);
      if pieces != [] {
        FirstCutIsGreatest(text, |pieces[0]|);
        PiecesGreedyIff(text[n..], pieces[1..]);
        hide FirstCut;
        hide GreatestBoundary;
        assert pieces == [pieces[0]] + pieces[1..];
        assert pieces[0] <= text && |pieces[0]| == n ==> pieces[0] == text[..n];
      }
    }
  }

  /** Every event of UTF-8 text but the last has 16381 to 16384 bytes. */
  lemma {:induction false} PiecesFull(text: Bytes, k: nat)
    requires Utf8(text) && k < |Pieces(text)| - 1
    ensures 16381 <= |Pieces(text)[k]| <= 16384
    decreases |text|
  {
    var n := FirstCut(text);
    Utf8Cut(text, n);
    hide Utf8;
    assert text == text[..n] + text[n..];
    if k == 0 {
      assert n < |text| by { assert Pieces(text[n..]) != []; }
      FullCut(text);
    } else {
      hide FirstCut;
      PiecesFull(text[n..], k - 1);
      assert Pieces(text)[k] == Pieces(text[n..])[k - 1];
    }
  }

  lemma FullCut(text: Bytes)
    requires Utf8(text) && text != [] && FirstCut(text) < |text|
    ensures 16381 <= FirstCut(text) <= 16384
  {
    Utf8Calm(text);
    FirstCutBounded(text);
    if |text| > MAX_LOG_EVENT_BYTES {
      Utf8BoundaryNear(text, MAX_LOG_EVENT_BYTES);
    }
  }

  lemma BoundaryShift(text: Bytes, start: nat, k: nat)
    requires 0 < k && start + k <= |text|
    ensures CharBoundary(text[start..], k) == CharBoundary(text, start + k)
  {
  }

  /** Where the next piece ends: one turn of the loop of `emit_log_text`. */
  method PieceEnd(text: Bytes, start: nat) returns (end: nat)
    requires start < |text|
    ensures start < end <= |text| && end - start == FirstCut(text[start..])
  {
    hide CharBoundary;
    var limit := Min(start + MAX_LOG_EVENT_BYTES, |text|);
    end := limit;
    ghost var rest := text[start..];
    while end > start && !CharBoundary(text, end)
      invariant start <= end <= limit
      invariant CutBack(rest, limit - start) == CutBack(rest, end - start)
    {
      BoundaryShift(text, start, end - start);
      end := end - 1;
    }
    if end > start {
      BoundaryShift(text, start, end - start);
    } else {
      end := |text|;
    }
  }

  /** `emit_log_text`. */
  method EmitLogText(text: Bytes) returns (lines: seq<Bytes>)
    ensures lines == Pieces(text)
  {
    hide FirstCut;
    lines := [];
    var start := 0;
    assert text[0..] == text;
    while start < |text|
      invariant start <= |text|
      invariant Pieces(text) == lines + Pieces(text[start..])
    {
      ghost var rest := text[start..];
      var end := PieceEnd(text, start);
      ghost var n := end - start;
      assert rest[..n] == text[start..end];
      DropDrop(text, start, n);
      assert Pieces(rest) == [rest[..n]] + Pieces(text[end..]);
      PlusAssociative(lines, [rest[..n]], Pieces(text[end..]));
      lines := lines + [text[start..end]];
      start := end;
    }
    assert Pieces(text[start..]) == [] && lines + [] == lines;
  }

  // ---- Redaction keeps runs short ---------------------------------------------------------------------------

  /** No four continuation bytes in a row, when `seen` come right before the text. */
  predicate CalmAfter(text: Bytes, seen: nat) {
    text == [] ||
    if Continuation(text[0]) then seen < 3 && CalmAfter(text[1..], seen + 1) else CalmAfter(text[1..], 0)
  }

  lemma {:induction false} CalmFrom(text: Bytes, k: nat, seen: nat)
    requires Calm(text) && seen <= k <= |text| && seen <= 3
    requires forall j | k - seen <= j < k :: Continuation(text[j])
    ensures CalmAfter(text[k..], seen)
    decreases |text| - k
  {
    hide Continuation;
    if k < |text| {
      assert text[k..][0] == text[k] && text[k..][1..] == text[k + 1..];
      assert seen == 3 ==> !LongRunAt(text, k - 3);
      CalmFrom(text, k + 1, if Continuation(text[k]) then seen + 1 else 0);
    }
  }

  lemma {:induction false} CalmAfterNoRun(text: Bytes, seen: nat, i: nat)
    requires CalmAfter(text, seen)
    ensures !LongRunAt(text, i)
    decreases i
  {
    if i + 3 < |text| {
      var rest := text[1..];
      if i > 0 {
        CalmAfterNoRun(rest, if Continuation(text[0]) then seen + 1 else 0, i - 1);
        assert rest[i - 1] == text[i] && rest[i] == text[i + 1];
        assert rest[i + 1] == text[i + 2] && rest[i + 2] == text[i + 3];
      } else {
        assert rest[0] == text[1] && rest[1..][0] == text[2] && rest[1..][1..][0] == text[3];
        if Continuation(text[0]) && Continuation(text[1]) {
          assert CalmAfter(rest, seen + 1) && CalmAfter(rest[1..], seen + 2);
          assert Continuation(text[2]) ==> CalmAfter(rest[1..][1..], seen + 3);
        }
      }
    }
  }

  lemma {:induction false} CalmLess(text: Bytes, seen: nat, less: nat)
    requires CalmAfter(text, seen) && less <= seen
    ensures CalmAfter(text, less)
  {
    if text != [] && Continuation(text[0]) {
      CalmLess(text[1..], seen + 1, less + 1);
    }
  }

  lemma {:induction false} CalmDrop(text: Bytes, seen: nat, n: nat)
    requires CalmAfter(text, seen) && n <= |text|
    ensures CalmAfter(text[n..], 0)
    decreases n
  {
    if n == 0 {
      assert text[0..] == text;
      CalmLess(text, seen, 0);
    } else {
      CalmDrop(text[1..], if Continuation(text[0]) then seen + 1 else 0, n - 1);
      assert text[n..] == text[1..][n - 1..];
    }
  }

  lemma {:induction false} CalmJoin(head: Bytes, tail: Bytes, seen: nat)
    requires head != [] && (forall b | b in head :: !Continuation(b)) && CalmAfter(tail, 0)
    ensures CalmAfter(head + tail, seen)
  {
    assert (head + tail)[1..] == head[1..] + tail;
    if |head| == 1 {
      assert head[1..] + tail == tail;
    } else {
      CalmJoin(head[1..], tail, 0);
    }
  }

  /** What `seen` becomes after one byte. */
  function RunAfter(b: byte, seen: nat): nat {
    if Continuation(b) then seen + 1 else 0
  }

  lemma CalmFirst(window: Bytes, cursor: nat, seen: nat)
    requires cursor < |window| && CalmAfter(window[cursor..], seen)
    ensures RunAfter(window[cursor], seen) <= 3 && CalmAfter(window[cursor + 1..], RunAfter(window[cursor], seen))
  {
    assert window[cursor..][1..] == window[cursor + 1..];
  }

  lemma CalmCons(b: byte, rest: Bytes, seen: nat)
    requires RunAfter(b, seen) <= 3 && CalmAfter(rest, RunAfter(b, seen))
    ensures CalmAfter([b] + rest, seen)
  {
    assert ([b] + rest)[1..] == rest;
  }

  /** One turn of the scan: what it writes leaves as many bytes seen as what it reads, or none. */
  lemma TurnCalm(r: Redactor, window: Bytes, cursor: nat, seen: nat) returns (after: nat)
    requires cursor < |window| && CalmAfter(window[cursor..], seen)
    ensures CalmAfter(window[cursor + Advance(r, window, cursor)..], after)
    ensures forall rest | CalmAfter(rest, after) :: CalmAfter(Emit(r, window, cursor) + rest, seen)
  {
    hide CalmAfter;
    hide RunAfter;
    var n := Advance(r, window, cursor);
    if MatchAt(r.secrets, window, cursor) == 0 {
      hide MatchAt;
      CalmFirst(window, cursor, seen);
      after := RunAfter(window[cursor], seen);
      forall rest | CalmAfter(rest, after) ensures CalmAfter(Emit(r, window, cursor) + rest, seen) {
        CalmCons(window[cursor], rest, seen);
      }
    } else {
      hide MatchAt;
      CalmDrop(window[cursor..], seen, n);
      DropDrop(window, cursor, n);
      after := 0;
      MarkerIsAscii();
      forall rest | CalmAfter(rest, after) ensures CalmAfter(Emit(r, window, cursor) + rest, seen) {
        CalmJoin(REDACTED, rest, seen);
      }
    }
  }

  lemma {:induction false} WalkCalmAfter(r: Redactor, window: Bytes, cursor: nat, safePrefix: nat, seen: nat)
    requires cursor <= |window| && safePrefix <= |window| && CalmAfter(window[cursor..], seen)
    ensures CalmAfter(Walk(r, window, cursor, safePrefix).output, seen)
    decreases |window| - cursor
  {
    if cursor < safePrefix {
      hide CalmAfter;
      hide Emit;
      hide Advance;
      var after := TurnCalm(r, window, cursor, seen);
      WalkCalmAfter(r, window, cursor + Advance(r, window, cursor), safePrefix, after);
    }
  }

  lemma MarkerIsAscii()
    ensures forall b | b in REDACTED :: !Continuation(b)
  {
  }

  /** Redaction makes no run of continuation bytes longer. */
  lemma WalkCalm(r: Redactor, window: Bytes, safePrefix: nat)
    requires safePrefix <= |window| && Calm(window)
    ensures Calm(Walk(r, window, 0, safePrefix).output)
  {
    CalmFrom(window, 0, 0);
    WalkCalmAfter(r, window, 0, safePrefix, 0);
    var output := Walk(r, window, 0, safePrefix).output;
    forall i: nat ensures !LongRunAt(output, i) {
      CalmAfterNoRun(output, 0, i);
    }
  }
}
