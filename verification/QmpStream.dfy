/** When the answer to a request depends on how the socket splits the stream. */
module QmpStream {
  import opened Texts
  import opened Qmp

  /** How much one `recv` returns at most. */
  const RECEIVE_BYTES: nat := 4096

  /** Bytes arrive in pieces, with pauses; nothing else happens. */
  predicate Streaming(incoming: seq<Event>) {
    forall i | 0 <= i < |incoming| ::
      incoming[i] == Nothing || (incoming[i].Chunk? && 0 < |incoming[i].bytes| <= RECEIVE_BYTES)
  }

  function Arriving(incoming: seq<Event>): Bytes {
    if incoming == [] then []
    else (if incoming[0].Chunk? then incoming[0].bytes else []) + Arriving(incoming[1..])
  }

  /** The line fits into the buffer beside the largest piece that can bring its end. */
  predicate Fits(line: Bytes, rest: Bytes) {
    |line| + Min(RECEIVE_BYTES, 1 + |rest|) <= QMP_LIMIT
  }

  // ----- every split gives the same

  /** A buffer without a line feed is a first part of the line that is still arriving. */
  lemma PartialLine(buffer: Bytes, arriving: Bytes, line: Bytes, rest: Bytes)
    requires OneLine(buffer) && OneLine(line) && buffer + arriving == line + [LF] + rest
    ensures |buffer| <= |line| && arriving != []
  {
    var s := buffer + arriving;
    assert s[|line|] == LF;
    assert forall i | 0 <= i < |buffer| :: s[i] == buffer[i] != LF;
  }

  lemma WholeLine(buffer: Bytes, arriving: Bytes, line: Bytes, rest: Bytes, newline: nat)
    requires newline < |buffer| && buffer[newline] == LF && OneLine(buffer[..newline])
    requires OneLine(line) && buffer + arriving == line + [LF] + rest
    ensures buffer[..newline] == line && buffer[newline + 1..] + arriving == rest
  {
    assert buffer == buffer[..newline] + [LF] + buffer[newline + 1..];
    assert buffer[..newline] + [LF] + (buffer[newline + 1..] + arriving) == buffer + arriving;
    FirstBreak(buffer[..newline], buffer[newline + 1..] + arriving, line, rest);
  }

  lemma StreamingTail(incoming: seq<Event>)
    requires Streaming(incoming) && incoming != []
    ensures Streaming(incoming[1..])
  {
  }

  /** However the stream is split, the next line is taken when it fits, and what is left is
      the rest. */
  lemma {:induction false} NextLineOfStream(buffer: Bytes, incoming: seq<Event>, line: Bytes, rest: Bytes)
    requires Streaming(incoming) && OneLine(line) && Fits(line, rest)
    requires buffer + Arriving(incoming) == line + [LF] + rest
    ensures var r := NextLine(buffer, incoming);
            r.Taken? && r.line == line && Streaming(r.incoming) && r.buffer + Arriving(r.incoming) == rest
    decreases |incoming|
  {
    var newline := IndexOf(buffer, 0);
    if newline.Some? {
      WholeLine(buffer, Arriving(incoming), line, rest, newline.value);
    } else {
      PartialLine(buffer, Arriving(incoming), line, rest);
      StreamingTail(incoming);
      if incoming[0].Chunk? {
        assert |buffer| + |incoming[0].bytes| <= |line| + 1 + |rest|;
        ConcatAssociative(buffer, incoming[0].bytes, Arriving(incoming[1..]));
        NextLineOfStream(buffer + incoming[0].bytes, incoming[1..], line, rest);
      } else {
        assert Arriving(incoming) == Arriving(incoming[1..]);
        NextLineOfStream(buffer, incoming[1..], line, rest);
      }
    }
  }

  /** The lines of a stream up to the one that ends the request. */
  predicate Conversation(decode: Decoder, request: int, lines: seq<Bytes>, result: Result<Bytes, Failure>) {
    && lines != [] && AllLines(lines)
    && (forall i | 0 <= i < |lines| - 1 :: OtherEvent(lines[i], decode, request))
    && Settles(decode, lines[|lines| - 1], request, result)
  }

  /** Every line fits before what follows it. */
  predicate AllFit(lines: seq<Bytes>, rest: Bytes) {
    lines == [] || (Fits(lines[0], Rejoined(lines[1..]) + rest) && AllFit(lines[1..], rest))
  }

  lemma RejoinedFirst(lines: seq<Bytes>, rest: Bytes)
    requires lines != []
    ensures Rejoined(lines) + rest == lines[0] + [LF] + (Rejoined(lines[1..]) + rest)
  {
    ConcatAssociative(lines[0] + [LF], Rejoined(lines[1..]), rest);
  }

  lemma ConversationTail(decode: Decoder, request: int, lines: seq<Bytes>, result: Result<Bytes, Failure>)
    requires Conversation(decode, request, lines, result) && |lines| > 1
    ensures Conversation(decode, request, lines[1..], result)
    ensures OtherEvent(lines[0], decode, request) && lines == [lines[0]] + lines[1..]
  {
  }

  /** Any number of events for other ids and then a line that ends the request give the
      result of that line, take exactly these lines and leave the rest of the stream, for
      every way in which the socket splits the stream and pauses, when every line fits. */
  lemma {:induction false} SplitDoesNotMatter(
    decode: Decoder, request: int, buffer: Bytes, incoming: seq<Event>,
    lines: seq<Bytes>, result: Result<Bytes, Failure>, rest: Bytes)
    requires Streaming(incoming) && Conversation(decode, request, lines, result) && AllFit(lines, rest)
    requires buffer + Arriving(incoming) == Rejoined(lines) + rest
    ensures var a := Await(decode, request, buffer, incoming);
            a.result == result && a.taken == lines && a.buffer + Arriving(a.incoming) == rest
    decreases |lines|
  {
    RejoinedFirst(lines, rest);
    NextLineOfStream(buffer, incoming, lines[0], Rejoined(lines[1..]) + rest);
    var next := NextLine(buffer, incoming);
    if |lines| == 1 {
      VerdictExactly(decode, lines[0], request, result);
      AwaitEnds(decode, request, buffer, incoming);
      assert Rejoined(lines[1..]) + rest == rest;
      assert lines == [lines[0]];
    } else {
      ConversationTail(decode, request, lines, result);
      AwaitSkips(decode, request, buffer, incoming);
      SplitDoesNotMatter(decode, request, next.buffer, next.incoming, lines[1..], result, rest);
    }
  }

  // ----- the split that refuses a line that does not fit

  /** The bytes in pieces of full size. */
  function Pieces(b: Bytes): seq<Event> {
    if b == [] then []
    else
      var n := Min(RECEIVE_BYTES, |b|);
      [Chunk(b[..n])] + Pieces(b[n..])
  }

  lemma {:induction false} PiecesStream(b: Bytes)
    ensures Streaming(Pieces(b)) && Arriving(Pieces(b)) == b
  {
    if b != [] {
      var n := Min(RECEIVE_BYTES, |b|);
      PiecesStream(b[n..]);
      assert Pieces(b)[1..] == Pieces(b[n..]);
      assert b == b[..n] + b[n..];
    }
  }

  lemma {:induction false} ArrivingConcat(a: seq<Event>, b: seq<Event>)
    ensures Arriving(a + b) == Arriving(a) + Arriving(b)
    ensures Streaming(a) && Streaming(b) ==> Streaming(a + b)
  {
    if a == [] {
      assert a + b == b;
      assert [] + Arriving(b) == Arriving(b);
    } else {
      ArrivingConcat(a[1..], b);
      assert (a + b)[1..] == a[1..] + b;
      ConcatAssociative(if a[0].Chunk? then a[0].bytes else [], Arriving(a[1..]), Arriving(b));
    }
  }

  /** Pieces that bring no line feed and fit only fill the buffer. */
  lemma {:induction false} Absorb(buffer: Bytes, pieces: seq<Event>, more: seq<Event>)
    requires Streaming(pieces) && OneLine(buffer + Arriving(pieces)) && |buffer + Arriving(pieces)| <= QMP_LIMIT
    ensures NextLine(buffer, pieces + more) == NextLine(buffer + Arriving(pieces), more)
    decreases |pieces|
  {
    if pieces == [] {
      assert pieces + more == more && buffer + [] == buffer;
    } else {
      var first := if pieces[0].Chunk? then pieces[0].bytes else [];
      StreamingTail(pieces);
      ConcatAssociative(buffer, first, Arriving(pieces[1..]));
      PrefixOneLine(buffer, Arriving(pieces));
      Absorb(buffer + first, pieces[1..], more);
      assert (pieces + more)[1..] == pieces[1..] + more;
      assert buffer + [] == buffer;
    }
  }

  lemma PrefixOneLine(a: Bytes, b: Bytes)
    requires OneLine(a + b)
    ensures OneLine(a) && IndexOf(a, 0).None?
  {
    assert forall i | 0 <= i < |a| :: (a + b)[i] == a[i];
  }

  /** A whole line that arrives alone is taken alone. */
  lemma LineAlone(line: Bytes, more: seq<Event>)
    requires OneLine(line) && |line| < QMP_LIMIT
    ensures NextLine([], Pieces(line) + ([Chunk([LF])] + more)) == Taken(line, [], more)
  {
    AbsorbAll(line, [Chunk([LF])] + more);
    PrefixOneLine(line, []);
    assert line + [] == line;
    assert ([Chunk([LF])] + more)[1..] == more;
    TakenWhole(line, more);
  }

  lemma TakenWhole(line: Bytes, more: seq<Event>)
    requires OneLine(line)
    ensures NextLine(line + [LF], more) == Taken(line, [], more)
  {
    var b := line + [LF];
    var newline := IndexOf(b, 0);
    assert b[|line|] == LF;
    assert forall i | 0 <= i < |line| :: b[i] == line[i] != LF;
    assert newline == Some(|line|);
    assert b[..|line|] == line && b[|line| + 1..] == [];
  }

  /** How a line that does not fit arrives: as much as the buffer holds before its end, and
      then the largest piece. */
  function Overfull(line: Bytes, rest: Bytes): seq<Event> {
    var s := line + [LF] + rest;
    var m := Min(|line|, QMP_LIMIT);
    var n := Min(RECEIVE_BYTES, |s| - m);
    Pieces(s[..m]) + ([Chunk(s[m..][..n])] + Pieces(s[m..][n..]))
  }

  lemma InTurn(a: Bytes, b: Bytes, c: Bytes)
    requires 0 < |b| <= RECEIVE_BYTES
    ensures var incoming := Pieces(a) + ([Chunk(b)] + Pieces(c));
            Streaming(incoming) && Arriving(incoming) == a + (b + c)
  {
    var piece := [Chunk(b)];
    PiecesStream(a);
    PiecesStream(c);
    assert piece[1..] == [] && b + [] == b;
    ArrivingConcat(piece, Pieces(c));
    ArrivingConcat(Pieces(a), piece + Pieces(c));
  }

  lemma Rejoin(s: Bytes, m: nat, n: nat)
    requires m <= |s| && n <= |s| - m
    ensures s[..m] + (s[m..][..n] + s[m..][n..]) == s
  {
    assert s[m..][..n] + s[m..][n..] == s[m..];
  }

  lemma OverfullArrives(line: Bytes, rest: Bytes)
    ensures Streaming(Overfull(line, rest)) && Arriving(Overfull(line, rest)) == line + [LF] + rest
  {
    var s := line + [LF] + rest;
    var m := Min(|line|, QMP_LIMIT);
    var n := Min(RECEIVE_BYTES, |s| - m);
    InTurn(s[..m], s[m..][..n], s[m..][n..]);
    Rejoin(s, m, n);
  }

  lemma PieceRefused(buffer: Bytes, piece: Bytes, more: seq<Event>)
    requires OneLine(buffer) && piece != [] && |buffer| + |piece| > QMP_LIMIT
    ensures NextLine(buffer, [Chunk(piece)] + more) == Stopped(Oversized, buffer, more)
  {
    var events := [Chunk(piece)] + more;
    assert IndexOf(buffer, 0).None?;
    assert events[0] == Chunk(piece) && events[1..] == more;
  }

  lemma AbsorbAll(line: Bytes, more: seq<Event>)
    requires OneLine(line) && |line| <= QMP_LIMIT
    ensures NextLine([], Pieces(line) + more) == NextLine(line, more)
  {
    PiecesStream(line);
    assert [] + line == line;
    Absorb([], Pieces(line), more);
  }

  lemma OverfullRefused(line: Bytes, rest: Bytes)
    requires OneLine(line) && !Fits(line, rest)
    ensures var r := NextLine([], Overfull(line, rest)); r.Stopped? && r.failure == Oversized
  {
    var s := line + [LF] + rest;
    var m := Min(|line|, QMP_LIMIT);
    var n := Min(RECEIVE_BYTES, |s| - m);
    var front, piece, more := s[..m], s[m..][..n], Pieces(s[m..][n..]);
    assert front == line[..m];
    AbsorbAll(front, [Chunk(piece)] + more);
    PieceRefused(front, piece, more);
  }

  /** A conversation in which some line does not fit can be split so that it is refused. */
  lemma {:induction false} RefusingSplit(
    decode: Decoder, request: int, lines: seq<Bytes>, result: Result<Bytes, Failure>, rest: Bytes)
    returns (incoming: seq<Event>)
    requires Conversation(decode, request, lines, result) && !AllFit(lines, rest)
    ensures Streaming(incoming) && Arriving(incoming) == Rejoined(lines) + rest
    ensures Await(decode, request, [], incoming).result == Err(Oversized)
    decreases |lines|
  {
    RejoinedFirst(lines, rest);
    var after := Rejoined(lines[1..]) + rest;
    if !Fits(lines[0], after) {
      incoming := Overfull(lines[0], after);
      OverfullArrives(lines[0], after);
      OverfullRefused(lines[0], after);
    } else {
      assert |lines| > 1;
      ConversationTail(decode, request, lines, result);
      var more := RefusingSplit(decode, request, lines[1..], result, rest);
      incoming := Pieces(lines[0]) + ([Chunk([LF])] + more);
      AloneArrives(lines[0], more);
      LineAlone(lines[0], more);
      AwaitSkips(decode, request, [], incoming);
    }
  }

  lemma AloneArrives(line: Bytes, more: seq<Event>)
    requires Streaming(more)
    ensures var incoming := Pieces(line) + ([Chunk([LF])] + more);
            Streaming(incoming) && Arriving(incoming) == line + [LF] + Arriving(more)
  {
    PiecesStream(line);
    assert ([Chunk([LF])] + more)[1..] == more;
    ArrivingConcat(Pieces(line), [Chunk([LF])] + more);
    ConcatAssociative(line, [LF], Arriving(more));
  }

  /** For a client with an empty buffer, the result of a conversation is the same for every
      split exactly when every line fits before what follows it. */
  lemma SplitMattersExactly(
    decode: Decoder, request: int, lines: seq<Bytes>, result: Result<Bytes, Failure>, rest: Bytes)
    requires Conversation(decode, request, lines, result)
    ensures AllFit(lines, rest) <==>
            forall incoming | Streaming(incoming) && Arriving(incoming) == Rejoined(lines) + rest ::
              Await(decode, request, [], incoming).result == result
  {
    if AllFit(lines, rest) {
      forall incoming | Streaming(incoming) && Arriving(incoming) == Rejoined(lines) + rest
        ensures Await(decode, request, [], incoming).result == result
      {
        assert [] + Arriving(incoming) == Arriving(incoming);
        SplitDoesNotMatter(decode, request, [], incoming, lines, result, rest);
      }
    } else {
      var incoming := RefusingSplit(decode, request, lines, result, rest);
    }
  }
}
