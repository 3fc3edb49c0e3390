/** The QMP client: lines cut out of arbitrary socket chunks, and responses matched to
    requests by their ids. */
module Qmp {
  import opened Texts
  import opened Decimal

  const LF: Byte := 0x0A
  const CR: Byte := 0x0D
  const QMP_LIMIT: nat := 128 * 1024

  // ----- messages

  /** The value of a response's `id` member, as Python decodes it. */
  datatype Id = Missing | Integer(n: int) | Boolean(b: bool) | Real(r: real) | OtherId

  datatype Message = Message(id: Id, hasEvent: bool, hasError: bool, result: Option<Bytes>)

  datatype Decoded = BadJson | NotObject | Object(message: Message)

  type Decoder = Bytes -> Decoded

  /** Python's equality between an id and a request number: booleans are numbers. */
  predicate IdEquals(id: Id, request: int) {
    match id
    case Integer(n) => n == request
    case Boolean(b) => (if b then 1 else 0) == request
    case Real(r) => r == request as real
    case _ => false
  }

  datatype Failure =
    | JsonInvalid
    | MessageInvalid
    | ResponseTimeout
    | Closed
    | Oversized
    | SendFailed
    | SendTimeout
    | CorrelationInvalid
    | CommandFailed

  // ----- lines

  predicate OneLine(line: Bytes) {
    LF !in line
  }

  predicate AllLines(lines: seq<Bytes>) {
    forall i | 0 <= i < |lines| :: OneLine(lines[i])
  }

  function Rejoined(lines: seq<Bytes>): Bytes {
    if lines == [] then [] else lines[0] + [LF] + Rejoined(lines[1..])
  }

  lemma {:induction false} RejoinedAppend(lines: seq<Bytes>, line: Bytes)
    ensures Rejoined(lines + [line]) == Rejoined(lines) + line + [LF]
  {
    if lines == [] {
      assert lines + [line] == [line] && [line][1..] == [];
    } else {
      assert (lines + [line])[1..] == lines[1..] + [line];
      RejoinedAppend(lines[1..], line);
    }
  }

  lemma FirstBreak(a: Bytes, r: Bytes, b: Bytes, s: Bytes)
    requires OneLine(a) && OneLine(b) && a + [LF] + r == b + [LF] + s
    ensures a == b && r == s
  {
    var x, y := a + [LF] + r, b + [LF] + s;
    assert x[|a|] == LF && y[|b|] == LF;
    assert forall i | 0 <= i < |a| :: x[i] == a[i] != LF;
    assert forall i | 0 <= i < |b| :: y[i] == b[i] != LF;
    assert |a| == |b|;
    assert a == x[..|a|] && b == y[..|b|];
    assert r == x[|a| + 1..] && s == y[|b| + 1..];
  }

  /** The bytes received and the number of lines taken fix the lines and the buffer: how
      the socket split the stream does not matter. */
  lemma {:induction false} LinesFixed(ks: seq<Bytes>, a: Bytes, ls: seq<Bytes>, b: Bytes)
    requires AllLines(ks) && AllLines(ls) && |ks| == |ls|
    requires Rejoined(ks) + a == Rejoined(ls) + b
    ensures ks == ls && a == b
  {
    if ks != [] {
      assert Rejoined(ks) + a == ks[0] + [LF] + (Rejoined(ks[1..]) + a);
      assert Rejoined(ls) + b == ls[0] + [LF] + (Rejoined(ls[1..]) + b);
      FirstBreak(ks[0], Rejoined(ks[1..]) + a, ls[0], Rejoined(ls[1..]) + b);
      LinesFixed(ks[1..], a, ls[1..], b);
      assert ks == [ks[0]] + ks[1..] && ls == [ls[0]] + ls[1..];
    } else {
      assert Rejoined(ks) + a == a && Rejoined(ls) + b == b;
    }
  }

  function IndexOf(s: Bytes, from: nat): (i: Option<nat>)
    requires from <= |s|
    ensures i.Some? ==> from <= i.value < |s| && s[i.value] == LF && forall j | from <= j < i.value :: s[j] != LF
    ensures i.None? ==> forall j | from <= j < |s| :: s[j] != LF
    decreases |s| - from
  {
    if from == |s| then None else if s[from] == LF then Some(from) else IndexOf(s, from + 1)
  }

  /** `rstrip(b"\r")`: removes the carriage returns at the end and nothing else. */
  function Stripped(line: Bytes): (r: Bytes)
    ensures r <= line && (forall i | |r| <= i < |line| :: line[i] == 0x0D)
    ensures r == [] || r[|r| - 1] != 0x0D
  {
    if line != [] && line[|line| - 1] == CR then Stripped(line[..|line| - 1]) else line
  }

  /** The line is an event that does not answer this request. */
  predicate OtherEvent(line: Bytes, decode: Decoder, request: int) {
    var d := decode(Stripped(line));
    d.Object? && d.message.hasEvent && !IdEquals(d.message.id, request)
  }

  // ----- requests

  /** The request for a command and its arguments, both already JSON text. */
  function Payload(command: Bytes, request: int, arguments: Option<Bytes>): (p: Bytes)
    ensures p != []
  {
    Ascii("{\"execute\":") + command + Ascii(",\"id\":") + Numeral(request)
    + (if arguments.Some? then Ascii(",\"arguments\":") + arguments.value else [])
    + Ascii("}") + [CR, LF]
  }

  /** The number in a request is the one it was built with. */
  lemma PayloadFixesRequest(command: Bytes, m: int, n: int, arguments: Option<Bytes>)
    ensures Payload(command, m, arguments) == Payload(command, n, arguments) <==> m == n
  {
    var front := Ascii("{\"execute\":") + command + Ascii(",\"id\":");
    var back := (if arguments.Some? then Ascii(",\"arguments\":") + arguments.value else []) + Ascii("}") + [CR, LF];
    PayloadParts(command, m, arguments, front, back);
    PayloadParts(command, n, arguments, front, back);
    if Payload(command, m, arguments) == Payload(command, n, arguments) {
      assert |Numeral(m)| == |Numeral(n)|;
      Middle(front, Numeral(m), back);
      Middle(front, Numeral(n), back);
      NumeralInjective(m, n);
    }
  }

  lemma PayloadParts(command: Bytes, m: int, arguments: Option<Bytes>, front: Bytes, back: Bytes)
    requires front == Ascii("{\"execute\":") + command + Ascii(",\"id\":")
    requires back ==
             (if arguments.Some? then Ascii(",\"arguments\":") + arguments.value else []) + Ascii("}") + [CR, LF]
    ensures Payload(command, m, arguments) == front + Numeral(m) + back
  {
    var rest := if arguments.Some? then Ascii(",\"arguments\":") + arguments.value else [];
    Rebracket(front + Numeral(m), rest, Ascii("}"), [CR, LF]);
  }

  lemma Rebracket(a: Bytes, b: Bytes, c: Bytes, d: Bytes)
    ensures a + b + c + d == a + (b + c + d)
  {
  }

  lemma Middle(front: Bytes, m: Bytes, back: Bytes)
    ensures (front + m + back)[|front|..|front| + |m|] == m
  {
  }

  // ----- the socket

  /** One turn of the receive loop: bytes, nothing to read yet, the peer gone, or the
      deadline reached. */
  datatype Event = Chunk(bytes: Bytes) | Nothing | PeerClosed | Deadline

  datatype Taken =
    | Taken(line: Bytes, buffer: Bytes, incoming: seq<Event>)
    | Stopped(failure: Failure, buffer: Bytes, incoming: seq<Event>)

  /** The next line that the buffer and the events of the socket give, or why there is none. */
  function NextLine(buffer: Bytes, incoming: seq<Event>): (r: Taken)
    ensures r.Taken? ==> OneLine(r.line)
    ensures r.Taken? ==> |r.incoming| < |incoming| || (r.incoming == incoming && |r.buffer| < |buffer|)
    ensures r.Stopped? ==> OneLine(r.buffer) && r.failure in {ResponseTimeout, Closed, Oversized}
    decreases |incoming|
  {
    var newline := IndexOf(buffer, 0);
    if newline.Some? then Taken(buffer[..newline.value], buffer[newline.value + 1..], incoming)
    else if incoming == [] then Stopped(ResponseTimeout, buffer, incoming)
    else
      var rest := incoming[1..];
      match incoming[0]
      case Deadline => Stopped(ResponseTimeout, buffer, incoming)
      case PeerClosed => Stopped(Closed, buffer, rest)
      case Chunk(bytes) =>
        if bytes == [] then Stopped(Closed, buffer, rest)
        else if |bytes| > QMP_LIMIT - |buffer| then Stopped(Oversized, buffer, rest)
        else NextLine(buffer + bytes, rest)
      case Nothing => NextLine(buffer, rest)
  }

  function DecodeLine(decode: Decoder, line: Bytes): Result<Message, Failure> {
    match decode(Stripped(line))
    case BadJson => Err(JsonInvalid)
    case NotObject => Err(MessageInvalid)
    case Object(m) => Ok(m)
  }

  // ----- answers

  /** The line ends the request with this result: the value of a message with the id of
      the request, no error and a result; a failed command for any other message with that
      id; and a refusal for a message with another id that is no event, and for a line
      that is no JSON object. */
  predicate Settles(decode: Decoder, line: Bytes, request: int, result: Result<Bytes, Failure>) {
    match decode(Stripped(line))
    case BadJson => result == Err(JsonInvalid)
    case NotObject => result == Err(MessageInvalid)
    case Object(m) =>
      || (IdEquals(m.id, request) && !m.hasError && m.result.Some? && result == Ok(m.result.value))
      || (IdEquals(m.id, request) && (m.hasError || m.result.None?) && result == Err(CommandFailed))
      || (!IdEquals(m.id, request) && !m.hasEvent && result == Err(CorrelationInvalid))
  }

  /** What a message means for a request: nothing, or its end. */
  function Verdict(message: Message, request: int): Option<Result<Bytes, Failure>> {
    if !IdEquals(message.id, request) then if message.hasEvent then None else Some(Err(CorrelationInvalid))
    else if message.hasError || message.result.None? then Some(Err(CommandFailed))
    else Some(Ok(message.result.value))
  }

  function LineVerdict(decode: Decoder, line: Bytes, request: int): Option<Result<Bytes, Failure>> {
    match DecodeLine(decode, line)
    case Err(f) => Some(Err(f))
    case Ok(m) => Verdict(m, request)
  }

  /** A line settles a request exactly with its verdict, and is skipped exactly when it is
      an event for another id. */
  lemma VerdictExactly(decode: Decoder, line: Bytes, request: int, result: Result<Bytes, Failure>)
    ensures LineVerdict(decode, line, request) == Some(result) <==> Settles(decode, line, request, result)
    ensures LineVerdict(decode, line, request).None? <==> OtherEvent(line, decode, request)
  {
  }

  datatype Answer = Answer(result: Result<Bytes, Failure>, taken: seq<Bytes>, buffer: Bytes, incoming: seq<Event>)

  /** The answer to a request: lines are skipped until one ends it or no line comes. */
  function Await(decode: Decoder, request: int, buffer: Bytes, incoming: seq<Event>): (a: Answer)
    ensures a.result != Err(SendFailed) && a.result != Err(SendTimeout)
    decreases |incoming|, |buffer|
  {
    match NextLine(buffer, incoming)
    case Stopped(f, b, events) => Answer(Err(f), [], b, events)
    case Taken(line, b, events) =>
      match LineVerdict(decode, line, request)
      case Some(result) => Answer(result, [line], b, events)
      case None =>
        var more := Await(decode, request, b, events);
        more.(taken := [line] + more.taken)
  }

  lemma AwaitSkips(decode: Decoder, request: int, buffer: Bytes, incoming: seq<Event>)
    requires var next := NextLine(buffer, incoming); next.Taken? && OtherEvent(next.line, decode, request)
    ensures var next := NextLine(buffer, incoming);
            var more := Await(decode, request, next.buffer, next.incoming);
            Await(decode, request, buffer, incoming) == more.(taken := [next.line] + more.taken)
  {
  }

  lemma AwaitEnds(decode: Decoder, request: int, buffer: Bytes, incoming: seq<Event>)
    requires var next := NextLine(buffer, incoming);
             next.Taken? && LineVerdict(decode, next.line, request).Some?
    ensures var next := NextLine(buffer, incoming);
            Await(decode, request, buffer, incoming) ==
            Answer(LineVerdict(decode, next.line, request).value, [next.line], next.buffer, next.incoming)
  {
  }

  /** Every line before the last is an event for another id, and the last one settles the
      request; or all of them are such events and the socket gave no further line. */
  lemma {:induction false} AwaitSound(decode: Decoder, request: int, buffer: Bytes, incoming: seq<Event>)
    ensures var a := Await(decode, request, buffer, incoming);
            var last := |a.taken| - 1;
            && (forall k | 0 <= k < last :: OtherEvent(a.taken[k], decode, request))
            && if last >= 0 && !OtherEvent(a.taken[last], decode, request) then
                 Settles(decode, a.taken[last], request, a.result)
               else
                 a.result.Err? && a.result.error in {ResponseTimeout, Closed, Oversized}
    decreases |incoming|, |buffer|
  {
    var next := NextLine(buffer, incoming);
    if next.Taken? {
      var verdict := LineVerdict(decode, next.line, request);
      if verdict.Some? {
        VerdictExactly(decode, next.line, request, verdict.value);
      } else {
        AwaitSound(decode, request, next.buffer, next.incoming);
        var more := Await(decode, request, next.buffer, next.incoming);
        var a := Await(decode, request, buffer, incoming);
        assert forall k | 0 < k < |a.taken| :: a.taken[k] == more.taken[k - 1];
        VerdictExactly(decode, next.line, request, Err(CommandFailed));
      }
    }
  }

  /** The last of these lines settles the request, and the lines before it are events for
      other ids. */
  predicate SettledBy(decode: Decoder, request: int, lines: seq<Bytes>, result: Result<Bytes, Failure>) {
    && lines != [] && Settles(decode, lines[|lines| - 1], request, result)
    && forall k | 0 <= k < |lines| - 1 :: OtherEvent(lines[k], decode, request)
  }

  lemma AwaitSettles(decode: Decoder, request: int, buffer: Bytes, incoming: seq<Event>)
    ensures var a := Await(decode, request, buffer, incoming);
            || (a.result.Err? && a.result.error in {ResponseTimeout, Closed, Oversized})
            || SettledBy(decode, request, a.taken, a.result)
  {
    AwaitSound(decode, request, buffer, incoming);
  }

  lemma ConcatAssociative(a: Bytes, b: Bytes, c: Bytes)
    ensures a + b + c == a + (b + c)
  {
  }

  // ----- sending

  /** One turn of the send loop: bytes taken, no room yet, an error, or the deadline. */
  datatype Sending = Took(count: nat) | Busy | SendError | SendDeadline

  datatype Delivery = Delivery(count: nat, outgoing: seq<Sending>, failure: Option<Failure>)

  function Min(a: nat, b: nat): nat {
    if a <= b then a else b
  }

  /** How much of a request of this length is sent, and why not all of it. */
  function Deliver(length: nat, outgoing: seq<Sending>): (d: Delivery)
    ensures d.count <= length && (d.failure.None? <==> d.count == length)
    ensures d.failure.Some? ==> d.failure.value in {SendFailed, SendTimeout}
    decreases |outgoing|
  {
    if length == 0 then Delivery(0, outgoing, None)
    else if outgoing == [] then Delivery(0, outgoing, Some(SendTimeout))
    else
      var rest := outgoing[1..];
      match outgoing[0]
      case SendDeadline => Delivery(0, outgoing, Some(SendTimeout))
      case SendError => Delivery(0, rest, Some(SendFailed))
      case Busy => Deliver(length, rest)
      case Took(n) =>
        if n == 0 then Delivery(0, rest, Some(SendFailed))
        else
          var m := Min(n, length);
          var more := Deliver(length - m, rest);
          more.(count := m + more.count)
  }

  /** The socket takes bytes, now and then none. */
  predicate Flowing(outgoing: seq<Sending>) {
    forall i | 0 <= i < |outgoing| :: outgoing[i] == Busy || (outgoing[i].Took? && outgoing[i].count > 0)
  }

  function Room(outgoing: seq<Sending>): nat {
    if outgoing == [] then 0 else (if outgoing[0].Took? then outgoing[0].count else 0) + Room(outgoing[1..])
  }

  /** A socket that keeps taking bytes gets the whole request exactly when it takes enough,
      however small its parts are. */
  lemma {:induction false} DeliversAll(length: nat, outgoing: seq<Sending>)
    requires Flowing(outgoing)
    ensures Deliver(length, outgoing).failure.None? <==> Room(outgoing) >= length
    decreases |outgoing|
  {
    if length > 0 && outgoing != [] {
      assert Flowing(outgoing[1..]);
      DeliversAll(if outgoing[0].Took? then length - Min(outgoing[0].count, length) else length, outgoing[1..]);
    }
  }

  class Client {
    const decode: Decoder
    var incoming: seq<Event>
    var outgoing: seq<Sending>
    var buffer: Bytes
    var nextId: int
    /** Everything accepted from the socket, the lines taken from it, the ids used and
        the bytes sent, over the client's life. */
    ghost var received: Bytes
    ghost var lines: seq<Bytes>
    ghost var issued: seq<int>
    var sent: Bytes

    constructor (decode: Decoder, incoming: seq<Event>, outgoing: seq<Sending>)
      ensures Valid() && this.decode == decode && this.incoming == incoming && this.outgoing == outgoing
      ensures buffer == []
      ensures received == [] && lines == [] && issued == [] && nextId == 1 && sent == []
    {
      this.decode := decode;
      this.incoming, this.outgoing := incoming, outgoing;
      buffer, nextId, sent := [], 1, [];
      received, lines, issued := [], [], [];
    }

    /** Lines and buffer re-join to what was received, the buffer is bounded, and the
        ids issued so far are 1, 2, 3 and so on, each once. */
    ghost predicate Valid()
      reads this
    {
      && |buffer| <= QMP_LIMIT
      && AllLines(lines) && Rejoined(lines) + buffer == received
      && nextId == |issued| + 1
      && forall i | 0 <= i < |issued| :: issued[i] == i + 1
    }

    /** `_receive_object`: takes the next line, reading as many chunks as it needs, or
        fails exactly when and as the events of the socket say. */
    method ReceiveObject() returns (r: Result<Message, Failure>)
      requires Valid()
      modifies this`incoming, this`buffer, this`received, this`lines
      ensures Valid() && old(received) <= received
      ensures var next := NextLine(old(buffer), old(incoming));
              && buffer == next.buffer && incoming == next.incoming
              && lines == old(lines) + (if next.Taken? then [next.line] else [])
              && r == (if next.Taken? then DecodeLine(decode, next.line) else Err(next.failure))
    {
      while true
        invariant Valid() && old(received) <= received && lines == old(lines)
        invariant NextLine(buffer, incoming) == NextLine(old(buffer), old(incoming))
        decreases |incoming|
      {
        var newline := IndexOf(buffer, 0);
        if newline.Some? {
          r := TakeLine(newline.value);
          return;
        }
        if incoming == [] || incoming[0] == Deadline {
          return Err(ResponseTimeout);
        }
        var event := incoming[0];
        incoming := incoming[1..];
        match event {
          case Chunk(bytes) =>
            if bytes == [] {
              return Err(Closed);
            }
            if |bytes| > QMP_LIMIT - |buffer| {
              return Err(Oversized);
            }
            received := received + bytes;
            ConcatAssociative(Rejoined(lines), buffer, bytes);
            buffer := buffer + bytes;
          case PeerClosed =>
            return Err(Closed);
          case _ =>
        }
      }
    }

    /** Cuts the first line off the buffer and decodes it. */
    method TakeLine(newline: nat) returns (r: Result<Message, Failure>)
      requires Valid() && newline < |buffer| && buffer[newline] == LF && OneLine(buffer[..newline])
      modifies this`buffer, this`lines
      ensures Valid() && lines == old(lines) + [old(buffer)[..newline]]
      ensures buffer == old(buffer)[newline + 1..]
      ensures r == DecodeLine(decode, old(buffer)[..newline])
    {
      var line := buffer[..newline];
      RejoinedAppend(lines, line);
      assert buffer == line + [LF] + buffer[newline + 1..];
      assert Rejoined(lines) + line + [LF] + buffer[newline + 1..] == Rejoined(lines) + buffer;
      lines := lines + [line];
      buffer := buffer[newline + 1..];
      match decode(Stripped(line)) {
        case BadJson => r := Err(JsonInvalid);
        case NotObject => r := Err(MessageInvalid);
        case Object(m) => r := Ok(m);
      }
    }

    /** The send loop: sends as much as the events of the socket let it, and fails as they say. */
    method SendAll(payload: Bytes) returns (failure: Option<Failure>)
      modifies this`sent, this`outgoing
      ensures var d := Deliver(|payload|, old(outgoing));
              sent == old(sent) + payload[..d.count] && outgoing == d.outgoing && failure == d.failure
    {
      var offset := 0;
      while offset < |payload|
        invariant offset <= |payload| && sent == old(sent) + payload[..offset]
        invariant var d := Deliver(|payload| - offset, outgoing);
                  Deliver(|payload|, old(outgoing)) == d.(count := offset + d.count)
        decreases |outgoing|
      {
        if outgoing == [] || outgoing[0] == SendDeadline {
          return Some(SendTimeout);
        }
        var event := outgoing[0];
        outgoing := outgoing[1..];
        match event {
          case Took(n) =>
            var written := Min(n, |payload| - offset);
            if written == 0 {
              return Some(SendFailed);
            }
            sent := sent + payload[offset..offset + written];
            offset := offset + written;
            assert sent == old(sent) + payload[..offset];
          case SendError =>
            return Some(SendFailed);
          case _ =>
        }
      }
      return None;
    }

    /** `execute_result`: sends the request that carries the next number, and gives the
        answer that the buffer and the events of the socket determine. */
    method ExecuteResult(command: Bytes, arguments: Option<Bytes>) returns (r: Result<Bytes, Failure>)
      requires Valid()
      modifies this
      ensures Valid() && issued == old(issued) + [old(nextId)] && nextId == old(nextId) + 1
      ensures var payload := Payload(command, old(nextId), arguments);
              var d := Deliver(|payload|, old(outgoing));
              var a := Await(decode, old(nextId), old(buffer), old(incoming));
              && sent == old(sent) + payload[..d.count] && outgoing == d.outgoing
              && if d.failure.Some? then
                   && r == Err(d.failure.value)
                   && lines == old(lines) && buffer == old(buffer) && incoming == old(incoming)
                 else
                   && r == a.result && lines == old(lines) + a.taken
                   && buffer == a.buffer && incoming == a.incoming
      ensures r.Ok? || r.error in {JsonInvalid, MessageInvalid, CorrelationInvalid, CommandFailed} ==>
                SettledBy(decode, old(nextId), lines[|old(lines)|..], r)
    {
      var request := nextId;
      nextId := nextId + 1;
      issued := issued + [request];
      var failure := SendAll(Payload(command, request, arguments));
      if failure.Some? {
        return Err(failure.value);
      }
      AwaitSettles(decode, request, buffer, incoming);
      ghost var before := lines;
      r := AwaitAnswer(request);
      assert lines[|before|..] == Await(decode, request, old(buffer), old(incoming)).taken;
    }

    /** The receive loop of `execute_result`. */
    method AwaitAnswer(request: int) returns (r: Result<Bytes, Failure>)
      requires Valid()
      modifies this`incoming, this`buffer, this`received, this`lines
      ensures Valid()
      ensures var a := Await(decode, request, old(buffer), old(incoming));
              r == a.result && lines == old(lines) + a.taken && buffer == a.buffer && incoming == a.incoming
    {
      ghost var skipped: seq<Bytes> := [];
      ghost var all := Await(decode, request, buffer, incoming);
      NothingSkipped(all);
      while true
        invariant Valid() && lines == old(lines) + skipped
        invariant all == Behind(skipped, Await(decode, request, buffer, incoming))
        decreases |incoming|, |buffer|
      {
        ghost var a := Await(decode, request, buffer, incoming);
        var verdict, line := ReceiveVerdict(request);
        if verdict.Some? {
          ConcatLines(old(lines), skipped, a.taken);
          return verdict.value;
        }
        SkipOne(skipped, line, Await(decode, request, buffer, incoming));
        ConcatLines(old(lines), skipped, [line]);
        skipped := skipped + [line];
      }
    }

    /** One turn of the receive loop: the end of the request, or a line to skip. */
    method ReceiveVerdict(request: int) returns (verdict: Option<Result<Bytes, Failure>>, ghost line: Bytes)
      requires Valid()
      modifies this`incoming, this`buffer, this`received, this`lines
      ensures Valid()
      ensures var a := Await(decode, request, old(buffer), old(incoming));
              if verdict.Some? then
                && verdict.value == a.result && lines == old(lines) + a.taken
                && buffer == a.buffer && incoming == a.incoming
              else
                && a == Behind([line], Await(decode, request, buffer, incoming)) && lines == old(lines) + [line]
                && (|incoming| < |old(incoming)| || (incoming == old(incoming) && |buffer| < |old(buffer)|))
    {
      ghost var next := NextLine(buffer, incoming);
      line := if next.Taken? then next.line else [];
      var response := ReceiveObject();
      if response.Err? {
        return Some(Err(response.error)), line;
      }
      var message := response.value;
      if !IdEquals(message.id, request) {
        if message.hasEvent {
          AwaitSkips(decode, request, old(buffer), old(incoming));
          return None, line;
        }
        verdict := Some(Err(CorrelationInvalid));
      } else if message.hasError || message.result.None? {
        verdict := Some(Err(CommandFailed));
      } else {
        verdict := Some(Ok(message.result.value));
      }
      AwaitEnds(decode, request, old(buffer), old(incoming));
    }
  }

  /** An answer that came after more lines were skipped. */
  function Behind(skipped: seq<Bytes>, a: Answer): Answer {
    a.(taken := skipped + a.taken)
  }

  lemma NothingSkipped(a: Answer)
    ensures Behind([], a) == a
  {
    assert [] + a.taken == a.taken;
  }

  lemma SkipOne(skipped: seq<Bytes>, line: Bytes, a: Answer)
    ensures Behind(skipped, Behind([line], a)) == Behind(skipped + [line], a)
  {
    ConcatLines(skipped, [line], a.taken);
  }

  lemma ConcatLines(a: seq<Bytes>, b: seq<Bytes>, c: seq<Bytes>)
    ensures a + b + c == a + (b + c)
  {
  }

  /** An id equals a request number exactly when it is that integer, the same number
      written as a fraction, or `true` for the first request: a response can pass the
      correlation check without carrying the integer that was sent. */
  lemma IdEqualsExactly(id: Id, request: int)
    requires request >= 1
    ensures IdEquals(id, request) <==>
            id == Integer(request) || id == Real(request as real) || (id == Boolean(true) && request == 1)
  {
  }

  /** No id is issued twice over a client's life. */
  lemma IdsNeverRepeat(client: Client, i: nat, j: nat)
    requires client.Valid() && i < j < |client.issued|
    ensures client.issued[i] != client.issued[j] && client.issued[j] != client.nextId
  {
  }
}
