/** The exact parser of the vault companion's terminal responses. */
module Companion {
  import opened Texts
  import opened Decimal

  const CR: Byte := 0x0D
  const LF: Byte := 0x0A

  // ----- line endings

  function ReplaceCrLf(b: Bytes): Bytes {
    if b == [] then []
    else if |b| >= 2 && b[0] == CR && b[1] == LF then [LF] + ReplaceCrLf(b[2..])
    else [b[0]] + ReplaceCrLf(b[1..])
  }

  function ReplaceCr(b: Bytes): Bytes {
    if b == [] then [] else [if b[0] == CR then LF else b[0]] + ReplaceCr(b[1..])
  }

  /** Every line ending as a line feed, in one pass. */
  function Unified(b: Bytes): Bytes {
    if b == [] then []
    else if b[0] != CR then [b[0]] + Unified(b[1..])
    else if |b| >= 2 && b[1] == LF then [LF] + Unified(b[2..])
    else [LF] + Unified(b[1..])
  }

  /** The two replacements of the source are one pass over the line endings. */
  lemma {:induction false} ReplacementsUnify(b: Bytes)
    ensures ReplaceCr(ReplaceCrLf(b)) == Unified(b)
  {
    if b != [] {
      var n := if |b| >= 2 && b[0] == CR && b[1] == LF then 2 else 1;
      ReplacementsUnify(b[n..]);
      assert ReplaceCrLf(b)[1..] == ReplaceCrLf(b[n..]);
    }
  }

  predicate NoBreak(b: Bytes) {
    CR !in b && LF !in b
  }

  predicate OnlyBreaks(b: Bytes) {
    forall i | 0 <= i < |b| :: b[i] == CR || b[i] == LF
  }

  lemma {:induction false} UnifiedText(line: Bytes, rest: Bytes)
    requires NoBreak(line)
    ensures Unified(line + rest) == line + Unified(rest)
  {
    if line == [] {
      assert line + rest == rest;
    } else {
      UnifiedText(line[1..], rest);
      assert (line + rest)[1..] == line[1..] + rest;
    }
  }

  predicate IsEnding(e: Bytes) {
    e == [LF] || e == [CR, LF] || e == [CR]
  }

  lemma UnifiedEnding(e: Bytes, rest: Bytes)
    requires IsEnding(e) && (rest == [] || rest[0] != LF)
    ensures Unified(e + rest) == [LF] + Unified(rest)
  {
    assert (e + rest)[|e|..] == rest;
  }

  function Feeds(n: nat): (b: Bytes)
    ensures |b| == n
  {
    if n == 0 then [] else [LF] + Feeds(n - 1)
  }

  /** The length of the line break at the front. */
  function BreakLength(b: Bytes): (k: nat)
    requires b != []
    ensures 1 <= k <= |b|
  {
    if |b| >= 2 && b[0] == CR && b[1] == LF then 2 else 1
  }

  lemma UnifiedStep(b: Bytes)
    requires b != [] && (b[0] == CR || b[0] == LF)
    ensures Unified(b) == [LF] + Unified(b[BreakLength(b)..])
  {
  }

  lemma BreakBeforeMore(breaks: Bytes, rest: Bytes)
    requires breaks != [] && OnlyBreaks(breaks) && (rest == [] || rest[0] != LF)
    ensures BreakLength(breaks + rest) == BreakLength(breaks)
    ensures (breaks + rest)[BreakLength(breaks)..] == breaks[BreakLength(breaks)..] + rest
    ensures OnlyBreaks(breaks[BreakLength(breaks)..])
  {
    assert |breaks| == 1 && rest != [] ==> (breaks + rest)[1] == rest[0];
  }

  /** Line breaks before other text become so many line feeds. */
  lemma {:induction false} UnifiedBreaks(breaks: Bytes, rest: Bytes) returns (n: nat)
    requires OnlyBreaks(breaks) && (rest == [] || rest[0] != LF)
    ensures Unified(breaks + rest) == Feeds(n) + Unified(rest)
  {
    if breaks == [] {
      assert breaks + rest == rest;
      n := 0;
    } else {
      var k := BreakLength(breaks);
      BreakBeforeMore(breaks, rest);
      var m := UnifiedBreaks(breaks[k..], rest);
      UnifiedStep(breaks + rest);
      n := m + 1;
      FeedsStep(m, Unified(rest));
    }
  }

  lemma FeedsStep(m: nat, rest: Bytes)
    ensures Feeds(m + 1) + rest == [LF] + (Feeds(m) + rest)
  {
  }

  // ----- splitting and stripping

  function Split(s: Bytes): (lines: seq<Bytes>)
    ensures lines != []
  {
    if s == [] then [[]]
    else if s[0] == LF then [[]] + Split(s[1..])
    else
      var more := Split(s[1..]);
      [[s[0]] + more[0]] + more[1..]
  }

  lemma {:induction false} SplitText(line: Bytes, rest: Bytes)
    requires LF !in line
    ensures Split(line + rest) == [line + Split(rest)[0]] + Split(rest)[1..]
  {
    if line == [] {
      assert line + rest == rest;
      assert line + Split(rest)[0] == Split(rest)[0];
      assert Split(rest) == [Split(rest)[0]] + Split(rest)[1..];
    } else {
      SplitText(line[1..], rest);
      assert (line + rest)[1..] == line[1..] + rest;
      assert [line[0]] + (line[1..] + Split(rest)[0]) == line + Split(rest)[0];
    }
  }

  lemma SplitLine(line: Bytes, rest: Bytes)
    requires LF !in line
    ensures Split(line + ([LF] + rest)) == [line] + Split(rest)
  {
    SplitText(line, [LF] + rest);
    assert ([LF] + rest)[1..] == rest;
    assert Split([LF] + rest) == [[]] + Split(rest);
    assert line + [] == line;
  }

  function Blanks(n: nat): seq<Bytes> {
    seq(n, _ => [])
  }

  lemma {:induction false} SplitFeeds(n: nat, rest: Bytes)
    ensures Split(Feeds(n) + rest) == Blanks(n) + Split(rest)
  {
    if n == 0 {
      assert Feeds(0) + rest == rest;
      assert Blanks(0) + Split(rest) == Split(rest);
    } else {
      SplitFeeds(n - 1, rest);
      assert Feeds(n) + rest == [LF] + (Feeds(n - 1) + rest);
      assert (Feeds(n) + rest)[1..] == Feeds(n - 1) + rest;
      assert Blanks(n) + Split(rest) == [[]] + (Blanks(n - 1) + Split(rest));
    }
  }

  function StripFront(lines: seq<Bytes>): seq<Bytes> {
    if lines != [] && lines[0] == [] then StripFront(lines[1..]) else lines
  }

  function StripBack(lines: seq<Bytes>): seq<Bytes> {
    if lines != [] && lines[|lines| - 1] == [] then StripBack(lines[..|lines| - 1]) else lines
  }

  lemma {:induction false} StripFrontBlanks(n: nat, lines: seq<Bytes>)
    requires lines != [] && lines[0] != []
    ensures StripFront(Blanks(n) + lines) == lines
  {
    if n == 0 {
      assert Blanks(0) + lines == lines;
    } else {
      StripFrontBlanks(n - 1, lines);
      assert (Blanks(n) + lines)[1..] == Blanks(n - 1) + lines;
    }
  }

  lemma {:induction false} StripBackBlanks(lines: seq<Bytes>, n: nat)
    requires lines != [] && lines[|lines| - 1] != []
    ensures StripBack(lines + Blanks(n)) == lines
  {
    var all := lines + Blanks(n);
    if n == 0 {
      assert all == lines;
    } else {
      StripBackBlanks(lines, n - 1);
      assert all[..|all| - 1] == lines + Blanks(n - 1);
    }
  }

  /** What `_normalize` returns. */
  function Normalized(block: Bytes): seq<Bytes> {
    StripBack(StripFront(Split(ReplaceCr(ReplaceCrLf(block)))))
  }

  method Normalize(block: Bytes) returns (lines: seq<Bytes>)
    ensures lines == Normalized(block)
  {
    lines := Split(ReplaceCr(ReplaceCrLf(block)));
    while lines != [] && lines[0] == []
      invariant StripBack(StripFront(lines)) == Normalized(block)
      decreases |lines|
    {
      lines := lines[1..];
    }
    while lines != [] && lines[|lines| - 1] == []
      invariant StripBack(lines) == Normalized(block)
      decreases |lines|
    {
      lines := lines[..|lines| - 1];
    }
  }

  /** Lines that a terminal can show one below the other without a gap. */
  predicate SolidLines(lines: seq<Bytes>) {
    forall i | 0 <= i < |lines| :: lines[i] != [] && NoBreak(lines[i])
  }

  /** The lines with any line ending between them, and any line breaks after the last. */
  function Shown(lines: seq<Bytes>, endings: seq<Bytes>, after: Bytes): Bytes
    requires lines != [] && |endings| == |lines| - 1
  {
    if |lines| == 1 then lines[0] + after
    else lines[0] + (endings[0] + Shown(lines[1..], endings[1..], after))
  }

  lemma {:induction false} SplitShown(lines: seq<Bytes>, endings: seq<Bytes>, after: Bytes) returns (n: nat)
    requires lines != [] && SolidLines(lines) && |endings| == |lines| - 1 && OnlyBreaks(after)
    requires forall i | 0 <= i < |endings| :: IsEnding(endings[i])
    ensures Split(Unified(Shown(lines, endings, after))) == lines + Blanks(n)
    decreases |lines|
  {
    var line := lines[0];
    if |lines| == 1 {
      UnifiedText(line, after);
      n := UnifiedBreaks(after, []);
      assert after + [] == after && Feeds(n) + [] == Feeds(n);
      SplitFeeds(n, []);
      SplitText(line, Feeds(n));
      assert Split(Feeds(n)) == Blanks(n) + [[]] == Blanks(n + 1);
      assert line + [] == line;
      assert [line] + Blanks(n + 1)[1..] == lines + Blanks(n);
    } else {
      var more := Shown(lines[1..], endings[1..], after);
      n := SplitShown(lines[1..], endings[1..], after);
      assert more[0] == lines[1][0];
      UnifiedText(line, endings[0] + more);
      UnifiedEnding(endings[0], more);
      SplitLine(line, Unified(more));
      assert [line] + (lines[1..] + Blanks(n)) == lines + Blanks(n);
    }
  }

  /** However a terminal mixes its line endings, and whatever line breaks come before and
      after, normalizing gives the lines back. */
  lemma NormalizedShown(before: Bytes, lines: seq<Bytes>, endings: seq<Bytes>, after: Bytes)
    requires lines != [] && SolidLines(lines) && |endings| == |lines| - 1
    requires OnlyBreaks(before) && OnlyBreaks(after)
    requires forall i | 0 <= i < |endings| :: IsEnding(endings[i])
    ensures Normalized(before + Shown(lines, endings, after)) == lines
  {
    var text := Shown(lines, endings, after);
    assert text[0] == lines[0][0];
    var n := SplitShown(lines, endings, after);
    var m := UnifiedBreaks(before, text);
    ReplacementsUnify(before + text);
    SplitFeeds(m, Unified(text));
    StripFrontBlanks(m, lines + Blanks(n));
    StripBackBlanks(lines, n);
  }

  // ----- the lines of a response

  const VERSION_PREFIX: Bytes := Ascii("stateVersion: ")
  const STATE_PREFIX: Bytes := Ascii("vaultState: ")
  const DEVICE_PREFIX: Bytes := Ascii("deviceId: ")
  const ERROR_PREFIX: Bytes := Ascii("error: ")
  const PROMPT: seq<Bytes> := [Ascii("READY"), Ascii("Vault passphrase: ")]

  const LOCKED: Bytes := Ascii("locked")
  const UNLOCKED: Bytes := Ascii("unlocked")
  const FAULTED: Bytes := Ascii("faulted-reboot-required")
  const STATES: set<Bytes> := {
    Ascii("absent"), Ascii("unprovisioned"), LOCKED, Ascii("unlocking"), UNLOCKED, Ascii("locking"), FAULTED
  }
  const BAD_PASSPHRASE: Bytes := Ascii("BAD_PASSPHRASE")
  const REBOOT_REQUIRED: Bytes := Ascii("error: REBOOT_REQUIRED")

  predicate IsNumeral(d: Bytes) {
    d != [] && AllDigits(d) && (d[0] == 0x30 ==> |d| == 1)
  }

  predicate IsDevice(d: Bytes) {
    && |d| == 27 && d[..3] == Ascii("KA-")
    && forall i | 3 <= i < 27 :: IsDigit(d[i]) || 0x61 <= d[i] <= 0x66
  }

  predicate IsErrorCode(e: Bytes) {
    && e != [] && 0x41 <= e[0] <= 0x5A
    && forall i | 1 <= i < |e| :: 0x41 <= e[i] <= 0x5A || IsDigit(e[i]) || e[i] == 0x5F
  }

  /** What follows the prefix, when the line starts with it. */
  function After(line: Bytes, prefix: Bytes): Option<Bytes> {
    if StartsWith(line, prefix) then Some(line[|prefix|..]) else None
  }

  function VersionOf(line: Bytes): (r: Option<nat>)
    ensures r.Some? ==> line == VERSION_PREFIX + Digits(r.value)
  {
    var d := After(line, VERSION_PREFIX);
    if d.Some? && IsNumeral(d.value) then
      assert line == VERSION_PREFIX + d.value;
      DigitsOfValue(d.value);
      Some(Value(d.value))
    else None
  }

  function StateOf(line: Bytes): (r: Option<Bytes>)
    ensures r.Some? ==> line == STATE_PREFIX + r.value && r.value in STATES
  {
    var s := After(line, STATE_PREFIX);
    assert s.Some? ==> line == STATE_PREFIX + s.value;
    if s.Some? && s.value in STATES then s else None
  }

  function DeviceOf(line: Bytes): (r: Option<Bytes>)
    ensures r.Some? ==> line == DEVICE_PREFIX + r.value && IsDevice(r.value)
  {
    var d := After(line, DEVICE_PREFIX);
    assert d.Some? ==> line == DEVICE_PREFIX + d.value;
    if d.Some? && IsDevice(d.value) then d else None
  }

  function ErrorOf(line: Bytes): (r: Option<Bytes>)
    ensures r.Some? ==> line == ERROR_PREFIX + r.value && IsErrorCode(r.value)
  {
    var e := After(line, ERROR_PREFIX);
    assert e.Some? ==> line == ERROR_PREFIX + e.value;
    if e.Some? && IsErrorCode(e.value) then e else None
  }

  lemma AfterPrefix(prefix: Bytes, rest: Bytes)
    ensures After(prefix + rest, prefix) == Some(rest)
  {
    assert (prefix + rest)[..|prefix|] == prefix;
    assert (prefix + rest)[|prefix|..] == rest;
  }

  lemma VersionRead(n: nat)
    ensures VersionOf(VERSION_PREFIX + Digits(n)) == Some(n)
  {
    AfterPrefix(VERSION_PREFIX, Digits(n));
    ValueOfDigits(n);
  }

  /** A line that starts like an error line is no state line. */
  lemma ErrorIsNoState(rest: Bytes)
    ensures StateOf(ERROR_PREFIX + rest).None?
  {
    var line := ERROR_PREFIX + rest;
    assert line[0] == 0x65;
    assert STATE_PREFIX[0] == 0x76;
    assert |line| >= |STATE_PREFIX| ==> line[..|STATE_PREFIX|][0] == 0x65;
  }

  // ----- responses

  datatype Command = Status | Lock | Unlock | OtherCommand

  datatype Response = Response(
    version: nat, state: Option<Bytes>, device: Option<Bytes>, error: Option<Bytes>, returnCode: int)

  datatype Failure =
    | PromptInvalid
    | CommandInvalid
    | VersionInvalid
    | RebootRequired
    | ExtraOutput
    | StatusInvalid
    | LockInvalid
    | UnlockRefused

  function Line(prefix: Bytes, value: Option<Bytes>): seq<Bytes> {
    if value.Some? then [prefix + value.value] else []
  }

  /** The canonical lines of a response, without the prompt. */
  function Body(r: Response): seq<Bytes> {
    [Ascii("stateVersion: ") + Digits(r.version)]
    + Line(Ascii("vaultState: "), r.state) + Line(Ascii("deviceId: "), r.device) + Line(Ascii("error: "), r.error)
  }

  /** The canonical rendering of a response to a command. */
  function Rendered(r: Response, command: Command): seq<Bytes> {
    (if command == Unlock then [Ascii("READY"), Ascii("Vault passphrase: ")] else []) + Body(r)
  }

  /** The responses that a command may give: the state and possibly the device for a
      status, the locked state for a lock, the unlocked state and the device for an unlock,
      or one error for an unlock that failed. */
  predicate Expected(r: Response, command: Command) {
    match command
    case Status =>
      r.returnCode == 0 && r.state.Some? && KnownState(r.state.value) && KnownDevice(r.device) && r.error.None?
    case Lock => r.returnCode == 0 && r.state == Some(Ascii("locked")) && r.device.None? && r.error.None?
    case Unlock =>
      || (&& r.returnCode == 0 && r.state == Some(Ascii("unlocked")) && r.device.Some? && KnownDevice(r.device)
          && r.error.None?)
      || (r.returnCode != 0 && r.state.None? && r.device.None? && r.error == Some(Ascii("BAD_PASSPHRASE")))
    case OtherCommand => false
  }

  predicate KnownState(state: Bytes) {
    state in [
      Ascii("absent"), Ascii("unprovisioned"), Ascii("locked"), Ascii("unlocking"), Ascii("unlocked"),
      Ascii("locking"), Ascii("faulted-reboot-required")]
  }

  /** No device, or `KA-` and 24 lower-case hexadecimal digits. */
  predicate KnownDevice(device: Option<Bytes>) {
    device.Some? ==>
      && |device.value| == 27 && device.value[0] == 0x4B && device.value[1] == 0x41 && device.value[2] == 0x2D
      && forall i | 3 <= i < 27 :: 0x30 <= device.value[i] <= 0x39 || 0x61 <= device.value[i] <= 0x66
  }

  lemma KnownIsListed(state: Bytes)
    ensures KnownState(state) <==> state in STATES
  {
  }

  lemma KnownIsDevice(device: Option<Bytes>)
    ensures KnownDevice(device) <==> (device.Some? ==> IsDevice(device.value))
  {
    if device.Some? && |device.value| == 27 {
      var d := device.value;
      assert Ascii("KA-") == [0x4B, 0x41, 0x2D];
      assert d[..3] == [d[0], d[1], d[2]];
    }
  }

  // ----- the parser

  /** Takes the version, then a state with an optional device, or an error. */
  function ReadBody(lines: seq<Bytes>, returnCode: int): (r: Option<(Response, seq<Bytes>)>)
    ensures r.Some? ==> lines == Body(r.value.0) + r.value.1 && r.value.0.returnCode == returnCode
    ensures r.Some? ==> (r.value.0.state.Some? ==> r.value.0.state.value in STATES)
    ensures r.Some? ==> (r.value.0.device.Some? ==> IsDevice(r.value.0.device.value))
  {
    if lines == [] || VersionOf(lines[0]).None? then None
    else
      var version, more := VersionOf(lines[0]).value, lines[1..];
      if more != [] && StateOf(more[0]).Some? then
        var state := StateOf(more[0]);
        if |more| > 1 && DeviceOf(more[1]).Some? then
          Some((Response(version, state, DeviceOf(more[1]), None, returnCode), more[2..]))
        else Some((Response(version, state, None, None, returnCode), more[1..]))
      else if more != [] && ErrorOf(more[0]).Some? then
        Some((Response(version, None, None, ErrorOf(more[0]), returnCode), more[1..]))
      else Some((Response(version, None, None, None, returnCode), more))
  }

  function ParseLines(lines: seq<Bytes>, command: Command, returnCode: int): (r: Result<Response, Failure>) {
    if command == Unlock && !(|lines| >= 2 && lines[..2] == PROMPT) then Err(PromptInvalid)
    else if command == OtherCommand then Err(CommandInvalid)
    else
      var body := ReadBody(if command == Unlock then lines[2..] else lines, returnCode);
      if body.None? then Err(VersionInvalid)
      else
        var (response, rest) := body.value;
        if command == Lock && returnCode == 1 && response.state == Some(FAULTED) && response.device.None?
           && rest == [REBOOT_REQUIRED] then Err(RebootRequired)
        else if rest != [] then Err(ExtraOutput)
        else if command == Status && !(returnCode == 0 && response.state.Some? && response.error.None?) then
          Err(StatusInvalid)
        else if command == Lock
                && !(returnCode == 0 && response.state == Some(LOCKED) && response.device.None? && response.error.None?)
        then Err(LockInvalid)
        else if command == Unlock && !Unlocks(response) && !Rejects(response) then Err(UnlockRefused)
        else Ok(response)
  }

  /** The answer to an unlock that succeeded. */
  predicate Unlocks(r: Response) {
    r.returnCode == 0 && r.state == Some(UNLOCKED) && r.device.Some? && r.error.None?
  }

  /** The answer to an unlock with the wrong passphrase. */
  predicate Rejects(r: Response) {
    r.returnCode != 0 && r.state.None? && r.device.None? && r.error == Some(BAD_PASSPHRASE)
  }

  method ParseCompanionResponse(block: Bytes, command: Command, returnCode: int) returns (r: Result<Response, Failure>)
    ensures r == ParseLines(Normalized(block), command, returnCode)
  {
    var lines := Normalize(block);
    r := ParseLines(lines, command, returnCode);
  }

  lemma ReadState(version: nat, state: Bytes, returnCode: int)
    requires state in STATES
    ensures var r := Response(version, Some(state), None, None, returnCode);
            ReadBody(Body(r), returnCode) == Some((r, []))
  {
    var r := Response(version, Some(state), None, None, returnCode);
    VersionRead(version);
    AfterPrefix(STATE_PREFIX, state);
    assert Body(r) == [VERSION_PREFIX + Digits(version), STATE_PREFIX + state];
    assert Body(r)[1..] == [STATE_PREFIX + state] && Body(r)[1..][1..] == [];
  }

  lemma ReadDevice(version: nat, state: Bytes, device: Bytes, returnCode: int)
    requires state in STATES && IsDevice(device)
    ensures var r := Response(version, Some(state), Some(device), None, returnCode);
            ReadBody(Body(r), returnCode) == Some((r, []))
  {
    var r := Response(version, Some(state), Some(device), None, returnCode);
    VersionRead(version);
    AfterPrefix(STATE_PREFIX, state);
    AfterPrefix(DEVICE_PREFIX, device);
    assert Body(r) == [VERSION_PREFIX + Digits(version), STATE_PREFIX + state, DEVICE_PREFIX + device];
    assert Body(r)[1..] == [STATE_PREFIX + state, DEVICE_PREFIX + device] && Body(r)[1..][2..] == [];
  }

  lemma ReadError(version: nat, error: Bytes, returnCode: int)
    requires IsErrorCode(error)
    ensures var r := Response(version, None, None, Some(error), returnCode);
            ReadBody(Body(r), returnCode) == Some((r, []))
  {
    var r := Response(version, None, None, Some(error), returnCode);
    VersionRead(version);
    AfterPrefix(ERROR_PREFIX, error);
    ErrorIsNoState(error);
    assert Body(r) == [VERSION_PREFIX + Digits(version), ERROR_PREFIX + error];
    assert Body(r)[1..] == [ERROR_PREFIX + error] && Body(r)[1..][1..] == [];
  }

  lemma ReadExpected(r: Response, command: Command)
    requires Expected(r, command)
    ensures ReadBody(Body(r), r.returnCode) == Some((r, []))
  {
    if r.state.None? {
      ReadError(r.version, r.error.value, r.returnCode);
    } else if r.device.Some? {
      ReadDevice(r.version, r.state.value, r.device.value, r.returnCode);
    } else {
      ReadState(r.version, r.state.value, r.returnCode);
    }
  }

  lemma ParsedIsRendered(lines: seq<Bytes>, command: Command, returnCode: int)
    requires ParseLines(lines, command, returnCode).Ok?
    ensures var r := ParseLines(lines, command, returnCode).value;
            Expected(r, command) && r.returnCode == returnCode && lines == Rendered(r, command)
  {
    var r := ParseLines(lines, command, returnCode).value;
    if r.state.Some? {
      KnownIsListed(r.state.value);
    }
    KnownIsDevice(r.device);
    assert Body(r) + [] == Body(r);
    if command == Unlock {
      assert lines == PROMPT + lines[2..];
    }
  }

  lemma RenderedParses(command: Command, r: Response)
    requires Expected(r, command)
    ensures ParseLines(Rendered(r, command), command, r.returnCode) == Ok(r)
  {
    var lines := Rendered(r, command);
    ReadExpected(r, command);
    if command == Unlock {
      assert lines[..2] == PROMPT && lines[2..] == Body(r);
    } else {
      assert lines == Body(r);
    }
  }

  /** The parser succeeds exactly on the canonical rendering of the response it returns,
      and only for responses that the command may give. */
  lemma ParseIffRendered(lines: seq<Bytes>, command: Command, returnCode: int, r: Response)
    ensures ParseLines(lines, command, returnCode) == Ok(r) <==>
            Expected(r, command) && r.returnCode == returnCode && lines == Rendered(r, command)
  {
    if ParseLines(lines, command, returnCode) == Ok(r) {
      ParsedIsRendered(lines, command, returnCode);
    }
    if Expected(r, command) {
      RenderedParses(command, r);
    }
  }

  predicate Prompted(lines: seq<Bytes>, command: Command) {
    command == Unlock ==> |lines| >= 2 && lines[0] == Ascii("READY") && lines[1] == Ascii("Vault passphrase: ")
  }

  ghost predicate IsVersion(line: Bytes) {
    exists n: nat :: line == Ascii("stateVersion: ") + Digits(n)
  }

  lemma VersionExactly(line: Bytes)
    ensures VersionOf(line).Some? <==> IsVersion(line)
  {
    if VersionOf(line).Some? {
      assert line == Ascii("stateVersion: ") + Digits(VersionOf(line).value);
    }
    if IsVersion(line) {
      var n: nat :| line == Ascii("stateVersion: ") + Digits(n);
      VersionRead(n);
    }
  }

  lemma BodyExactly(lines: seq<Bytes>, returnCode: int)
    ensures ReadBody(lines, returnCode).Some? <==> lines != [] && IsVersion(lines[0])
  {
    if lines != [] {
      VersionExactly(lines[0]);
    }
  }

  lemma PromptExactly(lines: seq<Bytes>)
    ensures |lines| >= 2 && lines[..2] == PROMPT <==> Prompted(lines, Unlock)
  {
    assert |lines| >= 2 ==> lines[..2] == [lines[0], lines[1]];
  }

  /** An unlock needs the prompt first, other commands are refused, and every response
      starts with a version. */
  lemma RefusedEarly(lines: seq<Bytes>, command: Command, returnCode: int)
    ensures var r := ParseLines(lines, command, returnCode);
            && (r == Err(PromptInvalid) <==> !Prompted(lines, command))
            && (r == Err(CommandInvalid) <==> command == OtherCommand)
            && (Prompted(lines, command) && command != OtherCommand ==>
                  var body := if command == Unlock then lines[2..] else lines;
                  r == Err(VersionInvalid) <==> !(body != [] && IsVersion(body[0])))
  {
    PromptExactly(lines);
    if Prompted(lines, command) {
      BodyExactly(if command == Unlock then lines[2..] else lines, returnCode);
    }
  }

  /** The compound answer to a lock that left the vault faulted. */
  function FaultedLock(version: nat): seq<Bytes> {
    [VERSION_PREFIX + Digits(version), STATE_PREFIX + FAULTED, REBOOT_REQUIRED]
  }

  lemma FaultedBody(version: nat)
    ensures Body(Response(version, Some(FAULTED), None, None, 1)) + [REBOOT_REQUIRED] == FaultedLock(version)
  {
  }

  lemma ReadFaulted(version: nat)
    ensures ReadBody(FaultedLock(version), 1) ==
            Some((Response(version, Some(FAULTED), None, None, 1), [REBOOT_REQUIRED]))
  {
    VersionRead(version);
    AfterPrefix(STATE_PREFIX, FAULTED);
    var lines := FaultedLock(version);
    assert lines[1..] == [STATE_PREFIX + FAULTED, REBOOT_REQUIRED] && lines[1..][1..] == [REBOOT_REQUIRED];
    assert DeviceOf(REBOOT_REQUIRED).None?;
  }

  /** Only a failed lock that shows the faulted state and then that one error is told
      apart as needing a reboot. */
  lemma RebootExactly(lines: seq<Bytes>, command: Command, returnCode: int)
    ensures ParseLines(lines, command, returnCode) == Err(RebootRequired) <==>
            command == Lock && returnCode == 1 && exists version :: lines == FaultedLock(version)
  {
    if ParseLines(lines, command, returnCode) == Err(RebootRequired) {
      var r := ReadBody(lines, returnCode).value.0;
      FaultedBody(r.version);
      assert lines == FaultedLock(r.version);
    } else if command == Lock && returnCode == 1 {
      forall version ensures lines != FaultedLock(version) {
        ReadFaulted(version);
      }
    }
  }

  lemma NoBreakConcat(a: Bytes, b: Bytes)
    requires NoBreak(a) && NoBreak(b)
    ensures NoBreak(a + b)
  {
  }

  lemma PlainLine(prefix: Bytes, value: Bytes)
    requires prefix != [] && NoBreak(prefix) && NoBreak(value)
    ensures SolidLines([prefix + value])
  {
    NoBreakConcat(prefix, value);
  }

  lemma PrefixesPlain()
    ensures NoBreak(VERSION_PREFIX) && NoBreak(STATE_PREFIX) && NoBreak(DEVICE_PREFIX) && NoBreak(ERROR_PREFIX)
    ensures SolidLines(PROMPT)
  {
  }

  lemma StatePlain(state: Bytes)
    requires state in STATES
    ensures NoBreak(state)
  {
  }

  lemma SolidConcat(a: seq<Bytes>, b: seq<Bytes>)
    requires SolidLines(a) && SolidLines(b)
    ensures SolidLines(a + b)
  {
  }

  lemma LineSolid(prefix: Bytes, value: Option<Bytes>)
    requires prefix != [] && NoBreak(prefix) && (value.Some? ==> NoBreak(value.value))
    ensures SolidLines(Line(prefix, value))
  {
    if value.Some? {
      PlainLine(prefix, value.value);
    }
  }

  lemma RenderedSolid(r: Response, command: Command)
    requires Expected(r, command)
    ensures SolidLines(Rendered(r, command))
  {
    PrefixesPlain();
    if r.state.Some? {
      StatePlain(r.state.value);
    }
    var version, state := [VERSION_PREFIX + Digits(r.version)], Line(STATE_PREFIX, r.state);
    var device, error := Line(DEVICE_PREFIX, r.device), Line(ERROR_PREFIX, r.error);
    PlainLine(VERSION_PREFIX, Digits(r.version));
    LineSolid(STATE_PREFIX, r.state);
    LineSolid(DEVICE_PREFIX, r.device);
    LineSolid(ERROR_PREFIX, r.error);
    SolidConcat(version, state);
    SolidConcat(version + state, device);
    SolidConcat(version + state + device, error);
    SolidConcat(PROMPT, Body(r));
    assert [] + Body(r) == Body(r);
  }

  /** Every expected response, shown with any mix of line endings and any line breaks
      around it, parses back to itself. */
  lemma ShownParsesBack(r: Response, command: Command, before: Bytes, endings: seq<Bytes>, after: Bytes)
    requires Expected(r, command) && OnlyBreaks(before) && OnlyBreaks(after)
    requires |endings| == |Rendered(r, command)| - 1
    requires forall i | 0 <= i < |endings| :: IsEnding(endings[i])
    ensures var block := before + Shown(Rendered(r, command), endings, after);
            ParseLines(Normalized(block), command, r.returnCode) == Ok(r)
  {
    RenderedSolid(r, command);
    NormalizedShown(before, Rendered(r, command), endings, after);
    ParseIffRendered(Rendered(r, command), command, r.returnCode, r);
  }
}
