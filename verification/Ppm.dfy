/** The parser of framebuffer dumps: binary PPM with an eight-bit sample depth. */
module Ppm {
  import opened Texts
  import opened Decimal

  const HASH: Byte := 0x23
  const LF: Byte := 0x0A
  const CR: Byte := 0x0D

  const MIN_WIDTH := 640
  const MIN_HEIGHT := 480
  const MAX_WIDTH := 8192
  const MAX_HEIGHT := 8192

  const MAGIC: Bytes := [0x50, 0x36]
  const MAXIMUM: Bytes := [0x32, 0x35, 0x35]

  predicate IsBlank(b: Byte) {
    b == 0x20 || b == 0x09 || b == CR || b == LF
  }

  // ----- tokens, on what is left of the payload

  /** What follows the first line feed. */
  function AfterLine(s: Bytes): (r: Option<Bytes>)
    ensures r.Some? ==> |r.value| < |s|
  {
    if s == [] then None else if s[0] == LF then Some(s[1..]) else AfterLine(s[1..])
  }

  /** Skips blanks and comments; None where a comment does not end. */
  function SkipGap(s: Bytes): (r: Option<Bytes>)
    ensures r.Some? ==> |r.value| <= |s|
    decreases |s|
  {
    if s == [] then Some(s)
    else if s[0] == HASH then
      match AfterLine(s[1..])
      case None => None
      case Some(rest) => SkipGap(rest)
    else if IsBlank(s[0]) then SkipGap(s[1..])
    else Some(s)
  }

  function TokenLength(s: Bytes): (n: nat)
    ensures n <= |s|
  {
    if s == [] || IsBlank(s[0]) || s[0] == HASH then 0 else 1 + TokenLength(s[1..])
  }

  datatype Token = Token(text: Bytes, rest: Bytes) | NoToken

  function NextToken(s: Bytes): (r: Token)
  {
    match SkipGap(s)
    case None => NoToken
    case Some(t) =>
      var n := TokenLength(t);
      if n == 0 then NoToken else Token(t[..n], t[n..])
  }

  /** `_ppm_token`, with positions in the payload. */
  method PpmToken(payload: Bytes, start: nat) returns (r: Option<(Bytes, nat)>)
    requires start <= |payload|
    ensures r.None? <==> NextToken(payload[start..]).NoToken?
    ensures r.Some? ==> start <= r.value.1 <= |payload|
    ensures r.Some? ==> NextToken(payload[start..]) == Token(r.value.0, payload[r.value.1..])
  {
    var position := GapEnd(payload, start);
    if position.None? {
      return None;
    }
    var from := position.value;
    var end := TokenEnd(payload, from);
    if end == from {
      return None;
    }
    TokenAt(payload, from, end);
    return Some((payload[from..end], end));
  }

  lemma TokenAt(payload: Bytes, from: nat, end: nat)
    requires from <= end <= |payload|
    ensures payload[from..][..end - from] == payload[from..end]
    ensures payload[from..][end - from..] == payload[end..]
  {
  }

  /** The first loop of `_ppm_token`; None where a comment does not end. */
  method GapEnd(payload: Bytes, start: nat) returns (r: Option<nat>)
    requires start <= |payload|
    ensures r.None? <==> SkipGap(payload[start..]).None?
    ensures r.Some? ==> start <= r.value <= |payload| && SkipGap(payload[start..]) == Some(payload[r.value..])
  {
    var position := start;
    while position < |payload|
      invariant start <= position <= |payload|
      invariant SkipGap(payload[position..]) == SkipGap(payload[start..])
      decreases |payload| - position
    {
      assert payload[position..][1..] == payload[position + 1..];
      if payload[position] == HASH {
        var newline := FindLine(payload, position + 1);
        if newline.None? {
          return None;
        }
        position := newline.value + 1;
      } else if IsBlank(payload[position]) {
        position := position + 1;
      } else {
        return Some(position);
      }
    }
    return Some(position);
  }

  /** `payload.find(b"\n", start)`. */
  method FindLine(payload: Bytes, start: nat) returns (r: Option<nat>)
    requires start <= |payload|
    ensures r.None? <==> AfterLine(payload[start..]).None?
    ensures r.Some? ==> start <= r.value < |payload| && AfterLine(payload[start..]) == Some(payload[r.value + 1..])
  {
    var i := start;
    while i < |payload|
      invariant start <= i <= |payload|
      invariant AfterLine(payload[i..]) == AfterLine(payload[start..])
    {
      assert payload[i..][1..] == payload[i + 1..];
      if payload[i] == LF {
        return Some(i);
      }
      i := i + 1;
    }
    return None;
  }

  /** The second loop of `_ppm_token`. */
  method TokenEnd(payload: Bytes, start: nat) returns (end: nat)
    requires start <= |payload|
    ensures start <= end <= |payload| && end == start + TokenLength(payload[start..])
  {
    end := start;
    while end < |payload| && !IsBlank(payload[end]) && payload[end] != HASH
      invariant start <= end <= |payload|
      invariant TokenLength(payload[start..]) == end - start + TokenLength(payload[end..])
    {
      assert payload[end..][1..] == payload[end + 1..];
      end := end + 1;
    }
  }

  // ----- int()

  /** Decimal digits with single underscores between them. */
  function GroupedDigits(d: Bytes): (r: Option<nat>) {
    if d == [] || !IsDigit(d[|d| - 1]) then None
    else
      var front, digit := d[..|d| - 1], d[|d| - 1] - 0x30;
      if front == [] then Some(digit)
      else
        var more := if front[|front| - 1] == 0x5F then front[..|front| - 1] else front;
        match GroupedDigits(more)
        case None => None
        case Some(n) => Some(10 * n + digit)
  }

  /** The white space that `int` ignores and a token can still hold. */
  predicate IsFeed(b: Byte) {
    b == 0x0B || b == 0x0C
  }

  function Trimmed(t: Bytes): Bytes {
    if t != [] && IsFeed(t[0]) then Trimmed(t[1..])
    else if t != [] && IsFeed(t[|t| - 1]) then Trimmed(t[..|t| - 1])
    else t
  }

  /** `int(token)`; None where it raises. */
  function PythonInt(token: Bytes): Option<int> {
    var t := Trimmed(token);
    if t != [] && (t[0] == 0x2B || t[0] == MINUS) then
      match GroupedDigits(t[1..])
      case None => None
      case Some(n) => Some(if t[0] == MINUS then -(n as int) else n)
    else
      match GroupedDigits(t)
      case None => None
      case Some(n) => Some(n)
  }

  lemma {:induction false} GroupedPlain(d: Bytes)
    requires d != [] && AllDigits(d)
    ensures GroupedDigits(d) == Some(Value(d))
  {
    if |d| > 1 {
      GroupedPlain(d[..|d| - 1]);
    } else {
      assert d[..0] == [];
    }
  }

  lemma PythonIntOfDigits(n: nat)
    ensures PythonInt(Digits(n)) == Some(n)
  {
    GroupedPlain(Digits(n));
    ValueOfDigits(n);
  }

  // ----- how integers are written

  predicate IsGrouped(d: Bytes) {
    && d != [] && IsDigit(d[0]) && IsDigit(d[|d| - 1])
    && (forall i | 0 <= i < |d| :: IsDigit(d[i]) || d[i] == 0x5F)
    && (forall i | 0 <= i < |d| - 1 :: d[i] == 0x5F ==> d[i + 1] != 0x5F)
  }

  /** The digits without the underscores. */
  function Ungrouped(d: Bytes): (r: Bytes)
    ensures (forall i | 0 <= i < |d| :: IsDigit(d[i]) || d[i] == 0x5F) ==> AllDigits(r)
  {
    if d == [] then []
    else
      var more := Ungrouped(d[..|d| - 1]);
      if d[|d| - 1] == 0x5F then more else more + [d[|d| - 1]]
  }

  predicate OnlyFeeds(f: Bytes) {
    forall i | 0 <= i < |f| :: f[i] == 0x0B || f[i] == 0x0C
  }

  /** Feeds, a sign or none, digits in groups, and feeds. */
  predicate Written(token: Bytes, front: Bytes, sign: Bytes, digits: Bytes, back: Bytes) {
    && token == front + (sign + digits) + back && OnlyFeeds(front) && OnlyFeeds(back)
    && (sign == [] || sign == [0x2B] || sign == [0x2D]) && IsGrouped(digits)
  }

  function Signed(sign: Bytes, digits: Bytes): int
    requires IsGrouped(digits)
  {
    if sign == [0x2D] then 0 - Value(Ungrouped(digits)) as int else Value(Ungrouped(digits)) as int
  }

  ghost predicate Denotes(token: Bytes, n: int) {
    exists front, sign, digits, back :: Written(token, front, sign, digits, back) && n == Signed(sign, digits)
  }

  lemma ValueMore(d: Bytes, digit: Byte)
    requires AllDigits(d) && IsDigit(digit)
    ensures AllDigits(d + [digit]) && Value(d + [digit]) == 10 * Value(d) + (digit - 0x30)
  {
    assert (d + [digit])[..|d|] == d;
  }

  /** The front of a grouped text without its last digit and an underscore before it. */
  function FrontOf(d: Bytes): Bytes
    requires d != []
  {
    var front := d[..|d| - 1];
    if front != [] && front[|front| - 1] == 0x5F then front[..|front| - 1] else front
  }

  lemma FrontIsPrefix(d: Bytes)
    requires |d| > 1
    ensures var more := FrontOf(d);
            && more == d[..|more|]
            && (|more| == |d| - 1 || (|more| == |d| - 2 && d[|more|] == 0x5F))
            && (|more| == |d| - 1 ==> d[|more| - 1] != 0x5F)
  {
  }

  lemma FrontGrouped(d: Bytes)
    requires |d| > 1 && IsDigit(d[|d| - 1])
    ensures IsGrouped(d) <==> IsGrouped(FrontOf(d))
  {
    FrontIsPrefix(d);
    var more := FrontOf(d);
    assert forall i | 0 <= i < |more| :: more[i] == d[i];
    if IsGrouped(more) {
      forall i | 0 <= i < |d| ensures IsDigit(d[i]) || d[i] == 0x5F {
        assert i < |more| ==> d[i] == more[i];
      }
      forall i | 0 <= i < |d| - 1 && d[i] == 0x5F ensures d[i + 1] != 0x5F {
        assert i < |more| ==> d[i] == more[i];
        assert i + 1 < |more| ==> d[i + 1] == more[i + 1];
      }
    }
  }

  lemma FrontUngrouped(d: Bytes)
    requires |d| > 1 && IsDigit(d[|d| - 1])
    ensures Ungrouped(d) == Ungrouped(FrontOf(d)) + [d[|d| - 1]]
  {
  }

  lemma FrontDigits(d: Bytes)
    requires |d| > 1 && IsDigit(d[|d| - 1])
    ensures var more := GroupedDigits(FrontOf(d));
            GroupedDigits(d) == if more.None? then None else Some(10 * more.value + (d[|d| - 1] - 0x30))
  {
  }

  lemma OneUngrouped(b: Byte)
    requires IsDigit(b)
    ensures Ungrouped([b]) == [b]
  {
    assert [b][..0] == [];
  }

  lemma OneValue(b: Byte)
    requires IsDigit(b)
    ensures AllDigits([b]) && Value([b]) == b - 0x30
  {
    assert [b][..0] == [];
  }

  lemma OneDigit(b: Byte)
    requires IsDigit(b)
    ensures GroupedDigits([b]) == Some(b - 0x30) && IsGrouped([b])
    ensures AllDigits(Ungrouped([b])) && Value(Ungrouped([b])) == b - 0x30
  {
    OneUngrouped(b);
    OneValue(b);
    assert [b][..0] == [];
  }

  /** The digits are read when they are grouped, and then without the underscores. */
  ghost predicate ReadsGrouped(d: Bytes) {
    GroupedDigits(d) == if IsGrouped(d) then Some(Value(Ungrouped(d))) else None
  }

  lemma ReadsOne(d: Bytes)
    requires |d| == 1 && IsDigit(d[0])
    ensures ReadsGrouped(d)
  {
    assert d == [d[0]];
    OneDigit(d[0]);
  }

  lemma FrontValue(d: Bytes, u: Bytes)
    requires |d| > 1 && IsDigit(d[|d| - 1]) && IsGrouped(FrontOf(d)) && u == Ungrouped(FrontOf(d))
    ensures IsGrouped(d) && Value(Ungrouped(d)) == 10 * Value(u) + (d[|d| - 1] - 0x30)
  {
    FrontGrouped(d);
    FrontUngrouped(d);
    ValueMore(u, d[|d| - 1]);
  }

  lemma ReadsMore(d: Bytes, more: Bytes)
    requires |d| > 1 && IsDigit(d[|d| - 1]) && more == FrontOf(d) && ReadsGrouped(more)
    ensures ReadsGrouped(d)
  {
    FrontDigits(d);
    if IsGrouped(more) {
      FrontValue(d, Ungrouped(more));
    } else {
      FrontGrouped(d);
    }
  }

  lemma {:induction false} GroupedExactly(d: Bytes)
    ensures ReadsGrouped(d)
    decreases |d|
  {
    if d != [] && IsDigit(d[|d| - 1]) {
      if |d| == 1 {
        ReadsOne(d);
      } else {
        var more := FrontOf(d);
        GroupedExactly(more);
        ReadsMore(d, more);
      }
    }
  }

  // ----- feeds around an integer

  predicate Core(t: Bytes) {
    t != [] ==> !IsFeed(t[0]) && !IsFeed(t[|t| - 1])
  }

  lemma FeedsFirst(feed: Byte, t: Bytes, front: Bytes, core: Bytes, back: Bytes)
    requires t == front + core + back
    ensures [feed] + t == [feed] + front + core + back
  {
  }

  lemma FeedsLast(feed: Byte, t: Bytes, front: Bytes, core: Bytes, back: Bytes)
    requires t == front + core + back
    ensures t + [feed] == front + core + (back + [feed])
  {
  }

  lemma {:induction false} TrimmedParts(t: Bytes) returns (front: Bytes, back: Bytes)
    ensures OnlyFeeds(front) && OnlyFeeds(back) && t == front + Trimmed(t) + back && Core(Trimmed(t))
    decreases |t|
  {
    if t != [] && IsFeed(t[0]) {
      var less := t[1..];
      var f, b := TrimmedParts(less);
      front, back := [t[0]] + f, b;
      assert t == [t[0]] + less;
      FeedsFirst(t[0], less, f, Trimmed(less), b);
    } else if t != [] && IsFeed(t[|t| - 1]) {
      var less := t[..|t| - 1];
      var f, b := TrimmedParts(less);
      front, back := f, b + [t[|t| - 1]];
      assert t == less + [t[|t| - 1]];
      FeedsLast(t[|t| - 1], less, f, Trimmed(less), b);
    } else {
      front, back := [], [];
      assert t == [] + t + [];
    }
  }

  lemma {:induction false} TrimmedOf(front: Bytes, core: Bytes, back: Bytes)
    requires OnlyFeeds(front) && OnlyFeeds(back) && core != [] && Core(core)
    ensures Trimmed(front + core + back) == core
    decreases |front| + |back|
  {
    var t := front + core + back;
    if front != [] {
      assert t[0] == front[0] && t[1..] == front[1..] + core + back;
      TrimmedOf(front[1..], core, back);
    } else if back != [] {
      assert t[0] == core[0] && t[|t| - 1] == back[|back| - 1];
      assert t[..|t| - 1] == front + core + back[..|back| - 1];
      TrimmedOf(front, core, back[..|back| - 1]);
    } else {
      assert t == core;
    }
  }

  lemma WrittenCore(sign: Bytes, digits: Bytes)
    requires (sign == [] || sign == [0x2B] || sign == [0x2D]) && IsGrouped(digits)
    ensures var core := sign + digits;
            && core != [] && Core(core)
            && (sign == [] ==> core == digits && core[0] != 0x2B && core[0] != 0x2D)
            && (sign != [] ==> core[0] == sign[0] && core[1..] == digits)
  {
    var core := sign + digits;
    assert core[|core| - 1] == digits[|digits| - 1];
    assert sign == [] ==> core == digits;
  }

  lemma WrittenInt(token: Bytes, front: Bytes, sign: Bytes, digits: Bytes, back: Bytes)
    requires Written(token, front, sign, digits, back)
    ensures PythonInt(token) == Some(Signed(sign, digits))
  {
    WrittenCore(sign, digits);
    TrimmedOf(front, sign + digits, back);
    GroupedExactly(digits);
  }

  /** What stands between the feeds of an integer. */
  lemma CoreWritten(t: Bytes) returns (sign: Bytes, digits: Bytes)
    requires PythonInt(t).Some? && Trimmed(t) == t
    ensures t == sign + digits && (sign == [] || sign == [0x2B] || sign == [0x2D]) && IsGrouped(digits)
    ensures PythonInt(t) == Some(Signed(sign, digits))
  {
    if t != [] && (t[0] == 0x2B || t[0] == MINUS) {
      sign, digits := [t[0]], t[1..];
    } else {
      sign, digits := [], t;
    }
    GroupedExactly(digits);
  }

  lemma CoreIsTrimmed(t: Bytes)
    requires Core(t)
    ensures Trimmed(t) == t
  {
  }

  lemma IntWritten(token: Bytes)
    requires PythonInt(token).Some?
    ensures Denotes(token, PythonInt(token).value)
  {
    var front, back := TrimmedParts(token);
    var t := Trimmed(token);
    CoreIsTrimmed(t);
    var sign, digits := CoreWritten(t);
    assert Written(token, front, sign, digits, back);
  }

  /** `int` reads exactly the integers that are written with feeds around them, a sign or
      none, and digits with single underscores between them. */
  lemma IntExactly(token: Bytes, n: int)
    ensures PythonInt(token) == Some(n) <==> Denotes(token, n)
  {
    if PythonInt(token) == Some(n) {
      IntWritten(token);
    }
    if Denotes(token, n) {
      var front, sign, digits, back :| Written(token, front, sign, digits, back) && n == Signed(sign, digits);
      WrittenInt(token, front, sign, digits, back);
    }
  }

  // ----- the whole dump

  datatype Picture = Picture(width: int, height: int, pixels: Bytes)

  datatype Fields = Fields(magic: Bytes, width: Bytes, height: Bytes, maximum: Bytes, rest: Bytes)

  /** The four tokens of the header and what follows them. */
  function FourTokens(payload: Bytes): (r: Option<Fields>) {
    var magic := NextToken(payload);
    if magic.NoToken? then None
    else
      var width := NextToken(magic.rest);
      if width.NoToken? then None
      else
        var height := NextToken(width.rest);
        if height.NoToken? then None
        else
          var maximum := NextToken(height.rest);
          if maximum.NoToken? then None
          else Some(Fields(magic.text, width.text, height.text, maximum.text, maximum.rest))
  }

  /** The dimensions that the tokens give, or None where the source raises. */
  function Dimensions(f: Fields): (r: Option<(int, int)>) {
    var w, h := PythonInt(f.width), PythonInt(f.height);
    if f.magic != MAGIC || f.maximum != MAXIMUM || w.None? || h.None? then None
    else if !(MIN_WIDTH <= w.value <= MAX_WIDTH && MIN_HEIGHT <= h.value <= MAX_HEIGHT) then None
    else Some((w.value, h.value))
  }

  /** The pixels after the terminator of the header. */
  function Body(width: int, height: int, rest: Bytes): Option<Picture> {
    if rest == [] || !IsBlank(rest[0]) then None
    else
      var pixels := if |rest| >= 2 && rest[0] == CR && rest[1] == LF then rest[2..] else rest[1..];
      if |pixels| != width * height * 3 then None else Some(Picture(width, height, pixels))
  }

  function Parsed(payload: Bytes): (r: Option<Picture>) {
    match FourTokens(payload)
    case None => None
    case Some(f) =>
      match Dimensions(f)
      case None => None
      case Some(d) => Body(d.0, d.1, f.rest)
  }

  method ReadTokens(payload: Bytes) returns (r: Option<Fields>)
    ensures r == FourTokens(payload)
  {
    assert payload[0..] == payload;
    var magic := PpmToken(payload, 0);
    if magic.None? {
      return None;
    }
    var width := PpmToken(payload, magic.value.1);
    if width.None? {
      return None;
    }
    var height := PpmToken(payload, width.value.1);
    if height.None? {
      return None;
    }
    var maximum := PpmToken(payload, height.value.1);
    if maximum.None? {
      return None;
    }
    return Some(
        Fields(magic.value.0, width.value.0, height.value.0, maximum.value.0, payload[maximum.value.1..]));
  }

  method ParsePpm(payload: Bytes) returns (r: Option<Picture>)
    ensures r == Parsed(payload)
  {
    var fields := ReadTokens(payload);
    if fields.None? {
      return None;
    }
    var dimensions := Dimensions(fields.value);
    if dimensions.None? {
      return None;
    }
    r := Body(dimensions.value.0, dimensions.value.1, fields.value.rest);
  }

  // ----- headers as tools write them

  /** The bytes that may stand between tokens. */
  predicate Spacing(b: Byte) {
    b == 0x09 || b == 0x0A || b == 0x0D || b == 0x20
  }

  datatype GapPart = Blank(b: Byte) | Comment(text: Bytes)

  predicate ProperPart(p: GapPart) {
    match p
    case Blank(b) => Spacing(b)
    case Comment(text) => 0x0A !in text
  }

  predicate ProperGap(gap: seq<GapPart>) {
    forall i | 0 <= i < |gap| :: ProperPart(gap[i])
  }

  function PartText(p: GapPart): Bytes {
    match p
    case Blank(b) => [b]
    case Comment(text) => [0x23] + text + [0x0A]
  }

  function GapText(gap: seq<GapPart>): Bytes {
    if gap == [] then [] else PartText(gap[0]) + GapText(gap[1..])
  }

  /** Neither empty nor the start of a gap. */
  predicate TokenStart(s: Bytes) {
    s != [] && !IsBlank(s[0]) && s[0] != HASH
  }

  lemma {:induction false} AfterLineOf(text: Bytes, rest: Bytes)
    requires LF !in text
    ensures AfterLine(text + [LF] + rest) == Some(rest)
  {
    var s := text + [LF] + rest;
    if text == [] {
      assert s == [LF] + rest && s[1..] == rest;
    } else {
      AfterLineOf(text[1..], rest);
      assert s[1..] == text[1..] + [LF] + rest;
    }
  }

  lemma SkipPart(p: GapPart, rest: Bytes)
    requires ProperPart(p)
    ensures SkipGap(PartText(p) + rest) == SkipGap(rest)
  {
    var s := PartText(p) + rest;
    match p
    case Blank(b) => assert s[1..] == rest;
    case Comment(text) =>
      assert s[1..] == text + [LF] + rest;
      AfterLineOf(text, rest);
  }

  lemma {:induction false} SkipGapText(gap: seq<GapPart>, rest: Bytes)
    requires ProperGap(gap) && TokenStart(rest)
    ensures SkipGap(GapText(gap) + rest) == Some(rest)
  {
    if gap == [] {
      assert GapText(gap) + rest == rest;
    } else {
      SkipGapText(gap[1..], rest);
      SkipPart(gap[0], GapText(gap[1..]) + rest);
      assert GapText(gap) + rest == PartText(gap[0]) + (GapText(gap[1..]) + rest);
    }
  }

  predicate Solid(text: Bytes) {
    text != [] && forall i | 0 <= i < |text| :: !Spacing(text[i]) && text[i] != 0x23
  }

  lemma {:induction false} TokenLengthOf(text: Bytes, rest: Bytes)
    requires Solid(text) && (rest == [] || IsBlank(rest[0]) || rest[0] == HASH)
    ensures TokenLength(text + rest) == |text|
  {
    assert (text + rest)[1..] == text[1..] + rest;
    if |text| > 1 {
      TokenLengthOf(text[1..], rest);
    } else {
      assert text[1..] + rest == rest;
    }
  }

  /** A token after any gap and before a blank or a comment. */
  lemma TokenAfterGap(gap: seq<GapPart>, text: Bytes, rest: Bytes)
    requires ProperGap(gap) && Solid(text) && (rest == [] || IsBlank(rest[0]) || rest[0] == HASH)
    ensures NextToken(GapText(gap) + (text + rest)) == Token(text, rest)
  {
    SkipGapText(gap, text + rest);
    TokenLengthOf(text, rest);
    assert (text + rest)[..|text|] == text && (text + rest)[|text|..] == rest;
  }

  lemma GapStart(gap: seq<GapPart>, rest: Bytes)
    requires gap != [] && ProperGap(gap)
    ensures var s := GapText(gap) + rest; IsBlank(s[0]) || s[0] == HASH
  {
    assert GapText(gap)[0] == PartText(gap[0])[0];
  }

  datatype Gaps = Gaps(
    beforeMagic: seq<GapPart>, beforeWidth: seq<GapPart>, beforeHeight: seq<GapPart>, beforeMaximum: seq<GapPart>)

  predicate ProperGaps(g: Gaps) {
    && ProperGap(g.beforeMagic) && ProperGap(g.beforeWidth) && ProperGap(g.beforeHeight) && ProperGap(g.beforeMaximum)
    && g.beforeWidth != [] && g.beforeHeight != [] && g.beforeMaximum != []
  }

  /** A header with these gaps and dimension tokens, and what follows it. */
  function Rendered(g: Gaps, width: Bytes, height: Bytes, rest: Bytes): Bytes {
    GapText(g.beforeMagic) + ([0x50, 0x36] + (GapText(g.beforeWidth) + (width
    + (GapText(g.beforeHeight) + (height + (GapText(g.beforeMaximum) + ([0x32, 0x35, 0x35] + rest)))))))
  }

  lemma TokensOfRendered(g: Gaps, width: Bytes, height: Bytes, rest: Bytes)
    requires ProperGaps(g) && Solid(width) && Solid(height) && rest != [] && IsBlank(rest[0])
    ensures FourTokens(Rendered(g, width, height, rest)) == Some(Fields(MAGIC, width, height, MAXIMUM, rest))
  {
    var afterHeight := GapText(g.beforeMaximum) + (MAXIMUM + rest);
    var afterWidth := GapText(g.beforeHeight) + (height + afterHeight);
    var afterMagic := GapText(g.beforeWidth) + (width + afterWidth);
    GapStart(g.beforeMaximum, MAXIMUM + rest);
    GapStart(g.beforeHeight, height + afterHeight);
    GapStart(g.beforeWidth, width + afterWidth);
    TokenAfterGap(g.beforeMagic, MAGIC, afterMagic);
    TokenAfterGap(g.beforeWidth, width, afterWidth);
    TokenAfterGap(g.beforeHeight, height, afterHeight);
    TokenAfterGap(g.beforeMaximum, MAXIMUM, rest);
    TokensInTurn(Rendered(g, width, height, rest), MAGIC, afterMagic, width, afterWidth,
                 height, afterHeight, MAXIMUM, rest);
  }

  lemma TokensInTurn(
    payload: Bytes, magic: Bytes, a: Bytes, width: Bytes, b: Bytes, height: Bytes, c: Bytes,
    maximum: Bytes, rest: Bytes)
    requires NextToken(payload) == Token(magic, a) && NextToken(a) == Token(width, b)
    requires NextToken(b) == Token(height, c) && NextToken(c) == Token(maximum, rest)
    ensures FourTokens(payload) == Some(Fields(magic, width, height, maximum, rest))
  {
  }

  // ----- taking a header apart again

  lemma {:induction false} LineBefore(s: Bytes) returns (text: Bytes)
    requires AfterLine(s).Some?
    ensures LF !in text && s == text + [LF] + AfterLine(s).value
  {
    if s[0] == LF {
      text := [];
      assert s == [] + [LF] + s[1..];
    } else {
      var more := LineBefore(s[1..]);
      text := [s[0]] + more;
      assert s == text + [LF] + AfterLine(s).value;
    }
  }

  lemma GapTextOfMore(part: GapPart, more: seq<GapPart>, rest: Bytes)
    ensures GapText([part] + more) + rest == PartText(part) + (GapText(more) + rest)
  {
    assert ([part] + more)[1..] == more;
  }

  /** The part that starts here, when a gap does. */
  lemma PartAt(s: Bytes) returns (part: GapPart, rest: Bytes)
    requires SkipGap(s).Some? && s != [] && (s[0] == HASH || IsBlank(s[0]))
    ensures ProperPart(part) && s == PartText(part) + rest && SkipGap(rest) == SkipGap(s) && |rest| < |s|
  {
    if s[0] == HASH {
      var text := LineBefore(s[1..]);
      part, rest := Comment(text), AfterLine(s[1..]).value;
      assert s == [HASH] + (text + [LF] + rest);
    } else {
      part, rest := Blank(s[0]), s[1..];
    }
  }

  lemma {:induction false} GapBefore(s: Bytes) returns (gap: seq<GapPart>)
    requires SkipGap(s).Some?
    ensures ProperGap(gap) && s == GapText(gap) + SkipGap(s).value
    decreases |s|
  {
    if s != [] && (s[0] == HASH || IsBlank(s[0])) {
      var part, rest := PartAt(s);
      var more := GapBefore(rest);
      gap := [part] + more;
      GapTextOfMore(part, more, SkipGap(rest).value);
    } else {
      gap := [];
      assert s == [] + s;
    }
  }

  lemma {:induction false} TokenSolid(s: Bytes)
    ensures var n := TokenLength(s);
            && (n > 0 ==> Solid(s[..n]))
            && (n < |s| ==> IsBlank(s[n]) || s[n] == HASH)
  {
    if s != [] && !IsBlank(s[0]) && s[0] != HASH {
      TokenSolid(s[1..]);
      assert forall i | 0 < i < TokenLength(s) :: s[i] == s[1..][i - 1];
      var m := TokenLength(s[1..]);
      assert m > 0 ==> forall i | 0 <= i < m :: s[1..][..m][i] == s[i + 1];
      assert forall i | 0 < i < TokenLength(s) :: s[i] == s[1..][..m][i - 1];
    }
  }

  /** What a found token says about the text before it; a delimiter starts the next gap. */
  lemma TokenBefore(s: Bytes) returns (gap: seq<GapPart>)
    requires NextToken(s).Token?
    ensures var t := NextToken(s);
            && ProperGap(gap) && Solid(t.text) && s == GapText(gap) + (t.text + t.rest)
            && (IsBlank(s[0]) || s[0] == HASH ==> gap != [])
            && (t.rest != [] ==> IsBlank(t.rest[0]) || t.rest[0] == HASH)
  {
    gap := GapBefore(s);
    var t := SkipGap(s).value;
    TokenParts(t);
    if gap == [] {
      assert GapText(gap) + t == t;
    }
  }

  lemma TokenParts(t: Bytes)
    requires TokenLength(t) > 0
    ensures var n := TokenLength(t);
            && Solid(t[..n]) && t == t[..n] + t[n..] && !Spacing(t[0]) && t[0] != 0x23
            && (t[n..] != [] ==> IsBlank(t[n..][0]) || t[n..][0] == HASH)
  {
    TokenSolid(t);
  }

  lemma TokensBefore(payload: Bytes) returns (g: Gaps)
    requires FourTokens(payload).Some?
    requires FourTokens(payload).value.magic == MAGIC && FourTokens(payload).value.maximum == MAXIMUM
    ensures var f := FourTokens(payload).value;
            ProperGaps(g) && Solid(f.width) && Solid(f.height) && payload == Rendered(g, f.width, f.height, f.rest)
  {
    var magic := NextToken(payload);
    var width := NextToken(magic.rest);
    var height := NextToken(width.rest);
    var a := TokenBefore(payload);
    var b := TokenBefore(magic.rest);
    var c := TokenBefore(width.rest);
    var d := TokenBefore(height.rest);
    g := Gaps(a, b, c, d);
  }

  // ----- what parses

  /** The end of the header, which a carriage return alone cannot be before a line feed. */
  predicate IsEnd(end: Bytes, pixels: Bytes) {
    || end == [0x0D, 0x0A]
    || (|end| == 1 && Spacing(end[0]) && !(end[0] == 0x0D && pixels != [] && pixels[0] == 0x0A))
  }

  predicate IsSize(width: int, height: int, pixels: Bytes) {
    && 640 <= width <= 8192 && 480 <= height <= 8192
    && |pixels| == width * height * 3
  }

  ghost predicate IsDump(payload: Bytes, p: Picture, g: Gaps, width: Bytes, height: Bytes, end: Bytes) {
    && ProperGaps(g) && Solid(width) && Solid(height) && IsEnd(end, p.pixels)
    && Denotes(width, p.width) && Denotes(height, p.height)
    && IsSize(p.width, p.height, p.pixels)
    && payload == Rendered(g, width, height, end + p.pixels)
  }

  lemma BodyOf(width: int, height: int, end: Bytes, pixels: Bytes)
    requires IsEnd(end, pixels) && |pixels| == width * height * 3
    ensures Body(width, height, end + pixels) == Some(Picture(width, height, pixels))
  {
    var rest := end + pixels;
    assert rest[|end|..] == pixels;
    assert |end| == 1 && pixels != [] ==> rest[1] == pixels[0];
  }

  lemma EndOf(width: int, height: int, rest: Bytes) returns (end: Bytes)
    requires Body(width, height, rest).Some?
    ensures var p := Body(width, height, rest).value; IsEnd(end, p.pixels) && rest == end + p.pixels
  {
    if |rest| >= 2 && rest[0] == CR && rest[1] == LF {
      end := [CR, LF];
    } else {
      end := [rest[0]];
    }
    assert rest == end + rest[|end|..];
  }

  lemma DimensionsOf(width: Bytes, height: Bytes, rest: Bytes, p: Picture)
    requires Denotes(width, p.width) && Denotes(height, p.height) && IsSize(p.width, p.height, p.pixels)
    ensures Dimensions(Fields(MAGIC, width, height, MAXIMUM, rest)) == Some((p.width, p.height))
  {
    IntExactly(width, p.width);
    IntExactly(height, p.height);
  }

  lemma DumpParses(payload: Bytes, p: Picture, g: Gaps, width: Bytes, height: Bytes, end: Bytes)
    requires IsDump(payload, p, g, width, height, end)
    ensures Parsed(payload) == Some(p)
  {
    TokensOfRendered(g, width, height, end + p.pixels);
    DimensionsOf(width, height, end + p.pixels, p);
    BodyOf(p.width, p.height, end, p.pixels);
  }

  lemma ParsedDump(payload: Bytes, p: Picture)
    requires Parsed(payload) == Some(p)
    ensures exists g, width, height, end :: IsDump(payload, p, g, width, height, end)
  {
    var f := FourTokens(payload).value;
    var g := TokensBefore(payload);
    var end := EndOf(p.width, p.height, f.rest);
    IntExactly(f.width, p.width);
    IntExactly(f.height, p.height);
    assert IsDump(payload, p, g, f.width, f.height, end);
  }

  /** A payload parses to a picture exactly when it is that picture written out: any
      gaps of blanks and comments, numerals for its dimensions, one terminator or a
      line ending, and its pixels to the last byte, whatever bytes they start with. */
  lemma ParsesExactly(payload: Bytes, p: Picture)
    ensures Parsed(payload) == Some(p) <==>
            exists g, width, height, end :: IsDump(payload, p, g, width, height, end)
  {
    if Parsed(payload) == Some(p) {
      ParsedDump(payload, p);
    }
    forall g, width, height, end | IsDump(payload, p, g, width, height, end) ensures Parsed(payload) == Some(p) {
      DumpParses(payload, p, g, width, height, end);
    }
  }

  lemma DigitsSolid(n: nat)
    ensures Solid(Digits(n))
  {
    assert forall b: Byte | IsDigit(b) :: !IsBlank(b) && b != HASH;
  }

  lemma BodyOfBlank(width: int, height: int, terminator: Byte, pixels: Bytes)
    requires IsBlank(terminator) && |pixels| == width * height * 3
    ensures Body(width, height, [terminator] + pixels) ==
            if terminator == CR && pixels != [] && pixels[0] == LF then None
            else Some(Picture(width, height, pixels))
  {
    if IsEnd([terminator], pixels) {
      BodyOf(width, height, [terminator], pixels);
    } else {
      assert |([terminator] + pixels)[2..]| == |pixels| - 1;
    }
  }

  lemma DimensionsOfDigits(width: nat, height: nat, rest: Bytes)
    requires MIN_WIDTH <= width <= MAX_WIDTH && MIN_HEIGHT <= height <= MAX_HEIGHT
    ensures Dimensions(Fields(MAGIC, Digits(width), Digits(height), MAXIMUM, rest)) == Some((width, height))
  {
    PythonIntOfDigits(width);
    PythonIntOfDigits(height);
  }

  /** Plain decimal dimensions and one terminating blank always parse, except that a
      carriage return is mistaken for the first half of a line ending when the pixels
      begin with a line feed. */
  lemma ParsesRendered(g: Gaps, width: nat, height: nat, terminator: Byte, pixels: Bytes)
    requires ProperGaps(g) && IsBlank(terminator) && IsSize(width, height, pixels)
    ensures Parsed(Rendered(g, Digits(width), Digits(height), [terminator] + pixels)) ==
            if terminator == CR && pixels != [] && pixels[0] == LF then None
            else Some(Picture(width, height, pixels))
  {
    DigitsSolid(width);
    DigitsSolid(height);
    var rest := [terminator] + pixels;
    TokensOfRendered(g, Digits(width), Digits(height), rest);
    DimensionsOfDigits(width, height, rest);
    BodyOfBlank(width, height, terminator, pixels);
  }
}
