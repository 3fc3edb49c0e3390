/** The bounded serial transcript and the incremental scan for the not-ready marker. */
module SerialConsole {
  import opened Texts

  const CR: Byte := 0x0D
  const LF: Byte := 0x0A

  const NOT_READY: Bytes := Ascii("KERNAID_RESCUE_NOT_READY:")
  const SCAN_OVERLAP: nat := |NOT_READY| + 2

  // ----- the marker pattern

  datatype Match = Match(start: nat, end: nat)

  predicate MarkerAt(s: Bytes, i: nat) {
    i + |NOT_READY| <= |s| && s[i..i + |NOT_READY|] == NOT_READY
  }

  /** Where a match that starts at i ends: the marker at the very beginning, or after a
      line feed with or without a carriage return before it. */
  function MatchEnd(s: Bytes, i: nat): (end: Option<nat>)
    ensures end.Some? ==> i < end.value <= |s| && end.value <= i + SCAN_OVERLAP
  {
    if i == 0 && MarkerAt(s, 0) then Some(|NOT_READY|)
    else if i + 1 < |s| && s[i] == CR && s[i + 1] == LF && MarkerAt(s, i + 2) then Some(i + 2 + |NOT_READY|)
    else if i < |s| && s[i] == LF && MarkerAt(s, i + 1) then Some(i + 1 + |NOT_READY|)
    else None
  }

  /** `pattern.search(s, start)`: the leftmost match from start on. The caret still
      means the beginning of s. */
  function Search(s: Bytes, start: nat): (m: Option<Match>)
    ensures m.Some? ==> start <= m.value.start && MatchEnd(s, m.value.start) == Some(m.value.end)
    ensures m.Some? ==> forall i | start <= i < m.value.start :: MatchEnd(s, i).None?
    ensures m.None? ==> forall i | start <= i :: MatchEnd(s, i).None?
    decreases |s| - start
  {
    if start > |s| then None
    else if MatchEnd(s, start).Some? then Some(Match(start, MatchEnd(s, start).value))
    else Search(s, start + 1)
  }

  // ----- what a search reports

  /** The marker opens a line at k: its bytes stand at the very beginning or directly after
      a line feed. */
  predicate OpensLine(s: Bytes, k: int) {
    && 0 <= k && k + 25 <= |s| && (k == 0 || s[k - 1] == 0x0A)
    && s[k..k + 25] == Ascii("KERNAID_RESCUE_NOT_READY:")
  }

  ghost predicate Marked(s: Bytes) {
    exists k :: OpensLine(s, k)
  }

  /** The line break before k, with the carriage return if there is one. */
  function BreakBefore(s: Bytes, k: nat): nat
    requires k <= |s|
  {
    if k == 0 then 0 else if k >= 2 && s[k - 2] == 0x0D then k - 2 else k - 1
  }

  /** The match of the first marker that opens a line: it starts at the line break and ends
      with the marker. */
  predicate MatchOf(s: Bytes, k: int, m: Match) {
    && OpensLine(s, k) && (forall j | 0 <= j < k :: !OpensLine(s, j))
    && m.end == k + 25 && m.start == BreakBefore(s, k)
  }

  ghost predicate Reports(s: Bytes, m: Match) {
    exists k :: MatchOf(s, k, m)
  }

  lemma MarkerIsLiteral(s: Bytes, k: nat)
    ensures MarkerAt(s, k) && (k == 0 || s[k - 1] == LF) <==> OpensLine(s, k)
  {
  }

  /** A marker that opens a line is the end of a match. */
  lemma LineIsMatched(s: Bytes, k: nat)
    requires OpensLine(s, k)
    ensures MatchEnd(s, BreakBefore(s, k)).Some? && (k > 0 ==> s[k - 1] == LF)
  {
    MarkerIsLiteral(s, k);
  }

  /** A match ends with a marker that opens a line. */
  lemma MatchIsLine(s: Bytes, i: nat)
    requires MatchEnd(s, i).Some?
    ensures var k := MatchEnd(s, i).value - 25;
            OpensLine(s, k) && (i == k == 0 || i == k - 1 || (i == k - 2 && s[i] == CR))
  {
    MarkerIsLiteral(s, MatchEnd(s, i).value - 25);
  }

  /** The leftmost match is that of the first marker that opens a line. */
  lemma LeftmostIsFirst(s: Bytes, m: Match)
    requires MatchEnd(s, m.start) == Some(m.end) && forall i | 0 <= i < m.start :: MatchEnd(s, i).None?
    ensures Reports(s, m)
  {
    var k := m.end - 25;
    MatchIsLine(s, m.start);
    LineIsMatched(s, k);
    assert m.start <= BreakBefore(s, k);
    forall j | 0 <= j < k ensures !OpensLine(s, j) {
      if OpensLine(s, j) {
        LineIsMatched(s, j);
      }
    }
    assert MatchOf(s, k, m);
  }

  lemma UnmatchedIsUnmarked(s: Bytes)
    requires forall i | 0 <= i :: MatchEnd(s, i).None?
    ensures !Marked(s)
  {
    forall k | OpensLine(s, k) ensures false {
      LineIsMatched(s, k);
    }
  }

  /** A search from the beginning finds a match exactly when a marker opens a line, and
      then that of the first one. */
  lemma SearchExactly(s: Bytes)
    ensures Search(s, 0).Some? <==> Marked(s)
    ensures Search(s, 0).Some? ==> Reports(s, Search(s, 0).value)
  {
    var m := Search(s, 0);
    if m.None? {
      UnmatchedIsUnmarked(s);
    } else {
      LeftmostIsFirst(s, m.value);
    }
  }

  // ----- incremental against full scanning

  function ScanStart(scanned: nat): nat {
    if scanned <= SCAN_OVERLAP then 0 else scanned - SCAN_OVERLAP
  }

  /** A match that ends within a prefix is a match in the prefix. */
  lemma MatchInPrefix(s: Bytes, n: nat, i: nat)
    requires n <= |s| && MatchEnd(s, i).Some? && MatchEnd(s, i).value <= n
    ensures MatchEnd(s[..n], i) == MatchEnd(s, i)
  {
    forall j: nat | j + |NOT_READY| <= n ensures MarkerAt(s[..n], j) <==> MarkerAt(s, j) {
      assert s[..n][j..j + |NOT_READY|] == s[j..j + |NOT_READY|];
    }
  }

  lemma {:induction false} SkipUnmatched(s: Bytes, from: nat, count: nat)
    requires forall i | from <= i < from + count :: MatchEnd(s, i).None?
    ensures Search(s, from) == Search(s, from + count)
    decreases count
  {
    if count > 0 {
      SkipUnmatched(s, from + 1, count - 1);
    }
  }

  /** When the first n bytes hold no match, the scan that starts the overlap before n
      finds exactly what a scan of everything finds. */
  lemma IncrementalIsFull(s: Bytes, n: nat)
    requires n <= |s| && Search(s[..n], 0).None?
    ensures Search(s, ScanStart(n)) == Search(s, 0)
  {
    forall i | 0 <= i < ScanStart(n) ensures MatchEnd(s, i).None? {
      if MatchEnd(s, i).Some? {
        MatchInPrefix(s, n, i);
      }
    }
    SkipUnmatched(s, 0, ScanStart(n));
  }

  // ----- whole runs

  datatype Outcome = Raised(step: nat, hit: Match) | Finished

  /** Appends chunk after chunk and scans everything after each. */
  function FullRun(data: Bytes, chunks: seq<Bytes>, step: nat): Outcome
    decreases |chunks|
  {
    if chunks == [] then Finished
    else
      var s := data + chunks[0];
      var m := Search(s, 0);
      if m.Some? then Raised(step, m.value) else FullRun(s, chunks[1..], step + 1)
  }

  /** The same with the scan start that the console keeps. */
  function IncrementalRun(data: Bytes, scanStart: nat, chunks: seq<Bytes>, step: nat): Outcome
    decreases |chunks|
  {
    if chunks == [] then Finished
    else
      var s := data + chunks[0];
      var m := Search(s, scanStart);
      if m.Some? then Raised(step, m.value) else IncrementalRun(s, ScanStart(|s|), chunks[1..], step + 1)
  }

  /** Over every run of appends the incremental scan raises at the same step with the
      same match, also where the marker straddles appends. */
  lemma {:induction false} RunsAgree(data: Bytes, chunks: seq<Bytes>, step: nat)
    requires Search(data, 0).None?
    ensures IncrementalRun(data, ScanStart(|data|), chunks, step) == FullRun(data, chunks, step)
    decreases |chunks|
  {
    if chunks != [] {
      var s := data + chunks[0];
      assert s[..|data|] == data;
      IncrementalIsFull(s, |data|);
      if Search(s, 0).None? {
        RunsAgree(s, chunks[1..], step + 1);
      }
    }
  }

  function Flat(chunks: seq<Bytes>): Bytes {
    if chunks == [] then [] else chunks[0] + Flat(chunks[1..])
  }

  /** The run raises at the first append after which a marker opens a line, with the match
      of the first such marker, and finishes when there is no such append. */
  ghost predicate Decides(run: Outcome, data: Bytes, chunks: seq<Bytes>, step: nat) {
    match run
    case Finished => !Marked(data + Flat(chunks))
    case Raised(j, hit) =>
      && step <= j < step + |chunks|
      && !Marked(data + Flat(chunks[..j - step]))
      && Reports(data + Flat(chunks[..j - step + 1]), hit)
  }

  lemma DecidesNow(data: Bytes, chunks: seq<Bytes>, step: nat, hit: Match)
    requires chunks != [] && !Marked(data) && Reports(data + chunks[0], hit)
    ensures Decides(Raised(step, hit), data, chunks, step)
  {
    assert chunks[..1] == [chunks[0]] && chunks[..0] == [];
    FlatOne(chunks[0]);
    assert data + Flat(chunks[..0]) == data;
  }

  lemma DecidesLater(run: Outcome, data: Bytes, chunks: seq<Bytes>, step: nat)
    requires chunks != [] && Decides(run, data + chunks[0], chunks[1..], step + 1)
    ensures Decides(run, data, chunks, step)
  {
    match run
    case Finished =>
      FlatMore(data, chunks, |chunks| - 1);
      assert chunks[..|chunks|] == chunks && chunks[1..][..|chunks| - 1] == chunks[1..];
    case Raised(j, hit) =>
      FlatMore(data, chunks, j - step - 1);
      FlatMore(data, chunks, j - step);
  }

  lemma {:induction false} FullRunDecides(data: Bytes, chunks: seq<Bytes>, step: nat)
    requires !Marked(data)
    ensures Decides(FullRun(data, chunks, step), data, chunks, step)
    decreases |chunks|
  {
    if chunks == [] {
      assert data + Flat(chunks) == data;
    } else {
      var s := data + chunks[0];
      SearchExactly(s);
      if Search(s, 0).Some? {
        DecidesNow(data, chunks, step, Search(s, 0).value);
      } else {
        FullRunDecides(s, chunks[1..], step + 1);
        DecidesLater(FullRun(s, chunks[1..], step + 1), data, chunks, step);
      }
    }
  }

  lemma RunExactly(data: Bytes, chunks: seq<Bytes>, step: nat)
    requires !Marked(data)
    ensures Decides(IncrementalRun(data, ScanStart(|data|), chunks, step), data, chunks, step)
  {
    SearchExactly(data);
    RunsAgree(data, chunks, step);
    FullRunDecides(data, chunks, step);
  }

  lemma FlatOne(chunk: Bytes)
    ensures Flat([chunk]) == chunk
  {
    assert Flat([chunk][1..]) == [];
  }

  lemma FlatMore(data: Bytes, chunks: seq<Bytes>, n: nat)
    requires n < |chunks|
    ensures data + Flat(chunks[..n + 1]) == data + chunks[0] + Flat(chunks[1..][..n])
  {
    assert chunks[..n + 1][1..] == chunks[1..][..n];
    assert data + (chunks[0] + Flat(chunks[1..][..n])) == data + chunks[0] + Flat(chunks[1..][..n]);
  }

  // ----- the bounded capture

  predicate FoundAt(s: Bytes, value: Bytes, i: int) {
    0 <= i && i + |value| <= |s| && s[i..i + |value|] == value
  }

  predicate Occurs(s: Bytes, value: Bytes) {
    exists i | 0 <= i <= |s| :: FoundAt(s, value, i)
  }

  predicate Exposed(s: Bytes, secrets: seq<Bytes>) {
    exists k | 0 <= k < |secrets| :: secrets[k] != [] && Occurs(s, secrets[k])
  }

  datatype Appended = Accepted | LimitExceeded | SecretExposed

  /** The value fills a line of the window [from, to). */
  predicate LineAt(s: Bytes, value: Bytes, from: int, to: int, i: int)
    requires 0 <= from && to <= |s|
  {
    && from <= i && i + |value| < to && FoundAt(s, value, i)
    && (i == from || s[i - 1] == 0x0D || s[i - 1] == 0x0A)
    && (s[i + |value|] == 0x0D || s[i + |value|] == 0x0A)
  }

  class BoundedCapture {
    const limit: nat
    const forbidden: seq<Bytes>
    var data: Bytes

    constructor (limit: nat, forbidden: seq<Bytes>)
      requires limit > 0
      ensures this.limit == limit && this.forbidden == forbidden && data == [] && Valid()
    {
      this.limit := limit;
      this.forbidden := forbidden;
      data := [];
    }

    predicate Valid()
      reads this
    {
      |data| <= limit
    }

    /** An accepted append keeps the transcript within its limit and free of every secret,
        also one that straddles appends; a refused one changes nothing when it is too long
        and keeps the exposing bytes otherwise. */
    method Append(chunk: Bytes) returns (r: Appended)
      requires Valid()
      modifies this`data
      ensures Valid()
      ensures r == LimitExceeded <==> |old(data)| + |chunk| > limit
      ensures r == SecretExposed <==>
                chunk != [] && |old(data)| + |chunk| <= limit && Exposed(old(data) + chunk, forbidden)
      ensures data == if r == LimitExceeded then old(data) else old(data) + chunk
      ensures r == Accepted && !old(Exposed(data, forbidden)) ==> !Exposed(data, forbidden)
    {
      if chunk == [] {
        assert data + chunk == data;
        return Accepted;
      }
      if |chunk| > limit - |data| {
        return LimitExceeded;
      }
      data := data + chunk;
      for k := 0 to |forbidden|
        invariant data == old(data) + chunk
        invariant forall j | 0 <= j < k :: forbidden[j] == [] || !Occurs(data, forbidden[j])
      {
        if forbidden[k] != [] {
          var found := Find(forbidden[k], 0, |data|);
          if found.Some? {
            return SecretExposed;
          }
        }
      }
      return Accepted;
    }

    /** `bytearray.find`: the first occurrence that lies in [from, to). */
    method Find(value: Bytes, from: nat, to: nat) returns (found: Option<nat>)
      requires from <= to <= |data|
      ensures found.Some? ==> from <= found.value && found.value + |value| <= to && FoundAt(data, value, found.value)
      ensures found.Some? ==> forall i | from <= i < found.value :: !FoundAt(data, value, i)
      ensures found.None? ==> forall i | from <= i && i + |value| <= to :: !FoundAt(data, value, i)
    {
      var i := from;
      while i + |value| <= to
        invariant from <= i
        invariant forall j | from <= j < i :: !FoundAt(data, value, j)
      {
        if data[i..i + |value|] == value {
          return Some(i);
        }
        i := i + 1;
      }
      return None;
    }

    /** `contains_contextual_line`: true exactly when the value fills a line of the window. */
    method ContainsContextualLine(value: Bytes, start: int, end: int) returns (r: bool)
      ensures var from := if start < 0 then 0 else start;
              var to := if end < |data| then end else |data|;
              r <==> value != [] && exists i :: LineAt(data, value, from, to, i)
    {
      if value == [] {
        return false;
      }
      var from := if start < 0 then 0 else start;
      var to := if end < |data| then end else |data|;
      var cursor := from;
      while cursor < to
        invariant from <= cursor
        invariant forall i | i < cursor :: !LineAt(data, value, from, to, i)
      {
        var found := Find(value, cursor, to);
        if found.None? {
          return false;
        }
        var at := found.value;
        var before := at == from || data[at - 1] == LF || data[at - 1] == CR;
        var after := at + |value| < to && (data[at + |value|] == LF || data[at + |value|] == CR);
        if before && after {
          assert LineAt(data, value, from, to, at);
          return true;
        }
        cursor := at + 1;
      }
      return false;
    }
  }

  // ----- the console

  class Console {
    const capture: BoundedCapture
    var notReadyScanStart: nat
    /** How much of the transcript the last quiet scan covered. */
    ghost var scanned: nat

    constructor (capture: BoundedCapture)
      ensures this.capture == capture && Valid()
    {
      this.capture := capture;
      notReadyScanStart := 0;
      scanned := 0;
    }

    ghost predicate Valid()
      reads this, capture
    {
      && scanned <= |capture.data|
      && notReadyScanStart == ScanStart(scanned)
      && Search(capture.data[..scanned], 0).None?
    }

    /** `_raise_if_not_ready`: raises exactly when a marker opens a line anywhere in the
        transcript, and reports the match of the first one. */
    method RaiseIfNotReady() returns (raised: Option<Match>)
      requires Valid()
      modifies this
      ensures raised == Search(capture.data, 0)
      ensures raised.Some? <==> exists k :: OpensLine(capture.data, k)
      ensures raised.Some? ==> exists k :: MatchOf(capture.data, k, raised.value)
      ensures Valid() && (raised.None? ==> scanned == |capture.data|)
    {
      IncrementalIsFull(capture.data, scanned);
      SearchExactly(capture.data);
      raised := Search(capture.data, notReadyScanStart);
      if raised.None? {
        notReadyScanStart := ScanStart(|capture.data|);
        scanned := |capture.data|;
        assert capture.data[..scanned] == capture.data;
      }
    }

    /** Receiving more output keeps the scan state sound. */
    method Receive(chunk: Bytes) returns (r: Appended)
      requires Valid() && capture.Valid()
      modifies capture
      ensures Valid() && capture.Valid()
      ensures r == LimitExceeded <==> |old(capture.data)| + |chunk| > capture.limit
      ensures r == SecretExposed <==>
                && chunk != [] && |old(capture.data)| + |chunk| <= capture.limit
                && Exposed(old(capture.data) + chunk, capture.forbidden)
      ensures capture.data == if r == LimitExceeded then old(capture.data) else old(capture.data) + chunk
    {
      ghost var before := capture.data;
      r := capture.Append(chunk);
      assert capture.data[..scanned] == before[..scanned];
    }
  }
}
