/** Cutting a byte stream into server-sent events (crates/relay-core/src/protocol/sse.rs). */
module EventStream {
  import opened Basics

  type Byte = x: int | 0 <= x < 256
  type Bytes = seq<Byte>

  const LF: Byte := 10
  const CR: Byte := 13
  const COLON: Byte := 58

  predicate Newline(b: Byte) {
    b == LF || b == CR
  }

  predicate AsciiWhitespace(b: Byte) {
    b == 9 || b == LF || b == 12 || b == CR || b == 32
  }

  // ----- Where events end

  /** Position `p` starts the terminator of an empty line. */
  predicate Blank(bytes: Bytes, p: nat) {
    && p < |bytes| && Newline(bytes[p])
    && (p == 0 || bytes[p - 1] == LF || (bytes[p - 1] == CR && bytes[p] != LF))
  }

  /** The position after the terminator that starts at `p`. */
  function After(bytes: Bytes, p: nat): nat
    requires p < |bytes|
  {
    if bytes[p] == CR && p + 1 < |bytes| && bytes[p + 1] == LF then p + 2 else p + 1
  }

  /** The end of the first empty line at or after `from`. */
  function EventEnd(bytes: Bytes, from: nat): (r: Option<nat>)
    ensures r.Some? ==> from < r.value <= |bytes|
    decreases |bytes| - from
  {
    if from >= |bytes| then None
    else if Blank(bytes, from) then Some(After(bytes, from))
    else EventEnd(bytes, from + 1)
  }

  /** `event_end`: the end of the first event. */
  function FirstEnd(bytes: Bytes): (r: Option<nat>)
    ensures r.Some? ==> 0 < r.value <= |bytes|
  {
    EventEnd(bytes, 0)
  }

  /** The next line terminator: where it starts and where it ends. */
  method LineEnd(bytes: Bytes, offset: nat) returns (found: bool, position: nat, end: nat)
    requires offset <= |bytes|
    ensures found ==> offset <= position < |bytes| && Newline(bytes[position]) && end == After(bytes, position)
    ensures forall p :: offset <= p < (if found then position else |bytes|) ==> !Newline(bytes[p])
  {
    position := offset;
    while position < |bytes| && !Newline(bytes[position])
      invariant offset <= position <= |bytes|
      invariant forall p :: offset <= p < position ==> !Newline(bytes[p])
    {
      position := position + 1;
    }
    found := position < |bytes|;
    end := if found then After(bytes, position) else position;
  }

  lemma {:induction false} SkipUnblank(bytes: Bytes, from: nat, limit: nat)
    requires from <= limit <= |bytes|
    requires forall p: nat :: from <= p < limit ==> !Blank(bytes, p)
    ensures EventEnd(bytes, from) == EventEnd(bytes, limit)
    decreases limit - from
  {
    if from < limit {
      SkipUnblank(bytes, from + 1, limit);
    }
  }

  method EventEndFrom(bytes: Bytes, start: nat) returns (r: Option<nat>)
    requires start <= |bytes|
    ensures r == EventEnd(bytes, start)
  {
    var offset := start;
    while true
      invariant start <= offset <= |bytes|
      invariant EventEnd(bytes, start) == EventEnd(bytes, offset)
      decreases |bytes| - offset
    {
      var found, position, end := LineEnd(bytes, offset);
      if !found {
        SkipUnblank(bytes, offset, |bytes|);
        return None;
      }
      SkipUnblank(bytes, offset, position);
      if position == 0 || bytes[position - 1] == LF || (bytes[position - 1] == CR && bytes[position] != LF) {
        return Some(end);
      }
      SkipUnblank(bytes, position, end);
      offset := end;
    }
  }

  lemma {:induction false} NoEnd(bytes: Bytes, from: nat, p: nat)
    requires EventEnd(bytes, from).None? && from <= p
    ensures !Blank(bytes, p)
    decreases p - from
  {
    if from < p && from < |bytes| {
      NoEnd(bytes, from + 1, p);
    }
  }

  /** A scan that found nothing may be resumed at its last byte. */
  lemma {:induction false} ResumedScan(tail: Bytes, more: Bytes)
    requires FirstEnd(tail).None?
    ensures EventEnd(tail + more, if |tail| == 0 then 0 else |tail| - 1) == FirstEnd(tail + more)
  {
    var from := if |tail| == 0 then 0 else |tail| - 1;
    forall p: nat | p < from ensures !Blank(tail + more, p) {
      NoEnd(tail, 0, p);
    }
    SkipUnblank(tail + more, 0, from);
  }

  // ----- Lines

  /** The bytes before the first line terminator. */
  function LineLength(bytes: Bytes): (n: nat)
    ensures n <= |bytes|
  {
    if bytes == [] || Newline(bytes[0]) then 0 else 1 + LineLength(bytes[1..])
  }

  lemma {:induction false} LineLengthMeans(bytes: Bytes)
    ensures var n := LineLength(bytes);
            && (n < |bytes| ==> Newline(bytes[n]))
            && forall i :: 0 <= i < n ==> !Newline(bytes[i])
  {
    if bytes != [] && !Newline(bytes[0]) {
      LineLengthMeans(bytes[1..]);
    }
  }

  lemma {:induction false} LineLengthIs(bytes: Bytes, n: nat)
    requires n <= |bytes| && (n < |bytes| ==> Newline(bytes[n])) && forall i :: 0 <= i < n ==> !Newline(bytes[i])
    ensures LineLength(bytes) == n
  {
    LineLengthMeans(bytes);
  }

  /** The lines without their terminators, a last one without any included. */
  function Lines(bytes: Bytes): seq<Bytes>
    decreases |bytes|
  {
    var n := LineLength(bytes);
    if bytes == [] then [] else if n == |bytes| then [bytes] else [bytes[..n]] + Lines(bytes[After(bytes, n)..])
  }

  lemma {:induction false} LinesUnfold(bytes: Bytes, n: nat, end: nat)
    requires n == LineLength(bytes) < |bytes| && end == After(bytes, n)
    ensures Lines(bytes) == [bytes[..n]] + Lines(bytes[end..])
  {
  }

  /** `end` is where a line of `bytes` begins. */
  ghost predicate LineStart(bytes: Bytes, end: nat) {
    && 0 < end <= |bytes|
    && (bytes[end - 1] == LF || (bytes[end - 1] == CR && (end < |bytes| ==> bytes[end] != LF)))
  }

  lemma {:induction false} ScanFromLine(bytes: Bytes, end: nat, q: nat)
    requires LineStart(bytes, end) && q <= |bytes| - end
    ensures EventEnd(bytes, end + q)
         == match EventEnd(bytes[end..], q) { case None => None case Some(n) => Some(end + n) }
    decreases |bytes| - q
  {
    var rest := bytes[end..];
    if q < |rest| {
      assert rest[q] == bytes[end + q] && (q > 0 ==> rest[q - 1] == bytes[end + q - 1]);
      assert Blank(rest, q) == Blank(bytes, end + q);
      assert q + 1 < |rest| ==> rest[q + 1] == bytes[end + q + 1];
      assert end + (q + 1) == end + q + 1;
      ScanFromLine(bytes, end, q + 1);
    }
  }

  /** A line that is not empty is skipped. */
  lemma {:induction false} SkipLine(bytes: Bytes, p: nat, end: nat)
    requires 0 < p == LineLength(bytes) < |bytes| && end == After(bytes, p)
    ensures LineStart(bytes, end)
    ensures FirstEnd(bytes) == match FirstEnd(bytes[end..]) { case None => None case Some(n) => Some(end + n) }
  {
    LineLengthMeans(bytes);
    SkipUnblank(bytes, 0, end);
    ScanFromLine(bytes, end, 0);
  }

  ghost predicate NoneEmpty(lines: seq<Bytes>) {
    forall i :: 0 <= i < |lines| ==> lines[i] != []
  }

  ghost predicate OnlyLastEmpty(lines: seq<Bytes>) {
    lines != [] && lines[|lines| - 1] == [] && NoneEmpty(lines[..|lines| - 1])
  }

  /** The first `n` bytes are some lines with text and then an empty one, and the other lines follow. */
  ghost predicate EndsEmpty(bytes: Bytes, n: nat) {
    && n <= |bytes| && OnlyLastEmpty(Lines(bytes[..n]))
    && Lines(bytes) == Lines(bytes[..n]) + Lines(bytes[n..])
  }

  lemma {:induction false} EmptyLineEnds(bytes: Bytes, end: nat)
    requires bytes != [] && Newline(bytes[0]) && end == After(bytes, 0)
    ensures EndsEmpty(bytes, end)
  {
    var event := bytes[..end];
    assert event[0] == bytes[0] && (end == 2 ==> event[1] == bytes[1]);
    LinesUnfold(event, LineLength(event), end);
    LinesUnfold(bytes, LineLength(bytes), end);
    assert Lines(event) == [[]];
  }

  lemma {:induction false} FrontLine(bytes: Bytes, p: nat, end: nat, n: nat)
    requires p == LineLength(bytes) < |bytes| && end == After(bytes, p) && 0 < n <= |bytes| - end
    ensures Lines(bytes[..end + n]) == [bytes[..p]] + Lines(bytes[end..][..n])
  {
    LineLengthMeans(bytes);
    var event := bytes[..end + n];
    assert forall i :: 0 <= i < |event| ==> event[i] == bytes[i];
    LineLengthIs(event, p);
    LinesUnfold(event, p, end);
    assert event[end..] == bytes[end..][..n] && event[..p] == bytes[..p];
  }

  lemma {:induction false} OneMoreLine(line: Bytes, lines: seq<Bytes>)
    requires line != []
    ensures OnlyLastEmpty(lines) ==> OnlyLastEmpty([line] + lines)
    ensures NoneEmpty(lines) ==> NoneEmpty([line] + lines)
  {
    if lines != [] {
      assert ([line] + lines)[..|lines|] == [line] + lines[..|lines| - 1];
    }
  }

  lemma {:induction false} LineBefore(bytes: Bytes, p: nat, end: nat, n: nat)
    requires 0 < p == LineLength(bytes) < |bytes| && end == After(bytes, p)
    requires 0 < n <= |bytes| - end && EndsEmpty(bytes[end..], n)
    ensures EndsEmpty(bytes, end + n)
  {
    var rest := bytes[end..];
    FrontLine(bytes, p, end, n);
    LinesUnfold(bytes, p, end);
    assert rest[n..] == bytes[end + n..];
    LinesJoin(bytes[..p], Lines(rest[..n]), Lines(rest[n..]), Lines(bytes[..end + n]), Lines(bytes));
  }

  lemma {:induction false} LinesJoin(line: Bytes, a: seq<Bytes>, b: seq<Bytes>, event: seq<Bytes>, all: seq<Bytes>)
    requires line != [] && OnlyLastEmpty(a) && event == [line] + a && all == [line] + (a + b)
    ensures OnlyLastEmpty(event) && all == event + b
  {
    OneMoreLine(line, a);
  }

  lemma {:induction false} NoLine(bytes: Bytes)
    requires LineLength(bytes) == |bytes|
    ensures FirstEnd(bytes).None? && NoneEmpty(Lines(bytes))
  {
    LineLengthMeans(bytes);
    SkipUnblank(bytes, 0, |bytes|);
  }

  lemma {:induction false} StartsBlank(bytes: Bytes)
    requires bytes != [] && Newline(bytes[0])
    ensures FirstEnd(bytes) == Some(After(bytes, 0))
  {
  }

  /** An event is the lines up to the first empty one, that one included; what is incomplete has none. */
  lemma {:induction false} EventIsLines(bytes: Bytes)
    ensures FirstEnd(bytes).Some? ==> EndsEmpty(bytes, FirstEnd(bytes).value)
    ensures FirstEnd(bytes).None? ==> NoneEmpty(Lines(bytes))
    decreases |bytes|
  {
    var p := LineLength(bytes);
    if p == |bytes| {
      NoLine(bytes);
    } else if p == 0 {
      LineLengthMeans(bytes);
      StartsBlank(bytes);
      EmptyLineEnds(bytes, After(bytes, 0));
    } else {
      var end := After(bytes, p);
      var rest := bytes[end..];
      EventIsLines(rest);
      SkipLine(bytes, p, end);
      EventBehindLine(bytes, p, end);
    }
  }

  lemma {:induction false} EventBehindLine(bytes: Bytes, p: nat, end: nat)
    requires 0 < p == LineLength(bytes) < |bytes| && end == After(bytes, p)
    requires FirstEnd(bytes[end..]).Some? ==> EndsEmpty(bytes[end..], FirstEnd(bytes[end..]).value)
    requires FirstEnd(bytes[end..]).None? ==> NoneEmpty(Lines(bytes[end..]))
    ensures FirstEnd(bytes[end..]).Some? ==> EndsEmpty(bytes, end + FirstEnd(bytes[end..]).value)
    ensures FirstEnd(bytes[end..]).None? ==> NoneEmpty(Lines(bytes))
  {
    match FirstEnd(bytes[end..])
    case Some(n) =>
      LineBefore(bytes, p, end, n);
    case None =>
      LinesUnfold(bytes, p, end);
      OneMoreLine(bytes[..p], Lines(bytes[end..]));
  }

  // ----- The events of a stream

  function Events(bytes: Bytes): seq<Bytes> {
    var end := FirstEnd(bytes);
    if end.None? then [] else [bytes[..end.value]] + Events(bytes[end.value..])
  }

  /** What follows the last complete event. */
  function Tail(bytes: Bytes): Bytes {
    var end := FirstEnd(bytes);
    if end.None? then bytes else Tail(bytes[end.value..])
  }

  lemma {:induction false} TailIncomplete(bytes: Bytes)
    ensures FirstEnd(Tail(bytes)).None?
    decreases |bytes|
  {
    var end := FirstEnd(bytes);
    if end.Some? {
      TailIncomplete(bytes[end.value..]);
    }
  }

  /** The events are what the stream is made of. */
  lemma {:induction false} EventsPartition(bytes: Bytes)
    ensures Joined(Events(bytes)) + Tail(bytes) == bytes
    decreases |bytes|
  {
    var end := FirstEnd(bytes);
    if end.Some? {
      var rest := bytes[end.value..];
      EventsPartition(rest);
      assert Events(bytes)[1..] == Events(rest);
      assert bytes == bytes[..end.value] + rest;
    }
  }

  function Joined(events: seq<Bytes>): Bytes {
    if events == [] then [] else events[0] + Joined(events[1..])
  }

  /** The events and the tail when chunks are cut as they arrive. */
  function ChunkTail(chunks: seq<Bytes>): Bytes {
    if chunks == [] then [] else Tail(ChunkTail(chunks[..|chunks| - 1]) + chunks[|chunks| - 1])
  }

  function ChunkEvents(chunks: seq<Bytes>): seq<Bytes> {
    if chunks == [] then []
    else
      var before := chunks[..|chunks| - 1];
      ChunkEvents(before) + Events(ChunkTail(before) + chunks[|chunks| - 1])
  }

  // ----- How the events depend on the chunks

  predicate EndsInCrlf(event: Bytes) {
    |event| >= 2 && event[|event| - 2] == CR && event[|event| - 1] == LF
  }

  /** An event that ends in CR LF, cut between the two. */
  function Pieces(event: Bytes): seq<Bytes> {
    if EndsInCrlf(event) then [event[..|event| - 1], [LF]] else [event]
  }

  /** The events with the cut that a late line feed may make, made everywhere. */
  function Normal(events: seq<Bytes>): seq<Bytes> {
    if events == [] then [] else Pieces(events[0]) + Normal(events[1..])
  }

  lemma {:induction false} NormalAppends(a: seq<Bytes>, b: seq<Bytes>)
    ensures Normal(a + b) == Normal(a) + Normal(b)
  {
    if a == [] {
      assert a + b == b;
    } else {
      assert (a + b)[1..] == a[1..] + b;
      NormalAppends(a[1..], b);
    }
  }

  /** The end of the first event of `a`, once `b` follows it. */
  lemma {:induction false} EndWithMore(a: Bytes, b: Bytes, from: nat)
    requires EventEnd(a, from).Some?
    ensures var end := EventEnd(a, from).value;
            EventEnd(a + b, from) == Some(if SplitsCrlf(a, b) && end == |a| then end + 1 else end)
    ensures var end := EventEnd(a, from).value;
            SplitsCrlf(a, b) && end == |a| ==> !EndsInCrlf(a[..end])
    decreases |a| - from
  {
    assert Blank(a, from) == Blank(a + b, from);
    if !Blank(a, from) {
      EndWithMore(a, b, from + 1);
    }
  }

  predicate SplitsCrlf(a: Bytes, b: Bytes) {
    a != [] && b != [] && a[|a| - 1] == CR && b[0] == LF
  }

  lemma {:induction false} EventsUnfold(bytes: Bytes, n: nat)
    requires FirstEnd(bytes) == Some(n)
    ensures Events(bytes) == [bytes[..n]] + Events(bytes[n..])
    ensures Tail(bytes) == Tail(bytes[n..])
    ensures Normal(Events(bytes)) == Pieces(bytes[..n]) + Normal(Events(bytes[n..]))
  {
    assert Events(bytes)[1..] == Events(bytes[n..]);
  }

  lemma {:induction false} EventsOfMore(a: Bytes, b: Bytes)
    ensures Normal(Events(a + b)) == Normal(Events(a)) + Normal(Events(Tail(a) + b))
    ensures Tail(a + b) == Tail(Tail(a) + b)
    decreases |a|
  {
    var end := FirstEnd(a);
    if end.Some? {
      EndWithMore(a, b, 0);
      if SplitsCrlf(a, b) && end.value == |a| {
        LateLineFeed(a, b);
      } else {
        EventsOfMore(a[end.value..], b);
        EventsOfMoreStep(a, b, end.value);
      }
    }
  }

  lemma {:induction false} EventsOfMoreStep(a: Bytes, b: Bytes, n: nat)
    requires FirstEnd(a) == FirstEnd(a + b) == Some(n)
    requires Normal(Events(a[n..] + b)) == Normal(Events(a[n..])) + Normal(Events(Tail(a[n..]) + b))
    requires Tail(a[n..] + b) == Tail(Tail(a[n..]) + b)
    ensures Normal(Events(a + b)) == Normal(Events(a)) + Normal(Events(Tail(a) + b))
    ensures Tail(a + b) == Tail(Tail(a) + b)
  {
    SplitBehind(a, b, n);
    EventsUnfold(a, n);
    EventsUnfold(a + b, n);
    Regrouped(Pieces(a[..n]), Normal(Events(a[n..])), Normal(Events(Tail(a[n..]) + b)));
  }

  lemma {:induction false} SplitBehind(a: Bytes, b: Bytes, n: nat)
    requires n <= |a|
    ensures (a + b)[n..] == a[n..] + b && (a + b)[..n] == a[..n]
  {
  }

  lemma {:induction false} Regrouped(x: seq<Bytes>, y: seq<Bytes>, z: seq<Bytes>)
    ensures x + (y + z) == (x + y) + z
  {
  }

  lemma {:induction false} LateLineFeed(a: Bytes, b: Bytes)
    requires SplitsCrlf(a, b) && FirstEnd(a) == Some(|a|) && FirstEnd(a + b) == Some(|a| + 1) && !EndsInCrlf(a)
    ensures Normal(Events(a + b)) == Normal(Events(a)) + Normal(Events(Tail(a) + b))
    ensures Tail(a + b) == Tail(Tail(a) + b)
  {
    OnlyEvent(a);
    LeadingLineFeed(b);
    assert [] + b == b;
    WholeTerminator(a, b);
    Regrouped([a], [[LF]], Normal(Events(b[1..])));
  }

  /** With the line feed in time, the event ends behind it. */
  lemma {:induction false} WholeTerminator(a: Bytes, b: Bytes)
    requires SplitsCrlf(a, b) && FirstEnd(a + b) == Some(|a| + 1)
    ensures Normal(Events(a + b)) == ([a] + [[LF]]) + Normal(Events(b[1..]))
    ensures Tail(a + b) == Tail(b[1..])
  {
    EventsUnfold(a + b, |a| + 1);
    assert (a + b)[|a| + 1..] == b[1..] && (a + b)[..|a| + 1] == a + [LF];
    CutBetween(a);
    assert [a] + [[LF]] == [a, [LF]];
  }

  lemma {:induction false} OnlyEvent(a: Bytes)
    requires FirstEnd(a) == Some(|a|) && !EndsInCrlf(a)
    ensures Normal(Events(a)) == [a] && Tail(a) == []
  {
    EventsUnfold(a, |a|);
    assert a[|a|..] == [] && a[..|a|] == a;
    assert Events([]) == [] && Tail([]) == [];
  }

  lemma {:induction false} LeadingLineFeed(b: Bytes)
    requires b != [] && b[0] == LF
    ensures Normal(Events(b)) == [[LF]] + Normal(Events(b[1..])) && Tail(b) == Tail(b[1..])
  {
    assert FirstEnd(b) == Some(1) && b[..1] == [LF];
    EventsUnfold(b, 1);
  }

  lemma {:induction false} CutBetween(a: Bytes)
    requires a != [] && a[|a| - 1] == CR
    ensures Pieces(a + [LF]) == [a, [LF]]
  {
    assert (a + [LF])[..|a|] == a;
  }

  /** However a stream is cut into chunks, its events are those of the whole stream, but for line
      feeds that arrive after the carriage return they belong to. */
  lemma {:induction false} ChunkingIndependent(chunks: seq<Bytes>)
    ensures Normal(ChunkEvents(chunks)) == Normal(Events(Flatten(chunks)))
    ensures ChunkTail(chunks) == Tail(Flatten(chunks))
  {
    if chunks != [] {
      var before, last := chunks[..|chunks| - 1], chunks[|chunks| - 1];
      ChunkingIndependent(before);
      EventsOfMore(Flatten(before), last);
      NormalAppends(ChunkEvents(before), Events(ChunkTail(before) + last));
    }
  }

  // ----- When the events do not depend on the chunks at all

  /** An event has just ended in a carriage return, and its line feed comes next. */
  predicate Cuts(a: Bytes, b: Bytes) {
    SplitsCrlf(a, b) && Tail(a) == []
  }

  lemma {:induction false} CutsBehind(a: Bytes, b: Bytes, n: nat)
    requires FirstEnd(a) == Some(n) && !(SplitsCrlf(a, b) && n == |a|)
    ensures Cuts(a[n..], b) <==> Cuts(a, b)
  {
    if n == |a| {
      assert a[n..] == [];
    } else {
      assert a[n..][|a[n..]| - 1] == a[|a| - 1];
    }
  }

  /** Cutting between two chunks adds an event exactly if it cuts a terminator. */
  lemma {:induction false} EventsOfBoth(a: Bytes, b: Bytes)
    ensures !Cuts(a, b) ==> Events(a + b) == Events(a) + Events(Tail(a) + b)
    ensures Cuts(a, b) ==> |Events(a)| + |Events(Tail(a) + b)| == |Events(a + b)| + 1
    decreases |a|
  {
    var end := FirstEnd(a);
    if end.Some? {
      var n := end.value;
      EndWithMore(a, b, 0);
      if SplitsCrlf(a, b) && n == |a| {
        FeedOfItsOwn(a, b);
      } else {
        EventsOfBoth(a[n..], b);
        CutsBehind(a, b, n);
        EventsOfBothStep(a, b, n);
      }
    }
  }

  lemma {:induction false} FeedOfItsOwn(a: Bytes, b: Bytes)
    requires SplitsCrlf(a, b) && FirstEnd(a) == Some(|a|) && FirstEnd(a + b) == Some(|a| + 1)
    ensures Tail(a) == [] && |Events(a)| + |Events(Tail(a) + b)| == |Events(a + b)| + 1
  {
    EventsUnfold(a, |a|);
    assert a[|a|..] == [] && Events([]) == [] && Tail([]) == [];
    EventsUnfold(a + b, |a| + 1);
    assert (a + b)[|a| + 1..] == b[1..];
    assert [] + b == b && FirstEnd(b) == Some(1);
    EventsUnfold(b, 1);
  }

  lemma {:induction false} EventsOfBothStep(a: Bytes, b: Bytes, n: nat)
    requires FirstEnd(a) == FirstEnd(a + b) == Some(n)
    requires !Cuts(a[n..], b) ==> Events(a[n..] + b) == Events(a[n..]) + Events(Tail(a[n..]) + b)
    requires Cuts(a[n..], b) ==> |Events(a[n..])| + |Events(Tail(a[n..]) + b)| == |Events(a[n..] + b)| + 1
    ensures !Cuts(a[n..], b) ==> Events(a + b) == Events(a) + Events(Tail(a) + b)
    ensures Cuts(a[n..], b) ==> |Events(a)| + |Events(Tail(a) + b)| == |Events(a + b)| + 1
  {
    SplitBehind(a, b, n);
    EventsUnfold(a, n);
    EventsUnfold(a + b, n);
    Regrouped([a[..n]], Events(a[n..]), Events(Tail(a[n..]) + b));
  }

  /** The number of chunks that cut a terminator off the stream before them. */
  function CutCount(chunks: seq<Bytes>): nat {
    if chunks == [] then 0 else
    var before := chunks[..|chunks| - 1];
    CutCount(before) + if Cuts(Flatten(before), chunks[|chunks| - 1]) then 1 else 0
  }

  predicate CutsAt(chunks: seq<Bytes>, k: nat)
    requires k < |chunks|
  {
    Cuts(Flatten(chunks[..k]), chunks[k])
  }

  /** Some chunk begins with the line feed of the event that the chunks before it end with. */
  ghost predicate CutsSomewhere(chunks: seq<Bytes>) {
    exists k :: 0 <= k < |chunks| && CutsAt(chunks, k)
  }

  lemma {:induction false} CutsAtPrefix(chunks: seq<Bytes>, n: nat, k: nat)
    requires k < n <= |chunks|
    ensures CutsAt(chunks[..n], k) <==> CutsAt(chunks, k)
  {
    assert chunks[..n][..k] == chunks[..k];
  }

  lemma {:induction false} CutCountMeans(chunks: seq<Bytes>)
    ensures CutCount(chunks) > 0 <==> CutsSomewhere(chunks)
  {
    if chunks != [] {
      var n := |chunks| - 1;
      CutCountMeans(chunks[..n]);
      CutsInPrefix(chunks, n);
      assert CutsAt(chunks, n) <==> Cuts(Flatten(chunks[..n]), chunks[n]);
    }
  }

  lemma {:induction false} CutsInPrefix(chunks: seq<Bytes>, n: nat)
    requires n <= |chunks|
    ensures CutsSomewhere(chunks[..n]) <==> exists k :: 0 <= k < n && CutsAt(chunks, k)
  {
    forall k | 0 <= k < n ensures CutsAt(chunks[..n], k) <==> CutsAt(chunks, k) {
      CutsAtPrefix(chunks, n, k);
    }
  }

  lemma {:induction false} EachCutAddsAnEvent(chunks: seq<Bytes>)
    ensures |ChunkEvents(chunks)| == |Events(Flatten(chunks))| + CutCount(chunks)
    ensures CutCount(chunks) == 0 ==> ChunkEvents(chunks) == Events(Flatten(chunks))
  {
    if chunks != [] {
      var before, last := chunks[..|chunks| - 1], chunks[|chunks| - 1];
      EachCutAddsAnEvent(before);
      ChunkingIndependent(before);
      EventsOfBoth(Flatten(before), last);
    }
  }

  /** The events are those of the whole stream exactly if no terminator is cut. */
  lemma {:induction false} SameEventsIff(chunks: seq<Bytes>)
    ensures ChunkEvents(chunks) == Events(Flatten(chunks)) <==> !CutsSomewhere(chunks)
  {
    EachCutAddsAnEvent(chunks);
    CutCountMeans(chunks);
  }

  /** The line feed that arrives late does make an event of its own. */
  lemma {:induction false} LateLineFeedIsAnEvent()
    ensures Events([CR, LF]) == [[CR, LF]] && ChunkEvents([[CR], [LF]]) == [[CR], [LF]]
  {
    assert FirstEnd([CR, LF]) == Some(2) && FirstEnd([CR]) == Some(1) && FirstEnd([LF]) == Some(1);
    assert Events([]) == [] && Tail([]) == [];
    assert [CR, LF][2..] == [] && [CR, LF][..2] == [CR, LF];
    assert [CR][1..] == [] && [CR][..1] == [CR] && [LF][1..] == [] && [LF][..1] == [LF];
    var none: seq<Bytes> := [];
    var one, both := [[CR]], [[CR], [LF]];
    assert both[..1] == one && one[..0] == none;
    assert ChunkTail(none) == [] && ChunkEvents(none) == [] && [] + [CR] == [CR] && [] + [LF] == [LF];
    assert ChunkTail(one) == [] && ChunkEvents(one) == one;
  }

  /** A test of events that sees nothing in an empty one and does not depend on a final line feed. */
  ghost predicate Insensitive(stop: Bytes -> bool) {
    !stop([LF]) && forall e: Bytes :: EndsInCrlf(e) ==> stop(e) == stop(e[..|e| - 1])
  }

  ghost predicate Stops(stop: Bytes -> bool, events: seq<Bytes>) {
    exists e :: e in events && stop(e)
  }

  lemma {:induction false} NormalStops(stop: Bytes -> bool, events: seq<Bytes>)
    requires Insensitive(stop)
    ensures Stops(stop, Normal(events)) <==> Stops(stop, events)
  {
    if events != [] {
      NormalStops(stop, events[1..]);
      assert events == [events[0]] + events[1..];
      StopsAppends(stop, [events[0]], events[1..]);
      StopsAppends(stop, Pieces(events[0]), Normal(events[1..]));
      PiecesStop(stop, events[0]);
    }
  }

  lemma {:induction false} PiecesStop(stop: Bytes -> bool, event: Bytes)
    requires Insensitive(stop)
    ensures Stops(stop, Pieces(event)) <==> stop(event)
    ensures Stops(stop, [event]) <==> stop(event)
  {
    assert event in [event];
    if EndsInCrlf(event) {
      assert Pieces(event)[0] == event[..|event| - 1] && Pieces(event)[0] in Pieces(event);
    }
  }

  lemma {:induction false} StopsAppends(stop: Bytes -> bool, a: seq<Bytes>, b: seq<Bytes>)
    ensures Stops(stop, a + b) <==> Stops(stop, a) || Stops(stop, b)
  {
    assert forall e :: e in a + b <==> e in a || e in b;
  }

  /** Whether some event stops the stream does not depend on the chunks, if the test does not look at such
      line feeds or none of them is cut off. */
  lemma {:induction false} StopIndependent(stop: Bytes -> bool, chunks: seq<Bytes>)
    requires Insensitive(stop) || !CutsSomewhere(chunks)
    ensures Stops(stop, ChunkEvents(chunks)) <==> Stops(stop, Events(Flatten(chunks)))
  {
    if Insensitive(stop) {
      ChunkingIndependent(chunks);
      NormalStops(stop, ChunkEvents(chunks));
      NormalStops(stop, Events(Flatten(chunks)));
    } else {
      SameEventsIff(chunks);
    }
  }
}
