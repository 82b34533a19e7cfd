/** Reading a streamed body within a byte and an idle budget (crates/relay-core/src/transport.rs). */
module SseTransport {
  import opened Basics
  import opened EventStream

  // ----- Progress and heartbeats

  datatype LineState = LineState(started: bool, comment: bool)

  const FRESH := LineState(false, false)

  function Next(s: LineState, b: Byte): LineState {
    if Newline(b) then FRESH
    else if !s.started then LineState(true, b == COLON)
    else s
  }

  function StateAfter(s: LineState, bytes: Bytes): LineState {
    if bytes == [] then s else Next(StateAfter(s, bytes[..|bytes| - 1]), bytes[|bytes| - 1])
  }

  /** Byte `b`, read in state `s`, is more than a heartbeat. */
  predicate Counts(s: LineState, b: Byte) {
    !Newline(b) && !Next(s, b).comment && !AsciiWhitespace(b)
  }

  function Progresses(s: LineState, bytes: Bytes): bool {
    bytes != [] &&
    var before := bytes[..|bytes| - 1];
    Progresses(s, before) || Counts(StateAfter(s, before), bytes[|bytes| - 1])
  }

  class SseProgress {
    var lineStarted: bool
    var comment: bool

    constructor ()
      ensures State() == FRESH
    {
      lineStarted := false;
      comment := false;
    }

    function State(): LineState
      reads this
    {
      LineState(lineStarted, comment)
    }

    method Observe(bytes: Bytes) returns (progress: bool)
      modifies this
      ensures State() == StateAfter(old(State()), bytes)
      ensures progress == Progresses(old(State()), bytes)
    {
      progress := false;
      for i := 0 to |bytes|
        invariant State() == StateAfter(old(State()), bytes[..i])
        invariant progress == Progresses(old(State()), bytes[..i])
      {
        var byte := bytes[i];
        assert bytes[..i + 1][..i] == bytes[..i];
        if Newline(byte) {
          lineStarted := false;
          comment := false;
        } else {
          if !lineStarted {
            comment := byte == COLON;
            lineStarted := true;
          }
          progress := progress || (!comment && !AsciiWhitespace(byte));
        }
      }
      assert bytes[..|bytes|] == bytes;
    }
  }

  lemma {:induction false} ObserveAppends(s: LineState, a: Bytes, b: Bytes)
    ensures StateAfter(s, a + b) == StateAfter(StateAfter(s, a), b)
    ensures Progresses(s, a + b) <==> Progresses(s, a) || Progresses(StateAfter(s, a), b)
    decreases |b|
  {
    if b == [] {
      assert a + b == a;
    } else {
      var before := b[..|b| - 1];
      ObserveAppends(s, a, before);
      assert (a + b)[..|a + b| - 1] == a + before;
    }
  }

  /** Chunk `k`, observed after those before it, reports progress. */
  predicate ChunkProgresses(chunks: seq<Bytes>, k: nat)
    requires k < |chunks|
  {
    Progresses(StateAfter(FRESH, Flatten(chunks[..k])), chunks[k])
  }

  ghost predicate SomeChunkProgresses(chunks: seq<Bytes>) {
    exists k :: 0 <= k < |chunks| && ChunkProgresses(chunks, k)
  }

  /** Byte `i` is on the line that starts at `start`. */
  ghost predicate OnLine(bytes: Bytes, start: nat, i: nat) {
    && start <= i < |bytes|
    && (start == 0 || Newline(bytes[start - 1]))
    && forall j :: start <= j <= i ==> !Newline(bytes[j])
  }

  /** Byte `i` is not white space and its line does not begin with a colon. */
  ghost predicate Visible(bytes: Bytes, i: nat) {
    && i < |bytes| && !AsciiWhitespace(bytes[i])
    && exists start: nat :: OnLine(bytes, start, i) && bytes[start] != COLON
  }

  /** What the two flags remember. */
  lemma {:induction false} StateMeans(bytes: Bytes)
    ensures var s := StateAfter(FRESH, bytes);
            && (s.started <==> bytes != [] && !Newline(bytes[|bytes| - 1]))
            && (s.comment ==> s.started)
            && (s.started ==>
                  exists start: nat ::
                    OnLine(bytes, start, |bytes| - 1) && s.comment == (bytes[start] == COLON))
  {
    if bytes != [] {
      var before, last := bytes[..|bytes| - 1], |bytes| - 1;
      StateMeans(before);
      if !Newline(bytes[last]) {
        if StateAfter(FRESH, before).started {
          var start: nat :| OnLine(before, start, last - 1)
            && StateAfter(FRESH, before).comment == (before[start] == COLON);
          assert OnLine(bytes, start, last);
        } else {
          assert OnLine(bytes, last, last);
        }
      }
    }
  }

  /** A byte counts exactly if it is visible. */
  lemma {:induction false} CountsIsVisible(bytes: Bytes, i: nat)
    requires i < |bytes|
    ensures Counts(StateAfter(FRESH, bytes[..i]), bytes[i]) <==> Visible(bytes, i)
  {
    var through := bytes[..i + 1];
    assert through[..i] == bytes[..i] && through[i] == bytes[i];
    StateMeans(through);
    if !Newline(bytes[i]) {
      var start: nat :| OnLine(through, start, i) && StateAfter(FRESH, through).comment == (through[start] == COLON);
      assert OnLine(bytes, start, i);
      forall t: nat | OnLine(bytes, t, i) ensures t == start {
      }
    }
  }

  /** Bytes `from` onward make progress exactly if one of them is visible in the whole stream. */
  lemma {:induction false} ProgressIsVisible(seen: Bytes, more: Bytes)
    ensures Progresses(StateAfter(FRESH, seen), more) <==> exists i: nat :: |seen| <= i && Visible(seen + more, i)
    decreases |more|
  {
    if more != [] {
      var before, whole := more[..|more| - 1], seen + more;
      var last := |whole| - 1;
      assert whole[..last] == seen + before;
      ProgressIsVisible(seen, before);
      ObserveAppends(FRESH, seen, before);
      CountsIsVisible(whole, last);
      forall i: nat | i < last ensures Visible(whole, i) <==> Visible(whole[..last], i) {
        VisibleInPrefix(whole, last, i);
      }
    }
  }

  lemma {:induction false} VisibleInPrefix(bytes: Bytes, n: nat, i: nat)
    requires i < n <= |bytes|
    ensures Visible(bytes, i) <==> Visible(bytes[..n], i)
  {
    forall start: nat ensures OnLine(bytes, start, i) <==> OnLine(bytes[..n], start, i) {
    }
  }

  /** Chunk by chunk, progress is reported exactly for a stream with a visible byte. */
  lemma {:induction false} ChunksProgress(chunks: seq<Bytes>)
    ensures SomeChunkProgresses(chunks) <==> exists i: nat :: Visible(Flatten(chunks), i)
  {
    ProgressIsVisible([], Flatten(chunks));
    assert [] + Flatten(chunks) == Flatten(chunks);
    ChunksProgressTogether(chunks);
  }

  lemma {:induction false} ChunksProgressTogether(chunks: seq<Bytes>)
    ensures SomeChunkProgresses(chunks) <==> Progresses(FRESH, Flatten(chunks))
  {
    if chunks != [] {
      var n := |chunks| - 1;
      var before := chunks[..n];
      ChunksProgressTogether(before);
      ObserveAppends(FRESH, Flatten(before), chunks[n]);
      forall k | 0 <= k < n ensures ChunkProgresses(before, k) == ChunkProgresses(chunks, k) {
        assert before[..k] == chunks[..k];
      }
      assert ChunkProgresses(chunks, n) == Progresses(StateAfter(FRESH, Flatten(before)), chunks[n]);
    }
  }
}
