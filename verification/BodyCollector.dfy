/** The bounded reader of streamed bodies (crates/relay-core/src/transport.rs). */
module BodyCollector {
  import opened Basics
  import opened EventStream
  import opened SseTransport

  datatype Ending = Closed | Broken

  /** Chunk `k` arrives `wait(k)` after the reader asks for it, and so does the ending. */
  datatype Stream = Stream(chunks: seq<Bytes>, wait: nat -> nat, ending: Ending)

  datatype Outcome =
    | Collected(bytes: Bytes)
    | Failure(bytes: Bytes, timedOut: bool)

  function Received(s: Stream, n: nat): Bytes
    requires n <= |s.chunks|
  {
    Flatten(s.chunks[..n])
  }

  function SaturatingSub(a: nat, b: nat): nat {
    if a < b then 0 else a - b
  }

  // ----- The idle budget

  /** Chunk `k` refills the idle budget. */
  predicate Advances(sse: bool, s: Stream, k: nat)
    requires k < |s.chunks|
  {
    if sse then ChunkProgresses(s.chunks, k) else s.chunks[k] != []
  }

  /** The time spent waiting since the last progress, by the time arrival `n` is there. */
  function Quiet(sse: bool, s: Stream, n: nat): nat
    requires n <= |s.chunks|
  {
    s.wait(n) + if n == 0 || Advances(sse, s, n - 1) then 0 else Quiet(sse, s, n - 1)
  }

  predicate InTime(sse: bool, s: Stream, idle: Option<nat>, n: nat)
    requires n <= |s.chunks|
  {
    idle.Some? ==> Quiet(sse, s, n) <= idle.value
  }

  // ----- The event that ends the stream

  /** The number of bytes up to the end of the first event that stops. */
  function StopLength(stop: Bytes -> bool, events: seq<Bytes>): Option<nat> {
    if events == [] then None
    else if stop(events[0]) then Some(|events[0]|)
    else
      var rest := StopLength(stop, events[1..]);
      if rest.None? then None else Some(|events[0]| + rest.value)
  }

  lemma {:induction false} StopLengthMeans(stop: Bytes -> bool, events: seq<Bytes>) returns (j: nat)
    ensures StopLength(stop, events).None? <==> !Stops(stop, events)
    ensures StopLength(stop, events).None? ==> j == |events|
    ensures StopLength(stop, events).Some? ==>
      j < |events| && stop(events[j]) && StopLength(stop, events).value == |Joined(events[..j + 1])|
    ensures forall i :: 0 <= i < j ==> !stop(events[i])
  {
    if events == [] {
      return 0;
    }
    var e, rest := events[0], events[1..];
    assert events == [e] + rest;
    StopsAppends(stop, [e], rest);
    assert e in [e];
    if stop(e) {
      assert events[..1][1..] == [];
      return 0;
    }
    var k := StopLengthMeans(stop, rest);
    j := k + 1;
    if k < |rest| {
      assert events[..j + 1][1..] == rest[..k + 1];
    }
    forall i | 0 <= i < j ensures !stop(events[i]) {
      assert i > 0 ==> events[i] == rest[i - 1];
    }
  }

  lemma {:induction false} StopLengthAppends(stop: Bytes -> bool, a: seq<Bytes>, b: seq<Bytes>)
    requires StopLength(stop, a).None?
    ensures StopLength(stop, a + b) == Shifted(|Joined(a)|, StopLength(stop, b))
  {
    if a == [] {
      assert a + b == b;
    } else {
      assert (a + b)[1..] == a[1..] + b;
      StopLengthAppends(stop, a[1..], b);
    }
  }

  lemma {:induction false} JoinedAppends(a: seq<Bytes>, b: seq<Bytes>)
    ensures Joined(a + b) == Joined(a) + Joined(b)
  {
    if a == [] {
      assert a + b == b;
    } else {
      assert (a + b)[1..] == a[1..] + b;
      JoinedAppends(a[1..], b);
    }
  }

  lemma {:induction false} ChunkPartition(chunks: seq<Bytes>)
    ensures Joined(ChunkEvents(chunks)) + ChunkTail(chunks) == Flatten(chunks)
  {
    if chunks != [] {
      var before, last := chunks[..|chunks| - 1], chunks[|chunks| - 1];
      ChunkPartition(before);
      var pending := ChunkTail(before) + last;
      EventsPartition(pending);
      JoinedAppends(ChunkEvents(before), Events(pending));
      Regroup(Joined(ChunkEvents(before)), ChunkTail(before), last, Joined(Events(pending)), Tail(pending));
    }
  }

  lemma {:induction false} Regroup(a: Bytes, b: Bytes, c: Bytes, d: Bytes, e: Bytes)
    requires b + c == d + e
    ensures (a + d) + e == (a + b) + c
  {
    assert (a + d) + e == a + (d + e);
    assert (a + b) + c == a + (b + c);
  }

  // ----- What the reader returns

  /** What the budget still allows of chunk `n`. */
  function Retained(s: Stream, max: nat, n: nat): Bytes
    requires n < |s.chunks|
  {
    s.chunks[n][..Min(|s.chunks[n]|, SaturatingSub(max, |Received(s, n)|))]
  }

  function Limited(s: Stream, max: nat, n: nat): seq<Bytes>
    requires n < |s.chunks|
  {
    s.chunks[..n] + [Retained(s, max, n)]
  }

  function StopAt(sse: bool, stop: Bytes -> bool, chunks: seq<Bytes>): Option<nat> {
    if sse then StopLength(stop, ChunkEvents(chunks)) else None
  }

  /** Nothing before arrival `n` decides the outcome. */
  ghost predicate Undecided(sse: bool, s: Stream, idle: Option<nat>, max: nat, stop: Bytes -> bool, n: nat) {
    && n <= |s.chunks|
    && (forall k :: 0 <= k < n ==> InTime(sse, s, idle, k))
    && |Received(s, n)| <= max
    && StopAt(sse, stop, s.chunks[..n]).None?
  }

  /** What a chunk that is not absorbed makes of the reading. */
  ghost predicate Refused(sse: bool, s: Stream, max: nat, stop: Bytes -> bool, n: nat, r: Outcome)
    requires n < |s.chunks|
  {
    var kept := Limited(s, max, n);
    var end := StopAt(sse, stop, kept);
    if end.Some? then end.value <= |Flatten(kept)| && r == Collected(Flatten(kept)[..end.value])
    else |Received(s, n + 1)| > max && r == Failure(Received(s, n + 1)[..max], false)
  }

  /** Arrival `at` is the first one that decides, and this is how. */
  ghost predicate Explained(sse: bool, s: Stream, idle: Option<nat>, max: nat, stop: Bytes -> bool, at: nat,
                            r: Outcome) {
    && Undecided(sse, s, idle, max, stop, at)
    && if !InTime(sse, s, idle, at) then r == Failure(Received(s, at), true)
       else if at == |s.chunks| then
         r == if s.ending.Closed? then Collected(Received(s, at)) else Failure(Received(s, at), false)
       else Refused(sse, s, max, stop, at, r)
  }

  /** Some arrival decides, and this is how. */
  ghost predicate IsOutcome(sse: bool, s: Stream, idle: Option<nat>, max: nat, stop: Bytes -> bool, r: Outcome) {
    exists at :: Explained(sse, s, idle, max, stop, at, r)
  }

  lemma {:induction false} Absorbed(sse: bool, s: Stream, idle: Option<nat>, max: nat, stop: Bytes -> bool, n: nat)
    requires Undecided(sse, s, idle, max, stop, n) && n < |s.chunks| && InTime(sse, s, idle, n)
    requires |Received(s, n)| + |s.chunks[n]| <= max && StopAt(sse, stop, Limited(s, max, n)).None?
    ensures Undecided(sse, s, idle, max, stop, n + 1)
    ensures Received(s, n) + s.chunks[n] == Received(s, n + 1)
    ensures ChunkTail(Limited(s, max, n)) == ChunkTail(s.chunks[..n + 1])
  {
    LimitedUnfolds(s, max, n);
  }

  lemma {:induction false} Overflows(sse: bool, s: Stream, max: nat, stop: Bytes -> bool, n: nat)
    requires n < |s.chunks| && |Received(s, n)| <= max < |Received(s, n)| + |s.chunks[n]|
    requires StopAt(sse, stop, Limited(s, max, n)).None?
    ensures Refused(sse, s, max, stop, n, Failure(Received(s, n) + Retained(s, max, n), false))
  {
    LimitedUnfolds(s, max, n);
    assert Received(s, n + 1)[..max] == Received(s, n) + Retained(s, max, n);
  }

  lemma {:induction false} Terminates(s: Stream, max: nat, stop: Bytes -> bool, n: nat, end: nat)
    requires n < |s.chunks| && StopAt(true, stop, Limited(s, max, n)) == Some(end)
    requires end <= |Received(s, n) + Retained(s, max, n)|
    ensures Refused(true, s, max, stop, n, Collected((Received(s, n) + Retained(s, max, n))[..end]))
  {
    LimitedUnfolds(s, max, n);
  }

  /** What is left of the idle budget when the reader asks for arrival `n`. */
  function Allowance(sse: bool, s: Stream, idle: Option<nat>, n: nat): Option<nat>
    requires n <= |s.chunks|
  {
    if idle.None? || n == 0 || Advances(sse, s, n - 1) then idle
    else Some(SaturatingSub(idle.value, Quiet(sse, s, n - 1)))
  }

  lemma {:induction false} AllowanceTold(sse: bool, s: Stream, idle: Option<nat>, n: nat)
    requires n <= |s.chunks| && forall k :: 0 <= k < n ==> InTime(sse, s, idle, k)
    ensures var left := Allowance(sse, s, idle, n);
            && (InTime(sse, s, idle, n) <==> left.None? || s.wait(n) <= left.value)
            && (InTime(sse, s, idle, n) && n < |s.chunks| ==>
                  Allowance(sse, s, idle, n + 1) ==
                    if Advances(sse, s, n) then idle
                    else if left.None? then None else Some(SaturatingSub(left.value, s.wait(n))))
  {
    assert n > 0 ==> InTime(sse, s, idle, n - 1);
  }

  /** The events from `start` on, as seen from `inspected`: what is left of them leads to the same
      tail and the same stop. */
  ghost predicate SameFrom(bytes: Bytes, start: nat, inspected: nat, stop: Bytes -> bool) {
    && start <= inspected <= |bytes|
    && Tail(bytes[inspected..]) == Tail(bytes[start..])
    && StopLength(stop, Events(bytes[start..]))
      == Shifted(inspected - start, StopLength(stop, Events(bytes[inspected..])))
  }

  lemma {:induction false} OneEvent(pending: Bytes, n: nat, stop: Bytes -> bool)
    requires FirstEnd(pending) == Some(n)
    ensures Tail(pending) == Tail(pending[n..])
    ensures StopLength(stop, Events(pending)) ==
            if stop(pending[..n]) then Some(n) else Shifted(n, StopLength(stop, Events(pending[n..])))
  {
    EventsUnfold(pending, n);
    assert Events(pending)[1..] == Events(pending[n..]);
  }

  /** Taking one event off either stops or leads on. */
  lemma {:induction false} NextFrom(bytes: Bytes, start: nat, inspected: nat, n: nat, stop: Bytes -> bool)
    requires SameFrom(bytes, start, inspected, stop) && FirstEnd(bytes[inspected..]) == Some(n)
    ensures inspected + n <= |bytes|
    ensures stop(bytes[inspected..inspected + n]) ==>
      StopLength(stop, Events(bytes[start..])) == Some(inspected + n - start)
    ensures !stop(bytes[inspected..inspected + n]) ==> SameFrom(bytes, start, inspected + n, stop)
  {
    OneEvent(bytes[inspected..], n, stop);
    assert bytes[inspected..][n..] == bytes[inspected + n..];
    assert bytes[inspected..][..n] == bytes[inspected..inspected + n];
  }

  lemma {:induction false} NothingFrom(bytes: Bytes, start: nat, inspected: nat, stop: Bytes -> bool)
    requires SameFrom(bytes, start, inspected, stop) && FirstEnd(bytes[inspected..]).None?
    ensures StopLength(stop, Events(bytes[start..])).None? && bytes[inspected..] == Tail(bytes[start..])
  {
  }

  function Shifted(n: nat, length: Option<nat>): Option<nat> {
    if length.None? then None else Some(n + length.value)
  }

  /** Hands every complete event of the bytes from `start` on to `stop`, until one stops. */
  method ScanEvents(bytes: Bytes, start: nat, from: nat, stop: Bytes -> bool) returns (inspected: nat, terminal: bool)
    requires start <= |bytes| && from <= |bytes| - start
    requires EventEnd(bytes[start..], from) == FirstEnd(bytes[start..])
    ensures start <= inspected <= |bytes|
    ensures var end := StopLength(stop, Events(bytes[start..]));
            && terminal == end.Some?
            && (terminal ==> inspected == start + end.value)
    ensures !terminal ==> bytes[inspected..] == Tail(bytes[start..])
  {
    inspected := start;
    var scanFrom: nat := from;
    while true
      invariant SameFrom(bytes, start, inspected, stop) && scanFrom <= |bytes| - inspected
      invariant scanFrom == 0 || (inspected == start && scanFrom == from)
      decreases |bytes| - inspected
    {
      var end := EventEndFrom(bytes[inspected..], scanFrom);
      if end.None? {
        NothingFrom(bytes, start, inspected, stop);
        return inspected, false;
      }
      NextFrom(bytes, start, inspected, end.value, stop);
      terminal := stop(bytes[inspected..inspected + end.value]);
      inspected := inspected + end.value;
      scanFrom := 0;
      if terminal {
        return inspected, true;
      }
    }
  }

  /** One more chunk, cut to what the budget allows, follows the tail of those before it. */
  lemma {:induction false} LimitedUnfolds(s: Stream, max: nat, n: nat)
    requires n < |s.chunks|
    ensures var kept := Limited(s, max, n);
            var last := Retained(s, max, n);
            && Flatten(kept) == Received(s, n) + last
            && ChunkTail(kept) == Tail(ChunkTail(s.chunks[..n]) + last)
            && ChunkEvents(kept) == ChunkEvents(s.chunks[..n]) + Events(ChunkTail(s.chunks[..n]) + last)
    ensures Received(s, n + 1) == Received(s, n) + s.chunks[n]
    ensures |Received(s, n)| + |s.chunks[n]| <= max ==> Limited(s, max, n) == s.chunks[..n + 1]
  {
    var kept := Limited(s, max, n);
    assert kept[..|kept| - 1] == s.chunks[..n];
    assert s.chunks[..n + 1][..n] == s.chunks[..n];
    assert |Received(s, n)| + |s.chunks[n]| <= max ==> kept[n] == s.chunks[n];
  }

  /** The reader's variables before it asks for arrival `i`. */
  ghost predicate Reading(sse: bool, s: Stream, idle: Option<nat>, max: nat, stop: Bytes -> bool, i: nat,
                          bytes: Bytes, inspected: nat, remaining: Option<nat>) {
    && Undecided(sse, s, idle, max, stop, i)
    && bytes == Received(s, i) && inspected <= |bytes|
    && (sse ==> bytes[inspected..] == ChunkTail(s.chunks[..i]))
    && remaining == Allowance(sse, s, idle, i)
  }

  /** Waiting for arrival `i` ends in time exactly if what is left of the budget lasts. */
  lemma {:induction false} WaitTold(sse: bool, s: Stream, idle: Option<nat>, max: nat, stop: Bytes -> bool, i: nat,
                                    bytes: Bytes, inspected: nat, remaining: Option<nat>)
    requires Reading(sse, s, idle, max, stop, i, bytes, inspected, remaining)
    ensures InTime(sse, s, idle, i) <==> remaining.None? || s.wait(i) <= remaining.value
    ensures !InTime(sse, s, idle, i) ==> IsOutcome(sse, s, idle, max, stop, Failure(bytes, true))
    ensures InTime(sse, s, idle, i) && i == |s.chunks| ==>
      IsOutcome(sse, s, idle, max, stop, if s.ending.Closed? then Collected(bytes) else Failure(bytes, false))
  {
    AllowanceTold(sse, s, idle, i);
    if !InTime(sse, s, idle, i) {
      assert Explained(sse, s, idle, max, stop, i, Failure(bytes, true));
    } else if i == |s.chunks| {
      var r := if s.ending.Closed? then Collected(bytes) else Failure(bytes, false);
      assert Explained(sse, s, idle, max, stop, i, r);
    }
  }

  function Left(idle: Option<nat>, remaining: Option<nat>, advanced: bool, elapsed: nat): Option<nat> {
    if advanced then idle else if remaining.None? then None else Some(SaturatingSub(remaining.value, elapsed))
  }

  /** A chunk that is absorbed leads on to the next arrival. */
  lemma {:induction false} ReadingNext(sse: bool, s: Stream, idle: Option<nat>, max: nat, stop: Bytes -> bool, i: nat,
                                       bytes: Bytes, inspected: nat, remaining: Option<nat>, after: nat)
    requires Reading(sse, s, idle, max, stop, i, bytes, inspected, remaining)
    requires i < |s.chunks| && InTime(sse, s, idle, i) && |bytes| + |s.chunks[i]| <= max
    requires StopAt(sse, stop, Limited(s, max, i)).None? && after <= |bytes + s.chunks[i]|
    requires sse ==> (bytes + s.chunks[i])[after..] == ChunkTail(Limited(s, max, i))
    ensures Reading(sse, s, idle, max, stop, i + 1, bytes + s.chunks[i], after,
                    Left(idle, remaining, Advances(sse, s, i), s.wait(i)))
  {
    AllowanceTold(sse, s, idle, i);
    Absorbed(sse, s, idle, max, stop, i);
  }

  /** A chunk that is not absorbed decides the outcome. */
  lemma {:induction false} RefusedExplains(sse: bool, s: Stream, idle: Option<nat>, max: nat, stop: Bytes -> bool,
                                           i: nat, r: Outcome)
    requires Undecided(sse, s, idle, max, stop, i) && i < |s.chunks| && InTime(sse, s, idle, i)
    requires Refused(sse, s, max, stop, i, r)
    ensures IsOutcome(sse, s, idle, max, stop, r)
  {
    assert Explained(sse, s, idle, max, stop, i, r);
  }

  method Collect(sse: bool, s: Stream, idle: Option<nat>, max: nat, stop: Bytes -> bool) returns (r: Outcome)
    ensures IsOutcome(sse, s, idle, max, stop, r)
  {
    var bytes: Bytes := [];
    var progress := new SseProgress();
    var remaining := idle;
    var inspected: nat := 0;
    var i: nat := 0;
    ReadingStarts(sse, s, idle, max, stop, i);
    while true
      invariant i <= |s.chunks|
      invariant Reading(sse, s, idle, max, stop, i, bytes, inspected, remaining)
      invariant sse ==> progress.State() == StateAfter(FRESH, bytes)
      decreases |s.chunks| - i
    {
      var outcome := TakeEnding(sse, s, idle, max, stop, i, bytes, inspected, remaining);
      if outcome.Some? {
        return outcome.value;
      }
      outcome, bytes, inspected, remaining :=
        TakeChunk(sse, s, idle, max, stop, progress, i, bytes, inspected, remaining);
      if outcome.Some? {
        return outcome.value;
      }
      i := i + 1;
    }
  }

  lemma {:induction false} ReadingStarts(sse: bool, s: Stream, idle: Option<nat>, max: nat, stop: Bytes -> bool,
                                         i: nat)
    requires i == 0
    ensures Reading(sse, s, idle, max, stop, i, [], 0, idle)
  {
  }

  /** A wait that is too long and the end of the stream decide the outcome; otherwise a chunk has come in time. */
  method TakeEnding(sse: bool, s: Stream, idle: Option<nat>, max: nat, stop: Bytes -> bool, i: nat, bytes: Bytes,
                    ghost inspected: nat, remaining: Option<nat>)
    returns (outcome: Option<Outcome>)
    requires Reading(sse, s, idle, max, stop, i, bytes, inspected, remaining)
    ensures outcome.Some? ==> IsOutcome(sse, s, idle, max, stop, outcome.value)
    ensures outcome.None? ==> i < |s.chunks| && InTime(sse, s, idle, i)
  {
    WaitTold(sse, s, idle, max, stop, i, bytes, inspected, remaining);
    outcome := None;
    if remaining.Some? && s.wait(i) > remaining.value {
      outcome := Some(Failure(bytes, true));
    } else if i == |s.chunks| {
      outcome := Some(if s.ending.Closed? then Collected(bytes) else Failure(bytes, false));
    }
  }

  /** One chunk that has arrived in time: it is absorbed or decides the outcome. */
  method TakeChunk(sse: bool, s: Stream, idle: Option<nat>, max: nat, stop: Bytes -> bool, progress: SseProgress,
                   i: nat, bytes: Bytes, inspected: nat, remaining: Option<nat>)
    returns (outcome: Option<Outcome>, after: Bytes, inspectedAfter: nat, left: Option<nat>)
    requires Reading(sse, s, idle, max, stop, i, bytes, inspected, remaining) && i < |s.chunks|
      && InTime(sse, s, idle, i)
    requires sse ==> progress.State() == StateAfter(FRESH, bytes)
    modifies progress
    ensures outcome.Some? ==> IsOutcome(sse, s, idle, max, stop, outcome.value)
    ensures outcome.None? ==>
      && Reading(sse, s, idle, max, stop, i + 1, after, inspectedAfter, left)
      && (sse ==> progress.State() == StateAfter(FRESH, after))
  {
    var chunk := s.chunks[i];
    var count := Min(|chunk|, SaturatingSub(max, |bytes|));
    var retained := chunk[..count];
    var advanced := Refills(sse, progress, s, i, bytes, retained);
    left := Left(idle, remaining, advanced, s.wait(i));
    after, inspectedAfter, outcome := bytes + retained, inspected, None;
    if sse {
      var terminal: bool;
      inspectedAfter, terminal := NextEvents(s, i, max, bytes, retained, inspected, stop);
      if terminal {
        Terminates(s, max, stop, i, inspectedAfter);
        RefusedExplains(sse, s, idle, max, stop, i, Collected(after[..inspectedAfter]));
        outcome := Some(Collected(after[..inspectedAfter]));
        return;
      }
    }
    if count < |chunk| {
      Overflows(sse, s, max, stop, i);
      RefusedExplains(sse, s, idle, max, stop, i, Failure(after, false));
      outcome := Some(Failure(after, false));
      return;
    }
    ReadingNext(sse, s, idle, max, stop, i, bytes, inspected, remaining, inspectedAfter);
  }

  /** Whether the retained bytes refill the idle budget. */
  method Refills(sse: bool, progress: SseProgress, ghost s: Stream, ghost n: nat, ghost seen: Bytes, retained: Bytes)
    returns (advanced: bool)
    requires n < |s.chunks| && seen == Received(s, n)
    requires sse ==> progress.State() == StateAfter(FRESH, seen)
    modifies progress
    ensures sse ==> progress.State() == StateAfter(FRESH, seen + retained)
    ensures retained == s.chunks[n] ==> advanced == Advances(sse, s, n)
  {
    if sse {
      ObserveAppends(FRESH, seen, retained);
      advanced := progress.Observe(retained);
    } else {
      advanced := retained != [];
    }
  }

  /** Adds a chunk and looks for complete events, resuming at the last byte already scanned. */
  method NextEvents(ghost s: Stream, ghost n: nat, ghost max: nat, seen: Bytes, retained: Bytes, start: nat,
                    stop: Bytes -> bool)
    returns (inspected: nat, terminal: bool)
    requires n < |s.chunks| && seen == Received(s, n) && retained == Retained(s, max, n)
    requires StopLength(stop, ChunkEvents(s.chunks[..n])).None?
    requires start <= |seen| && seen[start..] == ChunkTail(s.chunks[..n])
    ensures inspected <= |seen + retained|
    ensures terminal == StopLength(stop, ChunkEvents(Limited(s, max, n))).Some?
    ensures terminal ==> inspected == StopLength(stop, ChunkEvents(Limited(s, max, n))).value
    ensures !terminal ==> (seen + retained)[inspected..] == ChunkTail(Limited(s, max, n))
  {
    var scanFrom := SaturatingSub(SaturatingSub(|seen|, start), 1);
    PendingMeans(s, n, max, seen, retained, start, stop);
    inspected, terminal := ScanEvents(seen + retained, start, scanFrom, stop);
  }

  /** What is scanned after a chunk has been added: the tail before it, and the chunk. */
  lemma {:induction false} PendingMeans(s: Stream, n: nat, max: nat, seen: Bytes, retained: Bytes, start: nat,
                                        stop: Bytes -> bool)
    requires n < |s.chunks| && seen == Received(s, n) && retained == Retained(s, max, n)
    requires StopLength(stop, ChunkEvents(s.chunks[..n])).None?
    requires start <= |seen| && seen[start..] == ChunkTail(s.chunks[..n])
    ensures var pending, kept := (seen + retained)[start..], Limited(s, max, n);
            && EventEnd(pending, SaturatingSub(|seen| - start, 1)) == FirstEnd(pending)
            && ChunkTail(kept) == Tail(pending)
            && StopLength(stop, ChunkEvents(kept)) == Shifted(start, StopLength(stop, Events(pending)))
  {
    var before, tail := s.chunks[..n], seen[start..];
    assert (seen + retained)[start..] == tail + retained;
    ChunkTailIncomplete(before);
    ResumedScan(tail, retained);
    LimitedUnfolds(s, max, n);
    StopLengthAppends(stop, ChunkEvents(before), Events(tail + retained));
    ChunkPartition(before);
    assert |Joined(ChunkEvents(before))| == start;
  }

  lemma {:induction false} ChunkTailIncomplete(chunks: seq<Bytes>)
    ensures FirstEnd(ChunkTail(chunks)).None?
  {
    if chunks != [] {
      TailIncomplete(ChunkTail(chunks[..|chunks| - 1]) + chunks[|chunks| - 1]);
    }
  }

  // ----- What this means for the caller

  lemma {:induction false} ReceivedGrows(s: Stream, n: nat, m: nat)
    requires n <= m <= |s.chunks|
    ensures Received(s, n) <= Received(s, m)
  {
    if n < m {
      ReceivedGrows(s, n, m - 1);
      assert s.chunks[..m][..m - 1] == s.chunks[..m - 1];
    }
  }

  lemma {:induction false} LimitedIsPrefix(s: Stream, max: nat, n: nat)
    requires n < |s.chunks| && |Received(s, n)| <= max
    ensures Flatten(Limited(s, max, n)) <= Flatten(s.chunks)
    ensures Flatten(Limited(s, max, n)) == Received(s, n + 1)[..Min(|Received(s, n + 1)|, max)]
  {
    LimitedUnfolds(s, max, n);
    ReceivedGrows(s, n + 1, |s.chunks|);
    assert s.chunks[..|s.chunks|] == s.chunks;
    var kept, next := Flatten(Limited(s, max, n)), Received(s, n + 1);
    assert kept == next[..|kept|];
    assert kept == Flatten(s.chunks)[..|kept|];
  }

  /** The reader never keeps anything but a prefix of the stream within its budget. */
  lemma {:induction false} KeepsPrefix(sse: bool, s: Stream, idle: Option<nat>, max: nat, stop: Bytes -> bool,
                                       at: nat, r: Outcome)
    requires Explained(sse, s, idle, max, stop, at, r)
    ensures r.bytes <= Flatten(s.chunks) && |r.bytes| <= max
  {
    ReceivedGrows(s, at, |s.chunks|);
    assert s.chunks[..|s.chunks|] == s.chunks;
    if at < |s.chunks| {
      LimitedIsPrefix(s, max, at);
    }
  }

  /** What is collected early ends with the first event that stops; nothing is lost or skipped before it. */
  lemma {:induction false} EarlyEndsWithStop(sse: bool, s: Stream, idle: Option<nat>, max: nat, stop: Bytes -> bool,
                                             at: nat, r: Outcome)
    returns (events: seq<Bytes>)
    requires Explained(sse, s, idle, max, stop, at, r) && r.Collected? && at < |s.chunks|
    ensures sse && events != [] && Joined(events) == r.bytes
    ensures forall j :: 0 <= j < |events| ==> (stop(events[j]) <==> j == |events| - 1)
  {
    var kept := Limited(s, max, at);
    var found := ChunkEvents(kept);
    var j := StopLengthMeans(stop, found);
    events := found[..j + 1];
    ChunkPartition(kept);
    JoinedAppends(events, found[j + 1..]);
    assert events + found[j + 1..] == found;
    FrontOf(Joined(events), Joined(found[j + 1..]), ChunkTail(kept), Flatten(kept));
  }

  lemma {:induction false} FrontOf(front: Bytes, middle: Bytes, tail: Bytes, all: Bytes)
    requires (front + middle) + tail == all
    ensures |front| <= |all| && all[..|front|] == front
  {
  }

  /** The first `n` chunks, cut to the byte limit. */
  function WithinChunks(s: Stream, max: nat, n: nat): seq<Bytes>
    requires n <= |s.chunks|
  {
    if |Received(s, n)| <= max then s.chunks[..n]
    else if n == 0 then []
    else if |Received(s, n - 1)| <= max then Limited(s, max, n - 1)
    else WithinChunks(s, max, n - 1)
  }

  /** Those chunks hold the first bytes, up to the limit. */
  lemma {:induction false} WithinChunksHold(s: Stream, max: nat, n: nat)
    requires n <= |s.chunks|
    ensures Flatten(WithinChunks(s, max, n)) == Received(s, n)[..Min(|Received(s, n)|, max)]
  {
    if |Received(s, n)| > max && n > 0 {
      ReceivedGrows(s, n - 1, n);
      if |Received(s, n - 1)| <= max {
        LimitedIsPrefix(s, max, n - 1);
      } else {
        WithinChunksHold(s, max, n - 1);
      }
    }
  }

  lemma {:induction false} ChunksBegin(s: Stream, k: nat, n: nat)
    requires k <= n <= |s.chunks|
    ensures s.chunks[..k] <= s.chunks[..n]
  {
  }

  /** They begin with every list of chunks that fits. */
  lemma {:induction false} WithinChunksFit(s: Stream, max: nat, k: nat, n: nat)
    requires k <= n <= |s.chunks| && |Received(s, k)| <= max
    ensures s.chunks[..k] <= WithinChunks(s, max, n)
  {
    if |Received(s, n)| <= max {
      ChunksBegin(s, k, n);
    } else if |Received(s, n - 1)| <= max {
      ChunksBegin(s, k, n - 1);
    } else {
      WithinChunksFit(s, max, k, n - 1);
    }
  }

  /** They end with the chunk that the limit cuts. */
  lemma {:induction false} WithinChunksCut(s: Stream, max: nat, at: nat, n: nat)
    requires at < n <= |s.chunks| && |Received(s, at)| <= max < |Received(s, at + 1)|
    ensures WithinChunks(s, max, n) == Limited(s, max, at)
  {
    ReceivedGrows(s, at + 1, n);
    if n > at + 1 {
      ReceivedGrows(s, at + 1, n - 1);
      WithinChunksCut(s, max, at, n - 1);
    }
  }

  lemma {:induction false} WithinChunksExtend(s: Stream, max: nat, at: nat, n: nat)
    requires at < n <= |s.chunks| && |Received(s, at)| <= max
    ensures Limited(s, max, at) <= WithinChunks(s, max, n)
    ensures |Received(s, at + 1)| > max ==> WithinChunks(s, max, n) == Limited(s, max, at)
  {
    if |Received(s, at + 1)| > max {
      WithinChunksCut(s, max, at, n);
    } else {
      WithinChunksFit(s, max, at + 1, n);
      LimitedUnfolds(s, max, at);
    }
  }

  lemma {:induction false} ChunkEventsGrow(chunks: seq<Bytes>, n: nat)
    requires n <= |chunks|
    ensures ChunkEvents(chunks[..n]) <= ChunkEvents(chunks)
    decreases |chunks|
  {
    if n == |chunks| {
      assert chunks[..n] == chunks;
    } else {
      var front := chunks[..|chunks| - 1];
      ChunkEventsGrow(front, n);
      assert front[..n] == chunks[..n];
    }
  }

  /** An event that stops is still there when more chunks have come. */
  lemma {:induction false} StopStays(stop: Bytes -> bool, a: seq<Bytes>, b: seq<Bytes>)
    requires a <= b && StopLength(stop, ChunkEvents(a)).Some?
    ensures StopLength(stop, ChunkEvents(b)).Some?
  {
    assert a == b[..|a|];
    ChunkEventsGrow(b, |a|);
    var j := StopLengthMeans(stop, ChunkEvents(a));
    var e := ChunkEvents(a)[j];
    assert ChunkEvents(b)[j] == e && e in ChunkEvents(b);
    var _ := StopLengthMeans(stop, ChunkEvents(b));
  }

  /** Of all arrivals the first `n` are in time, and either the next one is late or the stream ends. */
  ghost predicate Punctual(sse: bool, s: Stream, idle: Option<nat>, n: nat) {
    && n <= |s.chunks|
    && (forall k :: 0 <= k < n ==> InTime(sse, s, idle, k))
    && (n < |s.chunks| ==> !InTime(sse, s, idle, n))
  }

  /** The body is collected exactly if a terminal event lies within the limit and arrives in time, or the
      whole body does. */
  lemma {:induction false} CollectedIff(sse: bool, s: Stream, idle: Option<nat>, max: nat, stop: Bytes -> bool, at: nat,
                                        r: Outcome, n: nat)
    requires Explained(sse, s, idle, max, stop, at, r) && Punctual(sse, s, idle, n)
    ensures r.Collected? <==>
      || StopAt(sse, stop, WithinChunks(s, max, n)).Some?
      || (n == |s.chunks| && InTime(sse, s, idle, n) && s.ending.Closed? && |Received(s, n)| <= max)
  {
    if at < n {
      WithinChunksExtend(s, max, at, n);
      LimitedUnfolds(s, max, at);
      ReceivedGrows(s, at + 1, n);
      if r.Collected? {
        StopStays(stop, Limited(s, max, at), WithinChunks(s, max, n));
      }
    }
  }

  /** A failure tells a late arrival from the limit and a broken stream, and keeps all that arrived in time, up to
      the limit. */
  lemma {:induction false} FailureMeans(sse: bool, s: Stream, idle: Option<nat>, max: nat, stop: Bytes -> bool,
                                        at: nat, r: Outcome, n: nat)
    requires Explained(sse, s, idle, max, stop, at, r) && Punctual(sse, s, idle, n) && r.Failure?
    ensures r.timedOut ==> !InTime(sse, s, idle, n) && r.bytes == Received(s, n)
    ensures !r.timedOut && |Received(s, n)| <= max ==>
      n == |s.chunks| && InTime(sse, s, idle, n) && s.ending.Broken? && r.bytes == Received(s, n)
    ensures !r.timedOut && |Received(s, n)| > max ==> r.bytes == Received(s, n)[..max]
  {
    if at < n {
      ReceivedGrows(s, at + 1, n);
    }
  }

  /** If the test sees nothing in line feeds that come late, or none does, the chunks do not matter. */
  lemma {:induction false} CollectedByBytes(sse: bool, s: Stream, idle: Option<nat>, max: nat, stop: Bytes -> bool,
                                            at: nat, r: Outcome, n: nat)
    requires Explained(sse, s, idle, max, stop, at, r) && Punctual(sse, s, idle, n)
    requires Insensitive(stop) || !CutsSomewhere(WithinChunks(s, max, n))
    ensures r.Collected? <==>
      || (sse && Stops(stop, Events(Received(s, n)[..Min(|Received(s, n)|, max)])))
      || (n == |s.chunks| && InTime(sse, s, idle, n) && s.ending.Closed? && |Received(s, n)| <= max)
  {
    var within := WithinChunks(s, max, n);
    CollectedIff(sse, s, idle, max, stop, at, r, n);
    WithinChunksHold(s, max, n);
    StopIndependent(stop, within);
    var _ := StopLengthMeans(stop, ChunkEvents(within));
  }
}
