/** Publishing files by exclusive staging and rename (src-tauri/src/files.rs and
    crates/relay-core/src/catalog_io.rs), under any interleaving of writers and failures. */
module AtomicWrites {
  import opened Basics

  type Path = string
  type Byte = x: int | 0 <= x < 256
  type Bytes = seq<Byte>

  datatype Phase =
    | Starting
    | Writing(done: nat)     // owns its staging file, which holds the first `done` bytes
    | Synced                 // the staging file is complete
    | Failing                // something failed after creation; cleanup is next
    | Succeeded              // returned Ok
    | Failed(litter: bool)   // returned Err; `litter` if removing the staging file failed as well

  datatype Writer = Writer(target: Path, staging: Path, content: Bytes, phase: Phase)

  /** `published` lists the writers whose rename took effect, in order. */
  datatype World = World(files: map<Path, Bytes>, writers: seq<Writer>, published: seq<nat>)

  datatype Action =
    | Refuse        // creating the parent directory or opening the staging file fails
    | Create        // exclusive creation; fails if the path exists
    | Write(n: nat) // some more bytes reach the file
    | Sync
    | Break         // writing or syncing fails
    | Rename
    | RenameFails
    | Remove
    | RemoveFails

  datatype Event = Event(writer: nat, action: Action)

  function Lookup(files: map<Path, Bytes>, p: Path): Option<Bytes> {
    if p in files then Some(files[p]) else None
  }

  predicate Enabled(w: World, e: Event) {
    e.writer < |w.writers| &&
    var me := w.writers[e.writer];
    match e.action
    case Refuse => me.phase.Starting?
    case Create => me.phase.Starting?
    case Write(n) => me.phase.Writing? && me.phase.done + n <= |me.content|
    case Sync => me.phase.Writing? && me.phase.done == |me.content|
    case Break => me.phase.Writing?
    case Rename => me.phase.Synced? && me.staging in w.files
    case RenameFails => me.phase.Synced?
    case Remove => me.phase.Failing?
    case RemoveFails => me.phase.Failing?
  }

  function Enter(w: World, i: nat, phase: Phase): World
    requires i < |w.writers|
  {
    w.(writers := w.writers[i := w.writers[i].(phase := phase)])
  }

  function Step(w: World, e: Event): World {
    if !Enabled(w, e) then w else
    var me := w.writers[e.writer];
    match e.action
    case Refuse => Enter(w, e.writer, Failed(false))
    case Create =>
      if me.staging in w.files then Enter(w, e.writer, Failed(false))
      else Enter(w, e.writer, Writing(0)).(files := w.files[me.staging := []])
    case Write(n) =>
      var done := me.phase.done + n;
      Enter(w, e.writer, Writing(done)).(files := w.files[me.staging := me.content[..done]])
    case Sync => Enter(w, e.writer, Synced)
    case Break => Enter(w, e.writer, Failing)
    case Rename =>
      Enter(w, e.writer, Succeeded).(files := (w.files - {me.staging})[me.target := w.files[me.staging]],
                                     published := w.published + [e.writer])
    case RenameFails => Enter(w, e.writer, Failing)
    case Remove => Enter(w, e.writer, Failed(false)).(files := w.files - {me.staging})
    case RemoveFails => Enter(w, e.writer, Failed(true))
  }

  function Run(w: World, events: seq<Event>): World {
    if events == [] then w else Step(Run(w, events[..|events| - 1]), events[|events| - 1])
  }

  // ----- What holds in every reachable state

  predicate Owns(me: Writer) {
    me.phase.Writing? || me.phase.Synced? || me.phase.Failing?
  }

  /** Staging names are drawn at random; none is a destination. */
  ghost predicate Separated(ws: seq<Writer>) {
    forall i, j :: 0 <= i < |ws| && 0 <= j < |ws| ==> ws[i].staging != ws[j].target
  }

  /** At most one writer owns a staging path at a time. */
  ghost predicate Exclusive(ws: seq<Writer>) {
    forall i, j :: 0 <= i < j < |ws| && Owns(ws[i]) && Owns(ws[j]) ==> ws[i].staging != ws[j].staging
  }

  /** A staging file holds what its owner has written. */
  ghost predicate Staged(files: map<Path, Bytes>, me: Writer) {
    match me.phase
    case Writing(done) => done <= |me.content| && Lookup(files, me.staging) == Some(me.content[..done])
    case Synced => Lookup(files, me.staging) == Some(me.content)
    case Failing => me.staging in files
    case _ => true
  }

  /** The last writer in the list that published to `p`. */
  function LastPublisher(ws: seq<Writer>, published: seq<nat>, p: Path): Option<nat> {
    if published == [] then None else
    var i := published[|published| - 1];
    if i < |ws| && ws[i].target == p then Some(i) else LastPublisher(ws, published[..|published| - 1], p)
  }

  ghost predicate IsTarget(ws: seq<Writer>, p: Path) {
    exists i :: 0 <= i < |ws| && ws[i].target == p
  }

  /** Someone created `p` as a staging file and still has it, or failed to remove it. */
  ghost predicate Staging(ws: seq<Writer>, p: Path) {
    exists i :: 0 <= i < |ws| && ws[i].staging == p && (Owns(ws[i]) || ws[i].phase == Failed(true))
  }

  /** Every file is accounted for, given the initial files. */
  ghost predicate Accounted(initial: map<Path, Bytes>, w: World, p: Path) {
    if IsTarget(w.writers, p) then
      Lookup(w.files, p) ==
        match LastPublisher(w.writers, w.published, p)
        case Some(i) => if i < |w.writers| then Some(w.writers[i].content) else None
        case None => Lookup(initial, p)
    else if p in initial then Lookup(w.files, p) == Lookup(initial, p)
    else p in w.files ==> Staging(w.writers, p)
  }

  ghost predicate Inv(initial: map<Path, Bytes>, w: World) {
    && Separated(w.writers) && Exclusive(w.writers)
    && (forall i :: 0 <= i < |w.writers| ==> Staged(w.files, w.writers[i]))
    && (forall i :: 0 <= i < |w.writers| && Owns(w.writers[i]) ==> w.writers[i].staging !in initial)
    && (forall i :: 0 <= i < |w.writers| ==> (w.writers[i].phase.Succeeded? <==> i in w.published))
    && (forall i :: i in w.published ==> i < |w.writers|)
    && (forall p :: Accounted(initial, w, p))
  }

  ghost predicate Initial(w: World) {
    Separated(w.writers) && w.published == [] && forall i :: 0 <= i < |w.writers| ==> w.writers[i].phase.Starting?
  }

  // ----- Each step keeps it

  /** A step changes the phase of one writer and nothing else about writers. */
  ghost predicate SameWriter(a: Writer, b: Writer) {
    a.target == b.target && a.staging == b.staging && a.content == b.content
  }

  lemma {:induction false} WriterStep(w: World, e: Event, i: nat)
    requires i < |w.writers|
    ensures |Step(w, e).writers| == |w.writers| && SameWriter(w.writers[i], Step(w, e).writers[i])
    ensures i != e.writer ==> Step(w, e).writers[i] == w.writers[i]
  {
  }

  lemma {:induction false} SeparatedStep(w: World, e: Event)
    requires Separated(w.writers)
    ensures Separated(Step(w, e).writers)
  {
    forall i, j | 0 <= i < |Step(w, e).writers| && 0 <= j < |Step(w, e).writers|
      ensures Step(w, e).writers[i].staging != Step(w, e).writers[j].target
    {
      WriterStep(w, e, i);
      WriterStep(w, e, j);
    }
  }

  lemma {:induction false} ExclusiveStep(initial: map<Path, Bytes>, w: World, e: Event)
    requires Inv(initial, w)
    ensures Exclusive(Step(w, e).writers)
  {
    if Enabled(w, e) && e.action.Create? && w.writers[e.writer].staging !in w.files {
      forall j | 0 <= j < |w.writers| && Owns(w.writers[j])
        ensures w.writers[j].staging != w.writers[e.writer].staging
      {
        assert Staged(w.files, w.writers[j]);
      }
    }
  }

  lemma {:induction false} StagedStep(initial: map<Path, Bytes>, w: World, e: Event, i: nat)
    requires Inv(initial, w) && i < |w.writers|
    ensures |Step(w, e).writers| == |w.writers| && Staged(Step(w, e).files, Step(w, e).writers[i])
  {
    if Enabled(w, e) {
      assert Staged(w.files, w.writers[i]) && Staged(w.files, w.writers[e.writer]);
      assert w.writers[i].content[..|w.writers[i].content|] == w.writers[i].content;
      if i != e.writer && Owns(w.writers[i]) {
        assert w.writers[i].staging != w.writers[e.writer].target;
        if Owns(w.writers[e.writer]) {
          assert w.writers[i].staging != w.writers[e.writer].staging;
        }
      }
    }
  }

  lemma {:induction false} OwnershipStep(initial: map<Path, Bytes>, w: World, e: Event, i: nat)
    requires Inv(initial, w) && i < |w.writers|
    ensures |Step(w, e).writers| == |w.writers|
    ensures Owns(Step(w, e).writers[i]) ==> Step(w, e).writers[i].staging !in initial
    ensures Step(w, e).writers[i].phase.Succeeded? <==> i in Step(w, e).published
  {
    if Enabled(w, e) && e.action.Create? {
      var p := w.writers[e.writer].staging;
      assert Accounted(initial, w, p);
    }
  }

  lemma {:induction false} LastPublisherSame(ws: seq<Writer>, ws': seq<Writer>, published: seq<nat>, p: Path)
    requires |ws| == |ws'| && forall i :: 0 <= i < |ws| ==> SameWriter(ws[i], ws'[i])
    ensures LastPublisher(ws, published, p) == LastPublisher(ws', published, p)
  {
    if published != [] {
      LastPublisherSame(ws, ws', published[..|published| - 1], p);
    }
  }

  lemma {:induction false} SameTargets(w: World, e: Event, p: Path)
    ensures |Step(w, e).writers| == |w.writers|
    ensures forall i :: 0 <= i < |w.writers| ==> SameWriter(w.writers[i], Step(w, e).writers[i])
    ensures IsTarget(Step(w, e).writers, p) <==> IsTarget(w.writers, p)
    ensures LastPublisher(Step(w, e).writers, w.published, p) == LastPublisher(w.writers, w.published, p)
  {
    forall i | 0 <= i < |w.writers|
      ensures |Step(w, e).writers| == |w.writers| && SameWriter(w.writers[i], Step(w, e).writers[i])
    {
      WriterStep(w, e, i);
    }
    assert |Step(w, e).writers| == |w.writers|;
    LastPublisherSame(w.writers, Step(w, e).writers, w.published, p);
  }

  /** Only a rename changes a destination, and it installs the renamer's whole content. */
  lemma {:induction false} TargetStep(initial: map<Path, Bytes>, w: World, e: Event, p: Path)
    requires Inv(initial, w) && Enabled(w, e) && IsTarget(w.writers, p)
    ensures var me := w.writers[e.writer];
      Lookup(Step(w, e).files, p) == if e.action.Rename? && me.target == p then Some(me.content) else Lookup(w.files, p)
  {
    var i :| 0 <= i < |w.writers| && w.writers[i].target == p;
    assert w.writers[e.writer].staging != w.writers[i].target;
    assert Staged(w.files, w.writers[e.writer]);
  }

  lemma {:induction false} TargetAccounted(initial: map<Path, Bytes>, w: World, e: Event, p: Path)
    requires Inv(initial, w) && Enabled(w, e) && IsTarget(w.writers, p)
    ensures Accounted(initial, Step(w, e), p)
  {
    assert Accounted(initial, w, p);
    TargetStep(initial, w, e, p);
    SameTargets(w, e, p);
    var w' := Step(w, e);
    if e.action.Rename? {
      assert w'.published[..|w.published|] == w.published;
    }
  }

  lemma {:induction false} OtherAccounted(initial: map<Path, Bytes>, w: World, e: Event, p: Path)
    requires Inv(initial, w) && Enabled(w, e) && !IsTarget(w.writers, p)
    ensures Accounted(initial, Step(w, e), p)
  {
    var w' := Step(w, e);
    var me := w.writers[e.writer];
    SameTargets(w, e, p);
    assert Accounted(initial, w, p);
    assert me.target != p;
    if p !in initial && p in w'.files {
      if p == me.staging {
        assert w'.writers[e.writer].staging == p;
      } else {
        var i :| 0 <= i < |w.writers| && w.writers[i].staging == p
          && (Owns(w.writers[i]) || w.writers[i].phase == Failed(true));
        WriterStep(w, e, i);
        assert w'.writers[i] == w.writers[i];
      }
    }
  }

  lemma {:induction false} InvStep(initial: map<Path, Bytes>, w: World, e: Event)
    requires Inv(initial, w)
    ensures Inv(initial, Step(w, e))
  {
    if Enabled(w, e) {
      SeparatedStep(w, e);
      ExclusiveStep(initial, w, e);
      forall i | 0 <= i < |Step(w, e).writers|
        ensures Staged(Step(w, e).files, Step(w, e).writers[i])
        ensures Owns(Step(w, e).writers[i]) ==> Step(w, e).writers[i].staging !in initial
        ensures Step(w, e).writers[i].phase.Succeeded? <==> i in Step(w, e).published
      {
        StagedStep(initial, w, e, i);
        OwnershipStep(initial, w, e, i);
      }
      forall p ensures Accounted(initial, Step(w, e), p) {
        if IsTarget(w.writers, p) {
          TargetAccounted(initial, w, e, p);
        } else {
          OtherAccounted(initial, w, e, p);
        }
      }
    }
  }

  /** In every state of every run: a destination holds the whole content of the last writer that
      succeeded there, or what it held at first; foreign files are untouched; nothing else exists
      but staging files of writers at work or of writers whose cleanup failed. */
  lemma {:induction false} RunsAreAtomic(w: World, events: seq<Event>)
    requires Initial(w)
    ensures Inv(w.files, Run(w, events))
  {
    if events == [] {
    } else {
      RunsAreAtomic(w, events[..|events| - 1]);
      InvStep(w.files, Run(w, events[..|events| - 1]), events[|events| - 1]);
    }
  }

  /** A writer that returned an error has published nothing; one that returned success has. */
  lemma {:induction false} OutcomeMatchesEffect(w: World, events: seq<Event>, i: nat)
    requires Initial(w) && i < |w.writers|
    ensures var end := Run(w, events);
      && |end.writers| == |w.writers|
      && (end.writers[i].phase.Failed? ==> i !in end.published)
      && (end.writers[i].phase.Succeeded? ==> i in end.published)
      && SameWriter(w.writers[i], end.writers[i])
  {
    RunsAreAtomic(w, events);
    RunKeepsWriters(w, events, i);
  }

  lemma {:induction false} RunKeepsWriters(w: World, events: seq<Event>, i: nat)
    requires i < |w.writers|
    ensures |Run(w, events).writers| == |w.writers| && SameWriter(w.writers[i], Run(w, events).writers[i])
  {
    if events != [] {
      RunKeepsWriters(w, events[..|events| - 1], i);
      WriterStep(Run(w, events[..|events| - 1]), events[|events| - 1], i);
    }
  }

  /** The steps of a writer that meets no failure. */
  function Undisturbed(i: nat, length: nat): seq<Event> {
    [Event(i, Create), Event(i, Write(length)), Event(i, Sync), Event(i, Rename)]
  }

  lemma {:induction false} RunOneMore(w: World, events: seq<Event>, n: nat)
    requires n < |events|
    ensures Run(w, events[..n + 1]) == Step(Run(w, events[..n]), events[n])
  {
    assert events[..n + 1][..n] == events[..n];
  }

  /** A writer that meets no failure publishes its content and leaves no staging file; nothing else changes. */
  lemma {:induction false} UndisturbedSucceeds(w: World, i: nat)
    requires Initial(w) && i < |w.writers| && w.writers[i].staging !in w.files
    ensures var me, end := w.writers[i], Run(w, Undisturbed(i, |w.writers[i].content|));
      && |end.writers| == |w.writers| && end.writers[i].phase == Succeeded
      && end.files == w.files[me.target := me.content]
  {
    var me := w.writers[i];
    var events := Undisturbed(i, |me.content|);
    assert events[..0] == [] && events[..4] == events;
    RunOneMore(w, events, 0);
    var created := Run(w, events[..1]);
    assert created == Enter(w, i, Writing(0)).(files := w.files[me.staging := []]);
    RunOneMore(w, events, 1);
    var written := Run(w, events[..2]);
    assert me.content[..|me.content|] == me.content && written.files == w.files[me.staging := me.content];
    RunOneMore(w, events, 2);
    RunOneMore(w, events, 3);
    assert w.files[me.staging := me.content] - {me.staging} == w.files;
  }

  // ----- Comparing a file with the bytes to be written

  /** `existing_bytes_equal` over the non-empty chunks that the reader delivers until the end. */
  method ExistingBytesEqual(metadataLength: nat, chunks: seq<Bytes>, expected: Bytes, maxBytes: nat)
    returns (equal: bool)
    requires forall i :: 0 <= i < |chunks| ==> chunks[i] != []
    ensures equal <==> metadataLength == |expected| <= maxBytes && Flatten(chunks) == expected
  {
    if metadataLength != |expected| || metadataLength > maxBytes {
      return false;
    }
    var remaining, k := expected, 0;
    while k < |chunks|
      invariant k <= |chunks|
      invariant Flatten(chunks[k..]) == remaining <==> Flatten(chunks) == expected
    {
      var chunk := chunks[k];
      assert chunks[k..][0] == chunk && chunks[k..][1..] == chunks[k + 1..];
      FlattenFirst(chunks[k..]);
      if !(chunk <= remaining) {
        assert chunk + Flatten(chunks[k + 1..]) != remaining;
        return false;
      }
      assert remaining == chunk + remaining[|chunk|..];
      assert (chunk + Flatten(chunks[k + 1..]))[|chunk|..] == Flatten(chunks[k + 1..]);
      remaining := remaining[|chunk|..];
      k := k + 1;
    }
    return remaining == [];
  }
}
