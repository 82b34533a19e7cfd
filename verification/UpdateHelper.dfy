/** Replacing the program by its update and rolling back (src-tauri/src/portable_update/helper.rs),
    one file operation at a time, any of which can fail. */
module UpdateHelper {
  import opened Basics

  datatype Path = Path(directory: string, name: string)
  type Byte = x: int | 0 <= x < 256
  type Bytes = seq<Byte>
  type Files = map<Path, Bytes>

  function Lookup(files: Files, p: Path): Option<Bytes> {
    if p in files then Some(files[p]) else None
  }

  /** What `retry_io` is asked to repeat. */
  datatype Operation =
    | RemoveIfExists(path: Path)
    | Rename(from: Path, to: Path)
    | Copy(source: Path, target: Path)   // copy, reopen and sync

  function Touched(op: Operation): set<Path> {
    match op
    case RemoveIfExists(p) => {p}
    case Rename(from, to) => {from, to}
    case Copy(_, target) => {target}
  }

  ghost predicate SameExcept(a: Files, b: Files, paths: set<Path>) {
    forall p :: p !in paths ==> Lookup(a, p) == Lookup(b, p)
  }

  /** What a successful operation makes of the files; `None` if it cannot succeed. */
  function Effect(files: Files, op: Operation): Option<Files> {
    match op
    case RemoveIfExists(p) => Some(files - {p})
    case Rename(from, to) => if from in files then Some((files - {from})[to := files[from]]) else None
    case Copy(source, target) => if source in files then Some(files[target := files[source]]) else None
  }

  predicate SelfCopy(op: Operation) {
    op.Copy? && op.source == op.target
  }

  /** A failed copy does not change what the next one does. */
  lemma {:induction false} RetriedEffect(before: Files, now: Files, op: Operation)
    requires SameExcept(before, now, Touched(op)) && op.Copy? && !SelfCopy(op)
    ensures Effect(now, op) == Effect(before, op)
  {
    assert Lookup(now, op.source) == Lookup(before, op.source);
    if op.source in before {
      var a, b := before[op.target := before[op.source]], now[op.target := before[op.source]];
      forall p ensures Lookup(a, p) == Lookup(b, p) {
        assert p != op.target ==> Lookup(before, p) == Lookup(now, p);
      }
      assert forall p :: Lookup(a, p) == Lookup(b, p) ==> (p in a <==> p in b) && (p in a ==> a[p] == b[p]);
      assert a == b;
    }
  }

  /** What the started program does between two looks for its acknowledgement. */
  datatype ChildStep = Idle | Acknowledges | RemovesHelper | Exits

  datatype Exit = Exited | StillRunning | Unknown

  datatype Replacement =
    | Replaced
    | Refused     // an error; the old program is in place
    | Stranded    // an error, and rolling back failed: the old program is the backup

  datatype Waited = Acknowledged | GaveUp

  /** 20 seconds of attempts 150 ms apart, 120 seconds of looks 200 ms apart. */
  const MAX_ATTEMPTS: nat := 20_000 / 150 + 1
  const MAX_LOOKS: nat := 120_000 / 200 + 1

  function Backup(target: Path): Path {
    target.(name := target.name + ".bak")
  }

  const READY: Bytes := [114, 101, 97, 100, 121]

  /** The four names are those of different files, the check on helper and target left aside. */
  predicate Apart(helper: Path, target: Path, ack: Path) {
    && ack != target && ack != Backup(target)
    && helper != Backup(target) && ack != helper
  }

  predicate Eligible(helper: Path, target: Path, ack: Path, previous: Exit) {
    && previous == Exited
    && helper.directory == target.directory && helper.directory == ack.directory
    && helper.name != target.name
  }

  /** The program `original` is complete at one of the two places. */
  ghost predicate Kept(files: Files, target: Path, backup: Path, original: Bytes) {
    Lookup(files, target) == Some(original) || Lookup(files, backup) == Some(original)
  }

  class Updater {
    /** Whether the n-th operation fails. */
    const faults: nat -> bool
    /** Whether a deadline has passed at the n-th operation. */
    const late: nat -> bool
    /** What the started program does just before the n-th operation. */
    const child: nat -> ChildStep
    var clock: nat
    var files: Files
    /** Every state the files have passed through; a crash leaves one of these. */
    ghost var history: seq<Files>

    ghost predicate Valid()
      reads this
    {
      history != [] && history[|history| - 1] == files
    }

    /** The past is kept. */
    twostate predicate Continues()
      reads this
    {
      Valid() && old(clock) <= clock && old(history) <= history
    }

    constructor (faults: nat -> bool, late: nat -> bool, child: nat -> ChildStep, files: Files)
      ensures Valid()
      ensures this.faults == faults && this.late == late && this.child == child && this.files == files
      ensures clock == 0 && history == [files]
    {
      this.faults, this.late, this.child, this.files := faults, late, child, files;
      clock := 0;
      history := [files];
    }

    ghost predicate FaultFree(start: nat)
      reads this`clock
    {
      forall n: nat :: start <= n < clock ==> !faults(n)
    }

    /** How many of the operations from `start` on and before `end` fail. */
    ghost function Failures(start: nat, end: nat): nat {
      if end <= start then 0 else Failures(start, end - 1) + if faults(end - 1) then 1 else 0
    }

    lemma {:induction false} AtMostAll(start: nat, end: nat)
      requires start <= end
      ensures Failures(start, end) <= end - start
      decreases end
    {
      if start < end {
        AtMostAll(start, end - 1);
      }
    }

    lemma {:induction false} AllFailed(start: nat, end: nat)
      requires start <= end && Failures(start, end) >= end - start
      ensures forall n :: start <= n < end ==> faults(n)
      decreases end
    {
      if start < end {
        AtMostAll(start, end - 1);
        AllFailed(start, end - 1);
      }
    }

    lemma {:induction false} OneMoreFailure(start: nat, middle: nat, end: nat, n: nat)
      requires start <= middle < end && faults(end - 1) && Failures(start, middle) + 1 >= n
      ensures Failures(start, end) >= n
      decreases end
    {
      FailuresGrow(start, middle, end - 1);
    }

    lemma {:induction false} FailuresGrow(start: nat, middle: nat, end: nat)
      requires start <= middle <= end
      ensures Failures(start, end) >= Failures(start, middle)
      decreases end
    {
      if middle < end {
        FailuresGrow(start, middle, end - 1);
      }
    }

    /** The operations from `begun` on and before `ended` ended in a failure, after the deadline or after so many
        failures as attempts are allowed. */
    ghost predicate InVain(begun: nat, ended: nat) {
      begun < ended && faults(ended - 1) && (late(ended) || Failures(begun, ended) >= MAX_ATTEMPTS)
    }

    /** Since `start` something has been tried in vain until the deadline or as often as allowed. */
    ghost predicate Persisted(start: nat)
      reads this`clock
    {
      exists begun: nat, ended: nat :: start <= begun && ended <= clock && InVain(begun, ended)
    }

    /** From `start` on, the started program does not acknowledge. */
    ghost predicate NeverAcknowledges(start: nat) {
      forall n: nat :: start <= n ==> child(n) != Acknowledges
    }

    /** From `start` on, the started program acknowledges whenever it acts. */
    ghost predicate AlwaysAcknowledges(start: nat) {
      forall n: nat :: start <= n ==> child(n) == Acknowledges
    }

    method Tick() returns (ok: bool)
      modifies this`clock
      ensures clock == old(clock) + 1 && ok == !faults(old(clock))
    {
      ok := !faults(clock);
      clock := clock + 1;
    }

    method Become(next: Files)
      modifies this`files, this`history
      ensures Valid() && files == next && history == old(history) + [next]
    {
      files := next;
      history := history + [next];
    }

    /** Copies byte by byte, so that a failure leaves a truncated target; then syncs. */
    method CopyFile(source: Path, target: Path) returns (ok: bool)
      requires Valid()
      modifies this
      ensures Continues() && clock > old(clock)
      ensures forall k :: |old(history)| <= k < |history| ==> SameExcept(old(files), history[k], {target})
      ensures SameExcept(old(files), files, {target})
      ensures ok ==> Effect(old(files), Copy(source, target)) == Some(files)
      ensures source !in old(files) ==> !ok && files == old(files)
      ensures !ok ==> faults(clock - 1) || source !in old(files)
    {
      var found := Tick();
      if !found || source !in files {
        return false;
      }
      var content := files[source];
      var created := Tick();
      if !created {
        return false;
      }
      Become(files[target := []]);
      for n := 0 to |content|
        invariant Continues() && clock > old(clock)
        invariant files == old(files)[target := content[..n]]
        invariant forall k :: |old(history)| <= k < |history| ==> SameExcept(old(files), history[k], {target})
      {
        var written := Tick();
        if !written {
          return false;
        }
        Become(files[target := content[..n + 1]]);
      }
      assert content[..|content|] == content;
      ok := Tick();
    }

    /** Time passes, and only the files that the operation is about change; in one step, unless it copies. */
    twostate predicate Works(op: Operation)
      reads this
    {
      && Continues() && clock > old(clock)
      && (forall k :: |old(history)| <= k < |history| ==>
            && SameExcept(old(files), history[k], Touched(op))
            && (!op.Copy? ==> Some(history[k]) == Effect(old(files), op)))
      && SameExcept(old(files), files, Touched(op))
    }

    method Attempt(op: Operation) returns (ok: bool)
      requires Valid()
      modifies this
      ensures Works(op)
      ensures ok ==> Effect(old(files), op) == Some(files)
      ensures (!ok && !op.Copy?) || Effect(old(files), op).None? ==> files == old(files)
      ensures !ok ==> faults(clock - 1) || Effect(old(files), op).None?
      ensures !op.Copy? ==> clock == old(clock) + 1
    {
      match op
      case Copy(source, target) =>
        ok := CopyFile(source, target);
      case _ =>
        ok := Tick();
        var next := Effect(files, op);
        ok := ok && next.Some?;
        if ok {
          Become(next.value);
        }
    }

    /** Repeats a failing operation until the deadline: it gives up only after that, or after all attempts. */
    method Retry(op: Operation) returns (ok: bool)
      requires Valid()
      modifies this
      ensures Works(op)
      ensures ok && !SelfCopy(op) ==> Effect(old(files), op) == Some(files)
      ensures (!ok && !op.Copy?) || Effect(old(files), op).None? ==> files == old(files)
      ensures Effect(old(files), op).None? ==> !ok
      ensures !ok && !SelfCopy(op) && Effect(old(files), op).Some? ==> InVain(old(clock), clock)
      ensures !ok && !op.Copy? && Effect(old(files), op).Some? ==> forall n :: old(clock) <= n < clock ==> faults(n)
    {
      ghost var feasible := !SelfCopy(op) && Effect(old(files), op).Some?;
      ok := Attempt(op);
      var attempts := 1;
      while !ok && attempts < MAX_ATTEMPTS && !late(clock)
        invariant Works(op)
        invariant ok && !SelfCopy(op) ==> Effect(old(files), op) == Some(files)
        invariant (!ok && !op.Copy?) || Effect(old(files), op).None? ==> files == old(files)
        invariant Effect(old(files), op).None? ==> !ok
        invariant !ok && feasible ==> faults(clock - 1) && Failures(old(clock), clock) >= attempts
        invariant !op.Copy? ==> clock - old(clock) == attempts
        decreases MAX_ATTEMPTS - attempts
      {
        if op.Copy? && !SelfCopy(op) {
          RetriedEffect(old(files), files, op);
        }
        assert feasible ==> Effect(files, op) == Effect(old(files), op);
        ghost var begun := clock;
        ok := Attempt(op);
        assert !ok && feasible ==> faults(clock - 1);
        attempts := attempts + 1;
        if !ok && feasible {
          OneMoreFailure(old(clock), begun, clock, attempts);
        }
      }
      if Failures(old(clock), clock) >= clock - old(clock) {
        AllFailed(old(clock), clock);
      }
    }

    /** Puts the backup back in place of whatever the target holds. */
    method RollbackExecutable(target: Path, backup: Path) returns (ok: bool)
      requires Valid()
      requires target != backup
      modifies this
      ensures Continues() && clock > old(clock)
      ensures forall k :: |old(history)| <= k < |history| ==> SameExcept(old(files), history[k], {target, backup})
      ensures SameExcept(old(files), files, {target, backup})
      ensures backup in old(files) ==>
        && (forall k :: |old(history)| <= k < |history| ==> Kept(history[k], target, backup, old(files)[backup]))
        && Lookup(files, if ok then target else backup) == Some(old(files)[backup])
      ensures ok ==> backup in old(files) && backup !in files
      ensures !ok ==> Persisted(old(clock)) || backup !in old(files)
    {
      ok := Retry(RemoveIfExists(target));
      if ok {
        ok := Retry(Rename(backup, target));
      }
    }

    method ReplaceExecutable(source: Path, target: Path, backup: Path) returns (r: Replacement)
      requires Valid()
      requires target != backup
      modifies this
      ensures Continues() && clock > old(clock)
      ensures forall k :: |old(history)| <= k < |history| ==> SameExcept(old(files), history[k], {target, backup})
      ensures SameExcept(old(files), files, {target, backup})
      ensures target in old(files) ==>
        && (forall k :: |old(history)| <= k < |history| ==> Kept(history[k], target, backup, old(files)[target]))
        && Lookup(files, if r.Refused? then target else backup) == Some(old(files)[target])
      ensures r.Replaced? ==> target in old(files) && source != target
      ensures r.Replaced? && source != backup ==>
        source in old(files) && Lookup(files, target) == Some(old(files)[source])
      ensures r.Stranded? ==> Persisted(old(clock))
      ensures !r.Replaced? ==>
        Persisted(old(clock)) || target !in old(files) || source !in old(files) || source == target
    {
      var cleared := Retry(RemoveIfExists(backup));
      if !cleared {
        return Refused;
      }
      var moved := Retry(Rename(target, backup));
      if !moved {
        return Refused;
      }
      ghost var before := files;
      var copied := Retry(Copy(source, target));
      assert Lookup(files, backup) == Lookup(before, backup);
      if !copied {
        var restored := RollbackExecutable(target, backup);
        return if restored then Refused else Stranded;
      }
      return Replaced;
    }

    /** One step of the started program. */
    method ChildActs(step: ChildStep, ack: Path, helper: Path)
      requires Valid()
      modifies this`files, this`history
      ensures Continues()
      ensures forall k :: |old(history)| <= k < |history| ==> SameExcept(old(files), history[k], {ack, helper})
      ensures SameExcept(old(files), files, {ack, helper})
      ensures ack in files ==> ack in old(files) || step == Acknowledges
      ensures ack != helper && (ack in old(files) || step == Acknowledges) ==> ack in files
    {
      if step == Acknowledges {
        Become(files[ack := READY]);
      } else if step == RemovesHelper {
        Become(files - {helper});
      }
    }

    /** Looks for the acknowledgement until it is there, the program has ended or time is up. */
    method WaitForAck(ack: Path, helper: Path) returns (r: Waited)
      requires Valid()
      modifies this
      ensures Continues() && clock > old(clock)
      ensures forall k :: |old(history)| <= k < |history| ==> SameExcept(old(files), history[k], {ack, helper})
      ensures SameExcept(old(files), files, {ack, helper})
      ensures r.Acknowledged? ==> ack in files
      ensures NeverAcknowledges(old(clock)) && ack !in old(files) ==> r.GaveUp?
      ensures r.GaveUp? ==> child(clock - 1) == Exits || late(clock) || clock - old(clock) > MAX_LOOKS
      ensures r.GaveUp? && ack != helper ==>
        && (ack in old(files) ==> forall u :: old(clock) <= u < clock ==> faults(u))
        && forall n, u :: old(clock) <= n <= u < clock && child(n) == Acknowledges ==> faults(u)
    {
      var looks := 0;
      while true
        invariant Continues()
        invariant forall k :: |old(history)| <= k < |history| ==> SameExcept(old(files), history[k], {ack, helper})
        invariant SameExcept(old(files), files, {ack, helper})
        invariant NeverAcknowledges(old(clock)) && ack !in old(files) ==> ack !in files
        invariant ack != helper && ack in old(files) ==>
          ack in files && forall u :: old(clock) <= u < clock ==> faults(u)
        invariant ack != helper ==> forall n :: old(clock) <= n < clock && child(n) == Acknowledges ==>
          ack in files && forall u :: n <= u < clock ==> faults(u)
        invariant looks == clock - old(clock) <= MAX_LOOKS
        decreases MAX_LOOKS - looks
      {
        var step := child(clock);
        ChildActs(step, ack, helper);
        var visible := Tick();
        if visible && ack in files {
          return Acknowledged;
        }
        if step == Exits || late(clock) || looks == MAX_LOOKS {
          return GaveUp;
        }
        looks := looks + 1;
      }
    }

    /** Every path the run may write. */
    ghost function Scope(helper: Path, target: Path, ack: Path): set<Path> {
      {helper, target, ack, Backup(target)}
    }

    /** Removes what an accepted update leaves, if it can. */
    method CleanUp(ack: Path, backup: Path)
      requires Valid()
      modifies this
      ensures Continues() && clock > old(clock)
      ensures forall k :: |old(history)| <= k < |history| ==> SameExcept(old(files), history[k], {ack, backup})
      ensures SameExcept(old(files), files, {ack, backup})
      ensures FaultFree(old(clock)) ==> ack !in files && backup !in files
    {
      var _ := Attempt(RemoveIfExists(ack));
      var _ := Attempt(RemoveIfExists(backup));
    }

    /** Starts the replaced program and keeps it if it acknowledges in time.
        `seen` is the length of the history when the acknowledgement was seen. */
    method StartReplaced(helper: Path, target: Path, ack: Path) returns (ok: bool, ghost seen: Option<nat>)
      requires Valid()
      requires Apart(helper, target, ack) && helper != target
      requires Backup(target) in files
      modifies this
      ensures Continues() && clock > old(clock)
      ensures seen.Some? ==> |old(history)| <= seen.value <= |history| && ack in history[seen.value - 1]
      ensures NeverAcknowledges(old(clock)) && ack !in old(files) ==> seen.None?
      ensures forall k :: |old(history)| <= k < |history| ==>
        SameExcept(old(files), history[k], Scope(helper, target, ack))
      ensures forall k :: |old(history)| <= k < (if seen.Some? then seen.value else |history|) ==>
        Kept(history[k], target, Backup(target), old(files)[Backup(target)])
      ensures seen.None? ==> (ok <==> !faults(old(clock)) && Backup(target) !in files)
      ensures seen.None? ==>
        || Lookup(files, target) == Some(old(files)[Backup(target)])
        || (!ok && Persisted(old(clock)) && Lookup(files, Backup(target)) == Some(old(files)[Backup(target)]))
      ensures seen.Some? ==> ok && Lookup(files, target) == Lookup(old(files), target)
      ensures AlwaysAcknowledges(old(clock)) && FaultFree(old(clock)) ==> seen.Some?
      ensures seen.Some? && FaultFree(old(clock)) ==> ack !in files && Backup(target) !in files
    {
      seen := None;
      var backup := Backup(target);
      var spawned := Tick();
      if !spawned {
        var _ := RollbackExecutable(target, backup);
        return false, seen;
      }
      var waited := WaitForAck(ack, helper);
      ghost var last := clock - 1;
      assert waited.GaveUp? && child(last) == Acknowledges ==> faults(last);
      assert Lookup(files, target) == Lookup(old(files), target) && Lookup(files, backup) == Lookup(old(files), backup);
      if waited.Acknowledged? {
        seen := Some(|history|);
        CleanUp(ack, backup);
        return true, seen;
      }
      var _ := Attempt(RemoveIfExists(ack));
      ok := RollbackExecutable(target, backup);
    }

    /** The whole run of the helper. */
    method RunHelper(helper: Path, target: Path, ack: Path, previous: Exit) returns (ok: bool, ghost seen: Option<nat>)
      requires Valid()
      requires Apart(helper, target, ack)
      modifies this
      ensures Continues()
      ensures seen.Some? ==> |old(history)| <= seen.value <= |history| && ack in history[seen.value - 1]
      ensures NeverAcknowledges(old(clock)) && ack !in old(files) ==> seen.None?
      ensures forall k :: |old(history)| <= k < |history| ==>
        SameExcept(old(files), history[k], Scope(helper, target, ack))
      ensures target in old(files) ==>
        forall k :: |old(history)| <= k < (if seen.Some? then seen.value else |history|) ==>
          Kept(history[k], target, Backup(target), old(files)[target])
      ensures target in old(files) && seen.None? ==>
        || Lookup(files, target) == Some(old(files)[target])
        || (!ok && Persisted(old(clock)) && Lookup(files, Backup(target)) == Some(old(files)[target]))
      ensures seen.Some? ==> ok && helper in old(files) && Lookup(files, target) == Some(old(files)[helper])
      ensures AlwaysAcknowledges(old(clock)) && FaultFree(old(clock)) && target in old(files) && helper in old(files)
              && Eligible(helper, target, ack, previous) ==>
        seen.Some?
      ensures seen.Some? && FaultFree(old(clock)) ==> ack !in files && Backup(target) !in files
      ensures ok ==> Eligible(helper, target, ack, previous) && target in old(files)
    {
      seen := None;
      var located := Tick();
      if !located || previous != Exited {
        return false, seen;
      }
      var resolved := Tick();
      if !resolved || !Eligible(helper, target, ack, previous) {
        return false, seen;
      }
      var replaced := ReplaceExecutable(helper, target, Backup(target));
      if !replaced.Replaced? {
        return false, seen;
      }
      assert Lookup(files, ack) == Lookup(old(files), ack);
      ok, seen := StartReplaced(helper, target, ack);
    }
  }

  /** The helper removes no path by accident: a program named with an extension and the
      names that the update derives from it are different files. */
  lemma {:induction false} UpdatePathsApart(directory: string, stem: string, process: string)
    ensures var target := Path(directory, stem + ".exe");
            var helper := Path(directory, stem + ".update.exe");
            var ack := Path(directory, ".zenith-relay-update-" + process + ".ack");
            Apart(helper, target, ack) && Eligible(helper, target, ack, Exited)
  {
    var ack := ".zenith-relay-update-" + process + ".ack";
    var helper := stem + ".update.exe";
    var backup := stem + ".exe" + ".bak";
    assert ack[|ack| - 1] == 'k' && ack[|ack| - 4] == '.';
    assert backup[|backup| - 1] == 'k' && backup[|backup| - 3] == 'b' && backup[|backup| - 4] == '.';
    assert ack[|ack| - 3] == 'a';
    assert helper[|helper| - 1] == 'e';
  }
}
