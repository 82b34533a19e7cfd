/** The secret store as the code runs it: one keyring operation at a time, any of which can
    fail without effect (src-tauri/src/key_storage.rs). */
module KeyringProtocol {
  import opened Basics
  import opened Text
  import opened SecretChunks
  import opened KeyStorage

  /** What the program asks of the keyring. */
  datatype Call =
    | Read(service: string, user: string)
    | Write(service: string, user: string, value: string)
    | Erase(service: string, user: string)

  /** The call that puts an entry back as it was. */
  function RestoreCall(service: string, user: string, previous: Option<string>): Call {
    match previous
    case Some(value) => Write(service, user, value)
    case None => Erase(service, user)
  }

  class Keyring {
    const codec: Codec
    /** Whether the n-th keyring operation fails. */
    const faults: nat -> bool
    var clock: nat
    var entries: Store
    /** The operations asked for so far, failed ones included. */
    ghost var calls: seq<Call>
    /** Every state the keyring has passed through; stopping the program leaves one of these. */
    ghost var history: seq<Store>

    ghost predicate Valid()
      reads this
    {
      |calls| == clock && history != [] && history[|history| - 1] == entries
    }

    constructor (codec: Codec, faults: nat -> bool, entries: Store)
      ensures Valid()
      ensures this.codec == codec && this.faults == faults && this.entries == entries
      ensures clock == 0 && history == [entries]
    {
      this.codec := codec;
      this.faults := faults;
      this.entries := entries;
      clock := 0;
      calls := [];
      history := [entries];
    }

    /** The past is kept. */
    twostate predicate Continues()
      reads this
    {
      Valid() && old(clock) <= clock && old(calls) <= calls && old(history) <= history
    }

    /** No operation since `start` has failed. */
    ghost predicate FaultFree(start: nat)
      reads this`clock
    {
      forall n: nat :: start <= n < clock ==> !faults(n)
    }

    /** Since `start` the program has tried to put the entry back, and the keyring refused. */
    ghost predicate RestoreFailed(start: nat, service: string, user: string, previous: Option<string>)
      reads this`calls
    {
      exists n: nat :: start <= n < |calls| && calls[n] == RestoreCall(service, user, previous) && faults(n)
    }

    /** Since `start` no deletion of a fragment has failed. */
    ghost predicate FragmentsErased(start: nat, user: string)
      reads this`calls
    {
      forall n: nat :: start <= n < |calls| && calls[n].Erase? && calls[n].user != user ==> !faults(n)
    }

    /** How many of the operations from `start` on and before `end` fail. */
    ghost function Failures(start: nat, end: nat): nat
    {
      if end <= start then 0 else Failures(start, end - 1) + if faults(end - 1) then 1 else 0
    }

    lemma {:induction false} FailuresAdd(start: nat, middle: nat, end: nat)
      requires start <= middle <= end
      ensures Failures(start, end) == Failures(start, middle) + Failures(middle, end)
      decreases end
    {
      if middle < end {
        FailuresAdd(start, middle, end - 1);
      }
    }

    lemma {:induction false} NoFailures(start: nat, end: nat)
      requires forall n: nat :: start <= n < end ==> !faults(n)
      ensures Failures(start, end) == 0
      decreases end
    {
      if start < end {
        NoFailures(start, end - 1);
      }
    }

    lemma {:induction false} FailureCounts(start: nat, n: nat, end: nat)
      requires start <= n < end && faults(n)
      ensures Failures(start, end) >= 1
      decreases end
    {
      if n < end - 1 {
        FailureCounts(start, n, end - 1);
      }
    }

    /** Since `start` neither reading nor deleting the entry itself has been refused. */
    ghost predicate EntryServed(start: nat, service: string, user: string)
      reads this`calls
    {
      forall n: nat :: start <= n < |calls| && calls[n] in {Read(service, user), Erase(service, user)} ==> !faults(n)
    }

    /** Since `start` only entries of other names, such as fragments, have been asked for. */
    ghost predicate Spares(start: nat, user: string)
      reads this`calls
    {
      forall n: nat :: start <= n < |calls| ==> calls[n].user != user
    }

    // ----- Keyring operations

    method SetPassword(service: string, user: string, value: string) returns (ok: bool)
      requires Valid()
      modifies this`clock, this`entries, this`calls, this`history
      ensures Valid() && ok == !faults(old(clock)) && calls == old(calls) + [Write(service, user, value)]
      ensures entries == if ok then old(entries)[(service, user) := value] else old(entries)
      ensures history == old(history) + [entries]
    {
      ok := !faults(clock);
      clock := clock + 1;
      calls := calls + [Write(service, user, value)];
      if ok {
        entries := entries[(service, user) := value];
      }
      history := history + [entries];
    }

    method DeleteEntry(service: string, user: string) returns (ok: bool)
      requires Valid()
      modifies this`clock, this`entries, this`calls, this`history
      ensures Valid() && ok == !faults(old(clock)) && calls == old(calls) + [Erase(service, user)]
      ensures entries == if ok then old(entries) - {(service, user)} else old(entries)
      ensures history == old(history) + [entries]
    {
      ok := !faults(clock);
      clock := clock + 1;
      calls := calls + [Erase(service, user)];
      if ok {
        entries := entries - {(service, user)};
      }
      history := history + [entries];
    }

    method LoadRaw(service: string, user: string) returns (r: Result<Option<string>>)
      requires Valid()
      modifies this`clock, this`calls
      ensures Valid() && calls == old(calls) + [Read(service, user)]
      ensures r == if faults(old(clock)) then Err(StoreFailure) else Ok(Lookup(entries, (service, user)))
    {
      if faults(clock) {
        r := Err(StoreFailure);
      } else {
        r := Ok(Lookup(entries, (service, user)));
      }
      clock := clock + 1;
      calls := calls + [Read(service, user)];
    }

    // ----- Reading

    /** Since `start` the keyring has only been read. */
    ghost predicate OnlyReads(start: nat)
      reads this`calls
    {
      forall n: nat :: start <= n < |calls| ==> calls[n].Read?
    }

    method LoadSecret(service: string, user: string) returns (r: Result<Option<string>>)
      requires Valid()
      modifies this`clock, this`calls
      ensures Continues() && OnlyReads(old(clock))
      ensures || r == Load(codec, entries, service, user)
              || (r == Err(StoreFailure) && !FaultFree(old(clock)))
    {
      var raw := LoadRaw(service, user);
      if raw.Err? {
        return Err(StoreFailure);
      }
      if raw.value.None? {
        return Ok(None);
      }
      var stored := raw.value.value;
      if !(MANIFEST_PREFIX <= stored) {
        var text := Trim(stored);
        return Ok(if text == "" then None else Some(text));
      }
      var decoded := Decode(codec, stored);
      if decoded.None? {
        return Err(InvalidManifest);
      }
      var m := decoded.value;
      var reassembled := "";
      for index := 0 to m.count
        invariant Continues() && OnlyReads(old(clock))
        invariant Reassemble(entries, service, user, m.generation, index) == Ok(reassembled)
      {
        var chunk := LoadRaw(service, ChunkUser(user, m.generation, index));
        if chunk.Err? {
          return Err(StoreFailure);
        }
        if chunk.value.None? {
          ReassembleStopsAtGap(entries, service, user, m.generation, index + 1, m.count);
          return Err(MissingFragment);
        }
        reassembled := reassembled + chunk.value.value;
      }
      if codec.hash(reassembled) != m.sha256 {
        return Err(ChecksumMismatch);
      }
      return Ok(Some(reassembled));
    }

    method VerifySavedSecret(service: string, user: string, expected: string) returns (r: Outcome)
      requires Valid()
      modifies this`clock, this`calls
      ensures Continues() && OnlyReads(old(clock))
      ensures r.Done? ==> Load(codec, entries, service, user) == Ok(Some(expected))
      ensures r.Failed? ==>
        Load(codec, entries, service, user) != Ok(Some(expected)) || Failures(old(clock), clock) >= 3
      ensures FaultFree(old(clock)) && Load(codec, entries, service, user) == Ok(Some(expected)) ==> r.Done?
    {
      r := Failed(NotVerified);
      for attempt := 0 to READBACK_ATTEMPTS
        invariant Continues() && OnlyReads(old(clock)) && r.Failed?
        invariant Load(codec, entries, service, user) == Ok(Some(expected)) ==>
          Failures(old(clock), clock) >= attempt
      {
        ghost var begun := clock;
        var loaded := LoadSecret(service, user);
        if loaded == Ok(Some(expected)) {
          return Done;
        }
        if Load(codec, entries, service, user) == Ok(Some(expected)) {
          ghost var n: nat :| begun <= n < clock && faults(n);
          FailureCounts(begun, n, clock);
          FailuresAdd(old(clock), begun, clock);
        }
        r := Failed(if loaded.Ok? then NotVerified else loaded.error);
      }
      if FaultFree(old(clock)) {
        NoFailures(old(clock), clock);
      }
    }

    // ----- Chunk housekeeping

    /** Deletes the fragments that the manifest names; a failure does not stop it and is reported. */
    method DeleteManifestChunks(service: string, user: string, m: Manifest) returns (r: Outcome)
      requires Valid()
      modifies this`clock, this`entries, this`calls, this`history
      ensures Continues() && Spares(old(clock), user)
      ensures forall k :: |old(history)| - 1 <= k < |history| ==>
        SameOutside(old(entries), history[k], service, user, m.generation) && history[k].Items <= old(entries).Items
      ensures r.Done? ==> entries == DropChunks(old(entries), service, user, Some(m))
      ensures r.Done? <==> FragmentsErased(old(clock), user)
      ensures r.Failed? ==> !FaultFree(old(clock))
    {
      r := Done;
      for index := 0 to m.count
        invariant Continues() && Spares(old(clock), user)
        invariant forall k :: |old(history)| - 1 <= k < |history| ==>
          SameOutside(old(entries), history[k], service, user, m.generation) && history[k].Items <= old(entries).Items
        invariant r.Done? ==> entries == old(entries) - ChunkKeys(service, user, m.(count := index))
        invariant r.Done? <==> FragmentsErased(old(clock), user)
        invariant r.Failed? ==> !FaultFree(old(clock))
      {
        assert IsChunkOf(ChunkKey(service, user, m.generation, index), service, user, m.generation);
        ChunkUserLonger(user, m.generation, index);
        var ok := DeleteEntry(service, ChunkUser(user, m.generation, index));
        assert calls[|calls| - 1] == Erase(service, ChunkUser(user, m.generation, index));
        if !ok && r.Done? {
          r := Failed(StoreFailure);
        }
        assert ChunkKeys(service, user, m.(count := index + 1))
            == ChunkKeys(service, user, m.(count := index)) + {ChunkKey(service, user, m.generation, index)};
      }
    }

    /** Writes every chunk, or removes the ones already written and reports failure. */
    method WriteChunks(service: string, user: string, generation: string, chunks: seq<string>) returns (ok: bool)
      requires Valid() && ValidGeneration(generation)
      modifies this`clock, this`entries, this`calls, this`history
      ensures Continues() && Spares(old(clock), user)
      ensures forall k :: |old(history)| - 1 <= k < |history| ==>
        SameOutside(old(entries), history[k], service, user, generation)
      ensures ok ==> entries == PutChunks(old(entries), service, user, generation, chunks)
      ensures !ok ==> !FaultFree(old(clock))
      ensures !ok && FragmentsErased(old(clock), user) && NoFragments(old(entries), service, user, generation) ==>
        entries == old(entries)
    {
      var written: seq<string> := [];
      for index := 0 to |chunks|
        invariant Continues() && Spares(old(clock), user)
        invariant forall k :: |old(history)| - 1 <= k < |history| ==>
          SameOutside(old(entries), history[k], service, user, generation)
        invariant entries == PutChunks(old(entries), service, user, generation, chunks[..index])
        invariant |written| == index && forall i :: 0 <= i < index ==> written[i] == ChunkUser(user, generation, i)
      {
        PutNext(old(entries), service, user, generation, chunks, index);
        ChunkUserLonger(user, generation, index);
        var stored := SetPassword(service, ChunkUser(user, generation, index), chunks[index]);
        if !stored {
          UndoPut(old(entries), service, user, generation, chunks[..index]);
          DeleteWritten(service, user, generation, written);
          return false;
        }
        written := written + [ChunkUser(user, generation, index)];
      }
      assert chunks[..|chunks|] == chunks;
      return true;
    }

    /** Deletes the chunks written so far; failures are passed over. */
    method DeleteWritten(service: string, user: string, generation: string, written: seq<string>)
      requires Valid()
      requires forall i :: 0 <= i < |written| ==> written[i] == ChunkUser(user, generation, i)
      modifies this`clock, this`entries, this`calls, this`history
      ensures Continues() && Spares(old(clock), user)
      ensures forall k :: |old(history)| - 1 <= k < |history| ==>
        SameOutside(old(entries), history[k], service, user, generation)
      ensures FragmentsErased(old(clock), user) ==>
        entries == old(entries) - FirstChunks(service, user, generation, |written|)
    {
      for index := 0 to |written|
        invariant Continues() && Spares(old(clock), user)
        invariant forall k :: |old(history)| - 1 <= k < |history| ==>
          SameOutside(old(entries), history[k], service, user, generation)
        invariant FragmentsErased(old(clock), user) ==>
          entries == old(entries) - FirstChunks(service, user, generation, index)
      {
        assert IsChunkOf((service, written[index]), service, user, generation);
        ChunkUserLonger(user, generation, index);
        var _ := DeleteEntry(service, written[index]);
        assert calls[|calls| - 1] == Erase(service, written[index]);
        assert FirstChunks(service, user, generation, index + 1)
            == FirstChunks(service, user, generation, index) + {ChunkKey(service, user, generation, index)};
      }
    }

    method RestoreRawSecret(service: string, user: string, previous: Option<string>) returns (ok: bool)
      requires Valid()
      modifies this`clock, this`entries, this`calls, this`history
      ensures Valid() && history == old(history) + [entries]
      ensures calls == old(calls) + [RestoreCall(service, user, previous)] && ok == !faults(old(clock))
      ensures ok ==> Lookup(entries, (service, user)) == previous
      ensures entries == if !ok then old(entries) else match previous
                case Some(value) => old(entries)[(service, user) := value]
                case None => old(entries) - {(service, user)}
    {
      match previous
      case Some(value) => ok := SetPassword(service, user, value);
      case None => ok := DeleteEntry(service, user);
    }

    // ----- Saving

    /** Best-effort cleanup of the fragments that the replaced manifest named. */
    method DropPrevious(service: string, user: string, previous: Option<Manifest>)
      requires Valid() && (previous.Some? ==> ValidManifest(previous.value))
      modifies this`clock, this`entries, this`calls, this`history
      ensures Continues() && Spares(old(clock), user)
      ensures forall k :: |old(history)| <= k < |history| ==>
        previous.Some? && SameOutside(old(entries), history[k], service, user, previous.value.generation)
      ensures forall k :: |old(history)| - 1 <= k < |history| ==>
        || Load(codec, history[k], service, user) == Load(codec, old(entries), service, user)
        || (IsNamed(old(entries), service, user, previous)
          && Load(codec, history[k], service, user) == Err(MissingFragment))
      ensures FragmentsErased(old(clock), user) ==>
        && entries == DropChunks(old(entries), service, user, previous)
        && (IsNamed(old(entries), service, user, previous) ==>
          Load(codec, entries, service, user) == Err(MissingFragment))
    {
      if previous.Some? {
        var m := previous.value;
        var _ := DeleteManifestChunks(service, user, m);
        MainIsNoChunk(service, user, m.generation);
        forall k | |old(history)| <= k < |history|
          ensures || Load(codec, history[k], service, user) == Load(codec, old(entries), service, user)
                  || (IsNamed(old(entries), service, user, previous)
                      && Load(codec, history[k], service, user) == Err(MissingFragment))
        {
          if IsNamed(old(entries), service, user, previous) {
            LoadSubset(codec, old(entries), history[k], service, user, m.generation);
          } else {
            LoadFrame(codec, old(entries), history[k], service, user, m.generation, service, user);
          }
        }
        assert Agree(old(entries), entries, (service, user));
        if IsNamed(old(entries), service, user, previous) && ChunkKey(service, user, m.generation, 0) !in entries {
          FirstFragmentGone(codec, entries, service, user);
        }
      }
    }

    /** The stored manifest names the generation whose fragments are to go. */
    ghost predicate IsNamed(store: Store, service: string, user: string, previous: Option<Manifest>) {
      previous.Some? && NamesGeneration(codec, store, service, user, previous.value.generation)
    }

    /** Writes the entry, reads the secret back and undoes the write if that fails. */
    method Publish(service: string, user: string, value: string, secret: string, previous: Option<string>)
      returns (r: Outcome)
      requires Valid() && previous == Lookup(entries, (service, user))
      modifies this`clock, this`entries, this`calls, this`history
      ensures Continues() && FragmentsErased(old(clock), user)
      ensures forall k :: |old(history)| <= k < |history| ==>
        history[k] == old(entries) || history[k] == old(entries)[(service, user) := value]
      ensures r.Done? ==>
        && entries == old(entries)[(service, user) := value]
        && Load(codec, entries, service, user) == Ok(Some(secret))
        && !RestoreFailed(old(clock), service, user, previous)
      ensures r.Failed? ==>
        entries == if RestoreFailed(old(clock), service, user, previous) then old(entries)[(service, user) := value]
                   else old(entries)
      ensures FaultFree(old(clock)) ==>
        (r.Done? <==> Load(codec, old(entries)[(service, user) := value], service, user) == Ok(Some(secret)))
    {
      var ok := SetPassword(service, user, value);
      assert calls[old(clock)] == Write(service, user, value);
      if !ok {
        return Failed(StoreFailure);
      }
      r := VerifySavedSecret(service, user, secret);
      assert !RestoreFailed(old(clock), service, user, previous);
      if r.Failed? {
        ghost var time := clock;
        var restored := RestoreRawSecret(service, user, previous);
        assert calls[time] == RestoreCall(service, user, previous);
        assert restored <==> !RestoreFailed(old(clock), service, user, previous);
        if !restored {
          r := Failed(StoreFailure);
        } else {
          WriteUndone(old(entries), (service, user), value);
        }
      }
    }

    /** The cleanup after an entry has been replaced by `value`. */
    method DropReplaced(ghost before: Store, ghost value: string, service: string, user: string,
                        ghost generation: string, previous: Option<Manifest>)
      requires Valid() && entries == before[(service, user) := value]
      requires previous == ManifestAt(codec, before, service, user)
      modifies this`clock, this`entries, this`calls, this`history
      ensures Continues() && Spares(old(clock), user)
      ensures forall k :: |old(history)| <= k < |history| ==>
        && SaveTouches(codec, before, history[k], service, user, generation)
        && (|| Load(codec, history[k], service, user) == Load(codec, old(entries), service, user)
            || (IsNamed(old(entries), service, user, previous)
                && Load(codec, history[k], service, user) == Err(MissingFragment)))
      ensures IsNamed(old(entries), service, user, previous)
        || Load(codec, entries, service, user) == Load(codec, old(entries), service, user)
      ensures FragmentsErased(old(clock), user) ==>
        && entries == DropChunks(old(entries), service, user, previous)
        && (IsNamed(old(entries), service, user, previous) ==>
              Load(codec, entries, service, user) == Err(MissingFragment))
    {
      DropPrevious(service, user, previous);
      forall k | |old(history)| <= k < |history|
        ensures SaveTouches(codec, before, history[k], service, user, generation)
      {
        DroppedTouches(codec, before, old(entries), history[k], service, user, generation);
      }
    }

    method SaveShort(service: string, user: string, secret: string, ghost generation: string, previous: Option<string>)
      returns (r: Outcome)
      requires Valid() && Short(secret) && previous == Lookup(entries, (service, user))
      modifies this`clock, this`entries, this`calls, this`history
      ensures Continues()
      ensures forall k :: |old(history)| <= k < |history| ==>
        && SaveTouches(codec, old(entries), history[k], service, user, generation)
        && ShortReadable(codec, old(entries), history[k], service, user, secret)
      ensures r.Done? && !ReusesGeneration(codec, old(entries), service, user, secret) ==>
        Load(codec, entries, service, user) == Ok(Some(secret))
      ensures r.Done? && ReusesGeneration(codec, old(entries), service, user, secret)
              && FragmentsErased(old(clock), user) ==>
        Load(codec, entries, service, user) == Err(MissingFragment)
      ensures r.Failed? ==>
        entries == if RestoreFailed(old(clock), service, user, previous) then old(entries)[(service, user) := secret]
                   else old(entries)
      ensures r.Done? && FragmentsErased(old(clock), user) ==>
        entries == Stored(codec, old(entries), service, user, secret, generation)
      ensures FaultFree(old(clock)) ==> (r.Done? <==> ReadsBack(codec, old(entries), service, user, secret))
    {
      var manifest := if previous.Some? then Decode(codec, previous.value) else None;
      ghost var published := entries[(service, user) := secret];
      LoadShort(codec, published, service, user, secret);
      SpellsItselfFrame(codec, entries, service, user, secret, secret);
      EntryTouches(codec, entries, secret, service, user, generation);
      r := Publish(service, user, secret, secret, previous);
      if r.Done? {
        DropReplaced(old(entries), secret, service, user, generation, manifest);
      }
    }

    /** Removes chunks that no longer have, or never got, a manifest. */
    method RetractChunks(ghost before: Store, service: string, user: string, secret: string, generation: string)
      requires Valid() && Lawful(codec) && secret != "" && |Split(secret)| <= MAX_CHUNKS
      requires ValidGeneration(generation) && !NamesGeneration(codec, before, service, user, generation)
      requires forall i: nat :: i < |Split(secret)| ==>
        Lookup(entries, ChunkKey(service, user, generation, i)) == Some(Split(secret)[i])
      requires || entries == before
               || entries == before[(service, user) := Encode(codec, NewManifest(codec, secret, generation))]
      modifies this`clock, this`entries, this`calls, this`history
      ensures Continues() && Spares(old(clock), user)
      ensures forall k :: |old(history)| <= k < |history| ==>
        && Readable(codec, before, history[k], service, user, secret, old(entries) != before)
        && SaveTouches(codec, before, history[k], service, user, generation)
      ensures old(entries) == before ==> SameOutside(before, entries, service, user, generation)
      ensures FragmentsErased(old(clock), user) ==>
        && entries == old(entries) - FirstChunks(service, user, generation, |Split(secret)|)
        && (old(entries) != before ==> Load(codec, entries, service, user) == Err(MissingFragment))
    {
      var _ := DeleteManifestChunks(service, user, NewManifest(codec, secret, generation));
      MainIsNoChunk(service, user, generation);
      if old(entries) == before {
        forall k | |old(history)| <= k < |history|
          ensures Load(codec, history[k], service, user) == Load(codec, before, service, user)
        {
          LoadFrame(codec, before, history[k], service, user, generation, service, user);
        }
      } else {
        forall k | |old(history)| <= k < |history|
          ensures Load(codec, history[k], service, user) in {Ok(Some(secret)), Err(MissingFragment)}
        {
          Damaged(history[k], service, user, secret, generation, old(entries));
        }
        Damaged(entries, service, user, secret, generation, old(entries));
        SplitCount(secret);
      }
    }

    lemma {:induction false} Damaged(store: Store, service: string, user: string, secret: string, generation: string,
                                     whole: Store)
      requires Lawful(codec) && secret != "" && |Split(secret)| <= MAX_CHUNKS && ValidGeneration(generation)
      requires SameOutside(whole, store, service, user, generation) && store.Items <= whole.Items
      requires Lookup(whole, (service, user)) == Some(Encode(codec, NewManifest(codec, secret, generation)))
      requires forall i: nat :: i < |Split(secret)| ==>
        Lookup(whole, ChunkKey(service, user, generation, i)) == Some(Split(secret)[i])
      ensures Load(codec, store, service, user) in {Ok(Some(secret)), Err(MissingFragment)}
      ensures ChunkKey(service, user, generation, 0) !in store ==>
        Load(codec, store, service, user) == Err(MissingFragment)
    {
      MainIsNoChunk(service, user, generation);
      assert Agree(whole, store, (service, user));
      forall i: nat | i < |Split(secret)|
        ensures Lookup(store, ChunkKey(service, user, generation, i)) in {Some(Split(secret)[i]), None}
      {
        var key := ChunkKey(service, user, generation, i);
        assert key in store ==> (key, store[key]) in store.Items;
      }
      LoadPartial(codec, store, service, user, secret, generation);
    }

    /** Points the entry at chunks that are already written, or removes them again, even if the
        entry could not be put back. */
    method PublishManifest(service: string, user: string, secret: string, generation: string, previous: Option<string>)
      returns (r: Outcome)
      requires Valid() && Lawful(codec) && previous == Lookup(entries, (service, user))
      requires secret != "" && |Split(secret)| <= MAX_CHUNKS
      requires ValidGeneration(generation) && !NamesGeneration(codec, entries, service, user, generation)
      requires forall i: nat :: i < |Split(secret)| ==>
        Lookup(entries, ChunkKey(service, user, generation, i)) == Some(Split(secret)[i])
      modifies this`clock, this`entries, this`calls, this`history
      ensures Continues()
      ensures forall k :: |old(history)| <= k < |history| ==>
        && Readable(codec, old(entries), history[k], service, user, secret,
                    RestoreFailed(old(clock), service, user, previous))
        && SaveTouches(codec, old(entries), history[k], service, user, generation)
      ensures r.Done? ==>
        && Load(codec, entries, service, user) == Ok(Some(secret))
        && !RestoreFailed(old(clock), service, user, previous)
        && (FragmentsErased(old(clock), user) ==>
              entries == DropChunks(Published(codec, old(entries), service, user, secret, generation),
                                    service, user, ManifestAt(codec, old(entries), service, user)))
      ensures r.Failed? && !RestoreFailed(old(clock), service, user, previous) ==>
        && SameOutside(old(entries), entries, service, user, generation)
        && (FragmentsErased(old(clock), user) ==>
              entries == old(entries) - FirstChunks(service, user, generation, |Split(secret)|))
      ensures RestoreFailed(old(clock), service, user, previous) && FragmentsErased(old(clock), user) ==>
        Load(codec, entries, service, user) == Err(MissingFragment)
      ensures FaultFree(old(clock)) ==> r.Done?
    {
      var oldManifest := if previous.Some? then Decode(codec, previous.value) else None;
      var encoded := Encode(codec, NewManifest(codec, secret, generation));
      ghost var published := Published(codec, entries, service, user, secret, generation);
      PublishedReads(codec, entries, service, user, secret, generation);
      EntryTouches(codec, entries, encoded, service, user, generation);
      r := Publish(service, user, encoded, secret, previous);
      if r.Done? {
        DropReplaced(old(entries), encoded, service, user, generation, oldManifest);
      } else {
        RetractChunks(old(entries), service, user, secret, generation);
      }
    }

    method SaveChunked(service: string, user: string, secret: string, generation: string, previous: Option<string>)
      returns (r: Outcome)
      requires Valid() && Lawful(codec) && previous == Lookup(entries, (service, user))
      requires !Short(secret) && FreshGeneration(codec, entries, service, user, generation)
      modifies this`clock, this`entries, this`calls, this`history
      ensures Continues()
      ensures forall k :: |old(history)| <= k < |history| ==>
        && Readable(codec, old(entries), history[k], service, user, secret,
                    RestoreFailed(old(clock), service, user, previous))
        && SaveTouches(codec, old(entries), history[k], service, user, generation)
      ensures r.Done? ==> Load(codec, entries, service, user) == Ok(Some(secret))
      ensures r.Failed? && !RestoreFailed(old(clock), service, user, previous) ==>
        Load(codec, entries, service, user) == Load(codec, old(entries), service, user)
      ensures RestoreFailed(old(clock), service, user, previous) ==>
        r.Failed? && (FragmentsErased(old(clock), user) ==> Load(codec, entries, service, user) == Err(MissingFragment))
      ensures !RestoreFailed(old(clock), service, user, previous) && FragmentsErased(old(clock), user) ==>
        entries == if r.Done? then Stored(codec, old(entries), service, user, secret, generation) else old(entries)
      ensures FaultFree(old(clock)) ==> (r.Done? <==> ReadsBack(codec, old(entries), service, user, secret))
    {
      var chunks := SplitSecret(secret);
      if |chunks| > MAX_CHUNKS {
        return Failed(TooLarge);
      }
      var ok := WriteChunks(service, user, generation, chunks);
      forall k | |old(history)| <= k < |history|
        ensures Load(codec, history[k], service, user) == Load(codec, old(entries), service, user)
        ensures SaveTouches(codec, old(entries), history[k], service, user, generation)
      {
        StagedUnseen(codec, old(entries), history[k], service, user, generation);
      }
      StagedUnseen(codec, old(entries), entries, service, user, generation);
      if !ok {
        return Failed(StoreFailure);
      }
      PutChunksContents(old(entries), service, user, generation, chunks);
      UndoPut(old(entries), service, user, generation, chunks);
      ghost var written := entries;
      r := PublishManifest(service, user, secret, generation, previous);
      if r.Failed? && !RestoreFailed(old(clock), service, user, previous) {
        StagedUnseen(codec, written, entries, service, user, generation);
      }
    }

    /** Saving replaces the reading of one user in one step: whatever fails and wherever the run stops,
        the user reads the earlier secret or the new one, unless putting the entry back is refused. */
    method SaveToService(service: string, user: string, secret: string, generation: string) returns (r: Outcome)
      requires Valid() && Lawful(codec) && FreshGeneration(codec, entries, service, user, generation)
      modifies this`clock, this`entries, this`calls, this`history
      ensures Continues()
      ensures forall k :: |old(history)| <= k < |history| ==>
        && SaveTouches(codec, old(entries), history[k], service, user, generation)
        && SaveReadable(codec, old(entries), history[k], service, user, secret,
                        RestoreFailed(old(clock), service, user, Lookup(old(entries), (service, user))))
      ensures r.Done? && !ReusesGeneration(codec, old(entries), service, user, secret) ==>
        Load(codec, entries, service, user) == Ok(Some(secret))
      ensures r.Done? && ReusesGeneration(codec, old(entries), service, user, secret)
              && FragmentsErased(old(clock), user) ==>
        Load(codec, entries, service, user) == Err(MissingFragment)
      ensures r.Failed? && !RestoreFailed(old(clock), service, user, Lookup(old(entries), (service, user))) ==>
        && Load(codec, entries, service, user) == Load(codec, old(entries), service, user)
        && (Short(secret) || FragmentsErased(old(clock), user) ==> entries == old(entries))
      ensures RestoreFailed(old(clock), service, user, Lookup(old(entries), (service, user))) && !Short(secret) ==>
        r.Failed? && (FragmentsErased(old(clock), user) ==> Load(codec, entries, service, user) == Err(MissingFragment))
      ensures r.Failed? && Short(secret)
              && RestoreFailed(old(clock), service, user, Lookup(old(entries), (service, user))) ==>
        entries == old(entries)[(service, user) := secret]
      ensures r.Done? && FragmentsErased(old(clock), user) ==>
        entries == Stored(codec, old(entries), service, user, secret, generation)
      ensures FaultFree(old(clock)) ==> (r.Done? <==> ReadsBack(codec, old(entries), service, user, secret))
    {
      var previous := LoadRaw(service, user);
      if previous.Err? {
        return Failed(StoreFailure);
      }
      if UnitsOf(secret) <= CHUNK_UTF16_UNITS {
        r := SaveShort(service, user, secret, generation, previous.value);
      } else {
        r := SaveChunked(service, user, secret, generation, previous.value);
      }
    }

    // ----- Deleting

    method DeleteSecret(service: string, user: string) returns (r: Outcome)
      requires Valid()
      modifies this`clock, this`entries, this`calls, this`history
      ensures Continues()
      ensures forall k :: |old(history)| <= k < |history| ==>
        Load(codec, history[k], service, user) in {Load(codec, old(entries), service, user), Ok(None)}
      ensures forall k :: |old(history)| <= k < |history| ==>
        var g := OldGeneration(codec, old(entries), service, user, "");
        TouchesOnly(old(entries), history[k], service, user, g, g)
      ensures forall key: Key :: key.0 != service ==> Agree(old(entries), entries, key)
      ensures r.Done? ==>
        Load(codec, entries, service, user) == Ok(None) && entries == DeleteSpec(codec, old(entries), service, user)
      ensures FaultFree(old(clock)) ==> r.Done?
      ensures EntryServed(old(clock), service, user) ==> (service, user) !in entries
    {
      var raw := LoadRaw(service, user);
      assert calls[old(clock)] == Read(service, user);
      if raw.Err? {
        return Failed(StoreFailure);
      }
      var manifest := if raw.value.Some? then Decode(codec, raw.value.value) else None;
      var ok := DeleteEntry(service, user);
      assert calls[old(clock) + 1] == Erase(service, user);
      if !ok {
        return Failed(StoreFailure);
      }
      if manifest.Some? {
        ghost var deleted := entries;
        r := DeleteManifestChunks(service, user, manifest.value);
        MainIsNoChunk(service, user, manifest.value.generation);
        forall k | |old(history)| < k < |history|
          ensures Load(codec, history[k], service, user) == Ok(None)
        {
          assert Agree(deleted, history[k], (service, user));
        }
        forall key: Key | key.0 != service || key == (service, user)
          ensures Agree(deleted, entries, key)
        {
          assert !IsChunkOf(key, service, user, manifest.value.generation);
        }
        assert Agree(deleted, entries, (service, user));
      } else {
        r := Done;
      }
    }

    /** Deletes from both services: whatever happens to one, the other entry goes if its own operations succeed. */
    method DeleteNamedSecret(user: string) returns (r: Outcome)
      requires Valid()
      modifies this`clock, this`entries, this`calls, this`history
      ensures Continues()
      ensures r.Done? ==>
        && LoadReadOnly(codec, entries, user) == Ok(None)
        && entries == DeleteSpec(codec, DeleteSpec(codec, old(entries), KEYRING_SERVICE, user),
          LEGACY_KEYRING_SERVICE, user)
      ensures FaultFree(old(clock)) ==> r.Done?
      ensures EntryServed(old(clock), KEYRING_SERVICE, user) ==> (KEYRING_SERVICE, user) !in entries
      ensures EntryServed(old(clock), LEGACY_KEYRING_SERVICE, user) ==> (LEGACY_KEYRING_SERVICE, user) !in entries
    {
      r := DeleteSecret(KEYRING_SERVICE, user);
      ghost var removed := entries;
      var legacy := DeleteSecret(LEGACY_KEYRING_SERVICE, user);
      LoadOtherService(codec, removed, entries, KEYRING_SERVICE, user);
      assert Agree(removed, entries, (KEYRING_SERVICE, user));
      if r.Done? {
        r := legacy;
      }
    }

    // ----- Migrating

    /** Saves a legacy secret with the current service and deletes the legacy copy once that has succeeded. */
    method Migrate(user: string, secret: string, generation: string)
      requires Valid() && Lawful(codec) && FreshGeneration(codec, entries, KEYRING_SERVICE, user, generation)
      requires Load(codec, entries, KEYRING_SERVICE, user) == Ok(None)
      requires Load(codec, entries, LEGACY_KEYRING_SERVICE, user) == Ok(Some(secret))
      modifies this`clock, this`entries, this`calls, this`history
      ensures Continues()
      ensures forall k :: |old(history)| <= k < |history| ==>
        || Load(codec, history[k], LEGACY_KEYRING_SERVICE, user) == Ok(Some(secret))
        || Load(codec, history[k], KEYRING_SERVICE, user) == Ok(Some(secret))
      ensures Readably(secret, RestoreFailed(old(clock), KEYRING_SERVICE, user,
                                             Lookup(old(entries), (KEYRING_SERVICE, user)))) ==>
        forall k :: |old(history)| <= k < |history| ==> LoadReadOnly(codec, history[k], user) == Ok(Some(secret))
      ensures FaultFree(old(clock)) && Accepts(secret) ==>
        entries == DeleteSpec(codec, SaveSpec(codec, old(entries), KEYRING_SERVICE, user, secret, generation),
                              LEGACY_KEYRING_SERVICE, user)
    {
      var saved := SaveToService(KEYRING_SERVICE, user, secret, generation);
      ghost var refused := RestoreFailed(old(clock), KEYRING_SERVICE, user,
        Lookup(old(entries), (KEYRING_SERVICE, user)));
      forall k | |old(history)| <= k < |history|
        ensures Load(codec, history[k], LEGACY_KEYRING_SERVICE, user) == Ok(Some(secret))
        ensures Readably(secret, refused) ==> LoadReadOnly(codec, history[k], user) == Ok(Some(secret))
      {
        LoadOtherService(codec, old(entries), history[k], LEGACY_KEYRING_SERVICE, user);
        if Readably(secret, refused) {
          SavesAreAtomic(codec, old(entries), history[k], KEYRING_SERVICE, user, secret, refused);
        }
      }
      if saved.Done? {
        ghost var both, length := entries, |history|;
        var _ := DeleteSecret(LEGACY_KEYRING_SERVICE, user);
        forall k | length <= k < |history|
          ensures Load(codec, history[k], KEYRING_SERVICE, user) == Ok(Some(secret))
        {
          LoadOtherService(codec, both, history[k], KEYRING_SERVICE, user);
        }
      }
    }

    /** Reads a secret and moves a legacy copy to the current service. The reading is the read-only one,
        it does not change on the way, and the legacy copy stays until the new one reads back. */
    method LoadNamedSecret(user: string, generation: string) returns (r: Result<Option<string>>)
      requires Valid() && Lawful(codec) && FreshGeneration(codec, entries, KEYRING_SERVICE, user, generation)
      modifies this`clock, this`entries, this`calls, this`history
      ensures Continues()
      ensures r == LoadReadOnly(codec, old(entries), user) || (r == Err(StoreFailure) && !FaultFree(old(clock)))
      ensures Load(codec, old(entries), KEYRING_SERVICE, user) != Ok(None) ==>
        history == old(history) && entries == old(entries)
      ensures Load(codec, old(entries), KEYRING_SERVICE, user).Err? ==> r.Err?
      ensures forall k :: |old(history)| <= k < |history| ==>
        && r.Ok? && r.value.Some?
        && (|| Load(codec, history[k], LEGACY_KEYRING_SERVICE, user)
                 == Load(codec, old(entries), LEGACY_KEYRING_SERVICE, user)
            || Load(codec, history[k], KEYRING_SERVICE, user) == r)
      ensures r.Ok? && r.value.Some?
              && Readably(r.value.value,
                          RestoreFailed(old(clock), KEYRING_SERVICE, user,
                            Lookup(old(entries), (KEYRING_SERVICE, user)))) ==>
        forall k :: |old(history)| <= k < |history| ==> LoadReadOnly(codec, history[k], user) == r
      ensures FaultFree(old(clock)) && r.Ok? && r.value.Some?
              && Load(codec, old(entries), KEYRING_SERVICE, user) == Ok(None)
              && Accepts(r.value.value) ==>
        entries == DeleteSpec(codec, SaveSpec(codec, old(entries), KEYRING_SERVICE, user, r.value.value, generation),
                              LEGACY_KEYRING_SERVICE, user)
    {
      var current := LoadSecret(KEYRING_SERVICE, user);
      if current != Ok(None) {
        return current;
      }
      var legacy := LoadSecret(LEGACY_KEYRING_SERVICE, user);
      if legacy.Err? || legacy.value.None? {
        return legacy;
      }
      Migrate(user, legacy.value.value, generation);
      r := legacy;
    }
  }

  /** The user's secret reads as before the save or as the new one; only a failed restore
      can leave a third reading, a missing fragment. */
  ghost predicate Readable(c: Codec, before: Store, now: Store, service: string, user: string, secret: string,
                           lost: bool) {
    || Load(c, now, service, user) == Load(c, before, service, user)
    || Load(c, now, service, user) == Ok(Some(secret))
    || (lost && Load(c, now, service, user) == Err(MissingFragment))
  }

  /** During the save of a short text the user reads the earlier secret or the text as it is read once
      stored; only a text that re-uses the generation in use can leave a missing fragment. */
  ghost predicate ShortReadable(c: Codec, before: Store, now: Store, service: string, user: string, secret: string) {
    || Load(c, now, service, user) == Load(c, before, service, user)
    || Load(c, now, service, user) == Load(c, before[(service, user) := secret], service, user)
    || (ReusesGeneration(c, before, service, user, secret) && Load(c, now, service, user) == Err(MissingFragment))
  }

  /** What a save allows to be read on the way. */
  ghost predicate SaveReadable(c: Codec, before: Store, now: Store, service: string, user: string, secret: string,
                               lost: bool) {
    if Short(secret) then ShortReadable(c, before, now, service, user, secret)
    else Readable(c, before, now, service, user, secret, lost)
  }

  /** The text reads back as itself, and no restore has been refused if it is long. */
  predicate Readably(secret: string, lost: bool) {
    if Short(secret) then Plain(secret) else !lost
  }

  /** Long secrets whose earlier entry could be put back, and short ones that read back as themselves, are
      saved in one step for every reader. */
  lemma {:induction false} SavesAreAtomic(c: Codec, before: Store, now: Store, service: string, user: string,
                                          secret: string, lost: bool)
    requires SaveReadable(c, before, now, service, user, secret, lost)
    requires Readably(secret, lost)
    ensures Load(c, now, service, user) in {Load(c, before, service, user), Ok(Some(secret))}
  {
    if Short(secret) {
      LoadShort(c, before[(service, user) := secret], service, user, secret);
    }
  }
}
