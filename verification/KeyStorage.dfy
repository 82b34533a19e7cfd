/** What the secret store means: reading, saving and deleting as functions of the keyring
    contents (src-tauri/src/key_storage.rs). */
module KeyStorage {
  import opened Basics
  import opened Text
  import opened SecretChunks

  const KEYRING_SERVICE := "Zenith Relay"
  const LEGACY_KEYRING_SERVICE := "Zenith Codex"
  const READBACK_ATTEMPTS: nat := 3

  datatype Error =
    | StoreFailure
    | InvalidManifest
    | MissingFragment
    | ChecksumMismatch
    | NotVerified
    | TooLarge

  datatype Result<T> = Ok(value: T) | Err(error: Error)

  datatype Outcome = Done | Failed(error: Error)

  type Key = (string, string)
  type Store = map<Key, string>

  function Lookup(store: Store, key: Key): Option<string> {
    if key in store then Some(store[key]) else None
  }

  function ChunkKey(service: string, user: string, generation: string, index: nat): Key {
    (service, ChunkUser(user, generation, index))
  }

  /** The first `count` fragments joined, or the error for the first one missing. */
  function Reassemble(store: Store, service: string, user: string, generation: string, count: nat): Result<string> {
    if count == 0 then Ok("")
    else match Reassemble(store, service, user, generation, count - 1)
      case Err(e) => Err(e)
      case Ok(s) =>
        var key := ChunkKey(service, user, generation, count - 1);
        if key in store then Ok(s + store[key]) else Err(MissingFragment)
  }

  /** What reading a secret yields when no keyring operation fails. */
  function Load(c: Codec, store: Store, service: string, user: string): Result<Option<string>> {
    if (service, user) !in store then Ok(None) else
    var stored := store[(service, user)];
    if !(MANIFEST_PREFIX <= stored) then
      var text := Trim(stored);
      Ok(if text == "" then None else Some(text))
    else match Decode(c, stored)
      case None => Err(InvalidManifest)
      case Some(m) =>
        match Reassemble(store, service, user, m.generation, m.count)
        case Err(e) => Err(e)
        case Ok(s) => if c.hash(s) == m.sha256 then Ok(Some(s)) else Err(ChecksumMismatch)
  }

  // ----- What every entry reads as

  /** Spaces, line ends and the like, or nothing. */
  ghost predicate Blank(text: string) {
    AllWhite(text)
  }

  /** The fragments that the manifest names, in order. */
  ghost predicate HasFragments(store: Store, service: string, user: string, m: Manifest, parts: seq<string>) {
    && |parts| == m.count
    && forall i :: 0 <= i < |parts| ==> Lookup(store, ChunkKey(service, user, m.generation, i)) == Some(parts[i])
  }

  ghost predicate LacksFragment(store: Store, service: string, user: string, m: Manifest) {
    exists i: nat :: i < m.count && ChunkKey(service, user, m.generation, i) !in store
  }

  lemma {:induction false} ReassembleMeans(store: Store, service: string, user: string, m: Manifest, n: nat)
    requires n <= m.count
    ensures Reassemble(store, service, user, m.generation, n) == Err(MissingFragment)
      <==> exists i: nat :: i < n && ChunkKey(service, user, m.generation, i) !in store
    ensures Reassemble(store, service, user, m.generation, n) in {Err(MissingFragment)}
      || Reassemble(store, service, user, m.generation, n).Ok?
  {
    if n > 0 {
      ReassembleMeans(store, service, user, m, n - 1);
    }
  }

  lemma {:induction false} ReassembleJoins(store: Store, service: string, user: string, m: Manifest, parts: seq<string>,
                                           n: nat)
    requires HasFragments(store, service, user, m, parts) && n <= |parts|
    ensures Reassemble(store, service, user, m.generation, n) == Ok(Flatten(parts[..n]))
  {
    if n > 0 {
      ReassembleJoins(store, service, user, m, parts, n - 1);
      assert Lookup(store, ChunkKey(service, user, m.generation, n - 1)) == Some(parts[n - 1]);
      assert parts[..n][..n - 1] == parts[..n - 1];
    }
  }

  /** No secret is read exactly if there is no entry or a blank one; an entry with the manifest prefix is never
      taken for a missing secret. */
  lemma {:induction false} ReadsNothingIff(c: Codec, store: Store, service: string, user: string)
    ensures Load(c, store, service, user) == Ok(None)
      <==> (service, user) !in store
           || (Blank(store[(service, user)]) && !(MANIFEST_PREFIX <= store[(service, user)]))
  {
    if (service, user) in store {
      TrimEmptyIff(store[(service, user)]);
    }
  }

  /** A text is read without the white space around it. */
  lemma {:induction false} ReadsTrimmed(c: Codec, store: Store, service: string, user: string, before: string,
                                        text: string, after: string)
    requires Lookup(store, (service, user)) == Some(before + text + after)
    requires Blank(before) && Blank(after) && !(MANIFEST_PREFIX <= before + text + after)
    requires text != "" && !IsWhitespace(text[0]) && !IsWhitespace(text[|text| - 1])
    ensures Load(c, store, service, user) == Ok(Some(text))
  {
    TrimMiddle(before, text, after);
  }

  /** What a manifest reads as: damaged ones as the error that says how. */
  lemma {:induction false} ReadsManifest(c: Codec, store: Store, service: string, user: string, stored: string)
    requires Lookup(store, (service, user)) == Some(stored) && MANIFEST_PREFIX <= stored
    ensures Load(c, store, service, user) == Err(InvalidManifest) <==> Decode(c, stored).None?
    ensures Load(c, store, service, user) == Err(MissingFragment)
      <==> Decode(c, stored).Some? && LacksFragment(store, service, user, Decode(c, stored).value)
    ensures forall parts ::
      Decode(c, stored).Some? && HasFragments(store, service, user, Decode(c, stored).value, parts) ==>
        Load(c, store, service, user) ==
          if c.hash(Flatten(parts)) == Decode(c, stored).value.sha256 then Ok(Some(Flatten(parts)))
          else Err(ChecksumMismatch)
  {
    match Decode(c, stored)
    case None =>
    case Some(m) =>
      ReassembleMeans(store, service, user, m, m.count);
      forall parts | HasFragments(store, service, user, m, parts)
        ensures Reassemble(store, service, user, m.generation, m.count) == Ok(Flatten(parts))
      {
        ReassembleJoins(store, service, user, m, parts, m.count);
        assert parts[..m.count] == parts;
      }
  }

  /** The diagnostic read: the current service first, then the legacy one. */
  function LoadReadOnly(c: Codec, store: Store, user: string): Result<Option<string>> {
    match Load(c, store, KEYRING_SERVICE, user)
    case Ok(None) => Load(c, store, LEGACY_KEYRING_SERVICE, user)
    case r => r
  }

  /** The legacy service is asked only if the current one has no secret; a damaged entry stays an error. */
  lemma {:induction false} ReadOnlyMeans(c: Codec, store: Store, user: string)
    ensures Load(c, store, KEYRING_SERVICE, user) != Ok(None) ==>
      LoadReadOnly(c, store, user) == Load(c, store, KEYRING_SERVICE, user)
    ensures Load(c, store, KEYRING_SERVICE, user) == Ok(None) ==>
      LoadReadOnly(c, store, user) == Load(c, store, LEGACY_KEYRING_SERVICE, user)
  {
  }

  // ----- Which keys a generation owns

  ghost predicate IsChunkOf(key: Key, service: string, user: string, generation: string) {
    key.0 == service && exists i: nat :: key.1 == ChunkUser(user, generation, i)
  }

  ghost predicate Agree(a: Store, b: Store, key: Key) {
    Lookup(a, key) == Lookup(b, key)
  }

  /** The stores differ at most in fragments of one generation of one user. */
  ghost predicate SameOutside(a: Store, b: Store, service: string, user: string, generation: string) {
    forall key: Key :: !IsChunkOf(key, service, user, generation) ==> Agree(a, b, key)
  }

  /** The manifest stored for a user, if there is a valid one. */
  function ManifestAt(c: Codec, store: Store, service: string, user: string): Option<Manifest> {
    if (service, user) in store then Decode(c, store[(service, user)]) else None
  }

  ghost predicate NamesGeneration(c: Codec, store: Store, service: string, user: string, generation: string) {
    match ManifestAt(c, store, service, user)
    case Some(m) => m.generation == generation
    case None => false
  }

  /** No fragment and no manifest of this user mentions the generation yet. */
  ghost predicate FreshGeneration(c: Codec, store: Store, service: string, user: string, generation: string) {
    && ValidGeneration(generation)
    && !NamesGeneration(c, store, service, user, generation)
    && NoFragments(store, service, user, generation)
  }

  lemma {:induction false} ReassembleFrame(a: Store, b: Store, service: string, user: string, generation: string,
                                           count: nat)
    requires forall i: nat :: i < count ==> Agree(a, b, ChunkKey(service, user, generation, i))
    ensures Reassemble(a, service, user, generation, count) == Reassemble(b, service, user, generation, count)
  {
    if count > 0 {
      ReassembleFrame(a, b, service, user, generation, count - 1);
      assert Agree(a, b, ChunkKey(service, user, generation, count - 1));
    }
  }

  /** Changing fragments of one generation is invisible to every user except one whose
      manifest names that generation. */
  lemma {:induction false} LoadFrame(c: Codec, a: Store, b: Store, service: string, user: string, generation: string,
                  service': string, user': string)
    requires ValidGeneration(generation) && SameOutside(a, b, service, user, generation)
    requires !IsChunkOf((service', user'), service, user, generation)
    requires (service', user') == (service, user) ==> !NamesGeneration(c, a, service, user, generation)
    ensures Load(c, a, service', user') == Load(c, b, service', user')
    ensures ManifestAt(c, a, service', user') == ManifestAt(c, b, service', user')
  {
    assert Agree(a, b, (service', user'));
    match ManifestAt(c, a, service', user')
    case None =>
    case Some(m) =>
      forall i: nat | i < m.count
        ensures Agree(a, b, ChunkKey(service', user', m.generation, i))
      {
        var key := ChunkKey(service', user', m.generation, i);
        if IsChunkOf(key, service, user, generation) {
          var j: nat :| key.1 == ChunkUser(user, generation, j);
          ChunkUserInjective(user', m.generation, i, user, generation, j);
        }
      }
      ReassembleFrame(a, b, service', user', m.generation, m.count);
  }

  /** A reading depends on the entries of its own service only. */
  lemma {:induction false} LoadOtherService(c: Codec, a: Store, b: Store, service: string, user: string)
    requires forall key: Key :: key.0 == service ==> Agree(a, b, key)
    ensures Load(c, a, service, user) == Load(c, b, service, user)
  {
    assert Agree(a, b, (service, user));
    match ManifestAt(c, a, service, user)
    case None =>
    case Some(m) => ReassembleFrame(a, b, service, user, m.generation, m.count);
  }

  lemma {:induction false} MainIsNoChunk(service: string, user: string, generation: string)
    ensures !IsChunkOf((service, user), service, user, generation)
  {
    forall i: nat ensures user != ChunkUser(user, generation, i) {
      ChunkUserLonger(user, generation, i);
    }
  }

  // ----- Saving

  function PutChunks(store: Store, service: string, user: string, generation: string, chunks: seq<string>): Store {
    if chunks == [] then store else
    var n := |chunks| - 1;
    PutChunks(store, service, user, generation, chunks[..n])[ChunkKey(service, user, generation, n) := chunks[n]]
  }

  function ChunkKeys(service: string, user: string, m: Manifest): set<Key> {
    FirstChunks(service, user, m.generation, m.count)
  }

  /** The keys of the first `n` fragments of a generation. */
  function FirstChunks(service: string, user: string, generation: string, n: nat): set<Key> {
    set i: nat | i < n :: ChunkKey(service, user, generation, i)
  }

  ghost predicate NoFragments(store: Store, service: string, user: string, generation: string) {
    forall i: nat :: ChunkKey(service, user, generation, i) !in store
  }

  function DropChunks(store: Store, service: string, user: string, m: Option<Manifest>): Store {
    match m
    case None => store
    case Some(m) => store - ChunkKeys(service, user, m)
  }

  function NewManifest(c: Codec, secret: string, generation: string): Manifest {
    Manifest(MANIFEST_VERSION, generation, |Split(secret)|, c.hash(secret))
  }

  /** A short text that reads back as itself: trimmed, not empty, not shaped like a manifest. */
  predicate Plain(secret: string) {
    secret != "" && Trim(secret) == secret && !(MANIFEST_PREFIX <= secret)
  }

  predicate Short(secret: string) {
    UnitsOf(secret) <= CHUNK_UTF16_UNITS
  }

  /** Secrets that a healthy keyring stores. */
  predicate Accepts(secret: string) {
    if Short(secret) then Plain(secret) else |Split(secret)| <= MAX_CHUNKS
  }

  /** A manifest text whose fragments in the store join to this very text, digest included. */
  predicate SpellsItself(c: Codec, store: Store, service: string, user: string, secret: string) {
    match Decode(c, secret)
    case Some(m) =>
      Reassemble(store, service, user, m.generation, m.count) == Ok(secret) && c.hash(secret) == m.sha256
    case None => false
  }

  /** The texts that read back as themselves once a healthy keyring has stored them. */
  predicate ReadsBack(c: Codec, store: Store, service: string, user: string, secret: string) {
    if Short(secret) then Plain(secret) || SpellsItself(c, store, service, user, secret)
    else |Split(secret)| <= MAX_CHUNKS
  }

  /** The store after a save that succeeds and fails in none of its deletions. */
  function Stored(c: Codec, store: Store, service: string, user: string, secret: string, generation: string): Store {
    var written :=
      if Short(secret) then store[(service, user) := secret]
      else Published(c, PutChunks(store, service, user, generation, Split(secret)), service, user, secret, generation);
    DropChunks(written, service, user, ManifestAt(c, store, service, user))
  }

  /** The store after a save in which no operation fails. */
  function SaveSpec(c: Codec, store: Store, service: string, user: string, secret: string, generation: string): Store {
    if Accepts(secret) then Stored(c, store, service, user, secret, generation) else store
  }

  /** The store after a deletion in which no operation fails. */
  function DeleteSpec(c: Codec, store: Store, service: string, user: string): Store {
    DropChunks(store - {(service, user)}, service, user, ManifestAt(c, store, service, user))
  }

  lemma {:induction false} PutChunksContents(store: Store, service: string, user: string, generation: string,
                                             chunks: seq<string>)
    requires ValidGeneration(generation)
    ensures SameOutside(store, PutChunks(store, service, user, generation, chunks), service, user, generation)
    ensures forall i: nat :: i < |chunks| ==>
      Lookup(PutChunks(store, service, user, generation, chunks), ChunkKey(service, user, generation, i))
        == Some(chunks[i])
    ensures forall i: nat :: i >= |chunks| ==>
      Agree(store, PutChunks(store, service, user, generation, chunks), ChunkKey(service, user, generation, i))
  {
    if chunks != [] {
      var n := |chunks| - 1;
      PutChunksContents(store, service, user, generation, chunks[..n]);
      forall i: nat | i != n
        ensures ChunkKey(service, user, generation, i) != ChunkKey(service, user, generation, n)
      {
        if ChunkUser(user, generation, i) == ChunkUser(user, generation, n) {
          ChunkUserInjective(user, generation, i, user, generation, n);
        }
      }
    }
  }

  lemma {:induction false} PutNext(store: Store, service: string, user: string, generation: string, chunks: seq<string>,
                                   index: nat)
    requires ValidGeneration(generation) && index < |chunks|
    ensures PutChunks(store, service, user, generation, chunks[..index + 1]) ==
            PutChunks(store, service, user, generation, chunks[..index])
              [ChunkKey(service, user, generation, index) := chunks[index]]
    ensures SameOutside(store, PutChunks(store, service, user, generation, chunks[..index]), service, user, generation)
    ensures SameOutside(store, PutChunks(store, service, user, generation, chunks[..index + 1]), service, user,
      generation)
  {
    assert chunks[..index + 1][..index] == chunks[..index];
    PutChunksContents(store, service, user, generation, chunks[..index]);
    PutChunksContents(store, service, user, generation, chunks[..index + 1]);
  }

  /** Deleting fragments that were not there before they were written undoes the writing. */
  lemma {:induction false} UndoPut(store: Store, service: string, user: string, generation: string, chunks: seq<string>)
    requires ValidGeneration(generation)
    ensures NoFragments(store, service, user, generation) ==>
      PutChunks(store, service, user, generation, chunks) - FirstChunks(service, user, generation, |chunks|) == store
  {
    if chunks != [] && NoFragments(store, service, user, generation) {
      var n := |chunks| - 1;
      var key := ChunkKey(service, user, generation, n);
      UndoPut(store, service, user, generation, chunks[..n]);
      var before := PutChunks(store, service, user, generation, chunks[..n]);
      assert FirstChunks(service, user, generation, n + 1) == FirstChunks(service, user, generation, n) + {key};
      assert key !in store;
      assert before[key := chunks[n]] - (FirstChunks(service, user, generation, n) + {key})
          == (before - FirstChunks(service, user, generation, n)) - {key};
    }
  }

  lemma {:induction false} ReassembleChunks(store: Store, service: string, user: string, generation: string,
                                            chunks: seq<string>)
    requires forall i: nat :: i < |chunks| ==> Lookup(store, ChunkKey(service, user, generation, i)) == Some(chunks[i])
    ensures Reassemble(store, service, user, generation, |chunks|) == Ok(Flatten(chunks))
  {
    if chunks != [] {
      var n := |chunks| - 1;
      ReassembleChunks(store, service, user, generation, chunks[..n]);
      assert Lookup(store, ChunkKey(service, user, generation, n)) == Some(chunks[n]);
    }
  }

  lemma {:induction false} NewManifestValid(c: Codec, secret: string, generation: string)
    requires Lawful(c) && ValidGeneration(generation)
    requires secret != "" && |Split(secret)| <= MAX_CHUNKS
    ensures Decode(c, Encode(c, NewManifest(c, secret, generation))) == Some(NewManifest(c, secret, generation))
  {
    SplitCount(secret);
    assert ValidHash(c.hash(secret));
    ManifestRoundTrip(c, NewManifest(c, secret, generation));
  }

  /** A manifest over its complete chunks reads back as the secret, whatever the text. */
  lemma {:induction false} LoadChunked(c: Codec, store: Store, service: string, user: string, secret: string,
                                       generation: string)
    requires Lawful(c) && ValidGeneration(generation)
    requires secret != "" && |Split(secret)| <= MAX_CHUNKS
    requires forall i: nat :: i < |Split(secret)| ==>
      Lookup(store, ChunkKey(service, user, generation, i)) == Some(Split(secret)[i])
    requires Lookup(store, (service, user)) == Some(Encode(c, NewManifest(c, secret, generation)))
    ensures Load(c, store, service, user) == Ok(Some(secret))
  {
    NewManifestValid(c, secret, generation);
    SplitIsFull(secret);
    ReassembleChunks(store, service, user, generation, Split(secret));
  }

  /** A short text reads back as itself exactly when it is plain, or a manifest of itself. */
  lemma {:induction false} LoadShort(c: Codec, store: Store, service: string, user: string, secret: string)
    requires Lookup(store, (service, user)) == Some(secret)
    ensures Load(c, store, service, user) == Ok(Some(secret))
      <==> Plain(secret) || SpellsItself(c, store, service, user, secret)
  {
  }

  /** Whether a text spells itself does not depend on the entry. */
  lemma {:induction false} SpellsItselfFrame(c: Codec, store: Store, service: string, user: string, secret: string,
                                             value: string)
    ensures SpellsItself(c, store[(service, user) := value], service, user, secret)
      <==> SpellsItself(c, store, service, user, secret)
  {
    var after := store[(service, user) := value];
    match Decode(c, secret)
    case None =>
    case Some(m) =>
      forall i: nat | i < m.count ensures Agree(store, after, ChunkKey(service, user, m.generation, i)) {
        ChunkUserLonger(user, m.generation, i);
      }
      ReassembleFrame(store, after, service, user, m.generation, m.count);
  }

  /** Saving this short text re-uses the generation of the stored manifest, whose fragments
      a successful save then deletes. */
  predicate ReusesGeneration(c: Codec, store: Store, service: string, user: string, secret: string) {
    match (Decode(c, secret), ManifestAt(c, store, service, user))
    case (Some(m), Some(p)) => Short(secret) && m.generation == p.generation
    case _ => false
  }

  /** The store once the entry names the new fragments. */
  function Published(c: Codec, store: Store, service: string, user: string, secret: string, generation: string): Store {
    store[(service, user) := Encode(c, NewManifest(c, secret, generation))]
  }

  /** With all fragments in place, naming them makes the secret readable. */
  lemma {:induction false} PublishedReads(c: Codec, store: Store, service: string, user: string, secret: string,
                                          generation: string)
    requires Lawful(c) && ValidGeneration(generation)
    requires secret != "" && |Split(secret)| <= MAX_CHUNKS
    requires forall i: nat :: i < |Split(secret)| ==>
      Lookup(store, ChunkKey(service, user, generation, i)) == Some(Split(secret)[i])
    ensures var published := Published(c, store, service, user, secret, generation);
            && Load(c, published, service, user) == Ok(Some(secret))
            && ManifestAt(c, published, service, user) == Some(NewManifest(c, secret, generation))
            && forall i: nat :: i < |Split(secret)| ==>
                 Lookup(published, ChunkKey(service, user, generation, i)) == Some(Split(secret)[i])
  {
    var published := Published(c, store, service, user, secret, generation);
    forall i: nat ensures ChunkKey(service, user, generation, i) != (service, user) {
      ChunkUserLonger(user, generation, i);
    }
    NewManifestValid(c, secret, generation);
    LoadChunked(c, published, service, user, secret, generation);
  }

  /** A manifest whose fragments are each intact or gone yields its secret or a missing fragment,
      never a mixture or a checksum error. */
  lemma {:induction false} LoadPartial(c: Codec, store: Store, service: string, user: string, secret: string,
                                       generation: string)
    requires Lawful(c) && ValidGeneration(generation)
    requires secret != "" && |Split(secret)| <= MAX_CHUNKS
    requires forall i: nat :: i < |Split(secret)| ==>
      Lookup(store, ChunkKey(service, user, generation, i)) in {Some(Split(secret)[i]), None}
    requires Lookup(store, (service, user)) == Some(Encode(c, NewManifest(c, secret, generation)))
    ensures Load(c, store, service, user) in {Ok(Some(secret)), Err(MissingFragment)}
    ensures ChunkKey(service, user, generation, 0) !in store ==> Load(c, store, service, user) == Err(MissingFragment)
  {
    NewManifestValid(c, secret, generation);
    SplitIsFull(secret);
    SplitCount(secret);
    var chunks := Split(secret);
    assert chunks[..|chunks|] == chunks;
    ReassemblePartial(store, service, user, generation, chunks, |chunks|);
  }

  lemma {:induction false} ReassemblePartial(store: Store, service: string, user: string, generation: string,
                                             chunks: seq<string>, count: nat)
    requires count <= |chunks|
    requires forall i: nat :: i < |chunks| ==>
      Lookup(store, ChunkKey(service, user, generation, i)) in {Some(chunks[i]), None}
    ensures Reassemble(store, service, user, generation, count) in {Ok(Flatten(chunks[..count])), Err(MissingFragment)}
    ensures count > 0 && ChunkKey(service, user, generation, 0) !in store ==>
      Reassemble(store, service, user, generation, count) == Err(MissingFragment)
  {
    if count > 0 {
      ReassemblePartial(store, service, user, generation, chunks, count - 1);
      assert Lookup(store, ChunkKey(service, user, generation, count - 1)) in {Some(chunks[count - 1]), None};
      assert chunks[..count][..count - 1] == chunks[..count - 1];
    }
  }

  /** Losing fragments of the stored manifest leaves the reading as it was or makes it fail for a missing one. */
  lemma {:induction false} LoadSubset(c: Codec, a: Store, b: Store, service: string, user: string, generation: string)
    requires SameOutside(a, b, service, user, generation) && b.Items <= a.Items
    requires NamesGeneration(c, a, service, user, generation)
    ensures Load(c, b, service, user) in {Load(c, a, service, user), Err(MissingFragment)}
  {
    MainIsNoChunk(service, user, generation);
    assert Agree(a, b, (service, user));
    var m := ManifestAt(c, a, service, user).value;
    ReassembleSubset(a, b, service, user, generation, m.count);
  }

  lemma {:induction false} ReassembleSubset(a: Store, b: Store, service: string, user: string, generation: string,
                                            count: nat)
    requires b.Items <= a.Items
    ensures Reassemble(b, service, user, generation, count)
         in {Reassemble(a, service, user, generation, count), Err(MissingFragment)}
  {
    if count > 0 {
      ReassembleSubset(a, b, service, user, generation, count - 1);
      var key := ChunkKey(service, user, generation, count - 1);
      assert key in b ==> (key, b[key]) in b.Items;
    }
  }

  /** Without its first fragment a manifest cannot be read. */
  lemma {:induction false} FirstFragmentGone(c: Codec, store: Store, service: string, user: string)
    requires ManifestAt(c, store, service, user).Some?
    requires ChunkKey(service, user, ManifestAt(c, store, service, user).value.generation, 0) !in store
    ensures Load(c, store, service, user) == Err(MissingFragment)
  {
    var m := ManifestAt(c, store, service, user).value;
    ReassembleStopsAtGap(store, service, user, m.generation, 1, m.count);
  }

  lemma {:induction false} ReassembleStopsAtGap(store: Store, service: string, user: string, generation: string,
                                                gap: nat, count: nat)
    requires gap <= count && Reassemble(store, service, user, generation, gap) == Err(MissingFragment)
    ensures Reassemble(store, service, user, generation, count) == Err(MissingFragment)
  {
    if gap < count {
      ReassembleStopsAtGap(store, service, user, generation, gap, count - 1);
    }
  }

  /** Putting an entry back undoes a write. */
  lemma {:induction false} WriteUndone(store: Store, key: Key, value: string)
    ensures store[key := value] - {key} == store - {key}
    ensures key !in store ==> store[key := value] - {key} == store
    ensures key in store ==> store[key := value][key := store[key]] == store
  {
  }

  // ----- Other users

  /** The generation whose fragments a save may delete. */
  function OldGeneration(c: Codec, store: Store, service: string, user: string, default: string): string {
    match ManifestAt(c, store, service, user)
    case Some(m) => m.generation
    case None => default
  }

  /** The stores differ at most in the entry of one user and fragments of two generations. */
  ghost predicate TouchesOnly(a: Store, b: Store, service: string, user: string, g: string, h: string) {
    forall key: Key :: key != (service, user) && !IsChunkOf(key, service, user, g) && !IsChunkOf(key, service, user, h)
      ==> Agree(a, b, key)
  }

  /** Between the stores a save has changed at most the entry, its new fragments and those it replaces. */
  ghost predicate SaveTouches(c: Codec, before: Store, now: Store, service: string, user: string, generation: string) {
    TouchesOnly(before, now, service, user, generation, OldGeneration(c, before, service, user, generation))
  }

  /** Fragments of a generation that the entry does not name are not seen by the user. */
  lemma {:induction false} StagedUnseen(c: Codec, before: Store, now: Store, service: string, user: string,
                                        generation: string)
    requires ValidGeneration(generation) && !NamesGeneration(c, before, service, user, generation)
    requires SameOutside(before, now, service, user, generation)
    ensures Load(c, now, service, user) == Load(c, before, service, user)
    ensures ManifestAt(c, now, service, user) == ManifestAt(c, before, service, user)
    ensures Agree(before, now, (service, user)) && SaveTouches(c, before, now, service, user, generation)
  {
    MainIsNoChunk(service, user, generation);
    LoadFrame(c, before, now, service, user, generation, service, user);
    assert Agree(before, now, (service, user));
  }

  lemma {:induction false} EntryTouches(c: Codec, before: Store, value: string, service: string, user: string,
                                        generation: string)
    ensures SaveTouches(c, before, before, service, user, generation)
    ensures SaveTouches(c, before, before[(service, user) := value], service, user, generation)
  {
  }

  /** Dropping the replaced fragments after writing the entry keeps to that. */
  lemma {:induction false} DroppedTouches(c: Codec, before: Store, published: Store, now: Store, service: string,
                                          user: string, generation: string)
    requires forall key: Key :: key != (service, user) ==> Agree(before, published, key)
    requires ManifestAt(c, before, service, user).Some?
    requires SameOutside(published, now, service, user, OldGeneration(c, before, service, user, generation))
    ensures SaveTouches(c, before, now, service, user, generation)
  {
    var g := OldGeneration(c, before, service, user, generation);
    forall key: Key | key != (service, user) && !IsChunkOf(key, service, user, g)
      ensures Agree(before, now, key)
    {
      assert Agree(before, published, key) && Agree(published, now, key);
    }
  }

  /** Every other entry keeps its reading, including users of other services and users whose
      names extend this one. */
  lemma {:induction false} OtherUsersUndisturbed(c: Codec, a: Store, b: Store, service: string, user: string,
                                                 g: string, h: string, service': string, user': string)
    requires ValidGeneration(g) && ValidGeneration(h) && TouchesOnly(a, b, service, user, g, h)
    requires (service', user') != (service, user)
    requires !IsChunkOf((service', user'), service, user, g) && !IsChunkOf((service', user'), service, user, h)
    requires ManifestAt(c, a, service', user').Some? ==>
      !IsChunkOf((service, user), service', user', ManifestAt(c, a, service', user').value.generation)
    ensures Load(c, a, service', user') == Load(c, b, service', user')
  {
    assert Agree(a, b, (service', user'));
    match ManifestAt(c, a, service', user')
    case None =>
    case Some(m) =>
      forall i: nat | i < m.count
        ensures Agree(a, b, ChunkKey(service', user', m.generation, i))
      {
        var key := ChunkKey(service', user', m.generation, i);
        assert IsChunkOf(key, service', user', m.generation);
        forall k: string | k in [g, h]
          ensures !IsChunkOf(key, service, user, k)
        {
          if IsChunkOf(key, service, user, k) {
            var j: nat :| key.1 == ChunkUser(user, k, j);
            ChunkUserInjective(user', m.generation, i, user, k, j);
          }
        }
        assert !IsChunkOf(key, service, user, [g, h][0]) && !IsChunkOf(key, service, user, [g, h][1]);
      }
      ReassembleFrame(a, b, service', user', m.generation, m.count);
  }
}
