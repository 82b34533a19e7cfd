/** Any sequence of saves and deletes on a healthy keyring behaves like a plain map from
    (service, user) to secret, and leaves no stray fragment (src-tauri/src/key_storage.rs). */
module KeyStorageSessions {
  import opened Basics
  import opened SecretChunks
  import opened KeyStorage

  datatype Operation =
    | Save(service: string, user: string, secret: string, generation: string)
    | Delete(service: string, user: string)

  function Apply(c: Codec, store: Store, op: Operation): Store {
    match op
    case Save(service, user, secret, generation) => SaveSpec(c, store, service, user, secret, generation)
    case Delete(service, user) => DeleteSpec(c, store, service, user)
  }

  /** The keyring after a session. */
  function Run(c: Codec, start: Store, ops: seq<Operation>): Store {
    if ops == [] then start else Apply(c, Run(c, start, ops[..|ops| - 1]), ops[|ops| - 1])
  }

  /** What the user expects to be stored. */
  function Expected(view: map<Key, string>, ops: seq<Operation>): map<Key, string> {
    if ops == [] then view else
    var before := Expected(view, ops[..|ops| - 1]);
    match ops[|ops| - 1]
    case Save(service, user, secret, _) => if Accepts(secret) then before[(service, user) := secret] else before
    case Delete(service, user) => before - {(service, user)}
  }

  /** The generations in use before a session and those drawn in it. */
  function Drawn(used: set<string>, ops: seq<Operation>): set<string> {
    if ops == [] then used else
    var before := Drawn(used, ops[..|ops| - 1]);
    match ops[|ops| - 1]
    case Save(_, _, _, generation) => before + {generation}
    case Delete(_, _) => before
  }

  /** The name is that of a fragment of one of these generations. */
  ghost predicate ChunkShaped(user: string, all: set<string>) {
    exists u: string, g: string, i: nat :: g in all && user == ChunkUser(u, g, i)
  }

  ghost predicate ValidAll(all: set<string>) {
    forall g :: g in all ==> ValidGeneration(g)
  }

  /** Each save draws a valid generation that is not in use, and no user is named like a fragment. */
  ghost predicate Admissible(used: set<string>, ops: seq<Operation>, all: set<string>) {
    && ValidAll(all) && Drawn(used, ops) <= all
    && (forall i :: 0 <= i < |ops| ==> !ChunkShaped(ops[i].user, all))
    && (forall i :: 0 <= i < |ops| && ops[i].Save? ==> ops[i].generation !in Drawn(used, ops[..i]))
  }

  /** Fragment `i` of generation `g` is named by the manifest its user's entry holds. */
  ghost predicate Named(c: Codec, store: Store, all: set<string>, service: string, user: string, g: string, i: nat) {
    && !ChunkShaped(user, all)
    && match ManifestAt(c, store, service, user)
       case Some(m) => m.generation == g && i < m.count
       case None => false
  }

  ghost predicate NoStrays(c: Codec, store: Store, all: set<string>) {
    forall service: string, user: string, g: string, i: nat ::
      g in all && ChunkKey(service, user, g, i) in store ==> Named(c, store, all, service, user, g, i)
  }

  /** The user's entry is there and reads as expected; its manifest, if any, has a generation in use. */
  ghost predicate Shows(c: Codec, store: Store, view: map<Key, string>, used: set<string>, service: string,
                        user: string) {
    && ((service, user) in store <==> (service, user) in view)
    && ((service, user) in view ==> Load(c, store, service, user) == Ok(Some(view[(service, user)])))
    && (ManifestAt(c, store, service, user).Some? ==> ManifestAt(c, store, service, user).value.generation in used)
  }

  /** The store is exactly the entries of `view`, each readable, plus the fragments they name. */
  ghost predicate Represents(c: Codec, store: Store, view: map<Key, string>, used: set<string>, all: set<string>) {
    && ValidAll(all) && used <= all
    && NoStrays(c, store, all)
    && forall service: string, user: string :: !ChunkShaped(user, all) ==> Shows(c, store, view, used, service, user)
  }

  /** An empty keyring represents the empty map. */
  lemma {:induction false} EmptyRepresents(c: Codec, all: set<string>)
    requires ValidAll(all)
    ensures Represents(c, map[], map[], {}, all)
  {
  }

  lemma {:induction false} NotChunkOf(service: string, user: string, service': string, user': string, g: string,
                                      all: set<string>)
    requires g in all && !ChunkShaped(user', all)
    ensures !IsChunkOf((service', user'), service, user, g)
  {
  }

  lemma {:induction false} UnusedIsFresh(c: Codec, store: Store, view: map<Key, string>, used: set<string>,
                                         all: set<string>, service: string, user: string, generation: string)
    requires Represents(c, store, view, used, all) && !ChunkShaped(user, all)
    requires generation in all && generation !in used
    ensures FreshGeneration(c, store, service, user, generation)
  {
    assert Shows(c, store, view, used, service, user);
    forall i: nat
      ensures ChunkKey(service, user, generation, i) in store ==> Named(c, store, all, service, user, generation, i)
    {
    }
  }

  // ----- One save

  /** Entry by entry, what an accepted save leaves behind. */
  lemma {:induction false} SaveLookups(c: Codec, store: Store, service: string, user: string, secret: string,
                                       generation: string)
    requires Lawful(c) && Accepts(secret) && FreshGeneration(c, store, service, user, generation)
    ensures var after := SaveSpec(c, store, service, user, secret, generation);
      && Lookup(after, (service, user))
         == Some(if Short(secret) then secret else Encode(c, NewManifest(c, secret, generation)))
      && (!Short(secret) ==> forall i: nat :: i < |Split(secret)| ==>
           Lookup(after, ChunkKey(service, user, generation, i)) == Some(Split(secret)[i]))
      && (forall i: nat :: ChunkKey(service, user, generation, i) in after ==> !Short(secret) && i < |Split(secret)|)
      && (ManifestAt(c, store, service, user).Some? ==>
           ChunkKeys(service, user, ManifestAt(c, store, service, user).value) !! after.Keys)
      && TouchesOnly(store, after, service, user, generation, OldGeneration(c, store, service, user, generation))
      && forall key :: key in after && key !in store ==>
        key == (service, user) || IsChunkOf(key, service, user, generation)
  {
    var chunks := if Short(secret) then [] else Split(secret);
    var put := PutChunks(store, service, user, generation, chunks);
    PutChunksContents(store, service, user, generation, chunks);
    forall i: nat ensures ChunkKey(service, user, generation, i) != (service, user) {
      ChunkUserLonger(user, generation, i);
    }
    match ManifestAt(c, store, service, user)
    case None =>
    case Some(m) =>
      var dropped := ChunkKeys(service, user, m);
      forall i: nat ensures ChunkKey(service, user, generation, i) !in dropped {
        if j: nat :| j < m.count && ChunkKey(service, user, generation, i) == ChunkKey(service, user, m.generation, j) {
          ChunkUserInjective(user, generation, i, user, m.generation, j);
        }
      }
      MainIsNoChunk(service, user, m.generation);
      assert (service, user) !in dropped;
      forall key: Key | !IsChunkOf(key, service, user, m.generation) ensures key !in dropped {
      }
  }

  lemma {:induction false} SaveReads(c: Codec, store: Store, service: string, user: string, secret: string,
                                     generation: string)
    requires Lawful(c) && Accepts(secret) && FreshGeneration(c, store, service, user, generation)
    ensures var after := SaveSpec(c, store, service, user, secret, generation);
      && Load(c, after, service, user) == Ok(Some(secret))
      && ManifestAt(c, after, service, user) == if Short(secret) then None else Some(NewManifest(c, secret, generation))
  {
    var after := SaveSpec(c, store, service, user, secret, generation);
    SaveLookups(c, store, service, user, secret, generation);
    if !Short(secret) {
      LoadChunked(c, after, service, user, secret, generation);
      NewManifestValid(c, secret, generation);
    }
  }

  lemma {:induction false} OthersShow(c: Codec, a: Store, b: Store, view: map<Key, string>, used: set<string>,
                                      all: set<string>,
                                      service: string, user: string, g: string, h: string, service': string,
                                        user': string)
    requires ValidAll(all) && used <= all && g in all && h in all && TouchesOnly(a, b, service, user, g, h)
    requires !ChunkShaped(user, all) && !ChunkShaped(user', all) && (service', user') != (service, user)
    requires Shows(c, a, view, used, service', user')
    ensures Load(c, a, service', user') == Load(c, b, service', user')
    ensures Lookup(a, (service', user')) == Lookup(b, (service', user'))
    ensures Shows(c, b, view, used, service', user')
  {
    NotChunkOf(service, user, service', user', g, all);
    NotChunkOf(service, user, service', user', h, all);
    if ManifestAt(c, a, service', user').Some? {
      NotChunkOf(service', user', service, user, ManifestAt(c, a, service', user').value.generation, all);
    }
    OtherUsersUndisturbed(c, a, b, service, user, g, h, service', user');
    assert Agree(a, b, (service', user'));
  }

  /** A fragment that survives an update belongs to an entry that still names it. */
  lemma {:induction false} NoStraysAfter(c: Codec, a: Store, b: Store, view: map<Key, string>, used: set<string>,
                                         all: set<string>, service: string, user: string, generation: string, h: string)
    requires Represents(c, a, view, used, all) && !ChunkShaped(user, all) && generation in all && h in all
    requires TouchesOnly(a, b, service, user, generation, h)
    requires ManifestAt(c, a, service, user).Some? ==>
      ChunkKeys(service, user, ManifestAt(c, a, service, user).value) !! b.Keys
    requires forall key :: key in b && key !in a ==> key == (service, user) || IsChunkOf(key, service, user, generation)
    requires forall i: nat :: ChunkKey(service, user, generation, i) in b ==>
      Named(c, b, all, service, user, generation, i)
    ensures NoStrays(c, b, all)
  {
    forall service': string, user': string, g: string, i: nat | g in all && ChunkKey(service', user', g, i) in b
      ensures Named(c, b, all, service', user', g, i)
    {
      var key := ChunkKey(service', user', g, i);
      if key !in a {
        assert ChunkShaped(key.1, all);
        var j: nat :| service' == service && key.1 == ChunkUser(user, generation, j);
        ChunkUserInjective(user', g, i, user, generation, j);
      } else {
        assert Named(c, a, all, service', user', g, i);
        if (service', user') != (service, user) {
          assert Shows(c, a, view, used, service', user');
          OthersShow(c, a, b, view, used, all, service, user, generation, h, service', user');
        }
      }
    }
  }

  /** Replacing the expectation for one user leaves those for the others. */
  lemma {:induction false} ShowsElsewhere(c: Codec, store: Store, view: map<Key, string>, view': map<Key, string>,
                                          used: set<string>, used': set<string>, service: string, user: string)
    requires Shows(c, store, view, used, service, user) && used <= used'
    requires (service, user) in view <==> (service, user) in view'
    requires (service, user) in view ==> view'[(service, user)] == view[(service, user)]
    ensures Shows(c, store, view', used', service, user)
  {
  }

  lemma {:induction false} SaveRepresents(c: Codec, store: Store, view: map<Key, string>, used: set<string>,
                                          all: set<string>,
                                          service: string, user: string, secret: string, generation: string)
    requires Lawful(c) && Represents(c, store, view, used, all) && !ChunkShaped(user, all)
    requires generation in all && generation !in used && Accepts(secret)
    ensures Represents(c, SaveSpec(c, store, service, user, secret, generation),
                       view[(service, user) := secret], used + {generation}, all)
  {
    var after := SaveSpec(c, store, service, user, secret, generation);
    var view' := view[(service, user) := secret];
    var h := OldGeneration(c, store, service, user, generation);
    assert Shows(c, store, view, used, service, user);
    UnusedIsFresh(c, store, view, used, all, service, user, generation);
    SaveLookups(c, store, service, user, secret, generation);
    SaveReads(c, store, service, user, secret, generation);
    NoStraysAfter(c, store, after, view, used, all, service, user, generation, h);
    forall service': string, user': string | !ChunkShaped(user', all)
      ensures Shows(c, after, view', used + {generation}, service', user')
    {
      if (service', user') != (service, user) {
        assert Shows(c, store, view, used, service', user');
        OthersShow(c, store, after, view, used, all, service, user, generation, h, service', user');
        ShowsElsewhere(c, after, view, view', used, used + {generation}, service', user');
      }
    }
  }

  // ----- One deletion

  lemma {:induction false} DeleteLookups(c: Codec, store: Store, service: string, user: string)
    ensures var after := DeleteSpec(c, store, service, user);
      && (service, user) !in after
      && after.Keys <= store.Keys
      && (ManifestAt(c, store, service, user).Some? ==>
           ChunkKeys(service, user, ManifestAt(c, store, service, user).value) !! after.Keys)
      && forall g: string :: TouchesOnly(store, after, service, user, g, OldGeneration(c, store, service, user, g))
  {
    match ManifestAt(c, store, service, user)
    case None =>
    case Some(m) =>
      forall key: Key | !IsChunkOf(key, service, user, m.generation) ensures key !in ChunkKeys(service, user, m) {
      }
  }

  /** Deleting an entry that had no manifest touches nothing else. */
  lemma {:induction false} PlainDeleteShows(c: Codec, store: Store, view: map<Key, string>, used: set<string>,
                                            all: set<string>,
                                            service: string, user: string, service': string, user': string)
    requires Represents(c, store, view, used, all) && !ChunkShaped(user, all) && !ChunkShaped(user', all)
    requires ManifestAt(c, store, service, user).None? && (service', user') != (service, user)
    ensures Shows(c, store - {(service, user)}, view, used, service', user')
    ensures ManifestAt(c, store - {(service, user)}, service', user') == ManifestAt(c, store, service', user')
  {
    var after := store - {(service, user)};
    assert Shows(c, store, view, used, service', user');
    match ManifestAt(c, store, service', user')
    case None =>
    case Some(m) =>
      NotChunkOf(service', user', service, user, m.generation, all);
      forall i: nat | i < m.count ensures Agree(store, after, ChunkKey(service', user', m.generation, i)) {
        assert IsChunkOf(ChunkKey(service', user', m.generation, i), service', user', m.generation);
      }
      ReassembleFrame(store, after, service', user', m.generation, m.count);
  }

  lemma {:induction false} DeleteRepresents(c: Codec, store: Store, view: map<Key, string>, used: set<string>,
                                            all: set<string>, service: string, user: string)
    requires Represents(c, store, view, used, all) && !ChunkShaped(user, all)
    ensures Represents(c, DeleteSpec(c, store, service, user), view - {(service, user)}, used, all)
  {
    var after, view' := DeleteSpec(c, store, service, user), view - {(service, user)};
    assert Shows(c, store, view, used, service, user);
    DeleteLookups(c, store, service, user);
    match ManifestAt(c, store, service, user)
    case None =>
      forall service': string, user': string | !ChunkShaped(user', all)
        ensures Shows(c, after, view', used, service', user')
      {
        if (service', user') != (service, user) {
          PlainDeleteShows(c, store, view, used, all, service, user, service', user');
          ShowsElsewhere(c, after, view, view', used, used, service', user');
        }
      }
      forall service': string, user': string, g: string, i: nat | g in all && ChunkKey(service', user', g, i) in after
        ensures Named(c, after, all, service', user', g, i)
      {
        assert Named(c, store, all, service', user', g, i);
        PlainDeleteShows(c, store, view, used, all, service, user, service', user');
      }
    case Some(m) =>
      var h := m.generation;
      assert TouchesOnly(store, after, service, user, h, OldGeneration(c, store, service, user, h));
      forall i: nat ensures ChunkKey(service, user, h, i) in after ==> Named(c, store, all, service, user, h, i) {
      }
      NoStraysAfter(c, store, after, view, used, all, service, user, h, h);
      forall service': string, user': string | !ChunkShaped(user', all)
        ensures Shows(c, after, view', used, service', user')
      {
        if (service', user') != (service, user) {
          assert Shows(c, store, view, used, service', user');
          OthersShow(c, store, after, view, used, all, service, user, h, h, service', user');
          ShowsElsewhere(c, after, view, view', used, used, service', user');
        }
      }
  }

  // ----- Whole sessions

  lemma {:induction false} AdmissiblePrefix(used: set<string>, ops: seq<Operation>, all: set<string>, n: nat)
    requires Admissible(used, ops, all) && n <= |ops|
    ensures Admissible(used, ops[..n], all)
    decreases |ops| - n
  {
    if n < |ops| {
      AdmissiblePrefix(used, ops, all, n + 1);
      var front := ops[..n + 1];
      assert front[..n] == ops[..n];
      assert forall i :: 0 <= i < n ==> ops[..n][..i] == front[..i];
    } else {
      assert ops[..n] == ops;
    }
  }

  /** After any session, from any orderly keyring, every user reads the last secret accepted for them, and
      the keyring holds nothing but those entries and the fragments their manifests name. */
  lemma {:induction false} SessionRepresentsMap(c: Codec, start: Store, view: map<Key, string>, used: set<string>,
                                                all: set<string>, ops: seq<Operation>)
    requires Lawful(c) && Represents(c, start, view, used, all) && Admissible(used, ops, all)
    ensures Represents(c, Run(c, start, ops), Expected(view, ops), Drawn(used, ops), all)
  {
    if ops != [] {
      var n := |ops| - 1;
      AdmissiblePrefix(used, ops, all, n);
      SessionRepresentsMap(c, start, view, used, all, ops[..n]);
      OneMore(c, Run(c, start, ops[..n]), Expected(view, ops[..n]), Drawn(used, ops[..n]), all, ops[n]);
    }
  }

  lemma {:induction false} OneMore(c: Codec, store: Store, view: map<Key, string>, used: set<string>, all: set<string>,
                                   op: Operation)
    requires Lawful(c) && Represents(c, store, view, used, all) && !ChunkShaped(op.user, all)
    requires op.Save? ==> op.generation in all && op.generation !in used
    ensures op.Save? ==>
      Represents(c, Apply(c, store, op), if Accepts(op.secret) then view[(op.service, op.user) := op.secret] else view,
                 used + {op.generation}, all)
    ensures op.Delete? ==> Represents(c, Apply(c, store, op), view - {(op.service, op.user)}, used, all)
  {
    match op
    case Save(service, user, secret, generation) =>
      if Accepts(secret) {
        SaveRepresents(c, store, view, used, all, service, user, secret, generation);
      } else {
        forall service': string, user': string | !ChunkShaped(user', all)
          ensures Shows(c, store, view, used + {generation}, service', user')
        {
          assert Shows(c, store, view, used, service', user');
        }
      }
    case Delete(service, user) =>
      DeleteRepresents(c, store, view, used, all, service, user);
  }

  /** Every generation drawn in a session is fresh when it is drawn, as saving requires. */
  lemma {:induction false} SessionGenerationsFresh(c: Codec, start: Store, view: map<Key, string>, used: set<string>,
                                                   all: set<string>, ops: seq<Operation>, k: nat)
    requires Lawful(c) && Represents(c, start, view, used, all) && Admissible(used, ops, all)
    requires k < |ops| && ops[k].Save?
    ensures FreshGeneration(c, Run(c, start, ops[..k]), ops[k].service, ops[k].user, ops[k].generation)
  {
    AdmissiblePrefix(used, ops, all, k);
    AdmissiblePrefix(used, ops, all, k + 1);
    assert ops[..k + 1][..k] == ops[..k];
    SessionRepresentsMap(c, start, view, used, all, ops[..k]);
    UnusedIsFresh(c, Run(c, start, ops[..k]), Expected(view, ops[..k]), Drawn(used, ops[..k]), all,
                  ops[k].service, ops[k].user, ops[k].generation);
  }
}
