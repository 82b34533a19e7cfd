/** A case in which a successful save loses the secret (src-tauri/src/key_storage.rs): a text that is
    the manifest of itself, saved over an entry of the same generation. */
module KeyStorageCases {
  import opened Basics
  import opened Text
  import opened SecretChunks
  import opened KeyStorage

  // ----- Foreign code that meets the assumptions

  function Unary(n: nat): string {
    if n == 0 then "0" else "1" + Unary(n - 1)
  }

  lemma {:induction false} UnarySplits(m: nat, n: nat, s: string, t: string)
    requires Unary(m) + s == Unary(n) + t
    ensures m == n && s == t
  {
    var a, b := Unary(m) + s, Unary(n) + t;
    assert a[0] == (if m == 0 then '0' else '1') && b[0] == (if n == 0 then '0' else '1');
    if m > 0 && n > 0 {
      assert a[1..] == Unary(m - 1) + s && b[1..] == Unary(n - 1) + t;
      UnarySplits(m - 1, n - 1, s, t);
    } else {
      assert a[1..] == s && b[1..] == t;
    }
  }

  function Render(m: Manifest): string {
    Unary(m.version) + (Unary(m.count) + (Unary(|m.generation|) + (m.generation + m.sha256)))
  }

  lemma {:induction false} RenderInjective(m: Manifest, n: Manifest)
    requires Render(m) == Render(n)
    ensures m == n
  {
    var mHash, nHash := m.generation + m.sha256, n.generation + n.sha256;
    var mRest, nRest := Unary(|m.generation|) + mHash, Unary(|n.generation|) + nHash;
    UnarySplits(m.version, n.version, Unary(m.count) + mRest, Unary(n.count) + nRest);
    UnarySplits(m.count, n.count, mRest, nRest);
    UnarySplits(|m.generation|, |n.generation|, mHash, nHash);
    var k := |m.generation|;
    assert m.generation == mHash[..k] && n.generation == nHash[..k];
    assert m.sha256 == mHash[k..] && n.sha256 == nHash[k..];
  }

  ghost function Parse(s: string): Option<Manifest> {
    if exists m :: Render(m) == s then
      var m :| Render(m) == s;
      Some(m)
    else None
  }

  function Zeros(n: nat): (s: string)
    ensures |s| == n && forall i :: 0 <= i < n ==> s[i] == '0'
  {
    if n == 0 then "" else Zeros(n - 1) + "0"
  }

  ghost function SomeCodec(): Codec {
    Codec((s: string) => Zeros(64), (m: Manifest) => Render(m), (s: string) => Parse(s))
  }

  lemma {:induction false} SomeCodecLawful()
    ensures Lawful(SomeCodec())
  {
    forall m: Manifest ensures SomeCodec().parse(SomeCodec().render(m)) == Some(m) {
      var n :| Render(n) == Render(m) && Parse(Render(m)) == Some(n);
      RenderInjective(m, n);
    }
  }

  // ----- The case

  lemma {:induction false} UnitsBound(s: string)
    ensures UnitsOf(s) <= 2 * |s|
  {
    if s != "" {
      UnitsBound(s[..|s| - 1]);
    }
  }

  lemma {:induction false} UnaryLength(n: nat)
    ensures |Unary(n)| == n + 1
  {
    if n > 0 {
      UnaryLength(n - 1);
    }
  }

  /** An entry that is its own manifest reads as itself, until its fragment is dropped. */
  lemma {:induction false} SelfManifest(c: Codec, store: Store, service: string, user: string, m: Manifest,
                                        secret: string)
    requires Decode(c, secret) == Some(m) && m.count == 1 && c.hash(secret) == m.sha256
    requires Lookup(store, (service, user)) == Some(secret)
    requires Lookup(store, ChunkKey(service, user, m.generation, 0)) == Some(secret)
    ensures SpellsItself(c, store, service, user, secret) && Load(c, store, service, user) == Ok(Some(secret))
    ensures Load(c, DropChunks(store, service, user, Some(m)), service, user) == Err(MissingFragment)
  {
    var fragments := [secret];
    assert fragments[..0] == [] && Flatten(fragments) == secret;
    ReassembleChunks(store, service, user, m.generation, fragments);
    ChunkUserLonger(user, m.generation, 0);
    var after := DropChunks(store, service, user, Some(m));
    MainIsNoChunk(service, user, m.generation);
    assert ChunkKey(service, user, m.generation, 0) in FirstChunks(service, user, m.generation, m.count);
    forall i: nat ensures ChunkKey(service, user, m.generation, i) != (service, user) {
      ChunkUserLonger(user, m.generation, i);
    }
    assert ManifestAt(c, after, service, user) == Some(m);
    FirstFragmentGone(c, after, service, user);
  }

  /** Saving the short text succeeds on a healthy keyring and leaves the user without it. */
  ghost predicate Loses(c: Codec, store: Store, service: string, user: string, secret: string, generation: string) {
    && Short(secret) && Load(c, store, service, user) == Ok(Some(secret))
    && ReusesGeneration(c, store, service, user, secret) && ReadsBack(c, store, service, user, secret)
    && Load(c, Stored(c, store, service, user, secret, generation), service, user) == Err(MissingFragment)
  }

  /** The secret is stored, readable and saved again with success, after which it is gone. */
  lemma {:induction false} SavingAgainLoses(service: string, user: string, generation: string)
    ensures exists c, store, secret :: Lawful(c) && Loses(c, store, service, user, secret, generation)
  {
    var c := SomeCodec();
    var m := Manifest(MANIFEST_VERSION, Zeros(32), 1, Zeros(64));
    var secret := Encode(c, m);
    SomeCodecLawful();
    ManifestRoundTrip(c, m);
    ShortManifest(m);
    ChunkUserLonger(user, m.generation, 0);
    var store: Store := map[(service, user) := secret, ChunkKey(service, user, m.generation, 0) := secret];
    SelfManifest(c, store, service, user, m, secret);
    assert store[(service, user) := secret] == store;
    assert Lawful(c) && Loses(c, store, service, user, secret, generation);
  }

  lemma {:induction false} ShortManifest(m: Manifest)
    requires |m.generation| == 32 && |m.sha256| == 64 && m.version == 1 && m.count == 1
    ensures Short(MANIFEST_PREFIX + Render(m))
  {
    UnaryLength(1);
    UnaryLength(32);
    UnitsBound(MANIFEST_PREFIX + Render(m));
  }
}
