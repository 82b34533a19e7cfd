/** Splitting a secret into keyring-sized chunks, chunk names and manifests
    (src-tauri/src/key_storage/chunks.rs). */
module SecretChunks {
  import opened Basics
  import opened Text

  const CHUNK_UTF16_UNITS: nat := 1024
  const MAX_CHUNKS: nat := 4096
  const MANIFEST_VERSION: nat := 1
  const MANIFEST_PREFIX := "__zenith_relay_secret_manifest__:"

  /** UTF-16 code units of one character. */
  function Units(c: char): nat {
    if c as int < 0x1_0000 then 1 else 2
  }

  function UnitsOf(s: string): nat {
    if s == [] then 0 else UnitsOf(s[..|s| - 1]) + Units(s[|s| - 1])
  }

  /** Order-preserving division of `s` into pieces the keyring accepts. */
  ghost predicate IsSplit(parts: seq<string>, s: string) {
    Flatten(parts) == s && forall i :: 0 <= i < |parts| ==> UnitsOf(parts[i]) <= CHUNK_UTF16_UNITS
  }

  /** No chunk could also hold the first character of the next one. */
  ghost predicate Full(parts: seq<string>)
  {
    && (forall i :: 0 <= i < |parts| ==> parts[i] != [])
    && forall i :: 0 <= i < |parts| - 1 ==> UnitsOf(parts[i]) + Units(parts[i + 1][0]) > CHUNK_UTF16_UNITS
  }

  /** What is still to be produced when `chunk` is open and `rest` is unread. */
  function SplitFrom(chunk: string, rest: string): seq<string>
    decreases |rest|
  {
    if rest == [] then
      if chunk == [] then [] else [chunk]
    else if UnitsOf(chunk) + Units(rest[0]) > CHUNK_UTF16_UNITS && chunk != [] then
      [chunk] + SplitFrom([rest[0]], rest[1..])
    else
      SplitFrom(chunk + [rest[0]], rest[1..])
  }

  function Split(s: string): seq<string> {
    SplitFrom([], s)
  }

  method SplitSecret(secret: string) returns (chunks: seq<string>)
    ensures chunks == Split(secret)
  {
    chunks := [];
    var chunk: string := [];
    var units := 0;
    for k := 0 to |secret|
      invariant units == UnitsOf(chunk)
      invariant chunks + SplitFrom(chunk, secret[k..]) == Split(secret)
    {
      var character := secret[k];
      assert secret[k..][0] == character && secret[k..][1..] == secret[k + 1..];
      if units + Units(character) > CHUNK_UTF16_UNITS && chunk != [] {
        chunks := chunks + [chunk];
        chunk := [];
        units := 0;
        assert [] + [character] == [character];
      }
      assert (chunk + [character])[..|chunk|] == chunk;
      chunk := chunk + [character];
      units := units + Units(character);
    }
    if chunk != [] {
      chunks := chunks + [chunk];
    }
  }

  // ----- Split is a full split

  lemma {:induction false} UnitsAppend(a: string, b: string)
    ensures UnitsOf(a + b) == UnitsOf(a) + UnitsOf(b)
  {
    if b == [] {
      assert a + b == a;
    } else {
      UnitsAppend(a, b[..|b| - 1]);
      assert (a + b)[..|a + b| - 1] == a + b[..|b| - 1];
    }
  }

  /** Closing a chunk that the next character would overflow keeps the split full. */
  lemma {:induction false} ConsIsFull(chunk: string, tail: seq<string>, s: string)
    requires chunk != [] && UnitsOf(chunk) <= CHUNK_UTF16_UNITS
    requires IsSplit(tail, s) && Full(tail) && tail != []
    requires UnitsOf(chunk) + Units(tail[0][0]) > CHUNK_UTF16_UNITS
    ensures IsSplit([chunk] + tail, chunk + s) && Full([chunk] + tail)
  {
    var parts := [chunk] + tail;
    assert Flatten(parts) == chunk + s by {
      FlattenAppend([chunk], tail);
      assert Flatten([chunk]) == Flatten([]) + chunk;
    }
    forall i | 0 <= i < |parts|
      ensures UnitsOf(parts[i]) <= CHUNK_UTF16_UNITS && parts[i] != []
      ensures i < |parts| - 1 ==> UnitsOf(parts[i]) + Units(parts[i + 1][0]) > CHUNK_UTF16_UNITS
    {
      if i > 0 {
        assert parts[i] == tail[i - 1];
      }
    }
  }

  lemma {:induction false} SplitFromIsFull(chunk: string, rest: string)
    requires UnitsOf(chunk) <= CHUNK_UTF16_UNITS
    ensures IsSplit(SplitFrom(chunk, rest), chunk + rest) && Full(SplitFrom(chunk, rest))
    ensures chunk + rest != [] ==> SplitFrom(chunk, rest) != [] && (chunk + rest)[0] == SplitFrom(chunk, rest)[0][0]
    decreases |rest|
  {
    if rest == [] {
      assert chunk + rest == chunk;
      assert Flatten([chunk]) == Flatten([]) + chunk;
    } else {
      var c := rest[0];
      assert [c] + rest[1..] == rest;
      if UnitsOf(chunk) + Units(c) > CHUNK_UTF16_UNITS && chunk != [] {
        UnitsAppend([], [c]);
        SplitFromIsFull([c], rest[1..]);
        ConsIsFull(chunk, SplitFrom([c], rest[1..]), rest);
      } else {
        UnitsAppend(chunk, [c]);
        assert chunk + [c] + rest[1..] == chunk + rest;
        SplitFromIsFull(chunk + [c], rest[1..]);
      }
    }
  }

  /** The chunks concatenate to the secret, none is empty, none exceeds the limit. */
  lemma {:induction false} SplitIsFull(s: string)
    ensures IsSplit(Split(s), s) && Full(Split(s))
  {
    SplitFromIsFull([], s);
  }

  // ----- Full splits are shortest

  lemma {:induction false} UnitsSlice(s: string, a: nat, b: nat, c: nat, d: nat)
    requires a <= b <= c <= d <= |s|
    ensures UnitsOf(s[b..c]) <= UnitsOf(s[a..d])
  {
    UnitsAppend(s[a..b], s[b..c]);
    UnitsAppend(s[a..c], s[c..d]);
    assert s[a..b] + s[b..c] == s[a..c] && s[a..c] + s[c..d] == s[a..d];
  }

  /** Piece `k` is the slice of `s` between the lengths of the first k and k + 1 pieces. */
  lemma {:induction false} PieceIsSlice(parts: seq<string>, s: string, k: nat)
    requires Flatten(parts) == s && k < |parts|
    ensures |Flatten(parts[..k])| + |parts[k]| == |Flatten(parts[..k + 1])| <= |s|
    ensures s[|Flatten(parts[..k])|..|Flatten(parts[..k + 1])|] == parts[k]
  {
    FlattenAppend(parts[..k + 1], parts[k + 1..]);
    assert parts[..k + 1] + parts[k + 1..] == parts;
    assert parts[..k + 1][..k] == parts[..k];
  }

  /** A window that reaches past the end of a full piece overflows the limit. */
  /** A chunk with the character behind it is too long. */
  lemma {:induction false} NextOverflows(s: string, a: nat, b: nat)
    requires a <= b < |s| && UnitsOf(s[a..b]) + Units(s[b]) > CHUNK_UTF16_UNITS
    ensures UnitsOf(s[a..b + 1]) > CHUNK_UTF16_UNITS
  {
    assert s[a..b] + [s[b]] == s[a..b + 1];
    UnitsAppend(s[a..b], [s[b]]);
    assert [s[b]][..0] == [];
  }

  lemma {:induction false} WindowOverflows(full: seq<string>, s: string, k: nat, c: nat, d: nat)
    requires IsSplit(full, s) && Full(full) && k + 1 < |full|
    requires c <= |Flatten(full[..k])| && |Flatten(full[..k + 1])| < d && c <= d <= |s|
    ensures UnitsOf(s[c..d]) > CHUNK_UTF16_UNITS
  {
    PieceIsSlice(full, s, k);
    PieceIsSlice(full, s, k + 1);
    var a, b := |Flatten(full[..k])|, |Flatten(full[..k + 1])|;
    assert full[k + 1][0] == s[b];
    NextOverflows(s, a, b);
    UnitsSlice(s, c, a, b + 1, d);
  }

  /** After the same number of pieces a full split has consumed at least as much text. */
  lemma {:induction false} FullStaysAhead(full: seq<string>, other: seq<string>, s: string, k: nat)
    requires IsSplit(full, s) && Full(full) && IsSplit(other, s)
    requires k <= |other| && k < |full|
    ensures |Flatten(other[..k])| <= |Flatten(full[..k])|
  {
    if k > 0 {
      FullStaysAhead(full, other, s, k - 1);
      PieceIsSlice(other, s, k - 1);
      var c, d := |Flatten(other[..k - 1])|, |Flatten(other[..k])|;
      if |Flatten(full[..k])| < d {
        WindowOverflows(full, s, k - 1, c, d);
      }
    }
  }

  /** No other division within the limit uses fewer pieces. */
  lemma {:induction false} SplitIsShortest(s: string, other: seq<string>)
    requires IsSplit(other, s)
    ensures |Split(s)| <= |other|
  {
    var full := Split(s);
    SplitIsFull(s);
    var k := |other|;
    if k < |full| {
      FullStaysAhead(full, other, s, k);
      assert other[..k] == other;
      PieceIsSlice(full, s, k);
      assert false;
    }
  }

  lemma {:induction false} FullUnits(parts: seq<string>, k: nat)
    requires Full(parts) && k < |parts|
    ensures UnitsOf(Flatten(parts[..k])) >= k * (CHUNK_UTF16_UNITS - 1)
    ensures UnitsOf(Flatten(parts[..k + 1])) > k * (CHUNK_UTF16_UNITS - 1)
  {
    if k > 0 {
      FullUnits(parts, k - 1);
      assert parts[..k][..k - 1] == parts[..k - 1];
      UnitsAppend(Flatten(parts[..k - 1]), parts[k - 1]);
      assert UnitsOf(parts[k - 1]) + Units(parts[k][0]) > CHUNK_UTF16_UNITS;
    }
    assert parts[..k + 1][..k] == parts[..k];
    UnitsAppend(Flatten(parts[..k]), parts[k]);
  }

  lemma {:induction false} QuotientBound(units: nat, n: nat)
    requires units > n * (CHUNK_UTF16_UNITS - 1)
    ensures n <= (units - 1) / (CHUNK_UTF16_UNITS - 1)
  {
  }

  /** A surrogate pair can waste at most one unit in each chunk but the last. */
  lemma {:induction false} SplitCount(s: string)
    requires s != []
    ensures 1 <= |Split(s)| <= (UnitsOf(s) - 1) / (CHUNK_UTF16_UNITS - 1) + 1
  {
    var parts := Split(s);
    SplitFromIsFull([], s);
    assert [] + s == s && parts[..|parts|] == parts;
    FullUnits(parts, |parts| - 1);
    QuotientBound(UnitsOf(s), |parts| - 1);
  }

  // ----- Chunk names

  predicate IsHexDigit(c: char) {
    '0' <= c <= '9' || 'a' <= c <= 'f' || 'A' <= c <= 'F'
  }

  predicate ValidGeneration(generation: string) {
    |generation| == 32 && forall i :: 0 <= i < 32 ==> IsHexDigit(generation[i])
  }

  function ChunkUser(user: string, generation: string, index: nat): string {
    user + ":chunk:" + generation + ":" + Decimal(index)
  }

  /** Texts that end in a colon and colon-free tails split in one way only. */
  lemma {:induction false} LastColon(a: string, x: string, b: string, y: string)
    requires a + ":" + x == b + ":" + y
    requires ':' !in x && ':' !in y
    ensures a == b && x == y
  {
    var s, t := a + ":" + x, b + ":" + y;
    assert s[|a|] == ':' && t[|b|] == ':';
    assert a == s[..|a|] && b == t[..|b|];
    assert x == s[|a| + 1..] && y == t[|b| + 1..];
  }

  /** Distinct chunks never share a name, even when user names contain colons. */
  lemma {:induction false} ChunkUserInjective(u: string, g: string, i: nat, v: string, h: string, j: nat)
    requires |g| == |h| && ChunkUser(u, g, i) == ChunkUser(v, h, j)
    ensures u == v && g == h && i == j
  {
    LastColon(u + ":chunk:" + g, Decimal(i), v + ":chunk:" + h, Decimal(j));
    DecimalInjective(i, j);
    var s := u + ":chunk:" + g;
    assert s == v + ":chunk:" + h;
    assert |u| == |v|;
    assert u == s[..|u|] && v == s[..|v|];
    assert g == s[|u| + 7..] && h == s[|v| + 7..];
  }

  lemma {:induction false} ChunkUserLonger(u: string, g: string, i: nat)
    ensures ChunkUser(u, g, i) != u
  {
    assert |ChunkUser(u, g, i)| > |u|;
  }

  // ----- Manifests

  datatype Manifest = Manifest(version: nat, generation: string, count: nat, sha256: string)

  /** The foreign code the storage relies on: SHA-256 in hex and serde_json for manifests. */
  datatype Codec = Codec(hash: string -> string, render: Manifest -> string, parse: string -> Option<Manifest>)

  predicate ValidHash(sha256: string) {
    |sha256| == 64 && forall i :: 0 <= i < 64 ==> IsHexDigit(sha256[i])
  }

  predicate ValidManifest(m: Manifest) {
    && m.version == MANIFEST_VERSION
    && 0 < m.count <= MAX_CHUNKS
    && ValidGeneration(m.generation)
    && ValidHash(m.sha256)
  }

  /** Digests are 64 hex digits and serialized manifests parse back. */
  ghost predicate Lawful(c: Codec) {
    && (forall s: string :: ValidHash(c.hash(s)))
    && (forall m: Manifest :: c.parse(c.render(m)) == Some(m))
  }

  function Encode(c: Codec, m: Manifest): string {
    MANIFEST_PREFIX + c.render(m)
  }

  function Decode(c: Codec, stored: string): Option<Manifest> {
    if MANIFEST_PREFIX <= stored then
      match c.parse(stored[|MANIFEST_PREFIX|..])
      case Some(m) => if ValidManifest(m) then Some(m) else None
      case None => None
    else None
  }

  /** Manifests round trip exactly when their metadata is in bounds. */
  lemma {:induction false} ManifestRoundTrip(c: Codec, m: Manifest)
    requires Lawful(c)
    ensures Decode(c, Encode(c, m)) == if ValidManifest(m) then Some(m) else None
  {
    assert Encode(c, m)[|MANIFEST_PREFIX|..] == c.render(m);
  }
}
