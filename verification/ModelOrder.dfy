/** Merging an operator's saved model order with the discovered catalog
    (crates/relay-core/src/catalog/order.rs). */
module ModelOrder {
  import opened Basics
  import opened Text

  function ModelIdKey(model: string): string {
    ToAsciiLower(Trim(model))
  }

  /** A model ID as stored, with the key it is compared by. */
  datatype Model = Model(id: string, key: string)

  function Identify(text: string): Model {
    Model(Trim(text), ModelIdKey(text))
  }

  /** Keys may be computed from the stored ID as well as from the original text. */
  lemma {:induction false} IdentifyTrimmed(text: string)
    ensures Identify(Identify(text).id) == Identify(text)
  {
    TrimIdempotent(text);
  }

  function IdentifyAll(texts: seq<string>): (r: seq<Model>)
    ensures |r| == |texts|
  {
    seq(|texts|, i requires 0 <= i < |texts| => Identify(texts[i]))
  }

  // ----- Normalization

  predicate HasKey(models: seq<Model>, key: string) {
    exists i :: 0 <= i < |models| && models[i].key == key
  }

  /** Drop blanks and repeated keys. */
  function Dedupe(models: seq<Model>): seq<Model> {
    if models == [] then [] else
    var before, last := Dedupe(models[..|models| - 1]), models[|models| - 1];
    if last.id == "" || HasKey(before, last.key) then before else before + [last]
  }

  function Normalize(texts: seq<string>): seq<Model> {
    Dedupe(IdentifyAll(texts))
  }

  lemma {:induction false} HasKeyAppend(models: seq<Model>, m: Model, key: string)
    ensures HasKey(models + [m], key) <==> HasKey(models, key) || key == m.key
  {
    assert (models + [m])[|models|] == m;
    assert forall i :: 0 <= i < |models| ==> (models + [m])[i] == models[i];
  }

  method NormalizeModelIds(texts: seq<string>) returns (catalog: seq<Model>)
    ensures catalog == Normalize(texts)
  {
    var seen: set<string> := {};
    catalog := [];
    ghost var all := IdentifyAll(texts);
    for k := 0 to |texts|
      invariant catalog == Dedupe(all[..k])
      invariant forall key :: key in seen <==> HasKey(catalog, key)
    {
      assert all[..k + 1][..k] == all[..k];
      var m := Identify(texts[k]);
      if m.id != "" && m.key !in seen {
        forall key ensures HasKey(catalog + [m], key) <==> HasKey(catalog, key) || key == m.key {
          HasKeyAppend(catalog, m, key);
        }
        seen := seen + {m.key};
        catalog := catalog + [m];
      }
    }
    assert all[..|texts|] == all;
  }

  ghost predicate Distinct(models: seq<Model>) {
    forall i, j :: 0 <= i < j < |models| ==> models[i].key != models[j].key
  }

  ghost predicate Increasing(s: seq<nat>) {
    forall i, j :: 0 <= i < j < |s| ==> s[i] < s[j]
  }

  /** The first model with its key, blanks aside. */
  ghost predicate FirstMention(models: seq<Model>, i: nat) {
    && i < |models|
    && models[i].id != ""
    && forall h :: 0 <= h < i && models[h].id != "" ==> models[h].key != models[i].key
  }

  lemma {:induction false} DedupeKeys(models: seq<Model>, i: nat)
    requires i < |models| && models[i].id != ""
    ensures HasKey(Dedupe(models), models[i].key)
  {
    var n := |models| - 1;
    var before := Dedupe(models[..n]);
    HasKeyAppend(before, models[n], models[i].key);
    if i < n {
      DedupeKeys(models[..n], i);
    }
  }

  lemma {:induction false} DedupeDistinct(models: seq<Model>)
    ensures Distinct(Dedupe(models))
  {
    if models != [] {
      DedupeDistinct(models[..|models| - 1]);
    }
  }

  lemma {:induction false} FirstMentionPrefix(models: seq<Model>, n: nat, i: nat)
    requires n <= |models|
    ensures i < n ==> (FirstMention(models[..n], i) <==> FirstMention(models, i))
  {
  }

  lemma {:induction false} NewIsFirst(models: seq<Model>)
    requires models != [] && models[|models| - 1].id != ""
    requires !HasKey(Dedupe(models[..|models| - 1]), models[|models| - 1].key)
    ensures FirstMention(models, |models| - 1)
  {
    var n := |models| - 1;
    forall h | 0 <= h < n && models[h].id != "" ensures models[h].key != models[n].key {
      DedupeKeys(models[..n], h);
    }
  }

  /** The positions list exactly the first mentions, in order, and the result holds the models there. */
  ghost predicate IsSource(models: seq<Model>, source: seq<nat>) {
    && |source| == |Dedupe(models)| && Increasing(source)
    && (forall j :: 0 <= j < |source| ==> FirstMention(models, source[j]) && Dedupe(models)[j] == models[source[j]])
    && (forall i: nat :: FirstMention(models, i) ==> i in source)
  }

  lemma {:induction false} SourceStays(models: seq<Model>, source: seq<nat>)
    requires models != [] && IsSource(models[..|models| - 1], source)
    requires Dedupe(models) == Dedupe(models[..|models| - 1]) && !FirstMention(models, |models| - 1)
    ensures IsSource(models, source)
  {
    var n := |models| - 1;
    forall j | 0 <= j < |source|
      ensures FirstMention(models, source[j]) && Dedupe(models)[j] == models[source[j]]
    {
      assert FirstMention(models[..n], source[j]);
      FirstMentionPrefix(models, n, source[j]);
    }
    forall i: nat | FirstMention(models, i) ensures i in source {
      assert i != n;
      FirstMentionPrefix(models, n, i);
    }
  }

  lemma {:induction false} SourceGrows(models: seq<Model>, source: seq<nat>)
    requires models != [] && IsSource(models[..|models| - 1], source)
    requires Dedupe(models) == Dedupe(models[..|models| - 1]) + [models[|models| - 1]]
    requires FirstMention(models, |models| - 1)
    ensures IsSource(models, source + [|models| - 1])
  {
    var n := |models| - 1;
    forall j | 0 <= j < |source|
      ensures FirstMention(models, source[j]) && Dedupe(models)[j] == models[source[j]] && source[j] < n
    {
      assert FirstMention(models[..n], source[j]);
      FirstMentionPrefix(models, n, source[j]);
    }
    forall i: nat | FirstMention(models, i) ensures i in source + [n] {
      if i < n {
        FirstMentionPrefix(models, n, i);
      }
    }
  }

  /** The result lists exactly the first spelling of each key, in source order, without blanks. */
  lemma {:induction false} DedupeKeepsFirst(models: seq<Model>) returns (source: seq<nat>)
    ensures IsSource(models, source)
  {
    if models == [] {
      return [];
    }
    var n := |models| - 1;
    source := DedupeKeepsFirst(models[..n]);
    if models[n].id != "" && !HasKey(Dedupe(models[..n]), models[n].key) {
      NewIsFirst(models);
      SourceGrows(models, source);
      source := source + [n];
    } else {
      if FirstMention(models, n) {
        FirstIsNew(models);
      }
      SourceStays(models, source);
    }
  }

  /** A key that is listed has been mentioned. */
  lemma {:induction false} KeyMentioned(models: seq<Model>, key: string)
    ensures HasKey(Dedupe(models), key) ==> exists h :: 0 <= h < |models| && models[h].id != "" && models[h].key == key
  {
    if models != [] {
      var n := |models| - 1;
      KeyMentioned(models[..n], key);
      HasKeyAppend(Dedupe(models[..n]), models[n], key);
      if h :| 0 <= h < n && models[..n][h].id != "" && models[..n][h].key == key {
        assert models[h].id != "" && models[h].key == key;
      }
    }
  }

  lemma {:induction false} FirstIsNew(models: seq<Model>)
    requires models != [] && FirstMention(models, |models| - 1)
    ensures !HasKey(Dedupe(models[..|models| - 1]), models[|models| - 1].key)
  {
    KeyMentioned(models[..|models| - 1], models[|models| - 1].key);
  }

  // ----- The saved anchors

  /** Where the catalog lists a key. */
  function PositionOf(catalog: seq<Model>, key: string): (r: Option<nat>)
    ensures r.Some? ==> r.value < |catalog| && catalog[r.value].key == key
    ensures r.None? ==> !HasKey(catalog, key)
  {
    if catalog == [] then None
    else match PositionOf(catalog[..|catalog| - 1], key)
      case Some(p) => Some(p)
      case None => if catalog[|catalog| - 1].key == key then Some(|catalog| - 1) else None
  }

  lemma {:induction false} PositionOfDistinct(catalog: seq<Model>, p: nat)
    requires Distinct(catalog) && p < |catalog|
    ensures PositionOf(catalog, catalog[p].key) == Some(p)
  {
  }

  /** Catalog positions of the saved models, first mention first. */
  function Anchors(catalog: seq<Model>, saved: seq<string>): seq<nat> {
    if saved == [] then [] else
    var before := Anchors(catalog, saved[..|saved| - 1]);
    match PositionOf(catalog, ModelIdKey(saved[|saved| - 1]))
    case Some(p) => if p in before then before else before + [p]
    case None => before
  }

  // ----- Where a new model goes

  type Groups = seq<Option<string>>

  predicate Mate(groups: Groups, p: nat, q: nat)
    requires p < |groups|
  {
    groups[p].Some? && q < |groups| && groups[q] == groups[p]
  }

  /** The first index holding a later catalog position (a mate's, if `mates`). */
  function FirstLater(ordered: seq<nat>, groups: Groups, p: nat, mates: bool): (k: nat)
    requires p < |groups|
    ensures k <= |ordered|
  {
    if ordered == [] then 0
    else if IsLater(groups, p, ordered[0], mates) then 0
    else 1 + FirstLater(ordered[1..], groups, p, mates)
  }

  predicate IsLater(groups: Groups, p: nat, q: nat, mates: bool)
    requires p < |groups|
  {
    q > p && (mates ==> Mate(groups, p, q))
  }

  lemma {:induction false} FirstLaterMeans(ordered: seq<nat>, groups: Groups, p: nat, mates: bool)
    requires p < |groups|
    ensures var k := FirstLater(ordered, groups, p, mates);
      && (k < |ordered| ==> IsLater(groups, p, ordered[k], mates))
      && forall i :: 0 <= i < k ==> !IsLater(groups, p, ordered[i], mates)
  {
    if ordered != [] && !IsLater(groups, p, ordered[0], mates) {
      FirstLaterMeans(ordered[1..], groups, p, mates);
    }
  }

  /** One past the last mate, or 0 if there is none. */
  function AfterLastMate(ordered: seq<nat>, groups: Groups, p: nat): (k: nat)
    requires p < |groups|
    ensures k <= |ordered|
  {
    if ordered == [] then 0
    else if Mate(groups, p, ordered[|ordered| - 1]) then |ordered|
    else AfterLastMate(ordered[..|ordered| - 1], groups, p)
  }

  lemma {:induction false} AfterLastMateMeans(ordered: seq<nat>, groups: Groups, p: nat)
    requires p < |groups|
    ensures var k := AfterLastMate(ordered, groups, p);
      && (k > 0 ==> Mate(groups, p, ordered[k - 1]))
      && forall i :: k <= i < |ordered| ==> !Mate(groups, p, ordered[i])
  {
    if ordered != [] && !Mate(groups, p, ordered[|ordered| - 1]) {
      AfterLastMateMeans(ordered[..|ordered| - 1], groups, p);
    }
  }

  function InsertAt(ordered: seq<nat>, groups: Groups, p: nat): nat
    requires p < |groups|
  {
    if AfterLastMate(ordered, groups, p) == 0 then FirstLater(ordered, groups, p, false)
    else if FirstLater(ordered, groups, p, true) < |ordered| then FirstLater(ordered, groups, p, true)
    else AfterLastMate(ordered, groups, p)
  }

  function Insert(ordered: seq<nat>, k: nat, p: nat): seq<nat>
    requires k <= |ordered|
  {
    ordered[..k] + [p] + ordered[k..]
  }

  function Elements(s: seq<nat>): set<nat> {
    set x | x in s
  }

  /** The order once the catalog positions below `p` are placed among the anchors. */
  function Placed(groups: Groups, anchors: seq<nat>, p: nat): seq<nat>
    requires p <= |groups|
  {
    if p == 0 then anchors else
    var ordered := Placed(groups, anchors, p - 1);
    if p - 1 in anchors then ordered else Insert(ordered, InsertAt(ordered, groups, p - 1), p - 1)
  }

  function GroupsOf(catalog: seq<Model>, groups: map<string, string>): (r: Groups)
    ensures |r| == |catalog|
  {
    seq(|catalog|, i requires 0 <= i < |catalog| =>
      if catalog[i].key in groups then Some(groups[catalog[i].key]) else None)
  }

  function Pick(catalog: seq<Model>, positions: seq<nat>): (r: seq<Model>)
    requires forall i :: 0 <= i < |positions| ==> positions[i] < |catalog|
    ensures |r| == |positions|
  {
    seq(|positions|, i requires 0 <= i < |positions| => catalog[positions[i]])
  }

  lemma {:induction false} AnchorsInRange(catalog: seq<Model>, saved: seq<string>)
    ensures forall i :: 0 <= i < |Anchors(catalog, saved)| ==> Anchors(catalog, saved)[i] < |catalog|
    ensures forall i, j :: 0 <= i < j < |Anchors(catalog, saved)| ==>
      Anchors(catalog, saved)[i] != Anchors(catalog, saved)[j]
  {
    if saved != [] {
      AnchorsInRange(catalog, saved[..|saved| - 1]);
    }
  }

  // ----- The merge is a permutation that keeps the anchors in order

  ghost predicate NoDuplicates(s: seq<nat>) {
    forall i, j :: 0 <= i < j < |s| ==> s[i] != s[j]
  }

  function Filter(s: seq<nat>, keep: set<nat>): seq<nat> {
    if s == [] then [] else
    Filter(s[..|s| - 1], keep) + (if s[|s| - 1] in keep then [s[|s| - 1]] else [])
  }

  lemma {:induction false} FilterAppend(a: seq<nat>, b: seq<nat>, keep: set<nat>)
    ensures Filter(a + b, keep) == Filter(a, keep) + Filter(b, keep)
  {
    if b == [] {
      assert a + b == a;
    } else {
      FilterAppend(a, b[..|b| - 1], keep);
      assert (a + b)[..|a + b| - 1] == a + b[..|b| - 1];
    }
  }

  lemma {:induction false} FilterAll(s: seq<nat>, keep: set<nat>)
    requires forall x :: x in s ==> x in keep
    ensures Filter(s, keep) == s
  {
    if s != [] {
      var front, last := s[..|s| - 1], s[|s| - 1];
      assert s == front + [last] && last in s;
      FilterAll(front, keep);
    }
  }

  lemma {:induction false} InsertKeepsFilter(ordered: seq<nat>, k: nat, p: nat, keep: set<nat>)
    requires k <= |ordered| && p !in keep
    ensures Filter(Insert(ordered, k, p), keep) == Filter(ordered, keep)
  {
    assert ordered == ordered[..k] + ordered[k..];
    FilterAppend(ordered[..k], ordered[k..], keep);
    FilterAppend(ordered[..k] + [p], ordered[k..], keep);
    FilterAppend(ordered[..k], [p], keep);
    assert Filter([p], keep) == [];
  }

  lemma {:induction false} InsertAdds(ordered: seq<nat>, k: nat, p: nat)
    requires k <= |ordered|
    ensures forall x :: x in Insert(ordered, k, p) <==> x in ordered || x == p
  {
    assert ordered == ordered[..k] + ordered[k..];
  }

  /** Positions below `p` and anchors are placed; anchors keep their order. */
  ghost predicate Merged(ordered: seq<nat>, anchors: seq<nat>, p: nat) {
    && NoDuplicates(ordered)
    && (forall x: nat :: x in ordered <==> x in anchors || x < p)
    && Filter(ordered, Elements(anchors)) == anchors
  }

  lemma {:induction false} InsertMerges(ordered: seq<nat>, anchors: seq<nat>, k: nat, q: nat, p: nat)
    requires Merged(ordered, anchors, q) && q !in anchors && k <= |ordered| && p == q + 1
    ensures Merged(Insert(ordered, k, q), anchors, p)
  {
    InsertKeepsFilter(ordered, k, q, Elements(anchors));
    InsertAdds(ordered, k, q);
    assert q !in ordered;
  }

  /** An anchor is there already. */
  lemma {:induction false} AnchorMerges(ordered: seq<nat>, anchors: seq<nat>, q: nat, p: nat)
    requires Merged(ordered, anchors, q) && q in anchors && p == q + 1
    ensures Merged(ordered, anchors, p)
  {
  }

  /** Placing a new model is inserting it somewhere. */
  lemma {:induction false} PlacedNew(groups: Groups, anchors: seq<nat>, q: nat, p: nat) returns (k: nat)
    requires p == q + 1 <= |groups| && q !in anchors
    ensures k <= |Placed(groups, anchors, q)|
    ensures k == InsertAt(Placed(groups, anchors, q), groups, q)
    ensures Placed(groups, anchors, p) == Insert(Placed(groups, anchors, q), k, q)
  {
    k := InsertAt(Placed(groups, anchors, q), groups, q);
  }

  lemma {:induction false} PlacedAnchor(groups: Groups, anchors: seq<nat>, q: nat, p: nat)
    requires p == q + 1 <= |groups| && q in anchors
    ensures Placed(groups, anchors, p) == Placed(groups, anchors, q)
  {
  }

  lemma {:induction false} AnchorsAreMerged(anchors: seq<nat>, p: nat)
    requires NoDuplicates(anchors) && p == 0
    ensures Merged(anchors, anchors, p)
  {
    FilterAll(anchors, Elements(anchors));
  }

  /** Every catalog position is placed exactly once, and anchors keep their saved order. */
  lemma {:induction false} PlacedIsMerged(groups: Groups, anchors: seq<nat>, p: nat)
    requires NoDuplicates(anchors) && p <= |groups|
    ensures Merged(Placed(groups, anchors, p), anchors, p)
  {
    if p == 0 {
      AnchorsAreMerged(anchors, p);
    } else {
      var q := p - 1;
      PlacedIsMerged(groups, anchors, q);
      if q in anchors {
        PlacedAnchor(groups, anchors, q, p);
        AnchorMerges(Placed(groups, anchors, q), anchors, q, p);
      } else {
        var k := PlacedNew(groups, anchors, q, p);
        InsertMerges(Placed(groups, anchors, q), anchors, k, q, p);
      }
    }
  }

  /** Position `p` stands in `o` directly before or after a member of its group. */
  ghost predicate BesideMate(o: seq<nat>, groups: Groups, p: nat)
    requires p < |groups|
  {
    exists k :: 0 <= k < |o| && o[k] == p
      && ((k + 1 < |o| && Mate(groups, p, o[k + 1])) || (k > 0 && Mate(groups, p, o[k - 1])))
  }

  lemma {:induction false} InsertBesideMate(ordered: seq<nat>, groups: Groups, p: nat, i: nat)
    requires p < |groups| && i < |ordered| && Mate(groups, p, ordered[i])
    ensures BesideMate(Insert(ordered, InsertAt(ordered, groups, p), p), groups, p)
  {
    var k := InsertAt(ordered, groups, p);
    FirstLaterMeans(ordered, groups, p, true);
    AfterLastMateMeans(ordered, groups, p);
    var after := Insert(ordered, k, p);
    assert after[k] == p;
    assert k < |ordered| ==> after[k + 1] == ordered[k];
    assert k > 0 ==> after[k - 1] == ordered[k - 1];
  }

  /** A new model whose group is already listed goes directly beside a member of that group. */
  lemma {:induction false} NewModelsJoinTheirGroup(groups: Groups, anchors: seq<nat>, p: nat, mate: nat)
    requires p < |groups| && p !in anchors
    requires mate in Placed(groups, anchors, p) && Mate(groups, p, mate)
    ensures BesideMate(Placed(groups, anchors, p + 1), groups, p)
  {
    var ordered := Placed(groups, anchors, p);
    var i :| 0 <= i < |ordered| && ordered[i] == mate;
    InsertBesideMate(ordered, groups, p, i);
  }

  // ----- Without groups the place of every new model is determined

  /** A model that was not saved follows smaller catalog positions only, and a larger one follows it. */
  ghost predicate InPlace(o: seq<nat>, anchors: seq<nat>, i: nat)
    requires i < |o|
  {
    o[i] in anchors || ((forall j :: 0 <= j < i ==> o[j] < o[i]) && (i + 1 < |o| ==> o[i] < o[i + 1]))
  }

  ghost predicate AllInPlace(o: seq<nat>, anchors: seq<nat>) {
    forall i :: 0 <= i < |o| ==> InPlace(o, anchors, i)
  }

  ghost predicate Ungrouped(groups: Groups) {
    forall i :: 0 <= i < |groups| ==> groups[i].None?
  }

  /** The new model itself. */
  lemma {:induction false} InsertedInPlace(o: seq<nat>, anchors: seq<nat>, k: nat, p: nat)
    requires k <= |o| && (forall i :: 0 <= i < k ==> o[i] < p) && (k < |o| ==> o[k] > p)
    ensures InPlace(Insert(o, k, p), anchors, k)
  {
  }

  /** A model before it, which keeps its successor or gets the new model. */
  lemma {:induction false} EarlierInPlace(o: seq<nat>, anchors: seq<nat>, k: nat, p: nat, i: nat)
    requires i < k <= |o| && InPlace(o, anchors, i) && (o[i] in anchors || o[i] < p)
    ensures InPlace(Insert(o, k, p), anchors, i)
  {
  }

  /** A model behind it, which is an anchor or later in the catalog. */
  lemma {:induction false} LaterInPlace(o: seq<nat>, anchors: seq<nat>, k: nat, p: nat, i: nat)
    requires k <= i < |o| && o[k] > p && InPlace(o, anchors, i) && (o[i] in anchors || o[i] < p)
    ensures InPlace(Insert(o, k, p), anchors, i + 1)
  {
  }

  lemma {:induction false} InsertInPlace(o: seq<nat>, anchors: seq<nat>, groups: Groups, p: nat)
    requires Ungrouped(groups) && p < |groups| && p !in o && AllInPlace(o, anchors)
    requires forall x :: x in o ==> x in anchors || x < p
    ensures AllInPlace(Insert(o, InsertAt(o, groups, p), p), anchors)
  {
    var k := FirstLater(o, groups, p, false);
    FirstLaterMeans(o, groups, p, false);
    AfterLastMateMeans(o, groups, p);
    assert InsertAt(o, groups, p) == k;
    forall i | 0 <= i < k ensures o[i] < p {
      assert o[i] in o;
    }
    forall i | 0 <= i < |o| + 1 ensures InPlace(Insert(o, k, p), anchors, i) {
      if i < k {
        assert o[i] in o && InPlace(o, anchors, i);
        EarlierInPlace(o, anchors, k, p, i);
      } else if i == k {
        InsertedInPlace(o, anchors, k, p);
      } else {
        assert o[i - 1] in o && InPlace(o, anchors, i - 1);
        LaterInPlace(o, anchors, k, p, i - 1);
      }
    }
  }

  /** Without groups every new model is in place. */
  lemma {:induction false} PlacedInPlace(groups: Groups, anchors: seq<nat>, p: nat)
    requires Ungrouped(groups) && NoDuplicates(anchors) && p <= |groups|
    ensures AllInPlace(Placed(groups, anchors, p), anchors)
  {
    if p > 0 {
      PlacedInPlace(groups, anchors, p - 1);
      PlacedIsMerged(groups, anchors, p - 1);
      if p - 1 !in anchors {
        InsertInPlace(Placed(groups, anchors, p - 1), anchors, groups, p - 1);
      }
    }
  }

  /** Reading on from a new model, the next anchor lies later in the catalog. */
  lemma {:induction false} NextAnchorIsLater(o: seq<nat>, anchors: seq<nat>, i: nat, j: nat) returns (m: nat)
    requires AllInPlace(o, anchors) && i < j < |o| && o[i] !in anchors && o[j] in anchors
    ensures i < m <= j && o[m] in anchors && o[i] < o[m]
    ensures forall l :: i <= l < m ==> o[l] !in anchors
    decreases j - i
  {
    assert InPlace(o, anchors, i);
    m := i + 1;
    if o[m] !in anchors {
      m := NextAnchorIsLater(o, anchors, i + 1, j);
    }
  }

  lemma {:induction false} FilterNone(s: seq<nat>, keep: set<nat>)
    requires forall x :: x in s ==> x !in keep
    ensures Filter(s, keep) == []
  {
    if s != [] {
      FilterNone(s[..|s| - 1], keep);
    }
  }

  lemma {:induction false} FilterThrough(o: seq<nat>, keep: set<nat>, i: nat, m: nat)
    requires i <= m < |o| && o[m] in keep
    requires forall l :: i <= l < m ==> o[l] !in keep
    ensures Filter(o[..m + 1], keep) == Filter(o[..i], keep) + [o[m]]
  {
    assert o[..m + 1][..m] == o[..m] && o[..m] == o[..i] + o[i..m];
    FilterNone(o[i..m], keep);
    FilterAppend(o[..i], o[i..m], keep);
  }

  /** The first anchor at or after `i` is the anchor that follows those before `i`. */
  lemma {:induction false} AnchorAt(o: seq<nat>, anchors: seq<nat>, i: nat, m: nat)
    requires i <= m < |o| && Filter(o, Elements(anchors)) == anchors && o[m] in anchors
    requires forall l :: i <= l < m ==> o[l] !in anchors
    ensures |Filter(o[..i], Elements(anchors))| < |anchors| && anchors[|Filter(o[..i], Elements(anchors))|] == o[m]
  {
    var keep := Elements(anchors);
    FilterThrough(o, keep, i, m);
    FilterAppend(o[..m + 1], o[m + 1..], keep);
    assert o == o[..m + 1] + o[m + 1..];
  }

  /** Two orders that part at `i` have each other's element later on. */
  lemma {:induction false} PartsLater(a: seq<nat>, b: seq<nat>, i: nat) returns (l: nat)
    requires NoDuplicates(a) && (forall x: nat :: x in a ==> x in b)
    requires i < |a| && i < |b| && a[..i] == b[..i] && a[i] != b[i]
    ensures i < l < |b| && b[l] == a[i]
  {
    assert a[i] in a;
    l :| 0 <= l < |b| && b[l] == a[i];
    assert forall h :: 0 <= h < i ==> a[..i][h] == b[..i][h];
  }

  ghost predicate IsMergedOrder(o: seq<nat>, anchors: seq<nat>, n: nat) {
    Merged(o, anchors, n) && AllInPlace(o, anchors)
  }

  lemma {:induction false} NewModelsComeEarly(a: seq<nat>, b: seq<nat>, anchors: seq<nat>, n: nat, i: nat)
    requires IsMergedOrder(a, anchors, n) && IsMergedOrder(b, anchors, n)
    requires i < |a| && i < |b| && a[..i] == b[..i] && a[i] != b[i] && a[i] !in anchors
    ensures b[i] < a[i] && b[i] !in anchors
  {
    var l := PartsLater(a, b, i);
    assert InPlace(b, anchors, l);
    if b[i] in anchors {
      var j := PartsLater(b, a, i);
      var m := NextAnchorIsLater(a, anchors, i, j);
      AnchorAt(a, anchors, i, m);
      AnchorAt(b, anchors, i, i);
    }
  }

  lemma {:induction false} SamePrefix(a: seq<nat>, b: seq<nat>, anchors: seq<nat>, n: nat, i: nat)
    requires IsMergedOrder(a, anchors, n) && IsMergedOrder(b, anchors, n) && i <= |a| && i <= |b|
    ensures a[..i] == b[..i]
  {
    if i > 0 {
      var k := i - 1;
      SamePrefix(a, b, anchors, n, k);
      assert a[k] == b[k] by {
        if a[k] != b[k] {
          if a[k] in anchors && b[k] in anchors {
            AnchorAt(a, anchors, k, k);
            AnchorAt(b, anchors, k, k);
          } else if a[k] in anchors {
            NewModelsComeEarly(b, a, anchors, n, k);
          } else {
            NewModelsComeEarly(a, b, anchors, n, k);
            NewModelsComeEarly(b, a, anchors, n, k);
          }
        }
      }
      assert a[..i] == a[..k] + [a[k]] && b[..i] == b[..k] + [b[k]];
    }
  }

  lemma {:induction false} NotShorter(a: seq<nat>, b: seq<nat>, anchors: seq<nat>, n: nat)
    requires IsMergedOrder(a, anchors, n) && IsMergedOrder(b, anchors, n)
    ensures |a| >= |b|
  {
    if |a| < |b| {
      SamePrefix(a, b, anchors, n, |a|);
    }
  }

  /** Permutation, anchor order and placement leave one possible order: the merged one. */
  lemma {:induction false} MergedOrderIsUnique(groups: Groups, anchors: seq<nat>, o: seq<nat>)
    requires Ungrouped(groups) && NoDuplicates(anchors)
    ensures IsMergedOrder(o, anchors, |groups|) <==> o == Placed(groups, anchors, |groups|)
  {
    var merged := Placed(groups, anchors, |groups|);
    PlacedIsMerged(groups, anchors, |groups|);
    PlacedInPlace(groups, anchors, |groups|);
    if IsMergedOrder(o, anchors, |groups|) {
      NotShorter(o, merged, anchors, |groups|);
      NotShorter(merged, o, anchors, |groups|);
      SamePrefix(o, merged, anchors, |groups|, |o|);
      assert o == o[..|o|] && merged == merged[..|o|];
    }
  }

  // ----- With groups, too, the order is determined

  ghost predicate LaterMate(groups: Groups, p: nat, q: nat)
    requires p < |groups|
  {
    Mate(groups, p, q) && q > p
  }

  /** Where a new model `p` belongs among the others: never behind a later member of its group, and directly before
      one if there is any; else directly behind the last member; without members, as in an order without groups. */
  ghost predicate RightPlace(others: seq<nat>, groups: Groups, p: nat, k: nat)
    requires p < |groups|
  {
    && k <= |others|
    && (forall i :: 0 <= i < k ==> !LaterMate(groups, p, others[i]))
    && (if exists i :: 0 <= i < |others| && LaterMate(groups, p, others[i]) then
          k < |others| && LaterMate(groups, p, others[k])
        else if exists i :: 0 <= i < |others| && Mate(groups, p, others[i]) then
          k > 0 && Mate(groups, p, others[k - 1]) && forall i :: k <= i < |others| ==> !Mate(groups, p, others[i])
        else
          (forall i :: 0 <= i < k ==> others[i] < p) && (k < |others| ==> others[k] > p))
  }

  /** The search finds the one right place. */
  lemma {:induction false} RightPlaceIsFound(others: seq<nat>, groups: Groups, p: nat, k: nat)
    requires p < |groups| && p !in others
    ensures RightPlace(others, groups, p, k) <==> k == InsertAt(others, groups, p)
  {
    FirstLaterMeans(others, groups, p, true);
    FirstLaterMeans(others, groups, p, false);
    AfterLastMateMeans(others, groups, p);
  }

  /** The saved models and the first `p` catalog positions, in the order they have in `o`. */
  function Upto(o: seq<nat>, anchors: seq<nat>, p: nat): seq<nat> {
    Filter(o, Elements(anchors) + Below(p))
  }

  function Below(p: nat): (r: set<nat>)
    ensures forall x: nat :: x in r <==> x < p
  {
    if p == 0 then {} else Below(p - 1) + {p - 1}
  }

  /** Among the saved models and smaller positions, the new model `p` stands in its right place. */
  ghost predicate GroupedInPlace(o: seq<nat>, anchors: seq<nat>, groups: Groups, p: nat)
    requires p < |groups|
  {
    exists k :: 0 <= k <= |Upto(o, anchors, p)| && RightPlace(Upto(o, anchors, p), groups, p, k)
      && Upto(o, anchors, p + 1) == Insert(Upto(o, anchors, p), k, p)
  }

  ghost predicate IsGroupedOrder(o: seq<nat>, anchors: seq<nat>, groups: Groups) {
    && Merged(o, anchors, |groups|)
    && forall p: nat :: p < |groups| && p !in anchors ==> GroupedInPlace(o, anchors, groups, p)
  }

  lemma {:induction false} MergedUpto(o: seq<nat>, anchors: seq<nat>, p: nat)
    requires Merged(o, anchors, p)
    ensures Upto(o, anchors, p) == o
  {
    FilterAll(o, Elements(anchors) + Below(p));
  }

  lemma {:induction false} InsertKeepsUpto(o: seq<nat>, anchors: seq<nat>, k: nat, q: nat, p: nat)
    requires k <= |o| && q !in anchors && p <= q
    ensures Upto(Insert(o, k, q), anchors, p) == Upto(o, anchors, p)
  {
    InsertKeepsFilter(o, k, q, Elements(anchors) + Below(p));
  }

  /** Later insertions leave the models that are there in their order. */
  lemma {:induction false} PlacedUpto(groups: Groups, anchors: seq<nat>, p: nat, n: nat)
    requires NoDuplicates(anchors) && p <= n <= |groups|
    ensures Upto(Placed(groups, anchors, n), anchors, p) == Placed(groups, anchors, p)
    decreases n
  {
    if p == n {
      PlacedIsMerged(groups, anchors, n);
      MergedUpto(Placed(groups, anchors, n), anchors, n);
    } else {
      var q := n - 1;
      PlacedUpto(groups, anchors, p, q);
      if q !in anchors {
        var k := PlacedNew(groups, anchors, q, n);
        InsertKeepsUpto(Placed(groups, anchors, q), anchors, k, q, p);
      }
    }
  }

  lemma {:induction false} UptoAnchor(o: seq<nat>, anchors: seq<nat>, p: nat)
    requires p in anchors
    ensures Upto(o, anchors, p + 1) == Upto(o, anchors, p)
  {
    assert Elements(anchors) + Below(p + 1) == Elements(anchors) + Below(p);
  }

  lemma {:induction false} UptoNone(o: seq<nat>, anchors: seq<nat>, p: nat)
    requires p == 0 && Filter(o, Elements(anchors)) == anchors
    ensures Upto(o, anchors, p) == anchors
  {
    assert Elements(anchors) + Below(p) == Elements(anchors);
  }

  lemma {:induction false} GroupedStep(groups: Groups, anchors: seq<nat>, p: nat)
    requires NoDuplicates(anchors) && p < |groups| && p !in anchors
    ensures GroupedInPlace(Placed(groups, anchors, |groups|), anchors, groups, p)
  {
    var others := Placed(groups, anchors, p);
    PlacedUpto(groups, anchors, p, |groups|);
    PlacedUpto(groups, anchors, p + 1, |groups|);
    PlacedIsMerged(groups, anchors, p);
    FirstLaterMeans(others, groups, p, false);
    RightPlaceIsFound(others, groups, p, InsertAt(others, groups, p));
    assert Placed(groups, anchors, p + 1) == Insert(others, InsertAt(others, groups, p), p);
  }

  lemma {:induction false} GroupedNext(groups: Groups, anchors: seq<nat>, o: seq<nat>, q: nat, others: seq<nat>)
    requires q < |groups| && q !in others && Upto(o, anchors, q) == others
    requires GroupedInPlace(o, anchors, groups, q)
    ensures InsertAt(others, groups, q) <= |others|
    ensures Upto(o, anchors, q + 1) == Insert(others, InsertAt(others, groups, q), q)
  {
    var k :| 0 <= k <= |others| && RightPlace(others, groups, q, k) && Upto(o, anchors, q + 1) == Insert(others, k, q);
    RightPlaceIsFound(others, groups, q, k);
  }

  lemma {:induction false} GroupedUpto(groups: Groups, anchors: seq<nat>, o: seq<nat>, p: nat)
    requires NoDuplicates(anchors) && IsGroupedOrder(o, anchors, groups) && p <= |groups|
    ensures Upto(o, anchors, p) == Placed(groups, anchors, p)
  {
    if p == 0 {
      UptoNone(o, anchors, p);
    } else {
      var q := p - 1;
      GroupedUpto(groups, anchors, o, q);
      if q in anchors {
        UptoAnchor(o, anchors, q);
        PlacedAnchor(groups, anchors, q, p);
      } else {
        PlacedIsMerged(groups, anchors, q);
        GroupedNext(groups, anchors, o, q, Placed(groups, anchors, q));
        var _ := PlacedNew(groups, anchors, q, p);
      }
    }
  }

  /** Permutation, saved order and the right place of every new model leave one possible order, the merged one,
      whatever the groups. */
  lemma {:induction false} GroupedOrderIsUnique(groups: Groups, anchors: seq<nat>, o: seq<nat>)
    requires NoDuplicates(anchors)
    ensures IsGroupedOrder(o, anchors, groups) <==> o == Placed(groups, anchors, |groups|)
  {
    PlacedIsMerged(groups, anchors, |groups|);
    if IsGroupedOrder(o, anchors, groups) {
      GroupedUpto(groups, anchors, o, |groups|);
      MergedUpto(o, anchors, |groups|);
    }
    if o == Placed(groups, anchors, |groups|) {
      forall p: nat | p < |groups| && p !in anchors ensures GroupedInPlace(o, anchors, groups, p) {
        GroupedStep(groups, anchors, p);
      }
    }
  }

  /** Of its own group, only members from earlier in the catalog stand before a new model. */
  ghost predicate GroupsInOrder(o: seq<nat>, anchors: seq<nat>, groups: Groups) {
    forall i, j :: 0 <= i < j < |o| && o[j] < |groups| && o[j] !in anchors && Mate(groups, o[j], o[i]) ==> o[i] < o[j]
  }

  lemma {:induction false} NoNewMateBehind(o: seq<nat>, anchors: seq<nat>, groups: Groups, p: nat, k: nat, j: nat)
    requires p < |groups| && RightPlace(o, groups, p, k) && GroupsInOrder(o, anchors, groups)
    requires k <= j < |o| && o[j] !in anchors && o[j] < p
    ensures !Mate(groups, o[j], p)
  {
  }

  lemma {:induction false} InsertInOrder(o: seq<nat>, anchors: seq<nat>, groups: Groups, p: nat, k: nat)
    requires p < |groups| && RightPlace(o, groups, p, k) && GroupsInOrder(o, anchors, groups)
    requires forall x: nat :: x in o ==> x in anchors || x < p
    ensures GroupsInOrder(Insert(o, k, p), anchors, groups)
  {
    var s := Insert(o, k, p);
    forall j | k <= j < |o| && o[j] < |groups| && o[j] !in anchors
      ensures !Mate(groups, o[j], p)
    {
      assert o[j] in o;
      NoNewMateBehind(o, anchors, groups, p, k, j);
    }
    assert forall i :: 0 <= i < k ==> s[i] == o[i];
    assert forall i :: k < i < |s| ==> s[i] == o[i - 1];
  }

  /** So it is in the merged order. */
  lemma {:induction false} PlacedInOrder(groups: Groups, anchors: seq<nat>, p: nat)
    requires NoDuplicates(anchors) && p <= |groups|
    ensures GroupsInOrder(Placed(groups, anchors, p), anchors, groups)
  {
    if p == 0 {
      assert forall j :: 0 <= j < |anchors| ==> anchors[j] in anchors;
    } else {
      var q := p - 1;
      PlacedInOrder(groups, anchors, q);
      if q in anchors {
        PlacedAnchor(groups, anchors, q, p);
      } else {
        PlacedIsMerged(groups, anchors, q);
        var k := PlacedNew(groups, anchors, q, p);
        RightPlaceIsFound(Placed(groups, anchors, q), groups, q, k);
        InsertInOrder(Placed(groups, anchors, q), anchors, groups, q, k);
      }
    }
  }

  // ----- The merge as the code runs it

  lemma {:induction false} PlacedInRange(groups: Groups, anchors: seq<nat>, p: nat)
    requires NoDuplicates(anchors) && p <= |groups|
    requires forall i :: 0 <= i < |anchors| ==> anchors[i] < |groups|
    ensures forall i :: 0 <= i < |Placed(groups, anchors, p)| ==> Placed(groups, anchors, p)[i] < |groups|
  {
    PlacedIsMerged(groups, anchors, p);
    forall i | 0 <= i < |Placed(groups, anchors, p)| ensures Placed(groups, anchors, p)[i] < |groups| {
      assert Placed(groups, anchors, p)[i] in Placed(groups, anchors, p);
    }
  }

  function Merge(catalog: seq<Model>, saved: seq<string>, groups: map<string, string>): seq<Model> {
    var anchors := Anchors(catalog, saved);
    if anchors == [] then catalog else
    AnchorsInRange(catalog, saved);
    PlacedInRange(GroupsOf(catalog, groups), anchors, |catalog|);
    Pick(catalog, Placed(GroupsOf(catalog, groups), anchors, |catalog|))
  }

  function Ids(models: seq<Model>): (r: seq<string>)
    ensures |r| == |models|
  {
    seq(|models|, i requires 0 <= i < |models| => models[i].id)
  }

  method CatalogPositions(catalog: seq<Model>) returns (positions: map<string, nat>)
    requires Distinct(catalog)
    ensures forall key :: PositionOf(catalog, key) == if key in positions then Some(positions[key]) else None
  {
    positions := map[];
    for p := 0 to |catalog|
      invariant forall key :: PositionOf(catalog[..p], key) == if key in positions then Some(positions[key]) else None
    {
      assert catalog[..p + 1][..p] == catalog[..p];
      assert PositionOf(catalog[..p], catalog[p].key).None?;
      positions := positions[catalog[p].key := p];
    }
    assert catalog[..|catalog|] == catalog;
  }

  /** The saved models that the catalog lists, and a flag for each catalog position. */
  method CollectAnchors(catalog: seq<Model>, savedOrder: seq<string>) returns (ordered: seq<nat>, saved: seq<bool>)
    requires Distinct(catalog)
    ensures ordered == Anchors(catalog, savedOrder)
    ensures |saved| == |catalog| && forall p :: 0 <= p < |catalog| ==> (saved[p] <==> p in ordered)
  {
    var positions := CatalogPositions(catalog);
    saved := seq(|catalog|, _ => false);
    ordered := [];
    for k := 0 to |savedOrder|
      invariant ordered == Anchors(catalog, savedOrder[..k])
      invariant |saved| == |catalog| && forall p :: 0 <= p < |catalog| ==> (saved[p] <==> p in ordered)
    {
      assert savedOrder[..k + 1][..k] == savedOrder[..k];
      var key := ModelIdKey(savedOrder[k]);
      if key in positions {
        assert PositionOf(catalog, key) == Some(positions[key]);
        var position := positions[key];
        if !saved[position] {
          saved := saved[position := true];
          ordered := ordered + [position];
        }
      } else {
        assert PositionOf(catalog, key) == None;
      }
    }
    assert savedOrder[..|savedOrder|] == savedOrder;
  }

  /** The place beside the group, if any member is listed. */
  method FindInGroup(ordered: seq<nat>, groups: Groups, p: nat) returns (at: Option<nat>)
    requires p < |groups| && groups[p].Some? && forall i :: 0 <= i < |ordered| ==> ordered[i] < |groups|
    ensures at == if AfterLastMate(ordered, groups, p) == 0 then None else Some(InsertAt(ordered, groups, p))
  {
    at := None;
    FirstLaterMeans(ordered, groups, p, true);
    AfterLastMateMeans(ordered, groups, p);
    for position := 0 to |ordered|
      invariant forall i :: 0 <= i < position ==> !(ordered[i] > p && Mate(groups, p, ordered[i]))
      invariant at.None? ==> forall i :: 0 <= i < position ==> !Mate(groups, p, ordered[i])
      invariant at.Some? ==> 0 < at.value <= position && Mate(groups, p, ordered[at.value - 1])
      invariant at.Some? ==> forall i :: at.value <= i < position ==> !Mate(groups, p, ordered[i])
    {
      if groups[ordered[position]] != groups[p] {
        continue;
      }
      assert Mate(groups, p, ordered[position]);
      if ordered[position] > p {
        return Some(position);
      }
      at := Some(position + 1);
    }
  }

  method FindLater(ordered: seq<nat>, groups: Groups, p: nat) returns (at: Option<nat>)
    requires p < |groups|
    ensures at == if FirstLater(ordered, groups, p, false) == |ordered| then None
                  else Some(FirstLater(ordered, groups, p, false))
  {
    FirstLaterMeans(ordered, groups, p, false);
    for position := 0 to |ordered|
      invariant forall i :: 0 <= i < position ==> ordered[i] <= p
    {
      if ordered[position] > p {
        return Some(position);
      }
    }
    return None;
  }

  method InsertModel(ordered: seq<nat>, groups: Groups, p: nat) returns (after: seq<nat>)
    requires p < |groups| && forall i :: 0 <= i < |ordered| ==> ordered[i] < |groups|
    ensures after == Insert(ordered, InsertAt(ordered, groups, p), p)
  {
    AfterLastMateMeans(ordered, groups, p);
    var at := None;
    if groups[p].Some? {
      at := FindInGroup(ordered, groups, p);
    }
    if at.None? {
      at := FindLater(ordered, groups, p);
    }
    if at.Some? {
      after := ordered[..at.value] + [p] + ordered[at.value..];
    } else {
      assert ordered[..|ordered|] == ordered && ordered[|ordered|..] == [];
      after := ordered + [p];
    }
  }

  method MergeModelDisplayOrder(models: seq<string>, savedOrder: seq<string>, groups: map<string, string>)
    returns (ids: seq<string>)
    ensures ids == Ids(Merge(Normalize(models), savedOrder, groups))
  {
    var catalog := NormalizeModelIds(models);
    DedupeDistinct(IdentifyAll(models));
    if savedOrder == [] {
      return Ids(catalog);
    }
    var ordered, saved := CollectAnchors(catalog, savedOrder);
    if ordered == [] {
      return Ids(catalog);
    }
    ghost var anchors := ordered;
    AnchorsInRange(catalog, savedOrder);
    var modelGroups := GroupsOf(catalog, groups);
    for position := 0 to |catalog|
      invariant ordered == Placed(modelGroups, anchors, position)
    {
      if !saved[position] {
        PlacedInRange(modelGroups, anchors, position);
        ordered := InsertModel(ordered, modelGroups, position);
      }
    }
    PlacedInRange(modelGroups, anchors, |catalog|);
    ids := Ids(Pick(catalog, ordered));
  }

  // ----- What the merge promises about models

  ghost predicate IsPermutation(o: seq<nat>, n: nat) {
    && NoDuplicates(o)
    && (forall i :: 0 <= i < |o| ==> o[i] < n)
    && (forall x: nat :: x < n ==> x in o)
  }

  lemma {:induction false} WithoutLargest(o: seq<nat>, n: nat, k: nat)
    requires IsPermutation(o, n + 1) && k < |o| && o[k] == n
    ensures IsPermutation(o[..k] + o[k + 1..], n)
  {
    var o' := o[..k] + o[k + 1..];
    assert forall i :: 0 <= i < |o'| ==> o'[i] == o[if i < k then i else i + 1];
    forall x: nat | x < n ensures x in o' {
      assert x in o;
      var i :| 0 <= i < |o| && o[i] == x;
      assert o'[if i < k then i else i - 1] == x;
    }
  }

  lemma {:induction false} PickWithout(catalog: seq<Model>, o: seq<nat>, n: nat, k: nat)
    requires |catalog| == n + 1 && IsPermutation(o, n + 1) && k < |o| && o[k] == n
    requires IsPermutation(o[..k] + o[k + 1..], n)
    ensures multiset(Pick(catalog, o)) == multiset(Pick(catalog[..n], o[..k] + o[k + 1..])) + multiset{catalog[n]}
  {
    var r := Pick(catalog, o);
    assert r == r[..k] + [catalog[n]] + r[k + 1..];
    assert Pick(catalog[..n], o[..k] + o[k + 1..]) == r[..k] + r[k + 1..];
  }

  lemma {:induction false} PickPermutation(catalog: seq<Model>, o: seq<nat>)
    requires IsPermutation(o, |catalog|)
    ensures multiset(Pick(catalog, o)) == multiset(catalog)
    decreases |catalog|
  {
    if catalog != [] {
      var n := |catalog| - 1;
      assert n in o;
      var k :| 0 <= k < |o| && o[k] == n;
      WithoutLargest(o, n, k);
      PickWithout(catalog, o, n, k);
      PickPermutation(catalog[..n], o[..k] + o[k + 1..]);
      assert catalog == catalog[..n] + [catalog[n]];
    }
  }

  /** No model is lost, added or repeated. */
  lemma {:induction false} MergeKeepsModels(catalog: seq<Model>, saved: seq<string>, groups: map<string, string>)
    ensures multiset(Merge(catalog, saved, groups)) == multiset(catalog)
  {
    MergeIsPick(catalog, saved, groups);
    PickPermutation(catalog, DisplayOrder(catalog, saved, groups));
  }

  /** Model keys are those of the stored IDs, as in a normalized catalog. */
  ghost predicate Identified(catalog: seq<Model>) {
    forall i :: 0 <= i < |catalog| ==> Identify(catalog[i].id) == catalog[i]
  }

  lemma {:induction false} NormalizeIdentified(texts: seq<string>)
    ensures Identified(Normalize(texts)) && Distinct(Normalize(texts))
  {
    DedupeDistinct(IdentifyAll(texts));
    var source := DedupeKeepsFirst(IdentifyAll(texts));
    forall i | 0 <= i < |Normalize(texts)| ensures Identify(Normalize(texts)[i].id) == Normalize(texts)[i] {
      IdentifyTrimmed(texts[source[i]]);
    }
  }

  /** Saving an order of catalog models makes exactly those positions the anchors. */
  lemma {:induction false} PickFront(catalog: seq<Model>, o: seq<nat>, n: nat)
    requires n <= |o| && forall i :: 0 <= i < |o| ==> o[i] < |catalog|
    ensures Ids(Pick(catalog, o))[..n] == Ids(Pick(catalog, o[..n]))
  {
  }

  lemma {:induction false} PickedKey(catalog: seq<Model>, o: seq<nat>, n: nat)
    requires Identified(catalog) && n < |o| && forall i :: 0 <= i < |o| ==> o[i] < |catalog|
    ensures ModelIdKey(Ids(Pick(catalog, o))[n]) == catalog[o[n]].key
  {
    assert Identify(catalog[o[n]].id) == catalog[o[n]];
  }

  lemma {:induction false} AnchorsNext(catalog: seq<Model>, saved: seq<string>, before: seq<nat>, p: nat)
    requires saved != [] && PositionOf(catalog, ModelIdKey(saved[|saved| - 1])) == Some(p)
    requires before == Anchors(catalog, saved[..|saved| - 1]) && p !in before
    ensures Anchors(catalog, saved) == before + [p]
  {
  }

  lemma {:induction false} LastAnchor(catalog: seq<Model>, o: seq<nat>, saved: seq<string>)
    requires Distinct(catalog) && NoDuplicates(o) && o != [] && o[|o| - 1] < |catalog| && |saved| == |o|
    requires Anchors(catalog, saved[..|o| - 1]) == o[..|o| - 1]
    requires ModelIdKey(saved[|o| - 1]) == catalog[o[|o| - 1]].key
    ensures Anchors(catalog, saved) == o
  {
    var front, last := o[..|o| - 1], o[|o| - 1];
    PositionOfDistinct(catalog, last);
    AnchorsNext(catalog, saved, front, last);
    assert o == front + [last];
  }

  lemma {:induction false} AnchorsOfPick(catalog: seq<Model>, o: seq<nat>)
    requires Identified(catalog) && Distinct(catalog) && NoDuplicates(o)
    requires forall i :: 0 <= i < |o| ==> o[i] < |catalog|
    ensures Anchors(catalog, Ids(Pick(catalog, o))) == o
  {
    if o != [] {
      var n := |o| - 1;
      AnchorsOfPick(catalog, o[..n]);
      PickFront(catalog, o, n);
      PickedKey(catalog, o, n);
      LastAnchor(catalog, o, Ids(Pick(catalog, o)));
    }
  }

  lemma {:induction false} AllSavedStays(groups: Groups, o: seq<nat>, p: nat)
    requires p <= |groups| && forall x: nat :: x < |groups| ==> x in o
    ensures Placed(groups, o, p) == o
  {
    if p > 0 {
      AllSavedStays(groups, o, p - 1);
    }
  }

  /** The positions a merge displays, in order. */
  function DisplayOrder(catalog: seq<Model>, saved: seq<string>, groups: map<string, string>): seq<nat> {
    var anchors := Anchors(catalog, saved);
    if anchors == [] then seq(|catalog|, i => i) else Placed(GroupsOf(catalog, groups), anchors, |catalog|)
  }

  lemma {:induction false} MergeIsPick(catalog: seq<Model>, saved: seq<string>, groups: map<string, string>)
    ensures IsPermutation(DisplayOrder(catalog, saved, groups), |catalog|)
    ensures Merge(catalog, saved, groups) == Pick(catalog, DisplayOrder(catalog, saved, groups))
  {
    var o := DisplayOrder(catalog, saved, groups);
    if Anchors(catalog, saved) == [] {
      forall x: nat | x < |catalog| ensures x in o {
        assert o[x] == x;
      }
    } else {
      AnchorsInRange(catalog, saved);
      PlacedIsMerged(GroupsOf(catalog, groups), Anchors(catalog, saved), |catalog|);
      PlacedInRange(GroupsOf(catalog, groups), Anchors(catalog, saved), |catalog|);
    }
  }

  /** Saving what is displayed and merging again changes nothing. */
  lemma {:induction false} MergeIsStable(texts: seq<string>, saved: seq<string>, groups: map<string, string>)
    ensures var catalog := Normalize(texts);
      var shown := Merge(catalog, saved, groups);
      Merge(catalog, Ids(shown), groups) == shown
  {
    var catalog := Normalize(texts);
    var o := DisplayOrder(catalog, saved, groups);
    NormalizeIdentified(texts);
    MergeIsPick(catalog, saved, groups);
    AnchorsOfPick(catalog, o);
    AllSavedStays(GroupsOf(catalog, groups), o, |catalog|);
    assert catalog != [] ==> 0 in o;
  }

  /** The merged order with groups: saved models in saved order, each new one in its right place, and before it no
      later member of its group. */
  lemma {:induction false} MergeWithGroups(catalog: seq<Model>, saved: seq<string>, groups: map<string, string>,
                                           o: seq<nat>)
    requires Anchors(catalog, saved) != []
    ensures IsGroupedOrder(o, Anchors(catalog, saved), GroupsOf(catalog, groups))
      <==> o == DisplayOrder(catalog, saved, groups)
    ensures GroupsInOrder(DisplayOrder(catalog, saved, groups), Anchors(catalog, saved), GroupsOf(catalog, groups))
  {
    AnchorsInRange(catalog, saved);
    GroupedOrderIsUnique(GroupsOf(catalog, groups), Anchors(catalog, saved), o);
    PlacedInOrder(GroupsOf(catalog, groups), Anchors(catalog, saved), |catalog|);
  }

  /** Two models are of one group exactly if both keys have it. */
  lemma {:induction false} MatesShareGroup(catalog: seq<Model>, groups: map<string, string>, p: nat, q: nat)
    requires p < |catalog| && q < |catalog|
    ensures Mate(GroupsOf(catalog, groups), p, q)
      <==> catalog[p].key in groups && catalog[q].key in groups && groups[catalog[p].key] == groups[catalog[q].key]
  {
    assert GroupsOf(catalog, groups)[p].Some? <==> catalog[p].key in groups;
    assert GroupsOf(catalog, groups)[q].Some? <==> catalog[q].key in groups;
  }

  // ----- What is listed

  /** Not blank, and no earlier text has the same letters but for case and outer white space. */
  ghost predicate FirstSpelling(texts: seq<string>, i: nat) {
    && i < |texts| && !AllWhite(texts[i])
    && forall h :: 0 <= h < i ==> !SameLetters(Trim(texts[h]), Trim(texts[i]))
  }

  lemma {:induction false} MentionIsSpelling(texts: seq<string>, i: nat)
    ensures FirstMention(IdentifyAll(texts), i) <==> FirstSpelling(texts, i)
  {
    var models := IdentifyAll(texts);
    if i < |texts| {
      TrimEmptyIff(texts[i]);
      forall h | 0 <= h < i
        ensures models[h].key == models[i].key <==> SameLetters(Trim(texts[h]), Trim(texts[i]))
      {
        SameKeyIff(texts[h], texts[i]);
      }
    }
  }

  /** The stored list holds, in order, exactly the first spellings, without the white space around them. */
  lemma {:induction false} NormalizeLists(texts: seq<string>) returns (source: seq<nat>)
    ensures |source| == |Ids(Normalize(texts))| && Increasing(source)
    ensures forall i: nat :: i in source <==> FirstSpelling(texts, i)
    ensures forall j :: 0 <= j < |source| ==> source[j] < |texts| && Ids(Normalize(texts))[j] == Trim(texts[source[j]])
  {
    source := DedupeKeepsFirst(IdentifyAll(texts));
    forall i: nat ensures FirstMention(IdentifyAll(texts), i) <==> FirstSpelling(texts, i) {
      MentionIsSpelling(texts, i);
    }
  }

  // ----- Which models are anchors

  /** The first saved entry with this key. */
  ghost predicate FirstSaved(saved: seq<string>, h: nat, key: string) {
    && h < |saved| && ModelIdKey(saved[h]) == key
    && forall g :: 0 <= g < h ==> ModelIdKey(saved[g]) != key
  }

  ghost predicate AnchorSource(catalog: seq<Model>, saved: seq<string>, anchors: seq<nat>, source: seq<nat>) {
    && |source| == |anchors| && Increasing(source)
    && (forall i :: 0 <= i < |anchors| ==>
          anchors[i] < |catalog| && FirstSaved(saved, source[i], catalog[anchors[i]].key))
    && (forall h, p :: 0 <= p < |catalog| && 0 <= h < |saved| && ModelIdKey(saved[h]) == catalog[p].key ==>
          p in anchors)
  }

  lemma {:induction false} SavedAgain(catalog: seq<Model>, front: seq<string>, last: string, anchors: seq<nat>,
                                      source: seq<nat>)
    requires AnchorSource(catalog, front, anchors, source)
    requires forall p :: 0 <= p < |catalog| && catalog[p].key == ModelIdKey(last) ==> p in anchors
    ensures AnchorSource(catalog, front + [last], anchors, source)
  {
    var saved := front + [last];
    forall i | 0 <= i < |anchors| ensures FirstSaved(saved, source[i], catalog[anchors[i]].key) {
      assert FirstSaved(front, source[i], catalog[anchors[i]].key);
    }
    forall h, p | 0 <= p < |catalog| && 0 <= h < |saved| && ModelIdKey(saved[h]) == catalog[p].key
      ensures p in anchors
    {
      assert h < |front| ==> saved[h] == front[h];
    }
  }

  lemma {:induction false} SavedFirst(catalog: seq<Model>, front: seq<string>, last: string, anchors: seq<nat>,
                                      source: seq<nat>, q: nat)
    requires AnchorSource(catalog, front, anchors, source) && Distinct(catalog)
    requires q < |catalog| && q !in anchors && catalog[q].key == ModelIdKey(last)
    ensures AnchorSource(catalog, front + [last], anchors + [q], source + [|front|])
  {
    var saved := front + [last];
    forall i | 0 <= i < |anchors|
      ensures FirstSaved(saved, source[i], catalog[anchors[i]].key) && source[i] < |front|
    {
      assert FirstSaved(front, source[i], catalog[anchors[i]].key);
    }
    assert forall g :: 0 <= g < |front| ==> saved[g] == front[g];
    forall h, p | 0 <= p < |catalog| && 0 <= h < |saved| && ModelIdKey(saved[h]) == catalog[p].key
      ensures p in anchors + [q]
    {
      assert h < |front| ==> saved[h] == front[h];
    }
  }

  /** The anchors are exactly the saved models that the catalog lists, in the order of their first mention. */
  lemma {:induction false} AnchorsMean(catalog: seq<Model>, saved: seq<string>) returns (source: seq<nat>)
    requires Distinct(catalog)
    ensures AnchorSource(catalog, saved, Anchors(catalog, saved), source)
  {
    if saved == [] {
      return [];
    }
    var front, last := saved[..|saved| - 1], saved[|saved| - 1];
    assert saved == front + [last];
    source := AnchorsMean(catalog, front);
    match PositionOf(catalog, ModelIdKey(last))
    case None =>
      SavedAgain(catalog, front, last, Anchors(catalog, front), source);
    case Some(p) =>
      if p in Anchors(catalog, front) {
        SavedAgain(catalog, front, last, Anchors(catalog, front), source);
      } else {
        SavedFirst(catalog, front, last, Anchors(catalog, front), source, p);
        source := source + [|front|];
      }
  }

  /** Models have the same key exactly if they differ in white space around them and in the case of letters only. */
  lemma {:induction false} SameKeyIff(a: string, b: string)
    ensures ModelIdKey(a) == ModelIdKey(b)
      <==> SameLetters(Trim(a), Trim(b))
  {
    LowerSame(Trim(a), Trim(b));
  }

  /** Without groups: saved models in saved order, new models in catalog order, and before a new
      model only models from earlier in the catalog. */
  lemma {:induction false} MergeWithoutGroups(catalog: seq<Model>, saved: seq<string>)
    requires Anchors(catalog, saved) != []
    ensures IsMergedOrder(DisplayOrder(catalog, saved, map[]), Anchors(catalog, saved), |catalog|)
    ensures forall o :: IsMergedOrder(o, Anchors(catalog, saved), |catalog|) ==>
      o == DisplayOrder(catalog, saved, map[])
  {
    AnchorsInRange(catalog, saved);
    forall o
      ensures IsMergedOrder(o, Anchors(catalog, saved), |catalog|) <==> o == DisplayOrder(catalog, saved, map[])
    {
      MergedOrderIsUnique(GroupsOf(catalog, map[]), Anchors(catalog, saved), o);
    }
  }
}
