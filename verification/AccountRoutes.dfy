/** Groups of connections that reach the same account (crates/relay-core/src/accounts/routes.rs),
    and the commands that change them (src-tauri/src/local_pool/commands/account_routes.rs). */
module AccountRoutes {
  import opened Basics
  import opened Text

  datatype Kind = Codex | Siwc | ExcelBps

  /** Facts from the protected grant of a connection. */
  datatype Identity = Identity(kind: Kind, account: Option<string>, user: Option<string>, email: Option<string>)

  type Id = string

  datatype Group = Group(ids: seq<Id>, selected: Id, notes: Option<Id>)

  datatype Error =
    | SameKind | OtherOwner                                   // checking a connection
    | InvalidGroups                                           // checking the groups
    | RouteChanged | AlreadyAssociated | NotInGroup           // selecting
    | NotFound | StillSelected                                // detaching
    | Unavailable                                             // the accounts themselves

  datatype Result<T> = Ok(value: T) | Err(error: Error)

  // ----- Owners

  predicate SameOwner(a: Identity, b: Identity) {
    if a.kind == b.kind then false
    else if a.kind != Siwc && b.kind != Siwc then
      a.account.Some? && a.account == b.account && a.user.Some? && a.user == b.user
    else
      && a.email.Some? && b.email.Some?
      && Trim(a.email.value) != "" && ToAsciiLower(Trim(a.email.value)) == ToAsciiLower(Trim(b.email.value))
  }

  lemma {:induction false} SameOwnerSymmetric(a: Identity, b: Identity)
    ensures SameOwner(a, b) == SameOwner(b, a)
  {
    if a.email.Some? && b.email.Some? && ToAsciiLower(Trim(a.email.value)) == ToAsciiLower(Trim(b.email.value)) {
      assert |Trim(a.email.value)| == |Trim(b.email.value)|;
    }
  }

  ghost predicate SameWorkspaceUser(a: Identity, b: Identity) {
    exists w, u :: a.account == Some(w) && b.account == Some(w) && a.user == Some(u) && b.user == Some(u)
  }

  ghost predicate SameMailbox(a: Identity, b: Identity) {
    exists x, y :: a.email == Some(x) && b.email == Some(y) && !AllWhite(x) && SameLetters(Trim(x), Trim(y))
  }

  /** Connections of two kinds are of one owner by workspace and user, or, if one is an e-mail sign-in, by address. */
  lemma {:induction false} SameOwnerIff(a: Identity, b: Identity)
    ensures SameOwner(a, b)
      <==> || ({a.kind, b.kind} == {Codex, ExcelBps} && SameWorkspaceUser(a, b))
           || (a.kind != b.kind && Siwc in {a.kind, b.kind} && SameMailbox(a, b))
  {
    if a.email.Some? && b.email.Some? {
      TrimEmptyIff(a.email.value);
      LowerSame(Trim(a.email.value), Trim(b.email.value));
    }
  }

  /** An e-mail address may connect two workspaces that are not the same owner. */
  lemma {:induction false} SameOwnerNotTransitive()
    ensures exists a, b, c :: SameOwner(a, b) && SameOwner(b, c) && a.kind != c.kind && !SameOwner(a, c)
  {
    var e := Some("o");
    var a := Identity(Codex, Some("w"), Some("u"), e);
    var b := Identity(Siwc, Some("s"), Some("u"), e);
    var c := Identity(ExcelBps, Some("x"), Some("u"), e);
    TrimFixed("o");
    assert !IsWhitespace("o"[0]);
    assert SameOwner(a, b) && SameOwner(b, c) && !SameOwner(a, c);
  }

  /** Connection `k` is the first that is not the candidate's owner's, for this reason. */
  ghost predicate FirstStranger(connections: seq<Identity>, candidate: Identity, k: nat, why: Error) {
    && k < |connections| && !SameOwner(connections[k], candidate)
    && (forall j :: 0 <= j < k ==> SameOwner(connections[j], candidate))
    && why == if connections[k].kind == candidate.kind then SameKind else OtherOwner
  }

  method ValidateConnection(connections: seq<Identity>, candidate: Identity) returns (r: Result<()>)
    ensures r.Ok? <==> forall c :: c in connections ==> SameOwner(c, candidate)
    ensures r.Err? ==> exists k :: FirstStranger(connections, candidate, k, r.error)
  {
    for k := 0 to |connections|
      invariant forall j :: 0 <= j < k ==> SameOwner(connections[j], candidate)
    {
      if connections[k].kind == candidate.kind {
        assert FirstStranger(connections, candidate, k, SameKind);
        return Err(SameKind);
      }
      if !SameOwner(connections[k], candidate) {
        assert FirstStranger(connections, candidate, k, OtherOwner);
        return Err(OtherOwner);
      }
    }
    return Ok(());
  }

  // ----- Well-formed groups

  ghost predicate Distinct(ids: seq<Id>) {
    forall i, j :: 0 <= i < j < |ids| ==> ids[i] != ids[j]
  }

  ghost predicate Proper(g: Group) {
    && 2 <= |g.ids| <= 3 && Distinct(g.ids) && "" !in g.ids
    && g.selected in g.ids && (g.notes.Some? ==> g.notes.value in g.ids)
  }

  ghost predicate Disjoint(g: Group, h: Group) {
    forall id :: id in g.ids ==> id !in h.ids
  }

  ghost predicate Apart(groups: seq<Group>) {
    forall a, b :: 0 <= a < b < |groups| ==> Disjoint(groups[a], groups[b])
  }

  ghost predicate ValidGroups(groups: seq<Group>) {
    Apart(groups) && forall g :: g in groups ==> Proper(g)
  }

  ghost predicate Grouped(groups: seq<Group>, id: Id) {
    exists g :: g in groups && id in g.ids
  }

  lemma {:induction false} ApartAppends(groups: seq<Group>, g: Group)
    ensures Apart(groups + [g]) <==> Apart(groups) && forall h :: h in groups ==> Disjoint(h, g)
  {
    var more := groups + [g];
    if Apart(more) {
      assert forall a :: 0 <= a < |groups| ==> more[a] == groups[a] && Disjoint(more[a], more[|groups|]);
    }
  }

  /** Checks the ids of one group against those seen so far. */
  method InsertIds(seen: set<Id>, ids: seq<Id>) returns (ok: bool, all: set<Id>)
    ensures ok <==> "" !in ids && Distinct(ids) && forall id :: id in ids ==> id !in seen
    ensures ok ==> forall id :: id in all <==> id in seen || id in ids
  {
    all := seen;
    for i := 0 to |ids|
      invariant "" !in ids[..i] && Distinct(ids[..i]) && forall id :: id in ids[..i] ==> id !in seen
      invariant forall id :: id in all <==> id in seen || id in ids[..i]
    {
      assert ids[..i + 1] == ids[..i] + [ids[i]];
      if ids[i] == "" || ids[i] in all {
        return false, all;
      }
      all := all + {ids[i]};
    }
    assert ids[..|ids|] == ids;
    ok := true;
  }

  method ValidateGroups(groups: seq<Group>) returns (ok: bool)
    ensures ok <==> ValidGroups(groups)
  {
    var seen: set<Id> := {};
    for n := 0 to |groups|
      invariant ValidGroups(groups[..n])
      invariant forall id :: id in seen <==> Grouped(groups[..n], id)
    {
      var g := groups[n];
      assert groups[..n + 1] == groups[..n] + [g];
      GroupAppends(groups[..n], g);
      if !(2 <= |g.ids| <= 3) || g.selected !in g.ids || (g.notes.Some? && g.notes.value !in g.ids) {
        return false;
      }
      var fine;
      fine, seen := InsertIds(seen, g.ids);
      if !fine {
        return false;
      }
    }
    assert groups[..|groups|] == groups;
    ok := true;
  }

  lemma {:induction false} GroupAppends(groups: seq<Group>, g: Group)
    ensures ValidGroups(groups + [g]) <==>
      ValidGroups(groups) && Proper(g) && forall id :: id in g.ids ==> !Grouped(groups, id)
    ensures forall id :: Grouped(groups + [g], id) <==> Grouped(groups, id) || id in g.ids
  {
    ApartAppends(groups, g);
    assert g in groups + [g];
    assert forall h :: h in groups + [g] <==> h in groups || h == g;
  }

  // ----- Sound groups

  /** All connections of a group reach the same owner, pairwise. */
  ghost predicate Akin(identity: Id -> Identity, ids: seq<Id>) {
    forall i, j :: 0 <= i < j < |ids| ==> SameOwner(identity(ids[i]), identity(ids[j]))
  }

  ghost predicate Sound(identity: Id -> Identity, groups: seq<Group>) {
    ValidGroups(groups) && forall g :: g in groups ==> Akin(identity, g.ids)
  }

  /** Members of a group are of different kinds, so three kinds bound it at three. */
  lemma {:induction false} AkinBound(identity: Id -> Identity, ids: seq<Id>)
    requires Akin(identity, ids)
    ensures |ids| <= 3
    ensures forall i, j :: 0 <= i < j < |ids| ==> identity(ids[i]).kind != identity(ids[j]).kind
  {
    if |ids| > 3 {
      FourKinds(identity(ids[0]).kind, identity(ids[1]).kind, identity(ids[2]).kind, identity(ids[3]).kind);
      assert false;
    }
  }

  lemma {:induction false} FourKinds(a: Kind, b: Kind, c: Kind, d: Kind)
    ensures a == b || a == c || a == d || b == c || b == d || c == d
  {
  }

  lemma {:induction false} AkinAppends(identity: Id -> Identity, ids: seq<Id>, next: Id)
    ensures Akin(identity, ids + [next]) <==>
      Akin(identity, ids) && forall id :: id in ids ==> SameOwner(identity(id), identity(next))
  {
    var more := ids + [next];
    if Akin(identity, more) {
      assert forall i :: 0 <= i < |ids| ==> more[i] == ids[i] && SameOwner(identity(more[i]), identity(more[|ids|]));
    }
  }

  // ----- Choosing and changing groups

  /** The first group that holds an id. */
  function Find(groups: seq<Group>, id: Id): (r: Option<Group>)
    ensures r.Some? ==> r.value in groups && id in r.value.ids
    ensures r.None? ==> !Grouped(groups, id)
  {
    if groups == [] then None
    else if id in groups[0].ids then Some(groups[0])
    else
      assert forall g :: g in groups <==> g == groups[0] || g in groups[1..];
      Find(groups[1..], id)
  }

  function SelectGroup(groups: seq<Group>, current: Id, next: Id, attach: bool): (r: Result<Group>) {
    var existing := Find(groups, current);
    if existing.Some? && existing.value.selected != current then Err(RouteChanged) else
    var group := if existing.Some? then existing.value else Group([current], current, None);
    if attach then
      if Find(groups, next).Some? || next in group.ids then Err(AlreadyAssociated)
      else Ok(group.(ids := group.ids + [next], selected := next))
    else if next !in group.ids then Err(NotInGroup)
    else Ok(group.(selected := next))
  }

  /** The groups that do not hold an id, in order. */
  function Without(groups: seq<Group>, id: Id): (r: seq<Group>)
    ensures forall g :: g in r <==> g in groups && id !in g.ids
  {
    if groups == [] then [] else
    var last := groups[|groups| - 1];
    var front := groups[..|groups| - 1];
    assert groups == front + [last];
    if id in last.ids then Without(front, id) else Without(front, id) + [last]
  }

  lemma {:induction false} WithoutSound(identity: Id -> Identity, groups: seq<Group>, id: Id)
    requires Sound(identity, groups)
    ensures Sound(identity, Without(groups, id))
  {
    if groups != [] {
      var front, last := groups[..|groups| - 1], groups[|groups| - 1];
      assert groups == front + [last];
      GroupAppends(front, last);
      WithoutSound(identity, front, id);
      GroupAppends(Without(front, id), last);
      assert last in groups;
    }
  }

  /** In apart groups, an id is in one group only. */
  lemma {:induction false} OneGroup(groups: seq<Group>, g: Group, h: Group, id: Id)
    requires Apart(groups) && g in groups && h in groups && id in g.ids && id in h.ids
    ensures g == h
  {
    var a :| 0 <= a < |groups| && groups[a] == g;
    var b :| 0 <= b < |groups| && groups[b] == h;
  }

  // ----- The commands

  /** Selecting a route, the groups then being replaced and checked. */
  method SelectRecords(groups: seq<Group>, current: Id, next: Id, attach: bool) returns (r: Result<seq<Group>>)
    ensures var chosen := SelectGroup(groups, current, next, attach);
            if chosen.Err? then r == Err(chosen.error)
            else
              var changed := Without(groups, current) + [chosen.value];
              r == if ValidGroups(changed) then Ok(changed) else Err(InvalidGroups)
  {
    var chosen := SelectGroup(groups, current, next, attach);
    if chosen.Err? {
      return Err(chosen.error);
    }
    var changed := Without(groups, current) + [chosen.value];
    var valid := ValidateGroups(changed);
    return if valid then Ok(changed) else Err(InvalidGroups);
  }

  /** Selecting another member of the group keeps the groups sound and their members. */
  lemma {:induction false} SelectKeeps(identity: Id -> Identity, groups: seq<Group>, current: Id, next: Id)
    requires Sound(identity, groups) && SelectGroup(groups, current, next, false).Ok? && current != next
    ensures var changed := Without(groups, current) + [SelectGroup(groups, current, next, false).value];
            Sound(identity, changed) && forall id :: Grouped(changed, id) <==> Grouped(groups, id)
  {
    var existing := Find(groups, current).value;
    var chosen := SelectGroup(groups, current, next, false).value;
    var rest := Without(groups, current);
    WithoutSound(identity, groups, current);
    RestApart(groups, existing, current);
    GroupAppends(rest, chosen);
  }

  /** Group `k` may give its selected route to another of its members. */
  ghost predicate MaySelect(groups: seq<Group>, k: nat, current: Id, next: Id) {
    k < |groups| && current in groups[k].ids && groups[k].selected == current && next in groups[k].ids
  }

  /** Everything but group `k` is as before, and that one comes last. */
  ghost predicate Moved(before: seq<Group>, after: seq<Group>, k: nat, g: Group) {
    k < |before| && after == before[..k] + before[k + 1..] + [g]
  }

  /** Only group `k` holds the id. */
  ghost predicate OnlyIn(groups: seq<Group>, k: int, id: Id) {
    forall j :: 0 <= j < |groups| ==> (id in groups[j].ids <==> j == k)
  }

  lemma {:induction false} WithoutNone(groups: seq<Group>, id: Id)
    requires forall j :: 0 <= j < |groups| ==> id !in groups[j].ids
    ensures Without(groups, id) == groups
  {
    if groups != [] {
      var front, last := groups[..|groups| - 1], groups[|groups| - 1];
      WithoutNone(front, id);
      WithoutLast(groups, front, last, id);
      Rejoined(groups, front, last);
    }
  }

  lemma {:induction false} Rejoined(groups: seq<Group>, front: seq<Group>, last: Group)
    requires groups != [] && front == groups[..|groups| - 1] && last == groups[|groups| - 1]
    ensures groups == front + [last]
    ensures forall k: nat :: k < |front| ==> front[..k] + front[k + 1..] + [last] == groups[..k] + groups[k + 1..]
  {
  }

  lemma {:induction false} WithoutLast(groups: seq<Group>, front: seq<Group>, last: Group, id: Id)
    requires groups != [] && front == groups[..|groups| - 1] && last == groups[|groups| - 1]
    ensures Without(groups, id) == if id in last.ids then Without(front, id) else Without(front, id) + [last]
  {
  }

  lemma {:induction false} WithoutOne(groups: seq<Group>, id: Id, k: nat)
    requires k < |groups| && OnlyIn(groups, k, id)
    ensures Without(groups, id) == groups[..k] + groups[k + 1..]
  {
    var front, last := groups[..|groups| - 1], groups[|groups| - 1];
    WithoutLast(groups, front, last, id);
    if k == |front| {
      WithoutNone(front, id);
      assert groups[..k] + groups[k + 1..] == front;
    } else {
      WithoutOne(front, id, k);
      Rejoined(groups, front, last);
    }
  }

  lemma {:induction false} ApartOnlyIn(groups: seq<Group>, id: Id, k: nat)
    requires Apart(groups) && k < |groups| && id in groups[k].ids
    ensures OnlyIn(groups, k, id)
  {
    forall j | 0 <= j < |groups| ensures id in groups[j].ids <==> j == k {
      assert j < k ==> Disjoint(groups[j], groups[k]);
      assert k < j ==> Disjoint(groups[k], groups[j]);
    }
  }

  /** Selecting another member does just that: the group keeps its ids and notes. */
  lemma {:induction false} SelectMeans(groups: seq<Group>, current: Id, next: Id)
    requires Apart(groups) && current != next
    ensures SelectGroup(groups, current, next, false).Ok? <==> exists k: nat :: MaySelect(groups, k, current, next)
    ensures forall k: nat :: MaySelect(groups, k, current, next) ==>
      SelectGroup(groups, current, next, false) == Ok(Group(groups[k].ids, next, groups[k].notes))
      && Without(groups, current) == groups[..k] + groups[k + 1..]
  {
    var found := Find(groups, current);
    if found.Some? {
      var i :| 0 <= i < |groups| && groups[i] == found.value;
      assert SelectGroup(groups, current, next, false).Ok? ==> MaySelect(groups, i, current, next);
    }
    forall k: nat | MaySelect(groups, k, current, next)
      ensures found == Some(groups[k]) && Without(groups, current) == groups[..k] + groups[k + 1..]
    {
      assert groups[k] in groups && Grouped(groups, current);
      OneGroup(groups, groups[k], found.value, current);
      ApartOnlyIn(groups, current, k);
      WithoutOne(groups, current, k);
    }
  }

  /** What is left after taking a group out, by one of its ids. */
  lemma {:induction false} RestApart(groups: seq<Group>, g: Group, id: Id)
    requires Apart(groups) && g in groups && id in g.ids
    ensures forall h :: h in groups <==> h == g || h in Without(groups, id)
    ensures forall x :: x in g.ids ==> !Grouped(Without(groups, id), x)
    ensures forall x :: Grouped(groups, x) <==> x in g.ids || Grouped(Without(groups, id), x)
  {
    forall h | h in groups && id in h.ids ensures h == g {
      OneGroup(groups, g, h, id);
    }
    forall x | x in g.ids ensures !Grouped(Without(groups, id), x) {
      forall h | h in Without(groups, id) ensures x !in h.ids {
        if x in h.ids {
          OneGroup(groups, g, h, x);
          assert false;
        }
      }
    }
  }

  /** Whether a connection may join the group of `current`. */
  ghost predicate Attachable(identity: Id -> Identity, groups: seq<Group>, current: Id, next: Id) {
    && next != "" && current != "" && next != current
    && !Grouped(groups, next)
    && SameOwner(identity(current), identity(next))
    && forall g :: g in groups && current in g.ids ==>
         g.selected == current && forall id :: id in g.ids ==> SameOwner(identity(id), identity(next))
  }

  /** The connections that a new one is checked against. */
  function Connections(groups: seq<Group>, account: Id): seq<Id> {
    var group := Find(groups, account);
    if group.Some? then group.value.ids else [account]
  }

  function Noted(g: Group, preferred: Id): Group {
    if g.notes.Some? then g else g.(notes := Some(preferred))
  }

  /** Gives the group with the selected route its notes, unless it has some. */
  function SetNotes(groups: seq<Group>, selected: Id, preferred: Id): seq<Group> {
    if groups == [] then []
    else if groups[0].selected == selected then [Noted(groups[0], preferred)] + groups[1..]
    else [groups[0]] + SetNotes(groups[1..], selected, preferred)
  }

  lemma {:induction false} SetNotesLast(rest: seq<Group>, g: Group, preferred: Id)
    requires forall h :: h in rest ==> h.selected != g.selected
    ensures SetNotes(rest + [g], g.selected, preferred) == rest + [Noted(g, preferred)]
  {
    if rest != [] {
      assert (rest + [g])[1..] == rest[1..] + [g];
      assert forall h :: h in rest[1..] ==> h in rest;
      assert rest[0] in rest;
      SetNotesLast(rest[1..], g, preferred);
    }
  }

  /** The groups after attaching `next` to the group of `current`. */
  function Joined(groups: seq<Group>, current: Id, next: Id, preferred: Id): seq<Group> {
    var group := Find(groups, current);
    var members := Connections(groups, current) + [next];
    Without(groups, current)
      + [Noted(Group(members, next, if group.Some? then group.value.notes else None), preferred)]
  }

  /** Taking out the group of an account, or nothing if it has none. */
  lemma {:induction false} TakenOut(identity: Id -> Identity, groups: seq<Group>, account: Id)
    requires Sound(identity, groups)
    ensures Sound(identity, Without(groups, account)) && Akin(identity, Connections(groups, account))
    ensures forall x :: x in Connections(groups, account) ==> !Grouped(Without(groups, account), x)
    ensures forall x :: x in Connections(groups, account) || Grouped(Without(groups, account), x)
                        <==> x == account || Grouped(groups, x)
  {
    WithoutSound(identity, groups, account);
    var group := Find(groups, account);
    if group.Some? {
      RestApart(groups, group.value, account);
    } else {
      assert forall x :: Grouped(Without(groups, account), x) <==> Grouped(groups, x);
    }
  }

  /** The group with a connection added is proper and of one owner. */
  lemma {:induction false} JoinedGroup(identity: Id -> Identity, groups: seq<Group>, current: Id, next: Id)
    requires Sound(identity, groups) && Attachable(identity, groups, current, next)
    ensures SelectGroup(groups, current, next, true).Ok?
    ensures var g := SelectGroup(groups, current, next, true).value;
            && g.ids == Connections(groups, current) + [next] && g.selected == next
            && Proper(g) && Akin(identity, g.ids)
  {
    var members := Connections(groups, current);
    AkinAppends(identity, members, next);
    AkinBound(identity, members + [next]);
    assert Akin(identity, members + [next]);
  }

  lemma {:induction false} JoinedSound(identity: Id -> Identity, groups: seq<Group>, current: Id, next: Id,
                                       preferred: Id)
    requires Sound(identity, groups) && Attachable(identity, groups, current, next)
    requires preferred == current || preferred == next
    ensures Sound(identity, Joined(groups, current, next, preferred))
  {
    TakenOut(identity, groups, current);
    JoinedGroup(identity, groups, current, next);
    var g := SelectGroup(groups, current, next, true).value;
    SoundAppends(identity, Without(groups, current), Noted(g, preferred));
  }

  lemma {:induction false} SoundAppends(identity: Id -> Identity, groups: seq<Group>, g: Group)
    requires Sound(identity, groups) && Proper(g) && Akin(identity, g.ids)
    requires forall id :: id in g.ids ==> !Grouped(groups, id)
    ensures Sound(identity, groups + [g])
  {
    GroupAppends(groups, g);
  }

  /** Attaching adds the connection, and the account if it had no group, to the grouped ids. */
  lemma {:induction false} JoinedMembers(identity: Id -> Identity, groups: seq<Group>, current: Id, next: Id,
                                         preferred: Id)
    requires Sound(identity, groups) && Attachable(identity, groups, current, next)
    ensures forall id :: Grouped(Joined(groups, current, next, preferred), id)
                         <==> Grouped(groups, id) || id == current || id == next
  {
    var rest, joined := Without(groups, current), Joined(groups, current, next, preferred);
    var last := joined[|rest|];
    TakenOut(identity, groups, current);
    assert joined == rest + [last] && last.ids == Connections(groups, current) + [next];
    GroupAppends(rest, last);
  }

  /** The notes stay where they are; without any they go where the caller prefers. */
  function NotesOf(g: Group, preferred: Id): Option<Id> {
    if g.notes.Some? then g.notes else Some(preferred)
  }

  /** Attaching makes the connection the last and selected one of the account's group, or of a new pair. */
  lemma {:induction false} JoinedMeans(groups: seq<Group>, current: Id, next: Id, preferred: Id)
    requires Apart(groups)
    ensures forall k: nat :: k < |groups| && current in groups[k].ids ==>
      Moved(groups, Joined(groups, current, next, preferred), k,
            Group(groups[k].ids + [next], next, NotesOf(groups[k], preferred)))
    ensures !Grouped(groups, current) ==>
      Joined(groups, current, next, preferred) == groups + [Group([current, next], next, Some(preferred))]
  {
    forall k: nat | k < |groups| && current in groups[k].ids
      ensures Find(groups, current) == Some(groups[k]) && Without(groups, current) == groups[..k] + groups[k + 1..]
    {
      assert groups[k] in groups && Grouped(groups, current);
      OneGroup(groups, groups[k], Find(groups, current).value, current);
      ApartOnlyIn(groups, current, k);
      WithoutOne(groups, current, k);
    }
    if !Grouped(groups, current) {
      assert forall j :: 0 <= j < |groups| ==> groups[j] in groups;
      WithoutNone(groups, current);
      assert [current] + [next] == [current, next];
    }
  }

  // ----- Detaching

  function Removed(ids: seq<Id>, id: Id): (r: seq<Id>)
    ensures forall x :: x in r <==> x in ids && x != id
    ensures |r| <= |ids|
  {
    if ids == [] then [] else
    var last := ids[|ids| - 1];
    var front := ids[..|ids| - 1];
    assert ids == front + [last];
    if last == id then Removed(front, id) else Removed(front, id) + [last]
  }

  lemma {:induction false} RemovedKeeps(identity: Id -> Identity, ids: seq<Id>, id: Id)
    requires Distinct(ids) && Akin(identity, ids)
    ensures Distinct(Removed(ids, id)) && Akin(identity, Removed(ids, id))
    ensures |Removed(ids, id)| == if id in ids then |ids| - 1 else |ids|
  {
    if ids != [] {
      var last, front := ids[|ids| - 1], ids[..|ids| - 1];
      assert ids == front + [last];
      AkinAppends(identity, front, last);
      RemovedKeeps(identity, front, id);
      AkinAppends(identity, Removed(front, id), last);
      assert forall x :: x in front ==> x != last;
    }
  }

  function Shrunk(g: Group, connection: Id): Group {
    g.(ids := Removed(g.ids, connection), notes := if g.notes == Some(connection) then None else g.notes)
  }

  /** The groups with more than one member, in order. */
  function Kept(groups: seq<Group>): (r: seq<Group>)
    ensures forall g :: g in r <==> g in groups && |g.ids| > 1
  {
    if groups == [] then [] else
    var last := groups[|groups| - 1];
    var front := groups[..|groups| - 1];
    assert groups == front + [last];
    if |last.ids| > 1 then Kept(front) + [last] else Kept(front)
  }

  lemma {:induction false} KeptApart(groups: seq<Group>)
    requires Apart(groups)
    ensures Apart(Kept(groups))
  {
    if groups != [] {
      var front, last := groups[..|groups| - 1], groups[|groups| - 1];
      assert groups == front + [last];
      ApartAppends(front, last);
      KeptApart(front);
      ApartAppends(Kept(front), last);
    }
  }

  predicate IsRoute(g: Group, account: Id, connection: Id) {
    g.selected == account && connection in g.ids
  }

  /** Detaching from group `k`. */
  function Detached(groups: seq<Group>, k: nat, connection: Id): seq<Group>
    requires k < |groups|
  {
    Kept(groups[k := Shrunk(groups[k], connection)])
  }

  lemma {:induction false} ShrunkApart(groups: seq<Group>, k: nat, connection: Id)
    requires Apart(groups) && k < |groups|
    ensures Apart(groups[k := Shrunk(groups[k], connection)])
  {
    var changed := groups[k := Shrunk(groups[k], connection)];
    forall a, b | 0 <= a < b < |changed| ensures Disjoint(changed[a], changed[b]) {
      assert Disjoint(groups[a], groups[b]);
    }
  }

  lemma {:induction false} DetachedSound(identity: Id -> Identity, groups: seq<Group>, k: nat, connection: Id)
    requires Sound(identity, groups) && k < |groups|
    requires connection in groups[k].ids && groups[k].selected != connection
    ensures Sound(identity, Detached(groups, k, connection))
  {
    var changed := groups[k := Shrunk(groups[k], connection)];
    assert groups[k] in groups;
    RemovedKeeps(identity, groups[k].ids, connection);
    ShrunkApart(groups, k, connection);
    KeptApart(changed);
    forall g | g in Kept(changed) ensures Proper(g) && Akin(identity, g.ids) {
      if g != Shrunk(groups[k], connection) {
        assert g in groups;
      }
    }
  }

  lemma {:induction false} RemovedOne(ids: seq<Id>, i: nat)
    requires i < |ids| && forall j :: 0 <= j < |ids| && j != i ==> ids[j] != ids[i]
    ensures Removed(ids, ids[i]) == ids[..i] + ids[i + 1..]
  {
    var front, last := ids[..|ids| - 1], ids[|ids| - 1];
    assert ids == front + [last];
    if i == |front| {
      RemovedNone(front, last);
      assert ids[..i] + ids[i + 1..] == front;
    } else {
      RemovedOne(front, i);
      assert ids[..i] + ids[i + 1..] == front[..i] + front[i + 1..] + [last];
    }
  }

  lemma {:induction false} RemovedNone(ids: seq<Id>, id: Id)
    requires forall j :: 0 <= j < |ids| ==> ids[j] != id
    ensures Removed(ids, id) == ids
  {
    if ids != [] {
      RemovedNone(ids[..|ids| - 1], id);
      assert ids == ids[..|ids| - 1] + [ids[|ids| - 1]];
    }
  }

  lemma {:induction false} KeptLast(groups: seq<Group>, front: seq<Group>, last: Group)
    requires groups != [] && front == groups[..|groups| - 1] && last == groups[|groups| - 1]
    ensures Kept(groups) == if |last.ids| > 1 then Kept(front) + [last] else Kept(front)
  {
  }

  lemma {:induction false} KeptAll(groups: seq<Group>)
    requires forall j :: 0 <= j < |groups| ==> |groups[j].ids| > 1
    ensures Kept(groups) == groups
  {
    if groups != [] {
      var front, last := groups[..|groups| - 1], groups[|groups| - 1];
      KeptAll(front);
      KeptLast(groups, front, last);
      Rejoined(groups, front, last);
    }
  }

  lemma {:induction false} KeptBut(groups: seq<Group>, k: nat)
    requires k < |groups| && forall j :: 0 <= j < |groups| ==> (|groups[j].ids| > 1 <==> j != k)
    ensures Kept(groups) == groups[..k] + groups[k + 1..]
  {
    var front, last := groups[..|groups| - 1], groups[|groups| - 1];
    KeptLast(groups, front, last);
    if k == |front| {
      KeptAll(front);
      assert groups[..k] + groups[k + 1..] == front;
    } else {
      KeptBut(front, k);
      Rejoined(groups, front, last);
    }
  }

  /** The groups without the connection at place `i` of group `k`: a pair goes, and its notes are nobody's. */
  function Parted(groups: seq<Group>, k: nat, i: nat): seq<Group>
    requires k < |groups| && i < |groups[k].ids|
  {
    var g := groups[k];
    if |g.ids| == 2 then groups[..k] + groups[k + 1..]
    else
      var notes := if g.notes == Some(g.ids[i]) then None else g.notes;
      groups[k := Group(g.ids[..i] + g.ids[i + 1..], g.selected, notes)]
  }

  /** Detaching takes the connection out, or ends a pair, and changes nothing else. */
  lemma {:induction false} DetachedMeans(groups: seq<Group>, k: nat, i: nat)
    requires k < |groups| && i < |groups[k].ids| && forall j :: 0 <= j < |groups| ==> Proper(groups[j])
    ensures Detached(groups, k, groups[k].ids[i]) == Parted(groups, k, i)
  {
    var ids := groups[k].ids;
    RemovedOne(ids, i);
    var small := Shrunk(groups[k], ids[i]);
    var changed := groups[k := small];
    if |ids| == 2 {
      KeptBut(changed, k);
      assert changed[..k] + changed[k + 1..] == groups[..k] + groups[k + 1..];
    } else {
      KeptAll(changed);
    }
  }

  ghost predicate IsPlace(groups: seq<Group>, k: nat, i: nat, id: Id) {
    k < |groups| && i < |groups[k].ids| && groups[k].ids[i] == id
  }

  /** There is only one place to take it from. */
  lemma {:induction false} DetachedFrom(groups: seq<Group>, n: nat, connection: Id)
    requires ValidGroups(groups) && n < |groups| && connection in groups[n].ids
    ensures forall k: nat, i: nat :: IsPlace(groups, k, i, connection) ==>
      Detached(groups, n, connection) == Parted(groups, k, i)
  {
    ApartOnlyIn(groups, connection, n);
    forall k: nat, i: nat | IsPlace(groups, k, i, connection)
      ensures Detached(groups, n, connection) == Parted(groups, k, i)
    {
      assert connection in groups[k].ids;
      DetachedMeans(groups, k, i);
    }
  }

  lemma {:induction false} MemberAfter(identity: Id -> Identity, groups: seq<Group>, k: nat, connection: Id, id: Id)
    requires Sound(identity, groups) && k < |groups| && id in groups[k].ids
    requires connection in groups[k].ids && groups[k].selected != connection
    ensures Grouped(Detached(groups, k, connection), id) <==> |groups[k].ids| == 3 && id != connection
  {
    var small := Shrunk(groups[k], connection);
    var changed := groups[k := small];
    assert groups[k] in groups && changed[k] in changed;
    RemovedKeeps(identity, groups[k].ids, connection);
    forall g | g in Kept(changed) && id in g.ids ensures g == small {
    }
  }

  lemma {:induction false} StrangerAfter(groups: seq<Group>, k: nat, connection: Id, id: Id)
    requires ValidGroups(groups) && k < |groups| && id !in groups[k].ids
    ensures Grouped(Detached(groups, k, connection), id) <==> Grouped(groups, id)
  {
    var changed := groups[k := Shrunk(groups[k], connection)];
    forall g: Group | id in g.ids ensures g in groups <==> g in changed {
      if g in groups {
        var j :| 0 <= j < |groups| && groups[j] == g;
        assert changed[j] == g;
      }
    }
  }

  lemma {:induction false} PairOf(ids: seq<Id>, a: Id, b: Id, id: Id)
    requires |ids| == 2 && a in ids && b in ids && a != b && id in ids
    ensures id == a || id == b
  {
  }

  /** Detaching takes the connection away, and with it the other member of a pair. */
  lemma {:induction false} DetachedMembers(identity: Id -> Identity, groups: seq<Group>, k: nat, connection: Id, id: Id)
    requires Sound(identity, groups) && k < |groups|
    requires connection in groups[k].ids && groups[k].selected != connection
    ensures Grouped(Detached(groups, k, connection), id)
      <==> Grouped(groups, id) && id != connection && (|groups[k].ids| == 2 ==> id != groups[k].selected)
  {
    assert groups[k] in groups;
    if id in groups[k].ids {
      MemberAfter(identity, groups, k, connection, id);
      if |groups[k].ids| == 2 {
        PairOf(groups[k].ids, connection, groups[k].selected, id);
      }
    } else {
      StrangerAfter(groups, k, connection, id);
    }
  }

  // ----- The commands as the application runs them

  /** `admitted` tells that the accounts are known, need no recovery, may be in the pool as required and have
      no request under way. */
  datatype Command =
    | Attach(current: Id, next: Id, preferred: Id, admitted: bool)
    | Select(current: Id, next: Id, admitted: bool)
    | Detach(account: Id, connection: Id)

  /** The first group whose selected route is the account and that holds the connection. */
  function FindRoute(groups: seq<Group>, account: Id, connection: Id): (r: Option<nat>)
    ensures r.Some? ==> r.value < |groups| && IsRoute(groups[r.value], account, connection)
    ensures r.None? ==> forall g :: g in groups ==> !IsRoute(g, account, connection)
  {
    if groups == [] then None
    else if IsRoute(groups[0], account, connection) then Some(0)
    else
      var later := FindRoute(groups[1..], account, connection);
      assert forall g :: g in groups <==> g == groups[0] || g in groups[1..];
      if later.None? then None else Some(later.value + 1)
  }

  /** The groups after a command; a refused command changes nothing. */
  ghost function After(identity: Id -> Identity, groups: seq<Group>, c: Command): seq<Group> {
    match c
    case Attach(current, next, preferred, admitted) =>
      if admitted && Attachable(identity, groups, current, next) then Joined(groups, current, next, preferred)
      else groups
    case Select(current, next, admitted) =>
      var chosen := SelectGroup(groups, current, next, false);
      if !admitted || current == next || chosen.Err? then groups else Without(groups, current) + [chosen.value]
    case Detach(account, connection) =>
      var k := FindRoute(groups, account, connection);
      if k.None? || account == connection then groups else Detached(groups, k.value, connection)
  }

  ghost function Run(identity: Id -> Identity, groups: seq<Group>, commands: seq<Command>): seq<Group> {
    if commands == [] then groups
    else After(identity, Run(identity, groups, commands[..|commands| - 1]), commands[|commands| - 1])
  }

  /** The notes are kept with the account or with the connection. */
  predicate Reasonable(c: Command) {
    c.Attach? ==> c.preferred == c.current || c.preferred == c.next
  }

  lemma {:induction false} AfterSound(identity: Id -> Identity, groups: seq<Group>, c: Command)
    requires Sound(identity, groups) && Reasonable(c)
    ensures Sound(identity, After(identity, groups, c))
  {
    match c
    case Attach(current, next, preferred, _) =>
      if Attachable(identity, groups, current, next) {
        JoinedSound(identity, groups, current, next, preferred);
      }
    case Select(current, next, _) =>
      if current != next && SelectGroup(groups, current, next, false).Ok? {
        SelectKeeps(identity, groups, current, next);
      }
    case Detach(account, connection) =>
      var k := FindRoute(groups, account, connection);
      if k.Some? && account != connection {
        DetachedSound(identity, groups, k.value, connection);
      }
  }

  /** Every sequence of commands keeps the groups disjoint, proper and each of one owner. */
  lemma {:induction false} RunSound(identity: Id -> Identity, groups: seq<Group>, commands: seq<Command>)
    requires Sound(identity, groups) && forall c :: c in commands ==> Reasonable(c)
    ensures Sound(identity, Run(identity, groups, commands))
  {
    if commands != [] {
      var front := commands[..|commands| - 1];
      assert forall c :: c in front ==> c in commands;
      RunSound(identity, groups, front);
      AfterSound(identity, Run(identity, groups, front), commands[|commands| - 1]);
    }
  }

  /** The checks made one after another accept exactly the attachable connections. */
  lemma {:induction false} ChecksAccept(identity: Id -> Identity, groups: seq<Group>, current: Id, next: Id)
    requires Sound(identity, groups) && current != next
    ensures Attachable(identity, groups, current, next) <==>
      && (forall id :: id in Connections(groups, current) ==> SameOwner(identity(id), identity(next)))
      && SelectGroup(groups, current, next, true).Ok?
      && ValidGroups(Without(groups, current) + [SelectGroup(groups, current, next, true).value])
  {
    TakenOut(identity, groups, current);
    var chosen := SelectGroup(groups, current, next, true);
    if chosen.Ok? {
      GroupAppends(Without(groups, current), chosen.value);
      assert current in Connections(groups, current) && chosen.value.ids == Connections(groups, current) + [next];
      forall g | g in groups && current in g.ids
        ensures g.selected == current && g.ids == Connections(groups, current)
      {
        OneGroup(groups, g, Find(groups, current).value, current);
      }
    }
    if Attachable(identity, groups, current, next) {
      JoinedGroup(identity, groups, current, next);
    }
  }

  lemma {:induction false} SameForAll(identity: Id -> Identity, ids: seq<Id>, identities: seq<Identity>, next: Id)
    requires |identities| == |ids| && forall i :: 0 <= i < |ids| ==> identities[i] == identity(ids[i])
    ensures (forall c :: c in identities ==> SameOwner(c, identity(next)))
      <==> (forall id :: id in ids ==> SameOwner(identity(id), identity(next)))
  {
    if forall c :: c in identities ==> SameOwner(c, identity(next)) {
      forall id | id in ids ensures SameOwner(identity(id), identity(next)) {
        var i :| 0 <= i < |ids| && ids[i] == id;
        assert identities[i] in identities;
      }
    }
  }

  /** The notes go to the group just formed. */
  lemma {:induction false} NotesGoToJoined(identity: Id -> Identity, groups: seq<Group>, current: Id, next: Id,
                                           preferred: Id)
    requires Sound(identity, groups) && Attachable(identity, groups, current, next)
    requires SelectGroup(groups, current, next, true).Ok?
    ensures SetNotes(Without(groups, current) + [SelectGroup(groups, current, next, true).value], next, preferred)
         == Joined(groups, current, next, preferred)
  {
    var rest, g := Without(groups, current), SelectGroup(groups, current, next, true).value;
    forall h | h in rest ensures h.selected != next {
      assert h in groups && h.selected in h.ids;
    }
    SetNotesLast(rest, g, preferred);
  }

  class RouteBook {
    /** What the grant of each connection says. */
    const identity: Id -> Identity
    var groups: seq<Group>

    constructor (identity: Id -> Identity)
      ensures this.identity == identity && groups == [] && Sound(identity, groups)
    {
      this.identity := identity;
      groups := [];
    }

    method AttachRoute(current: Id, next: Id, preferred: Id, admitted: bool) returns (r: Result<()>)
      requires Sound(identity, groups) && Reasonable(Attach(current, next, preferred, admitted))
      modifies this
      ensures groups == After(identity, old(groups), Attach(current, next, preferred, admitted))
        && Sound(identity, groups)
      ensures current != next ==> (r.Ok? <==> admitted && Attachable(identity, old(groups), current, next))
      ensures r.Ok? && current != next ==>
        && (forall k: nat :: k < |old(groups)| && current in old(groups)[k].ids ==>
              Moved(old(groups), groups, k,
                    Group(old(groups)[k].ids + [next], next, NotesOf(old(groups)[k], preferred))))
        && (!Grouped(old(groups), current) ==>
              groups == old(groups) + [Group([current, next], next, Some(preferred))])
      ensures r.Err? || current == next ==> groups == old(groups)
    {
      JoinedMeans(groups, current, next, preferred);
      AfterSound(identity, groups, Attach(current, next, preferred, admitted));
      if current == next {
        return Ok(());
      }
      if !admitted {
        return Err(Unavailable);
      }
      var members := Connections(groups, current);
      var identities := seq(|members|, i requires 0 <= i < |members| => identity(members[i]));
      ChecksAccept(identity, groups, current, next);
      SameForAll(identity, members, identities, next);
      var checked := ValidateConnection(identities, identity(next));
      if checked.Err? {
        return checked;
      }
      var changed := SelectRecords(groups, current, next, true);
      if changed.Err? {
        return Err(changed.error);
      }
      NotesGoToJoined(identity, groups, current, next, preferred);
      groups := SetNotes(changed.value, next, preferred);
      return Ok(());
    }

    method SelectRoute(current: Id, next: Id, admitted: bool) returns (r: Result<()>)
      requires Sound(identity, groups)
      modifies this
      ensures groups == After(identity, old(groups), Select(current, next, admitted)) && Sound(identity, groups)
      ensures current != next ==> (r.Ok? <==> admitted && exists k: nat :: MaySelect(old(groups), k, current, next))
      ensures r.Ok? && current != next ==> forall k: nat :: MaySelect(old(groups), k, current, next) ==>
        Moved(old(groups), groups, k, Group(old(groups)[k].ids, next, old(groups)[k].notes))
      ensures r.Err? || current == next ==> groups == old(groups)
      ensures r.Err? && admitted ==>
        r.error == if exists g :: g in old(groups) && current in g.ids && g.selected != current then RouteChanged
                   else NotInGroup
    {
      AfterSound(identity, groups, Select(current, next, admitted));
      if current == next {
        return Ok(());
      }
      if !admitted {
        return Err(Unavailable);
      }
      SelectMeans(groups, current, next);
      var changed := SelectRecords(groups, current, next, false);
      if changed.Err? {
        return Err(changed.error);
      }
      groups := changed.value;
      return Ok(());
    }

    method DetachRoute(account: Id, connection: Id) returns (r: Result<()>)
      requires Sound(identity, groups)
      modifies this
      ensures groups == After(identity, old(groups), Detach(account, connection)) && Sound(identity, groups)
      ensures r.Ok? <==> account != connection
                         && exists g :: g in old(groups) && IsRoute(g, account, connection)
      ensures r.Ok? ==> forall k: nat, i: nat :: IsPlace(old(groups), k, i, connection) ==>
        groups == Parted(old(groups), k, i)
      ensures r.Err? ==> groups == old(groups)
      ensures r.Err? ==>
        r.error == if exists g :: g in old(groups) && IsRoute(g, account, connection) then StillSelected else NotFound
    {
      AfterSound(identity, groups, Detach(account, connection));
      var k := FindRoute(groups, account, connection);
      if k.None? {
        return Err(NotFound);
      }
      assert IsRoute(groups[k.value], account, connection) && groups[k.value] in groups;
      if groups[k.value].selected == connection {
        return Err(StillSelected);
      }
      DetachedFrom(groups, k.value, connection);
      groups := groups[k.value := Shrunk(groups[k.value], connection)];
      groups := Kept(groups);
      return Ok(());
    }
  }

  // ----- Three connections do form a group

  /** One person's three connections: native and Excel sign-ins of one workspace, and an e-mail sign-in. */
  function PersonOf(id: Id): Identity {
    var email := Some("o");
    if id == "a" then Identity(Codex, Some("w"), Some("u"), email)
    else if id == "b" then Identity(ExcelBps, Some("w"), Some("u"), email)
    else Identity(Siwc, Some("s"), Some("v"), email)
  }

  lemma {:induction false} PersonAlike(a: Id, b: Id)
    requires PersonOf(a).kind != PersonOf(b).kind
    ensures SameOwner(PersonOf(a), PersonOf(b))
  {
    assert !IsWhitespace("o"[0]);
    TrimFixed("o");
  }

  const PAIR: Group := Group(["a", "b"], "b", Some("a"))
  const THREE: Group := Group(["a", "b", "c"], "c", Some("a"))

  lemma {:induction false} OnlyGroup(g: Group, id: Id)
    requires id in g.ids
    ensures Find([g], id) == Some(g) && Without([g], id) == []
  {
    var one := [g];
    assert one[..0] == [] && one[0] == g;
  }

  lemma {:induction false} PairForms(none: seq<Group>)
    requires none == []
    ensures Attachable(PersonOf, none, "a", "b")
    ensures After(PersonOf, none, Attach("a", "b", "a", true)) == [PAIR]
  {
    PersonAlike("a", "b");
    assert Attachable(PersonOf, none, "a", "b");
    assert ["a"] + ["b"] == PAIR.ids && none + [PAIR] == [PAIR];
    assert Joined(none, "a", "b", "a") == [PAIR];
  }

  lemma {:induction false} ThreeForm(pair: seq<Group>)
    requires pair == [PAIR]
    ensures Attachable(PersonOf, pair, "b", "c")
    ensures After(PersonOf, pair, Attach("b", "c", "b", true)) == [THREE]
  {
    PersonAlike("b", "c");
    PersonAlike("a", "c");
    assert PAIR.ids[1] == "b" && PAIR.ids[0] == "a";
    OnlyGroup(PAIR, "b");
    assert Attachable(PersonOf, pair, "b", "c");
    assert PAIR.ids + ["c"] == THREE.ids;
    assert Joined(pair, "b", "c", "b") == [THREE];
  }

  /** Attaching twice, from no groups, makes a sound group of three; a fourth connection is refused. */
  lemma {:induction false} ThreeAttach(none: seq<Group>)
    requires none == []
    ensures var commands := [Attach("a", "b", "a", true), Attach("b", "c", "b", true)];
            Run(PersonOf, none, commands) == [THREE] && Sound(PersonOf, [THREE])
    ensures forall id :: !Attachable(PersonOf, [THREE], "c", id)
  {
    var first, second := Attach("a", "b", "a", true), Attach("b", "c", "b", true);
    PairForms(none);
    ThreeForm([PAIR]);
    assert [first, second][..1] == [first] && [first][..0] == [];
    assert Run(PersonOf, none, [first]) == [PAIR];
    RunSound(PersonOf, none, [first, second]);
    forall id ensures !Attachable(PersonOf, [THREE], "c", id) {
      assert THREE in [THREE];
      assert THREE.ids[0] in THREE.ids && THREE.ids[1] in THREE.ids && THREE.ids[2] in THREE.ids;
    }
  }
}
