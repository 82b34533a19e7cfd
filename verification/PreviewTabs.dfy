/** Tab-to-tab replication of the preview catalog (web/src/preview/usePreviewCatalog.ts): a
    last-writer register ordered by (revision, sender) over a broadcast channel. */
module PreviewTabs {

  /** Largest integer that `Number.isSafeInteger` accepts. */
  const MAX_SAFE_INTEGER: nat := 0x1F_FFFF_FFFF_FFFF

  type Settings = string
  type TabId = string

  datatype Version = Version(revision: nat, sender: TabId, settings: Settings)

  datatype Message = Request | State(version: Version)

  /** JavaScript's string comparison. */
  predicate Less(a: string, b: string)
    decreases |a|
  {
    b != [] && (a == [] || a[0] < b[0] || (a[0] == b[0] && Less(a[1..], b[1..])))
  }

  predicate Newer(v: Version, than: Version) {
    v.revision > than.revision || (v.revision == than.revision && Less(than.sender, v.sender))
  }

  /** Adding one to a JavaScript number saturates above the safe integers. */
  function Increment(revision: nat): nat {
    if revision > MAX_SAFE_INTEGER then revision else revision + 1
  }

  function Edited(current: Version, identity: TabId, next: Settings): Version {
    Version(Increment(current.revision), identity, next)
  }

  function Received(current: Version, m: Message): Version {
    if m.State? && m.version.revision <= MAX_SAFE_INTEGER && Newer(m.version, current) then m.version else current
  }

  /** What handling a message posts to the other tabs. */
  function Reply(current: Version, m: Message): seq<Message> {
    if m.Request? && current.revision > 0 then [State(current)] else []
  }

  /** One mounted hook: the `current` reference, the displayed settings and the posted messages. */
  class PreviewCatalog {
    const identity: TabId
    var current: Version
    var settings: Settings
    var posted: seq<Message>

    ghost predicate Valid()
      reads this
    {
      settings == current.settings
    }

    constructor (identity: TabId, initial: Settings)
      ensures Valid() && this.identity == identity
      ensures current == Version(0, identity, initial) && posted == [Request]
    {
      this.identity := identity;
      current := Version(0, identity, initial);
      settings := initial;
      posted := [Request];
    }

    method OnMessage(data: Message)
      requires Valid()
      modifies this
      ensures Valid()
      ensures current == Received(old(current), data) && posted == old(posted) + Reply(old(current), data)
    {
      if data.Request? {
        if current.revision > 0 {
          posted := posted + [State(current)];
        }
        return;
      }
      if data.version.revision > MAX_SAFE_INTEGER {
        return;
      }
      LessIsTotal(data.version.sender, current.sender);
      LessIsAsymmetric(data.version.sender, current.sender);
      if data.version.revision < current.revision
         || (data.version.revision == current.revision
             && (data.version.sender == current.sender || Less(data.version.sender, current.sender))) {
        return;
      }
      current := data.version;
      settings := data.version.settings;
    }

    method OnChange(next: Settings)
      requires Valid()
      modifies this
      ensures Valid()
      ensures current == Edited(old(current), identity, next) && posted == old(posted) + [State(current)]
    {
      current := Version(Increment(current.revision), identity, next);
      settings := next;
      posted := posted + [State(current)];
    }
  }

  // ----- The order on versions

  lemma {:induction false} LessIsTotal(a: string, b: string)
    ensures Less(a, b) || Less(b, a) || a == b
    decreases |a|
  {
    if a != [] && b != [] && a[0] == b[0] {
      LessIsTotal(a[1..], b[1..]);
      assert a == [a[0]] + a[1..] && b == [b[0]] + b[1..];
    }
  }

  lemma {:induction false} LessIsAsymmetric(a: string, b: string)
    ensures !(Less(a, b) && Less(b, a))
    decreases |a|
  {
    if a != [] && b != [] {
      LessIsAsymmetric(a[1..], b[1..]);
    }
  }

  lemma {:induction false} LessIsTransitive(a: string, b: string, c: string)
    requires Less(a, b) && Less(b, c)
    ensures Less(a, c)
    decreases |a|
  {
    if a != [] && a[0] == b[0] == c[0] {
      LessIsTransitive(a[1..], b[1..], c[1..]);
    }
  }

  /** `v` supersedes `than` or carries the same (revision, sender) pair. */
  predicate AtLeast(v: Version, than: Version) {
    Newer(v, than) || (v.revision == than.revision && v.sender == than.sender)
  }

  lemma {:induction false} AtLeastTransitive(a: Version, b: Version, c: Version)
    requires AtLeast(a, b) && AtLeast(b, c)
    ensures AtLeast(a, c)
  {
    if Less(b.sender, a.sender) && Less(c.sender, b.sender) {
      LessIsTransitive(c.sender, b.sender, a.sender);
    }
  }

  lemma {:induction false} AtLeastAntisymmetric(a: Version, b: Version)
    requires AtLeast(a, b) && AtLeast(b, a)
    ensures a.revision == b.revision && a.sender == b.sender
  {
    LessIsAsymmetric(a.sender, b.sender);
  }

  lemma {:induction false} ReceivedIsMaximum(current: Version, v: Version)
    ensures AtLeast(Received(current, State(v)), current)
    ensures v.revision <= MAX_SAFE_INTEGER ==> AtLeast(Received(current, State(v)), v)
    ensures Received(current, State(v)) in {current, v}
  {
    LessIsTotal(v.sender, current.sender);
  }

  // ----- The network of tabs

  datatype Tab = Tab(current: Version, inbox: seq<Message>)

  /** `drawn` remembers every identity ever drawn, also of closed tabs. */
  datatype World = World(tabs: map<TabId, Tab>, drawn: set<TabId>)

  datatype Event =
    | Open(id: TabId)
    | Close(id: TabId)
    | Edit(id: TabId, settings: Settings)
    | Deliver(id: TabId)

  predicate Enabled(w: World, e: Event) {
    match e
    case Open(id) => id !in w.drawn
    case Close(id) => id in w.tabs
    case Edit(id, _) => id in w.tabs
    case Deliver(id) => id in w.tabs && w.tabs[id].inbox != []
  }

  /** Every open tab except the sender gets the messages, in order. */
  function Broadcast(tabs: map<TabId, Tab>, from: TabId, ms: seq<Message>): map<TabId, Tab> {
    map id | id in tabs :: if id == from then tabs[id] else tabs[id].(inbox := tabs[id].inbox + ms)
  }

  /** One step; an event that cannot happen changes nothing. */
  function Step(initial: Settings, w: World, e: Event): World {
    if !Enabled(w, e) then w else
    match e
    case Open(id) =>
      World(Broadcast(w.tabs, id, [Request])[id := Tab(Version(0, id, initial), [])], w.drawn + {id})
    case Close(id) => w.(tabs := w.tabs - {id})
    case Edit(id, settings) =>
      var next := Edited(w.tabs[id].current, id, settings);
      w.(tabs := Broadcast(w.tabs[id := w.tabs[id].(current := next)], id, [State(next)]))
    case Deliver(id) =>
      var tab := w.tabs[id];
      var m := tab.inbox[0];
      var after := Tab(Received(tab.current, m), tab.inbox[1..]);
      w.(tabs := Broadcast(w.tabs[id := after], id, Reply(tab.current, m)))
  }

  function Run(initial: Settings, events: seq<Event>): World {
    if events == [] then World(map[], {}) else
    Step(initial, Run(initial, events[..|events| - 1]), events[|events| - 1])
  }

  /** The other tabs take the version into account. */
  predicate Safe(v: Version) {
    v.revision <= MAX_SAFE_INTEGER
  }

  // ----- Invariant: every version is accounted for

  predicate Holds(tab: Tab, v: Version) {
    tab.current == v || State(v) in tab.inbox
  }

  /** `v` is held by a tab or travels to one. */
  predicate Present(w: World, v: Version) {
    exists id :: id in w.tabs && Holds(w.tabs[id], v)
  }

  /** What holds of every version: its sender has drawn its name, and has got at least as far if it is open. */
  ghost predicate Sound(initial: Settings, w: World, v: Version) {
    && v.revision <= MAX_SAFE_INTEGER + 1
    && v.sender in w.drawn
    && (v.revision == 0 ==> v.settings == initial)
    && (v.sender in w.tabs ==> v.revision <= w.tabs[v.sender].current.revision)
  }

  /** A safe (revision, sender) pair names one setting, and only a tab's own edits can be unsafe. */
  ghost predicate Coherent(initial: Settings, w: World) {
    && w.tabs.Keys <= w.drawn
    && (forall v: Version :: Present(w, v) ==> Sound(initial, w, v))
    && (forall v: Version, u: Version ::
          Present(w, v) && Present(w, u) && v.revision == u.revision && v.sender == u.sender && Safe(v) ==> v == u)
    && (forall id :: id in w.tabs && !Safe(w.tabs[id].current) ==> w.tabs[id].current.sender == id)
  }

  /** No step but an edit brings a new version into the world, and no tab falls back. */
  lemma {:induction false} StepVersions(initial: Settings, w: World, e: Event, v: Version)
    requires Enabled(w, e) && Present(Step(initial, w, e), v)
    ensures || Present(w, v)
            || (e.Edit? && v == Edited(w.tabs[e.id].current, e.id, e.settings))
            || (e.Open? && v == Version(0, e.id, initial))
  {
    var w' := Step(initial, w, e);
    var id :| id in w'.tabs && Holds(w'.tabs[id], v);
    match e
    case Open(_) =>
      if id != e.id {
        assert Holds(w.tabs[id], v);
      }
    case Close(_) =>
      assert Holds(w.tabs[id], v);
    case Edit(_, _) =>
      if v != Edited(w.tabs[e.id].current, e.id, e.settings) {
        assert Holds(w.tabs[id], v);
      }
    case Deliver(_) =>
      if Holds(w.tabs[id], v) {
      } else {
        assert Holds(w.tabs[e.id], v);
      }
  }

  /** A tab's (revision, sender) pair only grows. */
  lemma {:induction false} StepGrows(initial: Settings, w: World, e: Event, id: TabId)
    requires Coherent(initial, w) && id in w.tabs && id in Step(initial, w, e).tabs
    ensures AtLeast(Step(initial, w, e).tabs[id].current, w.tabs[id].current)
  {
    if e.Deliver? && Enabled(w, e) && w.tabs[e.id].inbox[0].State? {
      ReceivedIsMaximum(w.tabs[e.id].current, w.tabs[e.id].inbox[0].version);
    }
  }

  lemma {:induction false} CoherentVersion(initial: Settings, w: World, e: Event, v: Version)
    requires Coherent(initial, w) && Enabled(w, e) && Present(Step(initial, w, e), v)
    ensures Sound(initial, Step(initial, w, e), v)
  {
    StepVersions(initial, w, e, v);
    if v.sender in w.tabs && v.sender in Step(initial, w, e).tabs {
      StepGrows(initial, w, e, v.sender);
    }
    if e.Edit? {
      var current := w.tabs[e.id].current;
      assert Holds(w.tabs[e.id], current);
      assert Present(w, current) && Sound(initial, w, current);
    }
  }

  lemma {:induction false} CoherentPair(initial: Settings, w: World, e: Event, v: Version, u: Version)
    requires Coherent(initial, w) && Enabled(w, e)
    requires Present(Step(initial, w, e), v) && Present(Step(initial, w, e), u)
    requires v.revision == u.revision && v.sender == u.sender && Safe(v)
    ensures v == u
  {
    StepVersions(initial, w, e, v);
    StepVersions(initial, w, e, u);
    assert Present(w, v) ==> Sound(initial, w, v);
    assert Present(w, u) ==> Sound(initial, w, u);
  }

  lemma {:induction false} OwnUnsafe(initial: Settings, w: World, e: Event, id: TabId)
    requires Coherent(initial, w) && Enabled(w, e) && id in Step(initial, w, e).tabs
    requires !Safe(Step(initial, w, e).tabs[id].current)
    ensures Step(initial, w, e).tabs[id].current.sender == id
  {
  }

  lemma {:induction false} CoherentStep(initial: Settings, w: World, e: Event)
    requires Coherent(initial, w)
    ensures Coherent(initial, Step(initial, w, e))
  {
    if Enabled(w, e) {
      var w' := Step(initial, w, e);
      forall v | Present(w', v) ensures Sound(initial, w', v) {
        CoherentVersion(initial, w, e, v);
      }
      forall v, u | Present(w', v) && Present(w', u) && v.revision == u.revision && v.sender == u.sender && Safe(v)
        ensures v == u
      {
        CoherentPair(initial, w, e, v, u);
      }
      forall id | id in w'.tabs && !Safe(w'.tabs[id].current) ensures w'.tabs[id].current.sender == id {
        OwnUnsafe(initial, w, e, id);
      }
    }
  }

  // ----- Invariant: every version reaches every tab

  /** Message `k` of the inbox will bring tab `u` at least as far as `v`. */
  predicate Brings(u: Tab, k: nat, v: Version) {
    k < |u.inbox| && u.inbox[k].State? && Safe(u.inbox[k].version) && AtLeast(u.inbox[k].version, v)
  }

  /** Tab `u` holds something at least as new as `v`, or will when its inbox is delivered; unsafe versions
      concern their own tab only. */
  predicate Covered(u: Tab, v: Version) {
    || v.revision == 0 || !Safe(v)
    || AtLeast(u.current, v)
    || exists k :: 0 <= k < |u.inbox| && Brings(u, k, v)
  }

  /** A request waits in the inbox behind position `j`. */
  predicate RequestAfter(t: Tab, j: int) {
    exists p :: 0 <= p < |t.inbox| && j < p && t.inbox[p].Request?
  }

  /** Whatever `t` holds or is about to receive reaches `u`, now or when `t` answers a request. */
  ghost predicate Feeds(t: Tab, u: Tab) {
    && (Covered(u, t.current) || RequestAfter(t, -1))
    && forall j :: 0 <= j < |t.inbox| && t.inbox[j].State? ==> Covered(u, t.inbox[j].version) || RequestAfter(t, j)
  }

  ghost predicate Connected(w: World) {
    forall t, u :: t in w.tabs && u in w.tabs && t != u ==> Feeds(w.tabs[t], w.tabs[u])
  }

  /** Nothing that `u` covered is uncovered in `u'`. */
  ghost predicate Grows(u: Tab, u': Tab) {
    && AtLeast(u'.current, u.current)
    && forall k :: 0 <= k < |u.inbox| && u.inbox[k].State? ==> Covered(u', u.inbox[k].version)
  }

  lemma {:induction false} CoveredGrows(u: Tab, u': Tab, v: Version)
    requires Grows(u, u') && Covered(u, v)
    ensures Covered(u', v)
  {
    if v.revision == 0 || !Safe(v) {
    } else if AtLeast(u.current, v) {
      AtLeastTransitive(u'.current, u.current, v);
    } else {
      var k :| 0 <= k < |u.inbox| && Brings(u, k, v);
      var x := u.inbox[k].version;
      if AtLeast(u'.current, x) {
        AtLeastTransitive(u'.current, x, v);
      } else {
        var l :| 0 <= l < |u'.inbox| && Brings(u', l, x);
        AtLeastTransitive(u'.inbox[l].version, x, v);
        assert Brings(u', l, v);
      }
    }
  }

  lemma {:induction false} GrowsAppend(u: Tab, ms: seq<Message>)
    ensures Grows(u, u.(inbox := u.inbox + ms))
  {
    var u' := u.(inbox := u.inbox + ms);
    forall k | 0 <= k < |u.inbox| && u.inbox[k].State?
      ensures Covered(u', u.inbox[k].version)
    {
      assert u'.inbox[k] == u.inbox[k];
      CoveredAt(u', k);
    }
  }

  lemma {:induction false} GrowsTo(u: Tab, v: Version)
    requires AtLeast(v, u.current)
    ensures Grows(u, u.(current := v))
  {
    var u' := u.(current := v);
    forall k | 0 <= k < |u.inbox| && u.inbox[k].State?
      ensures Covered(u', u.inbox[k].version)
    {
      CoveredAt(u', k);
    }
  }

  /** A version in the inbox is covered. */
  lemma {:induction false} CoveredAt(u: Tab, k: nat)
    requires k < |u.inbox| && u.inbox[k].State?
    ensures Covered(u, u.inbox[k].version)
  {
    assert Safe(u.inbox[k].version) ==> Brings(u, k, u.inbox[k].version);
  }

  lemma {:induction false} GrowsDeliver(u: Tab)
    requires u.inbox != []
    ensures Grows(u, Tab(Received(u.current, u.inbox[0]), u.inbox[1..]))
  {
    var u' := Tab(Received(u.current, u.inbox[0]), u.inbox[1..]);
    if u.inbox[0].State? {
      ReceivedIsMaximum(u.current, u.inbox[0].version);
    }
    forall k | 0 <= k < |u.inbox| && u.inbox[k].State?
      ensures Covered(u', u.inbox[k].version)
    {
      if k > 0 {
        assert u'.inbox[k - 1] == u.inbox[k];
        CoveredAt(u', k - 1);
      }
    }
  }

  /** Feeding survives when the receiver grows and the sender's new messages are covered. */
  lemma {:induction false} FeedsAppend(t: Tab, u: Tab, u': Tab, ms: seq<Message>)
    requires Feeds(t, u) && Grows(u, u')
    requires forall k :: 0 <= k < |ms| && ms[k].State? ==> Covered(u', ms[k].version)
    ensures Feeds(t.(inbox := t.inbox + ms), u')
  {
    var t' := t.(inbox := t.inbox + ms);
    forall j | -1 <= j < |t.inbox| && RequestAfter(t, j)
      ensures RequestAfter(t', j)
    {
      var p :| 0 <= p < |t.inbox| && j < p && t.inbox[p].Request?;
      assert t'.inbox[p].Request?;
    }
    if Covered(u, t.current) {
      CoveredGrows(u, u', t.current);
    }
    forall j | 0 <= j < |t'.inbox| && t'.inbox[j].State?
      ensures Covered(u', t'.inbox[j].version) || RequestAfter(t', j)
    {
      if j >= |t.inbox| {
        assert t'.inbox[j] == ms[j - |t.inbox|];
      } else if Covered(u, t.inbox[j].version) {
        CoveredGrows(u, u', t.inbox[j].version);
      }
    }
  }

  /** Delivering a message keeps the sender feeding a receiver that already covers any reply. */
  lemma {:induction false} FeedsDeliver(t: Tab, u: Tab)
    requires t.inbox != [] && Feeds(t, u)
    requires t.inbox[0].Request? ==> Covered(u, t.current)
    ensures Feeds(Tab(Received(t.current, t.inbox[0]), t.inbox[1..]), u)
  {
    var t' := Tab(Received(t.current, t.inbox[0]), t.inbox[1..]);
    forall j | 0 <= j < |t.inbox| && RequestAfter(t, j)
      ensures RequestAfter(t', j - 1)
    {
      var p :| 0 <= p < |t.inbox| && j < p && t.inbox[p].Request?;
      assert t'.inbox[p - 1].Request?;
    }
    if t.inbox[0].State? && RequestAfter(t, -1) {
      var p :| 0 <= p < |t.inbox| && -1 < p && t.inbox[p].Request?;
      assert t'.inbox[p - 1].Request?;
    }
    forall j | 0 <= j < |t'.inbox| && t'.inbox[j].State?
      ensures Covered(u, t'.inbox[j].version) || RequestAfter(t', j)
    {
      assert t.inbox[j + 1] == t'.inbox[j];
    }
  }

  /** One step, seen from one tab: it grows, and gets what is posted unless it posted it. */
  lemma {:induction false} TabGrows(initial: Settings, w: World, e: Event, id: TabId)
    requires Coherent(initial, w) && Enabled(w, e)
    requires id in w.tabs && id in Step(initial, w, e).tabs
    ensures Grows(w.tabs[id], Step(initial, w, e).tabs[id])
  {
    var u := w.tabs[id];
    match e
    case Open(_) => GrowsAppend(u, [Request]);
    case Close(_) => GrowsAppend(u, []); assert u.inbox + [] == u.inbox;
    case Edit(_, settings) =>
      if id == e.id {
        StepGrows(initial, w, e, id);
        GrowsTo(u, Edited(u.current, id, settings));
      } else {
        GrowsAppend(u, [State(Edited(w.tabs[e.id].current, e.id, settings))]);
      }
    case Deliver(_) =>
      if id == e.id {
        GrowsDeliver(u);
      } else {
        GrowsAppend(u, Reply(w.tabs[e.id].current, w.tabs[e.id].inbox[0]));
      }
  }

  lemma {:induction false} CoveredByLast(u: Tab, v: Version)
    requires u.inbox != [] && u.inbox[|u.inbox| - 1] == State(v)
    ensures Covered(u, v)
  {
    CoveredAt(u, |u.inbox| - 1);
  }

  lemma {:induction false} FeedsSame(t: Tab, u: Tab, u': Tab)
    requires Feeds(t, u) && Grows(u, u')
    ensures Feeds(t, u')
  {
    FeedsAppend(t, u, u', []);
    assert t.(inbox := t.inbox + []) == t;
  }

  lemma {:induction false} FeedsWithRequest(t: Tab, u: Tab)
    requires t.inbox != [] && t.inbox[|t.inbox| - 1] == Request
    ensures Feeds(t, u)
  {
    assert forall j :: -1 <= j < |t.inbox| - 1 ==> RequestAfter(t, j);
  }

  lemma {:induction false} FeedsOpen(initial: Settings, w: World, e: Event, i: TabId, j: TabId)
    requires Coherent(initial, w) && Connected(w) && Enabled(w, e) && i != j && (e.Open? || e.Close?)
    requires i in Step(initial, w, e).tabs && j in Step(initial, w, e).tabs
    ensures Feeds(Step(initial, w, e).tabs[i], Step(initial, w, e).tabs[j])
  {
    var t', u' := Step(initial, w, e).tabs[i], Step(initial, w, e).tabs[j];
    if e.Close? {
      assert t' == w.tabs[i] && u' == w.tabs[j];
    } else if j == e.id {
      FeedsWithRequest(t', u');
    } else if i != e.id {
      TabGrows(initial, w, e, j);
      FeedsAppend(w.tabs[i], w.tabs[j], u', [Request]);
    }
  }

  lemma {:induction false} FeedsEdit(initial: Settings, w: World, e: Event, i: TabId, j: TabId)
    requires Coherent(initial, w) && Connected(w) && Enabled(w, e) && e.Edit?
    requires i in w.tabs && j in w.tabs && i != j
    ensures Feeds(Step(initial, w, e).tabs[i], Step(initial, w, e).tabs[j])
  {
    var u' := Step(initial, w, e).tabs[j];
    var next := Edited(w.tabs[e.id].current, e.id, e.settings);
    TabGrows(initial, w, e, j);
    if j != e.id {
      CoveredByLast(u', next);
    }
    if i == e.id {
      FeedsSame(w.tabs[i], w.tabs[j], u');
    } else {
      FeedsAppend(w.tabs[i], w.tabs[j], u', [State(next)]);
    }
  }

  lemma {:induction false} FeedsDelivery(initial: Settings, w: World, e: Event, i: TabId, j: TabId)
    requires Coherent(initial, w) && Connected(w) && Enabled(w, e) && e.Deliver?
    requires i in w.tabs && j in w.tabs && i != j
    ensures Feeds(Step(initial, w, e).tabs[i], Step(initial, w, e).tabs[j])
  {
    var u' := Step(initial, w, e).tabs[j];
    var d := w.tabs[e.id];
    var reply := Reply(d.current, d.inbox[0]);
    TabGrows(initial, w, e, j);
    if reply != [] && j != e.id {
      CoveredByLast(u', d.current);
    }
    if i == e.id {
      FeedsSame(w.tabs[i], w.tabs[j], u');
      FeedsDeliver(w.tabs[i], u');
    } else {
      FeedsAppend(w.tabs[i], w.tabs[j], u', reply);
    }
  }

  lemma {:induction false} FeedsStep(initial: Settings, w: World, e: Event, i: TabId, j: TabId)
    requires Coherent(initial, w) && Connected(w) && Enabled(w, e) && i != j
    requires i in Step(initial, w, e).tabs && j in Step(initial, w, e).tabs
    ensures Feeds(Step(initial, w, e).tabs[i], Step(initial, w, e).tabs[j])
  {
    match e
    case Open(_) => FeedsOpen(initial, w, e, i, j);
    case Close(_) => FeedsOpen(initial, w, e, i, j);
    case Edit(_, _) => FeedsEdit(initial, w, e, i, j);
    case Deliver(_) => FeedsDelivery(initial, w, e, i, j);
  }

  // ----- Every run

  lemma {:induction false} RunInvariant(initial: Settings, events: seq<Event>)
    ensures Coherent(initial, Run(initial, events)) && Connected(Run(initial, events))
  {
    if events != [] {
      var before, e := events[..|events| - 1], events[|events| - 1];
      RunInvariant(initial, before);
      var w := Run(initial, before);
      CoherentStep(initial, w, e);
      if Enabled(w, e) {
        forall i, j | i in Step(initial, w, e).tabs && j in Step(initial, w, e).tabs && i != j
          ensures Feeds(Step(initial, w, e).tabs[i], Step(initial, w, e).tabs[j])
        {
          FeedsStep(initial, w, e, i, j);
        }
      }
    }
  }

  predicate Quiescent(w: World) {
    forall id :: id in w.tabs ==> w.tabs[id].inbox == []
  }

  /** The tabs hold the same version, or neither has seen an edit. */
  predicate InStep(t: Tab, u: Tab) {
    t.current == u.current || (t.current.revision == 0 && u.current.revision == 0)
  }

  /** In every run, two idle tabs are in step exactly if neither has gone beyond the safe integers. */
  lemma {:induction false} TabsConvergeIff(initial: Settings, events: seq<Event>, i: TabId, j: TabId)
    requires Quiescent(Run(initial, events)) && i != j
    requires i in Run(initial, events).tabs && j in Run(initial, events).tabs
    ensures var t, u := Run(initial, events).tabs[i], Run(initial, events).tabs[j];
      InStep(t, u) <==> Safe(t.current) && Safe(u.current)
  {
    var w := Run(initial, events);
    RunInvariant(initial, events);
    var t, u := w.tabs[i], w.tabs[j];
    assert Holds(t, t.current) && Holds(u, u.current);
    assert Feeds(t, u) && Feeds(u, t);
    if Safe(t.current) && Safe(u.current) && (t.current.revision > 0 || u.current.revision > 0) {
      AtLeastAntisymmetric(t.current, u.current);
    }
  }

  /** When no message is undelivered, all open tabs that have not gone beyond the safe integers show the
      same settings. */
  lemma {:induction false} TabsConverge(initial: Settings, events: seq<Event>, i: TabId, j: TabId)
    requires Quiescent(Run(initial, events))
    requires i in Run(initial, events).tabs && j in Run(initial, events).tabs
    requires Safe(Run(initial, events).tabs[i].current) && Safe(Run(initial, events).tabs[j].current)
    ensures Run(initial, events).tabs[i].current.settings == Run(initial, events).tabs[j].current.settings
  {
    var w := Run(initial, events);
    RunInvariant(initial, events);
    var t, u := w.tabs[i], w.tabs[j];
    assert Holds(t, t.current) && Holds(u, u.current);
    assert Sound(initial, w, t.current) && Sound(initial, w, u.current);
    if i != j {
      TabsConvergeIff(initial, events, i, j);
    }
  }

  /** A safe (revision, sender) pair names the same settings wherever it is held or travels. */
  lemma {:induction false} PairNamesSettings(initial: Settings, events: seq<Event>, v: Version, u: Version)
    requires Present(Run(initial, events), v) && Present(Run(initial, events), u)
    requires v.revision == u.revision && v.sender == u.sender && Safe(v)
    ensures v.settings == u.settings
  {
    RunInvariant(initial, events);
  }

  /** While a tab stays open its pair never falls back, whatever the other tabs do. */
  lemma {:induction false} PairsOnlyGrow(initial: Settings, events: seq<Event>, k: nat, l: nat, id: TabId)
    requires k <= l <= |events|
    requires forall n :: k <= n <= l ==> id in Run(initial, events[..n]).tabs
    ensures AtLeast(Run(initial, events[..l]).tabs[id].current, Run(initial, events[..k]).tabs[id].current)
    decreases l
  {
    if k < l {
      var w, e := Run(initial, events[..l - 1]), events[l - 1];
      var w' := Run(initial, events[..l]);
      assert events[..l][..l - 1] == events[..l - 1];
      assert w' == Step(initial, w, e);
      RunInvariant(initial, events[..l - 1]);
      PairsOnlyGrow(initial, events, k, l - 1, id);
      StepGrows(initial, w, e, id);
      AtLeastTransitive(w'.tabs[id].current, w.tabs[id].current, Run(initial, events[..k]).tabs[id].current);
    }
  }

  // ----- After an edit

  /** Of all tabs, the editor alone may hold an unsafe version, and does if `unsafe`. */
  ghost predicate EditorAlone(w: World, id: TabId, unsafe: bool) {
    && id in w.drawn && w.tabs.Keys <= w.drawn
    && forall i :: i in w.tabs ==> (Safe(w.tabs[i].current) <==> !(i == id && unsafe))
  }

  lemma {:induction false} EditorStaysAlone(initial: Settings, w: World, id: TabId, unsafe: bool, e: Event)
    requires EditorAlone(w, id, unsafe) && !e.Edit?
    ensures EditorAlone(Step(initial, w, e), id, unsafe)
  {
  }

  lemma {:induction false} EditorStays(initial: Settings, before: seq<Event>, rest: seq<Event>, id: TabId, unsafe: bool)
    requires EditorAlone(Run(initial, before), id, unsafe)
    requires forall k :: 0 <= k < |rest| ==> !rest[k].Edit?
    ensures EditorAlone(Run(initial, before + rest), id, unsafe)
    decreases |rest|
  {
    if rest == [] {
      assert before + rest == before;
    } else {
      var n := |rest| - 1;
      EditorStays(initial, before, rest[..n], id, unsafe);
      assert (before + rest)[..|before| + n] == before + rest[..n];
      EditorStaysAlone(initial, Run(initial, before + rest[..n]), id, unsafe, rest[n]);
    }
  }

  /** An edit by one of several tabs, none of them beyond the safe integers: if no other edit follows, it is
      below the largest safe revision exactly if the idle tabs end up in step with the editor. */
  lemma {:induction false} EditSettlesIff(initial: Settings, before: seq<Event>, id: TabId, settings: Settings,
                                          rest: seq<Event>, j: TabId)
    requires var w := Run(initial, before);
      id in w.tabs && forall i :: i in w.tabs ==> Safe(w.tabs[i].current)
    requires forall k :: 0 <= k < |rest| ==> !rest[k].Edit?
    requires var end := Run(initial, before + [Edit(id, settings)] + rest);
      Quiescent(end) && id in end.tabs && j in end.tabs && j != id
    ensures var end := Run(initial, before + [Edit(id, settings)] + rest);
      InStep(end.tabs[id], end.tabs[j]) <==> Run(initial, before).tabs[id].current.revision < MAX_SAFE_INTEGER
  {
    var w, e := Run(initial, before), Edit(id, settings);
    var edited := before + [e];
    var unsafe := w.tabs[id].current.revision >= MAX_SAFE_INTEGER;
    RunInvariant(initial, before);
    assert edited[..|before|] == before;
    assert Run(initial, edited) == Step(initial, w, e);
    assert EditorAlone(Run(initial, edited), id, unsafe);
    EditorStays(initial, edited, rest, id, unsafe);
    TabsConvergeIff(initial, edited + rest, id, j);
  }

  // ----- What travels

  /** The versions under way all come from edits. */
  ghost predicate OnlyEditsTravel(w: World) {
    forall id, m :: id in w.tabs && m in w.tabs[id].inbox && m.State? ==> m.version.revision > 0
  }

  lemma {:induction false} EditsTravelStep(initial: Settings, w: World, e: Event)
    requires OnlyEditsTravel(w)
    ensures OnlyEditsTravel(Step(initial, w, e))
  {
  }

  /** In every run nobody is told of settings that no tab has edited. */
  lemma {:induction false} NothingUneditedTravels(initial: Settings, events: seq<Event>)
    ensures OnlyEditsTravel(Run(initial, events))
  {
    if events != [] {
      var front := events[..|events| - 1];
      NothingUneditedTravels(initial, front);
      EditsTravelStep(initial, Run(initial, front), events[|events| - 1]);
    }
  }

  // ----- How tabs come apart

  function Edits(a: TabId, x: Settings, n: nat): seq<Event> {
    if n == 0 then [Open(a)] else Edits(a, x, n - 1) + [Edit(a, x)]
  }

  ghost predicate IsAlone(w: World, a: TabId, t: Tab) {
    w.tabs.Keys == {a} && w.tabs[a] == t && w.drawn == {a}
  }

  ghost predicate IsPair(w: World, a: TabId, t: Tab, b: TabId, u: Tab) {
    w.tabs.Keys == {a, b} && w.tabs[a] == t && w.tabs[b] == u
  }

  lemma {:induction false} LoneTab(initial: Settings, a: TabId, x: Settings, n: nat)
    requires n <= MAX_SAFE_INTEGER
    ensures IsAlone(Run(initial, Edits(a, x, n)), a, Tab(Version(n, a, if n == 0 then initial else x), []))
  {
    if n == 0 {
      assert [] + [Open(a)] == Edits(a, x, 0);
    } else {
      LoneTab(initial, a, x, n - 1);
    }
  }

  lemma {:induction false} PairEdits(initial: Settings, w: World, a: TabId, t: Tab, b: TabId, u: Tab, next: Settings)
    requires a != b && IsPair(w, a, t, b, u)
    ensures var v := Edited(t.current, a, next);
      IsPair(Step(initial, w, Edit(a, next)), a, t.(current := v), b, u.(inbox := u.inbox + [State(v)]))
  {
  }

  lemma {:induction false} PairAnswers(initial: Settings, w: World, a: TabId, t: Tab, b: TabId, u: Tab)
    requires a != b && IsPair(w, a, t, b, u) && t.inbox == [Request] && t.current.revision > 0
    ensures IsPair(Step(initial, w, Deliver(a)), a, t.(inbox := []), b, u.(inbox := u.inbox + [State(t.current)]))
  {
    assert t.inbox[1..] == [];
  }

  lemma {:induction false} PairReceives(initial: Settings, w: World, a: TabId, t: Tab, b: TabId, u: Tab)
    requires a != b && IsPair(w, a, t, b, u) && |u.inbox| == 1 && u.inbox[0].State?
    ensures IsPair(Step(initial, w, Deliver(b)), a, t, b, Tab(Received(u.current, u.inbox[0]), []))
  {
    assert t.inbox + [] == t.inbox && u.inbox[1..] == [];
  }

  /** A run that ends with two idle tabs at the largest safe revision. */
  lemma {:induction false} AtTheLimit(initial: Settings, a: TabId, b: TabId, x: Settings, max: nat)
    returns (events: seq<Event>, both: Tab)
    requires a != b && max == MAX_SAFE_INTEGER
    ensures both == Tab(Version(max, a, x), []) && IsPair(Run(initial, events), a, both, b, both)
  {
    var latest, blank := Version(max, a, x), Version(0, b, initial);
    both := Tab(latest, []);
    events := Edits(a, x, max);
    LoneTab(initial, a, x, max);
    events := events + [Open(b)];
    PairAnswers(initial, Run(initial, events), a, Tab(latest, [Request]), b, Tab(blank, []));
    events := events + [Deliver(a)];
    PairReceives(initial, Run(initial, events), a, both, b, Tab(blank, [State(latest)]));
    events := events + [Deliver(b)];
  }

  /** One edit at the largest safe revision leaves two idle tabs apart. */
  lemma {:induction false} UnsafeEditDiverges(initial: Settings, a: TabId, b: TabId, x: Settings, y: Settings)
    returns (events: seq<Event>)
    requires a != b && x != y
    ensures Quiescent(Run(initial, events)) && {a, b} == Run(initial, events).tabs.Keys
    ensures Run(initial, events).tabs[a].current.settings != Run(initial, events).tabs[b].current.settings
  {
    var max := MAX_SAFE_INTEGER;
    var both;
    events, both := AtTheLimit(initial, a, b, x, max);
    var unsafe := Version(max + 1, a, y);
    PairEdits(initial, Run(initial, events), a, both, b, both, y);
    events := events + [Edit(a, y)];
    PairReceives(initial, Run(initial, events), a, Tab(unsafe, []), b, Tab(both.current, [State(unsafe)]));
    events := events + [Deliver(b)];
  }

  /** Two edits there give the same pair to different settings. */
  lemma {:induction false} UnsafePairIsAmbiguous(initial: Settings, a: TabId, b: TabId, y: Settings, z: Settings)
    returns (events: seq<Event>, v: Version, u: Version)
    requires a != b && y != z
    ensures Present(Run(initial, events), v) && Present(Run(initial, events), u)
    ensures v.revision == u.revision && v.sender == u.sender && v.settings != u.settings
  {
    var max := MAX_SAFE_INTEGER;
    var both;
    events, both := AtTheLimit(initial, a, b, y, max);
    v, u := Version(max + 1, a, y), Version(max + 1, a, z);
    PairEdits(initial, Run(initial, events), a, both, b, both, y);
    events := events + [Edit(a, y)];
    PairEdits(initial, Run(initial, events), a, Tab(v, []), b, Tab(both.current, [State(v)]), z);
    events := events + [Edit(a, z)];
    var w := Run(initial, events);
    assert w.tabs[a] == Tab(u, []) && State(v) in w.tabs[b].inbox;
    assert Holds(w.tabs[a], u) && Holds(w.tabs[b], v);
  }
}
