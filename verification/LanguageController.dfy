/** Loading, installing and retaining language bundles (src/src/i18n/controller.ts). */
module LanguageController {
  import opened Basics
  import opened Languages

  /** A call of `change`: the bundles it needs, those it still waits for, and how far it has got. */
  datatype Phase =
    | Loading
    | Rejected          // a load it waited for has failed
    | Applying          // its bundles are installed; the instance is switching over
    | Finished(changed: bool)
    | Failed

  datatype Call = Call(language: string, required: seq<string>, waiting: set<string>, phase: Phase)

  const LIMIT: nat := 4

  // ----- Retention

  /** The codes that are not required, in order of last use. */
  function Others(retained: seq<string>, required: seq<string>): (r: seq<string>)
    ensures forall c :: c in r <==> c in retained && c !in required
    ensures |r| <= |retained|
  {
    if retained == [] then [] else
    var front, last := retained[..|retained| - 1], retained[|retained| - 1];
    assert retained == front + [last];
    if last in required then Others(front, required) else Others(front, required) + [last]
  }

  /** The required codes become the last used; of the others, the most recently used fill the limit. */
  function Retain(retained: seq<string>, required: seq<string>): seq<string> {
    var others := Others(retained, required);
    LastUsed(others, Max(LIMIT, |required|) - |required|) + required
  }

  function LastUsed(codes: seq<string>, n: nat): seq<string> {
    if |codes| <= n then codes else codes[|codes| - n..]
  }

  lemma {:induction false} OthersDistinct(retained: seq<string>, required: seq<string>)
    requires Distinct(retained)
    ensures Distinct(Others(retained, required))
  {
    if retained != [] {
      var front, last := retained[..|retained| - 1], retained[|retained| - 1];
      assert retained == front + [last];
      OthersDistinct(front, required);
      assert forall c :: c in front ==> c != last;
    }
  }

  /** Everything required is retained; of the rest, the most recently used codes fill the limit or all stay. */
  lemma {:induction false} RetainMeans(retained: seq<string>, required: seq<string>)
    requires Distinct(retained) && Distinct(required)
    ensures var r, others, limit := Retain(retained, required), Others(retained, required), Max(LIMIT, |required|);
            && Distinct(r) && |required| <= |r|
            && |r| == Min(|others| + |required|, limit)
            && r[|r| - |required|..] == required
            && r[..|r| - |required|] == others[|others| - (|r| - |required|)..]
    ensures forall c :: c in required ==> c in Retain(retained, required)
    ensures forall c :: c in Retain(retained, required) ==> c in required || c in retained
  {
    OthersDistinct(retained, required);
    var others := Others(retained, required);
    var r := Retain(retained, required);
    var kept := LastUsed(others, Max(LIMIT, |required|) - |required|);
    assert r == kept + required;
    KeptAreOthers(others, Max(LIMIT, |required|) - |required|);
    DistinctAppends(kept, required);
  }

  lemma {:induction false} KeptAreOthers(others: seq<string>, n: nat)
    requires Distinct(others)
    ensures var kept := LastUsed(others, n); Distinct(kept) && forall c :: c in kept ==> c in others
  {
  }

  lemma {:induction false} DistinctAppends(a: seq<string>, b: seq<string>)
    requires Distinct(a) && Distinct(b) && forall c :: c in a ==> c !in b
    ensures Distinct(a + b)
  {
    forall i, j | 0 <= i < j < |a + b| ensures (a + b)[i] != (a + b)[j] {
      assert i < |a| ==> (a + b)[i] in a;
      assert j >= |a| ==> (a + b)[j] in b;
    }
  }

  /** A set that remembers insertion order: adding again moves a code to the end. */
  method Touch(retained: seq<string>, required: seq<string>) returns (r: seq<string>)
    requires Distinct(retained) && Distinct(required)
    ensures r == Others(retained, required) + required
  {
    r := retained;
    OthersOfNone(retained);
    for i := 0 to |required|
      invariant r == Others(retained, required[..i]) + required[..i]
    {
      TouchOne(retained, required[..i], required[i]);
      assert required[..i + 1] == required[..i] + [required[i]];
      r := Others(r, [required[i]]) + [required[i]];
    }
    assert required[..|required|] == required;
  }

  lemma {:induction false} TouchOne(retained: seq<string>, done: seq<string>, next: string)
    requires next !in done
    ensures Others(Others(retained, done) + done, [next]) + [next] == Others(retained, done + [next]) + (done + [next])
  {
    OthersAppends(Others(retained, done), done, [next]);
    OthersTwice(retained, done, next);
    OthersOfStrangers(done, [next]);
  }

  lemma {:induction false} OthersOfNone(codes: seq<string>)
    ensures Others(codes, []) == codes
  {
    if codes != [] {
      OthersOfNone(codes[..|codes| - 1]);
    }
  }

  lemma {:induction false} OthersOfStrangers(codes: seq<string>, required: seq<string>)
    requires forall c :: c in codes ==> c !in required
    ensures Others(codes, required) == codes
  {
    if codes != [] {
      var front, last := codes[..|codes| - 1], codes[|codes| - 1];
      assert last in codes;
      forall c | c in front ensures c !in required {
        assert c in codes;
      }
      OthersOfStrangers(front, required);
      assert codes == front + [last];
    }
  }

  lemma {:induction false} OthersAppends(a: seq<string>, b: seq<string>, required: seq<string>)
    ensures Others(a + b, required) == Others(a, required) + Others(b, required)
  {
    if b == [] {
      assert a + b == a;
    } else {
      assert (a + b)[..|a + b| - 1] == a + b[..|b| - 1];
      OthersAppends(a, b[..|b| - 1], required);
    }
  }

  lemma {:induction false} OthersTwice(codes: seq<string>, required: seq<string>, next: string)
    ensures Others(Others(codes, required), [next]) == Others(codes, required + [next])
  {
    if codes != [] {
      var front, last := codes[..|codes| - 1], codes[|codes| - 1];
      OthersTwice(front, required, next);
      if last !in required {
        assert (Others(front, required) + [last])[..|Others(front, required)|] == Others(front, required);
      }
    }
  }

  lemma {:induction false} WithoutFirst(codes: seq<string>)
    requires codes != [] && Distinct(codes)
    ensures Others(codes, [codes[0]]) == codes[1..]
  {
    var head, rest := [codes[0]], codes[1..];
    assert codes == head + rest;
    OthersAppends(head, rest, head);
    OthersOfStrangers(rest, head);
    assert Others(head, head) == [];
  }

  /** The list names each element of the set once. */
  ghost predicate Mirrors(codes: seq<string>, all: set<string>) {
    Distinct(codes) && all == Elements(codes)
  }

  lemma {:induction false} OthersMirror(codes: seq<string>, all: set<string>, code: string)
    requires Mirrors(codes, all)
    ensures Mirrors(Others(codes, [code]), all - {code})
  {
    OthersDistinct(codes, [code]);
  }

  /** Drops what is not required, least recently used first, until the limit holds. */
  method Evict(retained: seq<string>, installed: set<string>, ghost others: seq<string>, required: seq<string>)
    returns (r: seq<string>, store: set<string>)
    requires retained == others + required && Mirrors(retained, installed)
    requires forall c :: c in others ==> c !in required
    ensures r == LastUsed(retained, Max(LIMIT, |required|)) && Mirrors(r, store)
  {
    r, store := retained, installed;
    for i := 0 to |retained|
      invariant i <= |others| && r == retained[i..] && Mirrors(r, store)
      invariant i == 0 || |r| >= Max(LIMIT, |required|)
    {
      if |r| <= Max(LIMIT, |required|) {
        break;
      }
      var code := retained[i];
      assert code == others[i] && code == r[0];
      if code !in required {
        WithoutFirst(r);
        OthersMirror(r, store, code);
        store := store - {code};
        r := Others(r, [code]);
      }
    }
  }

  // ----- Calls

  type Canonical = string -> Option<string>

  /** The registry, and the canonical form of a locale. */
  datatype Source = Source(available: Registry, canonical: Canonical)

  /** The bundles that a language needs; the chain resolves the language once more. */
  function Chain(source: Source, language: string): seq<string> {
    LanguageChain(source.available, Resolve(source.available, source.canonical(language)))
  }

  /** A load that succeeds is waited for no longer; one that fails rejects the calls that wait for it. */
  function Told(c: Call, language: string, ok: bool): Call {
    if !c.phase.Loading? || language !in c.waiting then c
    else if ok then c.(waiting := c.waiting - {language})
    else c.(phase := Rejected)
  }

  /** A call waits only for loads that are under way. */
  ghost predicate CallValid(source: Source, pending: set<string>, c: Call) {
    && c.required == Chain(source, c.language)
    && (c.phase.Loading? ==> c.waiting <= pending)
  }

  /** The call has installed its bundles. */
  predicate Installs(p: Phase) {
    p.Applying? || p == Finished(true)
  }

  /** What the last call to install needs is retained, within the limit, and no later call has installed. */
  ghost predicate Retains(retained: seq<string>, calls: seq<Call>, newest: Option<nat>) {
    match newest
    case None => retained == [] && forall k :: 0 <= k < |calls| ==> !Installs(calls[k].phase)
    case Some(n) =>
      && n < |calls|
      && (forall k :: n < k < |calls| ==> !Installs(calls[k].phase))
      && (forall c :: c in calls[n].required ==> c in retained)
      && |retained| <= Max(LIMIT, |calls[n].required|)
  }

  /** Starts the loads that a call needs and that are not under way. */
  method EnsureAll(required: seq<string>, installed: set<string>, pending: set<string>, ghost loads: seq<string>)
    returns (waiting: set<string>, underway: set<string>, ghost started: seq<string>)
    requires Mirrors(loads, pending)
    ensures waiting == Elements(required) - installed && underway == pending + waiting
    ensures loads <= started && Mirrors(started, underway)
  {
    waiting, underway, started := {}, pending, loads;
    for i := 0 to |required|
      invariant waiting == Elements(required[..i]) - installed && underway == pending + waiting
      invariant loads <= started && Mirrors(started, underway)
    {
      var code := required[i];
      assert required[..i + 1] == required[..i] + [code];
      if code !in installed {
        waiting := waiting + {code};
        if code !in underway {
          assert Elements(started + [code]) == underway + {code};
          underway := underway + {code};
          started := started + [code];
        }
      }
    }
    assert required[..|required|] == required;
  }

  /** Resolves the value and starts what is needed for it. */
  method StartCall(source: Source, value: string, installed: set<string>, pending: set<string>,
                   ghost loads: seq<string>)
    returns (call: Call, underway: set<string>, ghost started: seq<string>)
    requires Mirrors(loads, pending)
    ensures call.language == Resolve(source.available, source.canonical(value)) && call.phase == Loading
    ensures call.required == Chain(source, call.language) && call.waiting == Elements(call.required) - installed
    ensures underway == pending + call.waiting && loads <= started && Mirrors(started, underway)
  {
    var language := ResolveLanguage(source.available, source.canonical(value));
    var required := Chain(source, language);
    var waiting: set<string>;
    waiting, underway, started := EnsureAll(required, installed, pending, loads);
    call := Call(language, required, waiting, Loading);
  }

  /** Installs the required bundles and removes those that no longer fit. */
  method Install(retained: seq<string>, installed: set<string>, required: seq<string>)
    returns (kept: seq<string>, store: set<string>)
    requires Mirrors(retained, installed) && Distinct(required)
    ensures kept == Retain(retained, required) && Mirrors(kept, store)
    ensures |kept| <= Max(LIMIT, |required|) && forall c :: c in required ==> c in kept
    ensures store <= installed + Elements(required)
  {
    RetainMeans(retained, required);
    ghost var others := Others(retained, required);
    TouchedMeans(retained, required);
    RetainIsEvict(retained, required);
    kept := Touch(retained, required);
    store := installed + Elements(required);
    kept, store := Evict(kept, store, others, required);
  }

  lemma {:induction false} TouchedMeans(retained: seq<string>, required: seq<string>)
    requires Distinct(retained) && Distinct(required)
    ensures Mirrors(Others(retained, required) + required, Elements(retained) + Elements(required))
  {
    OthersDistinct(retained, required);
    DistinctAppends(Others(retained, required), required);
  }

  lemma {:induction false} LastOfAppended(a: seq<string>, b: seq<string>, n: nat)
    requires |b| <= n
    ensures LastUsed(a + b, n) == LastUsed(a, n - |b|) + b
  {
    if |a + b| > n {
      assert (a + b)[|a + b| - n..] == a[|a| - (n - |b|)..] + b;
    }
  }

  /** Evicting from the touched list leaves what is to be retained. */
  lemma {:induction false} RetainIsEvict(retained: seq<string>, required: seq<string>)
    ensures LastUsed(Others(retained, required) + required, Max(LIMIT, |required|)) == Retain(retained, required)
  {
    LastOfAppended(Others(retained, required), required, Max(LIMIT, |required|));
  }

  /** Telling the calls of a settled load leaves them waiting for the others only. */
  lemma {:induction false} ToldKeeps(source: Source, pending: set<string>, c: Call, language: string, ok: bool)
    requires CallValid(source, pending, c)
    ensures CallValid(source, pending - {language}, Told(c, language, ok))
    ensures Told(c, language, ok).required == c.required && Installs(Told(c, language, ok).phase) == Installs(c.phase)
  {
  }

  /** What is in the store has been loaded, and so has all that a call needs and does not wait for. */
  ghost predicate Grounded(loaded: set<string>, installed: set<string>, calls: seq<Call>) {
    && installed <= loaded
    && forall k :: 0 <= k < |calls| && calls[k].phase.Loading? ==>
         Elements(calls[k].required) <= calls[k].waiting + loaded
  }

  /** A new call waits for all that is not in the store. */
  lemma {:induction false} CallGrounded(loaded: set<string>, installed: set<string>, calls: seq<Call>, c: Call)
    requires Grounded(loaded, installed, calls)
    requires c.waiting == Elements(c.required) - installed
    ensures Grounded(loaded, installed, calls + [c])
  {
  }

  lemma {:induction false} ToldGrounded(loaded: set<string>, installed: set<string>, calls: seq<Call>, told: seq<Call>,
                                        language: string, ok: bool)
    requires Grounded(loaded, installed, calls) && |told| == |calls|
    requires forall k :: 0 <= k < |calls| ==> told[k] == Told(calls[k], language, ok)
    ensures Grounded(loaded + if ok then {language} else {}, installed, told)
  {
  }

  lemma {:induction false} MovedOnGrounded(loaded: set<string>, installed: set<string>, calls: seq<Call>, k: nat,
                                           phase: Phase)
    requires Grounded(loaded, installed, calls) && k < |calls| && !phase.Loading?
    ensures Grounded(loaded, installed, calls[k := calls[k].(phase := phase)])
  {
  }

  /** A call without open loads may install all that it needs. */
  lemma {:induction false} InstallGrounded(loaded: set<string>, installed: set<string>, calls: seq<Call>, k: nat,
                                           store: set<string>)
    requires Grounded(loaded, installed, calls) && k < |calls| && calls[k].phase.Loading? && calls[k].waiting == {}
    requires store <= installed + Elements(calls[k].required)
    ensures Grounded(loaded, store, calls[k := calls[k].(phase := Applying)])
  {
  }

  /** A call that has not installed anything changes neither what is retained nor what others wait for. */
  lemma {:induction false} CallStarts(source: Source, retained: seq<string>, calls: seq<Call>, newest: Option<nat>,
                                      pending: set<string>, underway: set<string>, c: Call)
    requires Retains(retained, calls, newest) && !Installs(c.phase) && pending <= underway
    requires forall k :: 0 <= k < |calls| ==> CallValid(source, pending, calls[k])
    requires CallValid(source, underway, c)
    ensures Retains(retained, calls + [c], newest)
    ensures forall k :: 0 <= k < |calls + [c]| ==> CallValid(source, underway, (calls + [c])[k])
  {
  }

  /** Every call learns of the load. */
  method TellAll(calls: seq<Call>, language: string, ok: bool) returns (told: seq<Call>)
    ensures |told| == |calls| && forall k :: 0 <= k < |calls| ==> told[k] == Told(calls[k], language, ok)
  {
    told := calls;
    for k := 0 to |calls|
      invariant |told| == |calls|
      invariant forall i :: 0 <= i < |calls| ==> told[i] == if i < k then Told(calls[i], language, ok) else calls[i]
    {
      told := told[k := Told(calls[k], language, ok)];
    }
  }

  /** Calls that keep what they require and install nothing leave the retention as it is. */
  lemma {:induction false} RetainsStill(retained: seq<string>, before: seq<Call>, after: seq<Call>, newest: Option<nat>)
    requires Retains(retained, before, newest) && |after| == |before|
    requires forall k :: 0 <= k < |after| ==> after[k].required == before[k].required
    requires forall k :: 0 <= k < |after| ==> Installs(after[k].phase) ==> Installs(before[k].phase)
    ensures Retains(retained, after, newest)
  {
  }

  class Controller {
    const source: Source
    var revision: nat
    var pending: set<string>
    var retained: seq<string>
    /** The bundles in the translation store. */
    var installed: set<string>
    var preference: Option<string>
    /** All calls of `change` so far. */
    var calls: seq<Call>
    /** The loads that have been started and are not settled. */
    ghost var loads: seq<string>
    /** The languages of which some load has succeeded. */
    ghost var loaded: set<string>
    /** The call that installed its bundles last. */
    ghost var newest: Option<nat>

    ghost predicate Valid()
      reads this
    {
      && |calls| == revision
      && Mirrors(retained, installed) && Mirrors(loads, pending)
      && (forall k :: 0 <= k < |calls| ==> CallValid(source, pending, calls[k]))
      && Retains(retained, calls, newest) && Grounded(loaded, installed, calls)
    }

    constructor (source: Source)
      ensures Valid() && this.source == source && revision == 0 && retained == [] && loaded == {}
    {
      this.source := source;
      revision, pending, retained, installed, preference, calls := 0, {}, [], {}, None, [];
      loads, loaded, newest := [], {}, None;
    }

    /** Starts a call: loads what is neither in the store nor under way. */
    method Change(value: string)
      requires Valid()
      modifies this
      ensures Valid() && revision == old(revision) + 1
      ensures retained == old(retained) && installed == old(installed)
      ensures preference == old(preference) && newest == old(newest)
      ensures var language := Resolve(source.available, source.canonical(value));
              var required := Chain(source, language);
              && calls == old(calls) + [Call(language, required, Elements(required) - installed, Loading)]
              && pending == old(pending) + (Elements(required) - installed)
      ensures old(loads) <= loads && loaded == old(loaded)
    {
      revision := revision + 1;
      var call: Call;
      call, pending, loads := StartCall(source, value, installed, pending, loads);
      CallStarts(source, retained, calls, newest, old(pending), pending, call);
      CallGrounded(loaded, installed, calls, call);
      calls := calls + [call];
    }

    /** A load succeeds or fails: calls that waited for it go on without it, or are rejected. */
    method LoadSettles(language: string, ok: bool)
      requires Valid() && language in pending
      modifies this
      ensures Valid() && pending == old(pending) - {language}
      ensures revision == old(revision) && retained == old(retained) && installed == old(installed)
      ensures preference == old(preference) && newest == old(newest)
      ensures |calls| == |old(calls)|
      ensures forall k :: 0 <= k < |calls| ==>
        var before, now := old(calls)[k], calls[k];
        && now.language == before.language && now.required == before.required
        && if before.phase.Loading? && language in before.waiting then
             if ok then now.phase.Loading? && now.waiting == before.waiting - {language} else now.phase.Rejected?
           else now == before
      ensures loaded == old(loaded) + if ok then {language} else {}
    {
      pending := pending - {language};
      loads := Others(loads, [language]);
      OthersMirror(old(loads), old(pending), language);
      calls := TellAll(calls, language, ok);
      ToldGrounded(loaded, installed, old(calls), calls, language, ok);
      loaded := loaded + if ok then {language} else {};
      forall k | 0 <= k < |calls|
        ensures CallValid(source, pending, calls[k])
        ensures calls[k].required == old(calls)[k].required && Installs(calls[k].phase) == Installs(old(calls)[k].phase)
      {
        ToldKeeps(source, old(pending), old(calls)[k], language, ok);
      }
      RetainsStill(retained, old(calls), calls, newest);
    }

    /** Continues a call when all it waited for is there, or something has failed. */
    method Resume(k: nat)
      requires Valid() && k < |calls|
      requires calls[k].phase.Rejected? || (calls[k].phase.Loading? && calls[k].waiting == {})
      modifies this
      ensures Valid() && revision == old(revision) && pending == old(pending) && preference == old(preference)
      ensures loaded == old(loaded)
      ensures var c := old(calls)[k];
              if k + 1 != revision || c.phase.Rejected? then
                && retained == old(retained) && installed == old(installed) && newest == old(newest)
                && calls == old(calls)[k := c.(phase := if k + 1 != revision then Finished(false) else Failed)]
              else
                && retained == Retain(old(retained), c.required) && newest == Some(k)
                && calls == old(calls)[k := c.(phase := Applying)]
    {
      var c := calls[k];
      if k + 1 != revision {
        MovedOnGrounded(loaded, installed, calls, k, Finished(false));
        calls := calls[k := c.(phase := Finished(false))];
        RetainsStill(retained, old(calls), calls, newest);
      } else if c.phase.Rejected? {
        MovedOnGrounded(loaded, installed, calls, k, Failed);
        calls := calls[k := c.(phase := Failed)];
        RetainsStill(retained, old(calls), calls, newest);
      } else {
        ChainMeans(source.available, Resolve(source.available, source.canonical(c.language)));
        retained, installed := Install(retained, installed, c.required);
        InstallGrounded(loaded, old(installed), calls, k, installed);
        calls := calls[k := c.(phase := Applying)];
        newest := Some(k);
      }
    }

    /** The instance has switched over; only the newest call stores its language. */
    method Applied(k: nat, persist: bool)
      requires Valid() && k < |calls| && calls[k].phase.Applying?
      modifies this
      ensures Valid() && revision == old(revision) && pending == old(pending) && loaded == old(loaded)
      ensures retained == old(retained) && installed == old(installed) && newest == old(newest)
      ensures calls == old(calls)[k := old(calls)[k].(phase := Finished(k + 1 == revision))]
      ensures preference == if k + 1 == revision && persist then Some(calls[k].language) else old(preference)
    {
      calls := calls[k := calls[k].(phase := Finished(k + 1 == revision))];
      if k + 1 == revision && persist {
        preference := Some(calls[k].language);
      }
    }
  }
}
