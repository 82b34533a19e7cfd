/** The language registry (src/src/i18n/registry.ts): resolving a locale and following fallbacks. */
module Languages {
  import opened Basics

  datatype Locale = Locale(code: string, fallbacks: seq<string>, aliases: seq<string>)

  type Registry = seq<Locale>

  const FALLBACK := "en"

  ghost predicate Distinct(codes: seq<string>) {
    forall i, j :: 0 <= i < j < |codes| ==> codes[i] != codes[j]
  }

  function Elements(codes: seq<string>): set<string> {
    set code | code in codes
  }

  // ----- Resolving a locale

  /** The subtags of a locale, joined by hyphens. */
  function Joined(parts: seq<string>): string {
    if parts == [] then ""
    else if |parts| == 1 then parts[0]
    else Joined(parts[..|parts| - 1]) + "-" + parts[|parts| - 1]
  }

  /** A locale code split at its hyphens. */
  function Subtags(text: string): (r: seq<string>)
    ensures r != []
  {
    if text == "" then [""]
    else
      var before, c := Subtags(text[..|text| - 1]), text[|text| - 1];
      var last := |before| - 1;
      if c == '-' then before + [""] else before[last := before[last] + [c]]
  }

  lemma {:induction false} SubtagsJoin(text: string)
    ensures Joined(Subtags(text)) == text && forall p :: p in Subtags(text) ==> '-' !in p
  {
    if text != "" {
      var front, c := text[..|text| - 1], text[|text| - 1];
      SubtagsJoin(front);
      var before := Subtags(front);
      var last := |before| - 1;
      assert text == front + [c] && before[last] in before;
      assert (before + [""])[..|before|] == before;
      assert before[last := before[last] + [c]][..last] == before[..last];
    }
  }

  predicate Answers(l: Locale, candidate: string) {
    l.code == candidate || candidate in l.aliases
  }

  /** The first locale known by this name. */
  function Match(available: Registry, candidate: string): (r: Option<Locale>)
    ensures r.Some? ==> r.value in available && Answers(r.value, candidate)
    ensures r.None? ==> forall l :: l in available ==> !Answers(l, candidate)
  {
    if available == [] then None
    else if Answers(available[0], candidate) then Some(available[0])
    else
      assert forall l :: l in available <==> l == available[0] || l in available[1..];
      Match(available[1..], candidate)
  }

  /** Dropping the last subtag until a locale answers. */
  function ResolveParts(available: Registry, parts: seq<string>): string {
    if parts == [] then FALLBACK
    else
      var found := Match(available, Joined(parts));
      if found.Some? then found.value.code else ResolveParts(available, parts[..|parts| - 1])
  }

  /** The language for an input with this canonical form, if it has any. */
  function Resolve(available: Registry, canonical: Option<string>): string {
    if canonical.Some? && canonical.value != "" then ResolveParts(available, Subtags(canonical.value)) else FALLBACK
  }

  method ResolveLanguage(available: Registry, canonical: Option<string>) returns (r: string)
    ensures r == Resolve(available, canonical)
  {
    if canonical.Some? && canonical.value != "" {
      var parts := Subtags(canonical.value);
      while parts != []
        invariant ResolveParts(available, parts) == ResolveParts(available, Subtags(canonical.value))
        decreases |parts|
      {
        var found := Match(available, Joined(parts));
        if found.Some? {
          return found.value.code;
        }
        parts := parts[..|parts| - 1];
      }
    }
    return FALLBACK;
  }

  /** The first `n` characters make up whole subtags. */
  predicate WholeSubtags(text: string, n: nat) {
    n == |text| || (n < |text| && text[n] == '-')
  }

  /** The first locale with this code or alias. */
  ghost predicate FirstNamed(available: Registry, name: string, i: nat) {
    && i < |available| && (available[i].code == name || name in available[i].aliases)
    && forall j :: 0 <= j < i ==> available[j].code != name && name !in available[j].aliases
  }

  ghost predicate Nameless(available: Registry, name: string) {
    forall l :: l in available ==> l.code != name && name !in l.aliases
  }

  /** The first `n` characters name the locale, and no longer beginning of whole subtags names any. */
  ghost predicate Decides(available: Registry, text: string, n: nat, i: nat) {
    && n <= |text| && WholeSubtags(text, n) && FirstNamed(available, text[..n], i)
    && forall m: nat :: n < m <= |text| && WholeSubtags(text, m) ==> Nameless(available, text[..m])
  }

  ghost predicate ResolvesTo(available: Registry, text: string, r: string) {
    || (exists n: nat, i: nat :: Decides(available, text, n, i) && r == available[i].code)
    || (r == FALLBACK && forall n: nat :: n <= |text| && WholeSubtags(text, n) ==> Nameless(available, text[..n]))
  }

  lemma {:induction false} MatchMeans(available: Registry, name: string) returns (i: nat)
    ensures Match(available, name).Some? ==>
      FirstNamed(available, name, i) && Match(available, name) == Some(available[i])
    ensures Match(available, name).None? ==> Nameless(available, name)
  {
    i := 0;
    if available != [] && !Answers(available[0], name) {
      var k := MatchMeans(available[1..], name);
      i := k + 1;
      assert forall j :: 0 < j < |available| ==> available[j] == available[1..][j - 1];
    }
  }

  /** Text after the last hyphen adds one more beginning of whole subtags. */
  lemma {:induction false} OneMoreSubtag(front: string, last: string, n: nat)
    requires '-' !in last && n <= |front + "-" + last|
    ensures WholeSubtags(front + "-" + last, n)
      <==> n == |front + "-" + last| || (n <= |front| && WholeSubtags(front, n))
    ensures n <= |front| ==> (front + "-" + last)[..n] == front[..n]
  {
    var text := front + "-" + last;
    assert n < |front| ==> text[n] == front[n];
    assert |front| < n < |text| ==> text[n] == last[n - |front| - 1];
  }

  lemma {:induction false} ResolvesShorter(available: Registry, front: string, last: string, r: string)
    requires '-' !in last && ResolvesTo(available, front, r) && Nameless(available, front + "-" + last)
    ensures ResolvesTo(available, front + "-" + last, r)
  {
    var text := front + "-" + last;
    assert text[..|text|] == text;
    forall m: nat | m <= |text|
      ensures WholeSubtags(text, m) <==> m == |text| || (m <= |front| && WholeSubtags(front, m))
      ensures m <= |front| ==> text[..m] == front[..m]
    {
      OneMoreSubtag(front, last, m);
    }
    if n: nat, i: nat :| Decides(available, front, n, i) && r == available[i].code {
      assert Decides(available, text, n, i);
    }
  }

  lemma {:induction false} PartsResolve(available: Registry, parts: seq<string>)
    requires parts != [] && forall p :: p in parts ==> '-' !in p
    ensures ResolvesTo(available, Joined(parts), ResolveParts(available, parts))
  {
    var text := Joined(parts);
    assert text[..|text|] == text;
    var i := MatchMeans(available, text);
    if Match(available, text).Some? {
      assert Decides(available, text, |text|, i);
    } else if |parts| == 1 {
      assert text == parts[0];
      NoSubtagInside(text);
    } else {
      var front, last := parts[..|parts| - 1], parts[|parts| - 1];
      PartsResolve(available, front);
      ResolvesShorter(available, Joined(front), last, ResolveParts(available, front));
    }
  }

  lemma {:induction false} NoSubtagInside(text: string)
    requires '-' !in text
    ensures forall n :: 0 <= n <= |text| && WholeSubtags(text, n) ==> n == |text|
  {
  }

  /** The longest beginning of whole subtags that names a locale decides, never a different script or region; the
      first locale so named is taken, and if there is none, the fallback language. */
  lemma {:induction false} ResolveMeans(available: Registry, text: string)
    requires text != ""
    ensures ResolvesTo(available, text, Resolve(available, Some(text)))
  {
    SubtagsJoin(text);
    PartsResolve(available, Subtags(text));
  }

  /** Resolving a resolved language gives it again if its locale is the first to answer to its code and the
      code is canonical. */
  lemma {:induction false} ResolveTwice(available: Registry, code: string)
    requires code != "" && Match(available, code).Some? && Match(available, code).value.code == code
    ensures Resolve(available, Some(code)) == code
  {
    SubtagsJoin(code);
  }

  // ----- Fallback chains

  /** The fallbacks of the first locale with this code. */
  function Fallbacks(available: Registry, code: string): (r: seq<string>)
    ensures code !in Codes(available) ==> r == []
  {
    if available == [] then []
    else if available[0].code == code then available[0].fallbacks
    else Fallbacks(available[1..], code)
  }

  function Codes(available: Registry): (r: set<string>)
    ensures available != [] ==> available[0].code in r && forall c :: c in Codes(available[1..]) ==> c in r
  {
    if available == [] then {} else {available[0].code} + Codes(available[1..])
  }

  /** Adding a code and, depth first, all it falls back to. */
  function Visit(available: Registry, result: seq<string>, code: string): (r: seq<string>)
    ensures result <= r
    decreases |Codes(available) - Elements(result)|, 0
  {
    if code in result then result
    else if Fallbacks(available, code) == [] then result + [code]
    else
      Shrinks(available, result, code);
      VisitAll(available, result + [code], Fallbacks(available, code))
  }

  function VisitAll(available: Registry, result: seq<string>, codes: seq<string>): (r: seq<string>)
    ensures result <= r
    decreases |Codes(available) - Elements(result)|, |codes|
  {
    if codes == [] then result
    else
      var first := Visit(available, result, codes[0]);
      Grows(available, result, first);
      VisitAll(available, first, codes[1..])
  }

  lemma {:induction false} Shrinks(available: Registry, result: seq<string>, code: string)
    requires code !in result && code in Codes(available)
    ensures |Codes(available) - Elements(result + [code])| < |Codes(available) - Elements(result)|
  {
    var before, after := Codes(available) - Elements(result), Codes(available) - Elements(result + [code]);
    assert after == before - {code} && code in before;
  }

  lemma {:induction false} Grows(available: Registry, result: seq<string>, more: seq<string>)
    requires result <= more
    ensures |Codes(available) - Elements(more)| <= |Codes(available) - Elements(result)|
  {
    var before, after := Codes(available) - Elements(result), Codes(available) - Elements(more);
    assert forall c :: c in result ==> c in more;
    Smaller(after, before);
  }

  lemma {:induction false} Smaller(a: set<string>, b: set<string>)
    requires a <= b
    ensures |a| <= |b|
  {
    assert b == a + (b - a);
  }

  function LanguageChain(available: Registry, start: string): seq<string> {
    Visit(available, Visit(available, [], start), FALLBACK)
  }

  /** Every code from position `from` on has all its fallbacks in the list. */
  ghost predicate ClosedFrom(available: Registry, codes: seq<string>, from: nat) {
    forall i :: from <= i < |codes| ==> forall f :: f in Fallbacks(available, codes[i]) ==> f in codes
  }

  /** A set closed under fallbacks. */
  ghost predicate Closed(available: Registry, codes: set<string>) {
    forall c, f :: c in codes && f in Fallbacks(available, c) ==> f in codes
  }

  lemma {:induction false} ClosedHead(available: Registry, codes: seq<string>, n: nat)
    requires n < |codes| && ClosedFrom(available, codes, n + 1)
    requires forall f :: f in Fallbacks(available, codes[n]) ==> f in codes
    ensures ClosedFrom(available, codes, n)
  {
  }

  lemma {:induction false} AllListed(codes: seq<string>, first: seq<string>, r: seq<string>)
    requires codes != [] && codes[0] in first && first <= r && forall c :: c in codes[1..] ==> c in r
    ensures forall c :: c in codes ==> c in r
  {
    forall c | c in codes ensures c in r {
      var i :| 0 <= i < |codes| && codes[i] == c;
      assert i > 0 ==> codes[1..][i - 1] == c;
    }
  }

  lemma {:induction false} ClosedJoin(available: Registry, codes: seq<string>, more: seq<string>, n: nat)
    requires codes <= more && ClosedFrom(available, codes, n) && ClosedFrom(available, more, |codes|)
    ensures ClosedFrom(available, more, n)
  {
    assert forall c :: c in codes ==> c in more;
    assert forall i :: 0 <= i < |codes| ==> more[i] == codes[i];
  }

  lemma {:induction false} VisitMeans(available: Registry, result: seq<string>, code: string)
    requires Distinct(result)
    ensures var r := Visit(available, result, code);
            && Distinct(r) && code in r
            && ClosedFrom(available, r, |result|)
    decreases |Codes(available) - Elements(result)|, 0
  {
    if code !in result && Fallbacks(available, code) != [] {
      Shrinks(available, result, code);
      VisitAllMeans(available, result + [code], Fallbacks(available, code));
      ClosedHead(available, Visit(available, result, code), |result|);
    }
  }

  lemma {:induction false} VisitAllMeans(available: Registry, result: seq<string>, codes: seq<string>)
    requires Distinct(result)
    ensures var r := VisitAll(available, result, codes);
            && Distinct(r) && (forall c :: c in codes ==> c in r)
            && ClosedFrom(available, r, |result|)
    decreases |Codes(available) - Elements(result)|, |codes|
  {
    if codes != [] {
      var first := Visit(available, result, codes[0]);
      VisitMeans(available, result, codes[0]);
      Grows(available, result, first);
      VisitAllMeans(available, first, codes[1..]);
      var r := VisitAll(available, first, codes[1..]);
      AllListed(codes, first, r);
      ClosedJoin(available, first, r, |result|);
    }
  }

  lemma {:induction false} VisitLeast(available: Registry, result: seq<string>, code: string, all: set<string>)
    requires Closed(available, all) && Elements(result) <= all && code in all
    ensures Elements(Visit(available, result, code)) <= all
    decreases |Codes(available) - Elements(result)|, 0
  {
    if code !in result && Fallbacks(available, code) != [] {
      Shrinks(available, result, code);
      VisitAllLeast(available, result + [code], Fallbacks(available, code), all);
    }
  }

  lemma {:induction false} VisitAllLeast(available: Registry, result: seq<string>, codes: seq<string>, all: set<string>)
    requires Closed(available, all) && Elements(result) <= all && Elements(codes) <= all
    ensures Elements(VisitAll(available, result, codes)) <= all
    decreases |Codes(available) - Elements(result)|, |codes|
  {
    if codes != [] {
      var first := Visit(available, result, codes[0]);
      VisitLeast(available, result, codes[0], all);
      Grows(available, result, first);
      VisitAllLeast(available, first, codes[1..], all);
    }
  }

  /** For every registry, cyclic ones included, the chain is duplicate-free, begins with the
      language, ends up in the fallback language and is closed under fallbacks; it holds nothing
      that is not needed for that. */
  lemma {:induction false} ChainMeans(available: Registry, start: string)
    ensures var chain := LanguageChain(available, start);
            && Distinct(chain) && chain != [] && chain[0] == start && FALLBACK in chain
            && Closed(available, Elements(chain))
    ensures forall all :: Closed(available, all) && start in all && FALLBACK in all ==>
      Elements(LanguageChain(available, start)) <= all
  {
    var first := Visit(available, [], start);
    var chain := LanguageChain(available, start);
    VisitMeans(available, [], start);
    VisitMeans(available, first, FALLBACK);
    assert forall i :: 0 <= i < |first| ==> chain[i] == first[i];
    forall all | Closed(available, all) && start in all && FALLBACK in all ensures Elements(chain) <= all {
      VisitLeast(available, [], start, all);
      VisitLeast(available, first, FALLBACK, all);
    }
  }

  // ----- The order of the chain

  /** The locale's own fallbacks: those of the first locale with the code. */
  lemma {:induction false} FallbacksMean(available: Registry, code: string, i: nat)
    requires i < |available| && available[i].code == code && forall j :: 0 <= j < i ==> available[j].code != code
    ensures Fallbacks(available, code) == available[i].fallbacks
  {
    if i > 0 {
      FallbacksMean(available[1..], code, i - 1);
    }
  }

  /** The first fallback of the code at `j` that is not listed yet; everything behind `j` has all of its own. */
  ghost predicate NextOf(available: Registry, before: seq<string>, next: string, j: nat, m: nat) {
    && j < |before| && ClosedFrom(available, before, j + 1) && next !in before
    && m < |Fallbacks(available, before[j])| && Fallbacks(available, before[j])[m] == next
    && forall l :: 0 <= l < m ==> Fallbacks(available, before[j])[l] in before
  }

  /** Each code from position `start` on is the next one of a code at `from` or behind it. */
  ghost predicate DepthFirst(available: Registry, r: seq<string>, start: nat, from: nat) {
    forall i :: start <= i < |r| ==> Follows(available, r[..i], r[i], from)
  }

  ghost predicate Follows(available: Registry, before: seq<string>, next: string, from: nat) {
    exists j: nat, m: nat :: from <= j && NextOf(available, before, next, j, m)
  }

  lemma {:induction false} DepthFirstJoin(available: Registry, codes: seq<string>, r: seq<string>, start: nat,
                                          from: nat, later: nat)
    requires codes <= r && start <= |codes| && from <= later
    requires DepthFirst(available, codes, start, later) && DepthFirst(available, r, |codes|, from)
    ensures DepthFirst(available, r, start, from)
  {
    forall i | start <= i < |codes| ensures Follows(available, r[..i], r[i], from) {
      assert r[..i] == codes[..i] && Follows(available, codes[..i], codes[i], later);
    }
  }

  lemma {:induction false} DepthFirstHead(available: Registry, r: seq<string>, n: nat, from: nat)
    requires from <= n < |r| && Follows(available, r[..n], r[n], from) && DepthFirst(available, r, n + 1, n)
    ensures DepthFirst(available, r, n, from)
  {
    forall i | n < i < |r| ensures Follows(available, r[..i], r[i], from) {
      assert Follows(available, r[..i], r[i], n);
    }
  }

  lemma {:induction false} VisitOrder(available: Registry, result: seq<string>, code: string)
    requires Distinct(result) && code !in result
    ensures var r := Visit(available, result, code);
            |result| < |r| && r[|result|] == code && DepthFirst(available, r, |result| + 1, |result|)
    decreases |Codes(available) - Elements(result)|, 0
  {
    if Fallbacks(available, code) != [] {
      Shrinks(available, result, code);
      var codes := Fallbacks(available, code);
      assert codes[0..] == codes;
      VisitAllOrder(available, result + [code], codes, |result|, 0);
    }
  }

  lemma {:induction false} VisitAllOrder(available: Registry, result: seq<string>, codes: seq<string>, b: nat, m: nat)
    requires Distinct(result) && b < |result| && ClosedFrom(available, result, b + 1)
    requires m <= |Fallbacks(available, result[b])| && codes == Fallbacks(available, result[b])[m..]
    requires forall l :: 0 <= l < m ==> Fallbacks(available, result[b])[l] in result
    ensures DepthFirst(available, VisitAll(available, result, codes), |result|, b)
    decreases |Codes(available) - Elements(result)|, |codes|
  {
    if codes != [] {
      var first := Visit(available, result, codes[0]);
      VisitMeans(available, result, codes[0]);
      Grows(available, result, first);
      ClosedJoin(available, result, first, b + 1);
      assert forall c :: c in result ==> c in first;
      VisitAllOrder(available, first, codes[1..], b, m + 1);
      if codes[0] !in result {
        VisitOrder(available, result, codes[0]);
        assert first[..|result|] == result && NextOf(available, result, codes[0], b, m);
        DepthFirstHead(available, first, |result|, b);
      }
      DepthFirstJoin(available, first, VisitAll(available, first, codes[1..]), |result|, b, b);
    }
  }

  /** A depth-first list from the language, and then from the fallback language. */
  ghost predicate IsChain(available: Registry, start: string, chain: seq<string>) {
    && chain != [] && chain[0] == start && FALLBACK in chain && ClosedFrom(available, chain, 0) && Distinct(chain)
    && Goes(available, chain)
  }

  ghost predicate Goes(available: Registry, chain: seq<string>) {
    forall i :: 1 <= i < |chain| ==> Continues(available, chain[..i], chain[i])
  }

  ghost predicate Continues(available: Registry, before: seq<string>, next: string) {
    Follows(available, before, next, 0) || (ClosedFrom(available, before, 0) && next == FALLBACK)
  }

  lemma {:induction false} ChainIsDepthFirst(available: Registry, start: string)
    ensures IsChain(available, start, LanguageChain(available, start))
  {
    var first := Visit(available, [], start);
    var chain := LanguageChain(available, start);
    VisitMeans(available, [], start);
    VisitOrder(available, [], start);
    VisitMeans(available, first, FALLBACK);
    ClosedJoin(available, first, chain, 0);
    if FALLBACK !in first {
      VisitOrder(available, first, FALLBACK);
      assert chain[..|first|] == first;
    }
    forall i | 1 <= i < |chain| ensures Continues(available, chain[..i], chain[i]) {
      if i < |first| {
        assert chain[..i] == first[..i] && Follows(available, first[..i], first[i], 0);
      } else if i > |first| {
        assert Follows(available, chain[..i], chain[i], |first|);
      }
    }
  }

  lemma {:induction false} FollowsOnce(available: Registry, before: seq<string>, a: string, b: string)
    requires Follows(available, before, a, 0) && Follows(available, before, b, 0)
    ensures a == b
  {
    var j: nat, m: nat :| NextOf(available, before, a, j, m);
    var k: nat, n: nat :| NextOf(available, before, b, k, n);
    assert a in Fallbacks(available, before[j]) && b in Fallbacks(available, before[k]);
  }

  lemma {:induction false} FollowsNone(available: Registry, before: seq<string>, a: string)
    requires Follows(available, before, a, 0)
    ensures !ClosedFrom(available, before, 0)
  {
    var j: nat, m: nat :| NextOf(available, before, a, j, m);
    assert a in Fallbacks(available, before[j]);
  }

  lemma {:induction false} ContinuesOnce(available: Registry, before: seq<string>, a: string, b: string)
    requires Continues(available, before, a) && Continues(available, before, b)
    ensures a == b
  {
    if Follows(available, before, a, 0) {
      FollowsNone(available, before, a);
      FollowsOnce(available, before, a, b);
    } else if Follows(available, before, b, 0) {
      FollowsNone(available, before, b);
    }
  }

  lemma {:induction false} ChainPrefix(available: Registry, a: seq<string>, b: seq<string>, i: nat)
    requires Goes(available, a) && Goes(available, b) && 1 <= i <= |a| && i <= |b| && a[0] == b[0]
    ensures a[..i] == b[..i]
  {
    if i > 1 {
      var k := i - 1;
      ChainPrefix(available, a, b, k);
      assert Continues(available, a[..k], a[k]) && Continues(available, b[..k], b[k]);
      ContinuesOnce(available, a[..k], a[k], b[k]);
      assert a[..i] == a[..k] + [a[k]] && b[..i] == b[..k] + [b[k]];
    }
  }

  lemma {:induction false} ChainNotLonger(available: Registry, start: string, a: seq<string>, b: seq<string>)
    requires IsChain(available, start, a) && IsChain(available, start, b)
    ensures |a| <= |b|
  {
    var n := |b|;
    if n < |a| {
      ChainPrefix(available, a, b, n);
      assert a[..n] == b && b[..n] == b && Continues(available, b, a[n]);
      assert FALLBACK in a[..n] && FALLBACK != a[n];
      FollowsNone(available, b, a[n]);
    }
  }

  /** Preorder determines the chain: each code is the first missing fallback of the latest code that misses one;
      when none is missing the fallback language comes, and the list ends when it is there and nothing is missing. */
  lemma {:induction false} ChainIsUnique(available: Registry, start: string, chain: seq<string>)
    ensures IsChain(available, start, chain) <==> chain == LanguageChain(available, start)
  {
    var c := LanguageChain(available, start);
    ChainIsDepthFirst(available, start);
    if IsChain(available, start, chain) {
      ChainNotLonger(available, start, chain, c);
      ChainNotLonger(available, start, c, chain);
      ChainPrefix(available, chain, c, |c|);
      assert chain == chain[..|c|] && c == c[..|c|];
    }
  }

  /** The list that `visit` pushes to. */
  class ChainBuilder {
    const available: Registry
    var result: seq<string>

    constructor (available: Registry)
      ensures this.available == available && result == []
    {
      this.available := available;
      result := [];
    }

    method Add(code: string)
      modifies this
      ensures result == Visit(available, old(result), code)
      decreases |Codes(available) - Elements(result)|, 0
    {
      if code in result {
        return;
      }
      var fallbacks := Fallbacks(available, code);
      if fallbacks != [] {
        Shrinks(available, result, code);
      }
      ghost var before := result;
      result := result + [code];
      for i := 0 to |fallbacks|
        invariant before + [code] <= result
        invariant VisitAll(available, result, fallbacks[i..]) == VisitAll(available, before + [code], fallbacks)
      {
        Grows(available, before + [code], result);
        assert fallbacks[i..][1..] == fallbacks[i + 1..];
        Add(fallbacks[i]);
      }
    }
  }
}
