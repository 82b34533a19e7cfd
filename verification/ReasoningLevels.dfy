/** The order of reasoning levels (crates/relay-core/src/catalog/order.rs). */
module ReasoningLevels {
  import opened Text

  /** Hyphens and spaces read as underscores. */
  function Underscored(s: string): (r: string)
    ensures |r| == |s|
  {
    if s == "" then ""
    else Underscored(s[..|s| - 1]) + [if s[|s| - 1] == '-' || s[|s| - 1] == ' ' then '_' else s[|s| - 1]]
  }

  const VERY_HIGH: seq<string> := ["x_high", "very_high", "extra_high", "veryhigh", "extrahigh"]
  function CanonicalLevel(text: string): string {
    var level := ToAsciiLower(Trim(text));
    if Underscored(level) in VERY_HIGH then "xhigh" else level
  }

  const UNKNOWN: nat := 8

  /** The picker's order of the known levels; unknown ones come after them. */
  function Rank(text: string): nat {
    match CanonicalLevel(text)
    case "none" => 0
    case "minimal" => 1
    case "low" => 2
    case "medium" => 3
    case "high" => 4
    case "xhigh" => 5
    case "max" => 6
    case "ultra" => 7
    case _ => UNKNOWN
  }

  // ----- Canonical levels

  lemma {:induction false} UnderscoredAt(s: string, i: nat)
    requires i < |s|
    ensures Underscored(s)[i] == if s[i] == '-' || s[i] == ' ' then '_' else s[i]
  {
    if i < |s| - 1 {
      UnderscoredAt(s[..|s| - 1], i);
    }
  }

  predicate Solid(s: string) {
    forall i :: 0 <= i < |s| ==> s[i] != '_' && s[i] != '-' && s[i] != ' '
  }

  /** Words without a separator are spelled in one way, and a separator in two words in three. */
  lemma {:induction false} SpelledAs(s: string, p: string, q: string)
    requires Solid(p) && Solid(q)
    ensures Underscored(s) == p <==> s == p
    ensures Underscored(s) == p + "_" + q <==> s in {p + "_" + q, p + "-" + q, p + " " + q}
  {
    forall i: nat | i < |s| ensures Underscored(s)[i] == if s[i] == '-' || s[i] == ' ' then '_' else s[i] {
      UnderscoredAt(s, i);
    }
    var joined := p + "_" + q;
    if Underscored(s) == joined {
      var n := |p|;
      forall i | 0 <= i < |s| && i != n ensures s[i] == joined[i] {
        assert joined[i] == if i < n then p[i] else q[i - n - 1];
      }
      assert joined[n] == '_' && s == s[..n] + [s[n]] + s[n + 1..];
      assert s[..n] == p && s[n + 1..] == q;
    }
  }

  /** Very high, as one word or as two with a hyphen, a space or an underscore between them. */
  const ALIASES: set<string> := {
    "veryhigh", "extrahigh",
    "x_high", "x-high", "x high",
    "very_high", "very-high", "very high",
    "extra_high", "extra-high", "extra high"
  }

  /** A level is taken in lower case and without white space around it; the spellings of very high are one level,
      and all others stand for themselves. */
  lemma {:induction false} CanonicalMeans(text: string)
    ensures var level := ToAsciiLower(Trim(text));
            CanonicalLevel(text) == if level in ALIASES then "xhigh" else level
  {
    var level := ToAsciiLower(Trim(text));
    SpelledAs(level, "veryhigh", "");
    SpelledAs(level, "extrahigh", "");
    SpelledAs(level, "x", "high");
    SpelledAs(level, "very", "high");
    SpelledAs(level, "extra", "high");
    assert "x" + "_" + "high" == "x_high" && "x" + "-" + "high" == "x-high" && "x" + " " + "high" == "x high";
    assert "very" + "_" + "high" == "very_high" && "very" + "-" + "high" == "very-high"
        && "very" + " " + "high" == "very high";
    assert "extra" + "_" + "high" == "extra_high" && "extra" + "-" + "high" == "extra-high"
        && "extra" + " " + "high" == "extra high";
  }

  /** What the picker shows, weakest first. */
  const PICKER: seq<string> := ["none", "minimal", "low", "medium", "high", "xhigh", "max", "ultra"]

  /** The rank of a level is its place in the picker; others come behind. */
  lemma {:induction false} RankIsPlace(text: string)
    ensures Rank(text) < |PICKER| ==> PICKER[Rank(text)] == CanonicalLevel(text)
    ensures Rank(text) >= |PICKER| ==> CanonicalLevel(text) !in PICKER
  {
  }

  /** A level that is trimmed and in lower case stays as it is. */
  lemma {:induction false} LowerTrimmed(text: string)
    ensures var level := ToAsciiLower(Trim(text)); ToAsciiLower(Trim(level)) == level
  {
    var trimmed, level := Trim(text), ToAsciiLower(Trim(text));
    TrimIdempotent(text);
    TrimFixed(trimmed);
    TrimFixed(level);
    forall i | 0 <= i < |level| ensures AsciiLower(level[i]) == level[i] {
    }
  }

  lemma {:induction false} CanonicalTwice(text: string)
    ensures CanonicalLevel(CanonicalLevel(text)) == CanonicalLevel(text)
  {
    LowerTrimmed(text);
    if CanonicalLevel(text) == "xhigh" {
      TrimFixed("xhigh");
      assert ToAsciiLower("xhigh") == "xhigh";
    }
  }

  // ----- First-seen levels

  /** The canonical levels that are not blank, each at its first mention. */
  function Seen(canonical: string -> string, texts: seq<string>): (r: seq<string>)
    ensures forall l :: l in r <==> l != "" && exists t :: t in texts && canonical(t) == l
  {
    if texts == [] then [] else
    var front, last := texts[..|texts| - 1], texts[|texts| - 1];
    assert texts == front + [last];
    var level := canonical(last);
    if level == "" || level in Seen(canonical, front) then Seen(canonical, front) else Seen(canonical, front) + [level]
  }

  ghost predicate Distinct(levels: seq<string>) {
    forall i, j :: 0 <= i < j < |levels| ==> levels[i] != levels[j]
  }

  ghost predicate Canonical(canonical: string -> string, levels: seq<string>) {
    forall l :: l in levels ==> l != "" && canonical(l) == l
  }

  lemma {:induction false} SeenMeans(canonical: string -> string, texts: seq<string>)
    requires forall t: string :: canonical(canonical(t)) == canonical(t)
    ensures Distinct(Seen(canonical, texts)) && Canonical(canonical, Seen(canonical, texts))
  {
    if texts != [] {
      SeenMeans(canonical, texts[..|texts| - 1]);
    }
  }

  lemma {:induction false} SeenFixed(canonical: string -> string, levels: seq<string>)
    requires Distinct(levels) && Canonical(canonical, levels)
    ensures Seen(canonical, levels) == levels
  {
    if levels != [] {
      var front, last := levels[..|levels| - 1], levels[|levels| - 1];
      assert levels == front + [last];
      assert forall l :: l in front ==> l in levels;
      SeenFixed(canonical, front);
      assert last in levels && last !in front;
    }
  }

  // ----- A stable sort by rank

  ghost predicate ByRank(rank: string -> nat, levels: seq<string>) {
    forall i, j :: 0 <= i < j < |levels| ==> rank(levels[i]) <= rank(levels[j])
  }

  function OfRank(rank: string -> nat, levels: seq<string>, n: nat): (r: seq<string>)
    ensures forall l :: l in r <==> l in levels && rank(l) == n
  {
    if levels == [] then [] else
    var front, last := levels[..|levels| - 1], levels[|levels| - 1];
    assert levels == front + [last];
    if rank(last) == n then OfRank(rank, front, n) + [last] else OfRank(rank, front, n)
  }

  ghost predicate SameByRank(rank: string -> nat, a: seq<string>, b: seq<string>) {
    forall n: nat :: OfRank(rank, a, n) == OfRank(rank, b, n)
  }

  lemma {:induction false} OfRankAppends(rank: string -> nat, levels: seq<string>, last: string, n: nat)
    ensures OfRank(rank, levels + [last], n) ==
            if rank(last) == n then OfRank(rank, levels, n) + [last] else OfRank(rank, levels, n)
  {
    assert (levels + [last])[..|levels|] == levels;
  }

  lemma {:induction false} ByRankAppends(rank: string -> nat, levels: seq<string>, last: string)
    ensures ByRank(rank, levels + [last]) <==> ByRank(rank, levels) && forall l :: l in levels ==> rank(l) <= rank(last)
  {
    var all := levels + [last];
    if ByRank(rank, all) {
      forall l | l in levels ensures rank(l) <= rank(last) {
        var i :| 0 <= i < |levels| && levels[i] == l;
        assert all[i] == l && all[|levels|] == last;
      }
      assert forall i :: 0 <= i < |levels| ==> all[i] == levels[i];
    }
  }

  /** Behind the levels of the same or a smaller rank. */
  function InsertLevel(rank: string -> nat, levels: seq<string>, level: string): (r: seq<string>)
    ensures forall l :: l in r <==> l == level || l in levels
  {
    if levels == [] then [level] else
    var front, last := levels[..|levels| - 1], levels[|levels| - 1];
    assert levels == front + [last];
    if rank(last) <= rank(level) then levels + [level] else InsertLevel(rank, front, level) + [last]
  }

  function SortLevels(rank: string -> nat, levels: seq<string>): (r: seq<string>)
    ensures forall l :: l in r <==> l in levels
  {
    if levels == [] then [] else
    var front, last := levels[..|levels| - 1], levels[|levels| - 1];
    assert levels == front + [last];
    InsertLevel(rank, SortLevels(rank, front), last)
  }

  lemma {:induction false} InsertSorts(rank: string -> nat, levels: seq<string>, level: string)
    requires ByRank(rank, levels)
    ensures ByRank(rank, InsertLevel(rank, levels, level))
  {
    if levels != [] {
      var front, last := levels[..|levels| - 1], levels[|levels| - 1];
      assert levels == front + [last];
      ByRankAppends(rank, front, last);
      if rank(last) > rank(level) {
        InsertSorts(rank, front, level);
        ByRankAppends(rank, InsertLevel(rank, front, level), last);
      } else {
        ByRankAppends(rank, levels, level);
      }
    }
  }

  lemma {:induction false} InsertIsStable(rank: string -> nat, levels: seq<string>, level: string, n: nat)
    requires ByRank(rank, levels)
    ensures OfRank(rank, InsertLevel(rank, levels, level), n) ==
            if rank(level) == n then OfRank(rank, levels, n) + [level] else OfRank(rank, levels, n)
  {
    if levels != [] {
      var front, last := levels[..|levels| - 1], levels[|levels| - 1];
      assert levels == front + [last];
      ByRankAppends(rank, front, last);
      OfRankAppends(rank, front, last, n);
      if rank(last) > rank(level) {
        InsertIsStable(rank, front, level, n);
        OfRankAppends(rank, InsertLevel(rank, front, level), last, n);
      } else {
        OfRankAppends(rank, levels, level, n);
      }
    }
  }

  /** Sorting orders by rank and keeps the order within each rank. */
  lemma {:induction false} SortIsStable(rank: string -> nat, levels: seq<string>)
    ensures ByRank(rank, SortLevels(rank, levels)) && SameByRank(rank, SortLevels(rank, levels), levels)
  {
    if levels != [] {
      var front, last := levels[..|levels| - 1], levels[|levels| - 1];
      SortIsStable(rank, front);
      InsertSorts(rank, SortLevels(rank, front), last);
      forall n: nat ensures OfRank(rank, SortLevels(rank, levels), n) == OfRank(rank, levels, n) {
        InsertIsStable(rank, SortLevels(rank, front), last, n);
      }
    }
  }

  lemma {:induction false} SortFixed(rank: string -> nat, levels: seq<string>)
    requires ByRank(rank, levels)
    ensures SortLevels(rank, levels) == levels
  {
    if levels != [] {
      var front, last := levels[..|levels| - 1], levels[|levels| - 1];
      assert levels == front + [last];
      SortFixed(rank, front);
    }
  }

  lemma {:induction false} SameGreatest(rank: string -> nat, a: seq<string>, b: seq<string>)
    requires a != [] && ByRank(rank, b) && SameByRank(rank, a, b)
    ensures b != [] && rank(a[|a| - 1]) <= rank(b[|b| - 1])
  {
    var last := a[|a| - 1];
    assert last in OfRank(rank, a, rank(last));
    assert last in OfRank(rank, b, rank(last));
  }

  lemma {:induction false} FrontsAgree(rank: string -> nat, x: seq<string>, u: string, y: seq<string>, v: string)
    requires SameByRank(rank, x + [u], y + [v]) && rank(u) == rank(v)
    ensures SameByRank(rank, x, y) && u == v
  {
    forall n: nat ensures OfRank(rank, x, n) == OfRank(rank, y, n) && (n == rank(u) ==> u == v) {
      OfRankAppends(rank, x, u, n);
      OfRankAppends(rank, y, v, n);
      if n == rank(u) {
        LastCut(OfRank(rank, x, n), u, OfRank(rank, y, n), v);
      }
    }
    assert OfRank(rank, x, rank(u)) == OfRank(rank, y, rank(u));
  }

  /** The order by rank that keeps the order within each rank is unique, whatever the sorting algorithm. */
  lemma {:induction false} StableOrderIsUnique(rank: string -> nat, a: seq<string>, b: seq<string>)
    requires ByRank(rank, a) && ByRank(rank, b) && SameByRank(rank, a, b)
    ensures a == b
    decreases |a|
  {
    if a != [] {
      SameGreatest(rank, a, b);
      SameGreatest(rank, b, a);
      var x, u, y, v := a[..|a| - 1], a[|a| - 1], b[..|b| - 1], b[|b| - 1];
      assert a == x + [u] && b == y + [v];
      FrontsAgree(rank, x, u, y, v);
      StableOrderIsUnique(rank, x, y);
    } else if b != [] {
      SameGreatest(rank, b, a);
    }
  }

  lemma {:induction false} LastCut(a: seq<string>, x: string, b: seq<string>, y: string)
    requires a + [x] == b + [y]
    ensures a == b && x == y
  {
    assert a == (a + [x])[..|a|] && b == (b + [y])[..|b|];
    assert x == (a + [x])[|a|] && y == (b + [y])[|b|];
  }

  lemma {:induction false} InsertDistinct(rank: string -> nat, levels: seq<string>, level: string)
    requires Distinct(levels) && level !in levels
    ensures Distinct(InsertLevel(rank, levels, level))
  {
    if levels != [] {
      var front, last := levels[..|levels| - 1], levels[|levels| - 1];
      assert levels == front + [last];
      if rank(last) > rank(level) {
        assert last !in front;
        InsertDistinct(rank, front, level);
        assert last !in InsertLevel(rank, front, level);
      }
    }
  }

  lemma {:induction false} SortDistinct(rank: string -> nat, levels: seq<string>)
    requires Distinct(levels)
    ensures Distinct(SortLevels(rank, levels))
  {
    if levels != [] {
      var front, last := levels[..|levels| - 1], levels[|levels| - 1];
      SortDistinct(rank, front);
      InsertDistinct(rank, SortLevels(rank, front), last);
    }
  }

  method CanonicalizeReasoningLevels(texts: seq<string>) returns (ordered: seq<string>)
    ensures ordered == SortLevels(Rank, Seen(CanonicalLevel, texts))
  {
    var seen: set<string> := {};
    ordered := [];
    for i := 0 to |texts|
      invariant ordered == Seen(CanonicalLevel, texts[..i])
      invariant forall l :: l in seen <==> l in ordered
    {
      assert texts[..i + 1][..i] == texts[..i];
      var level := CanonicalLevel(texts[i]);
      if level != "" && level !in seen {
        seen := seen + {level};
        ordered := ordered + [level];
      }
    }
    assert texts[..|texts|] == texts;
    ordered := SortLevels(Rank, ordered);
  }

  /** Canonical levels: every level mentioned, once, known ones first in the picker's order, unknown
      ones in order of mention; doing it again changes nothing. */
  lemma {:induction false} CanonicalizeMeans(texts: seq<string>)
    ensures var r := SortLevels(Rank, Seen(CanonicalLevel, texts));
            && Distinct(r) && ByRank(Rank, r)
            && (forall l :: l in r <==> l != "" && exists t :: t in texts && CanonicalLevel(t) == l)
            && OfRank(Rank, r, UNKNOWN) == OfRank(Rank, Seen(CanonicalLevel, texts), UNKNOWN)
            && SortLevels(Rank, Seen(CanonicalLevel, r)) == r
  {
    var r := SortLevels(Rank, Seen(CanonicalLevel, texts));
    forall t: string ensures CanonicalLevel(CanonicalLevel(t)) == CanonicalLevel(t) {
      CanonicalTwice(t);
    }
    SeenMeans(CanonicalLevel, texts);
    SortIsStable(Rank, Seen(CanonicalLevel, texts));
    SortDistinct(Rank, Seen(CanonicalLevel, texts));
    SeenFixed(CanonicalLevel, r);
    SortFixed(Rank, r);
  }
}
