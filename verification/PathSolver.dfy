/** The grid-path reference solver of the quality probes (crates/relay-core/src/quality.rs):
    bit enumeration with early cut-off against a declarative specification. */
module PathSolver {
  import opened Basics

  // ----- Words and their numbers

  function Pow2(n: nat): (r: nat)
    ensures r > 0
  {
    if n == 0 then 1 else 2 * Pow2(n - 1)
  }

  /** `bits & (1 << index) != 0` */
  predicate Bit(bits: nat, index: nat) {
    if index == 0 then bits % 2 == 1 else Bit(bits / 2, index - 1)
  }

  /** The R/U word that the low `steps` bits spell, highest bit first. */
  function Word(bits: nat, steps: nat): (w: string)
    ensures |w| == steps
  {
    if steps == 0 then "" else Word(bits / 2, steps - 1) + [if bits % 2 == 1 then 'U' else 'R']
  }

  predicate IsWord(w: string) {
    forall i :: 0 <= i < |w| ==> w[i] == 'R' || w[i] == 'U'
  }

  function Code(w: string): nat {
    if w == [] then 0 else 2 * Code(w[..|w| - 1]) + (if w[|w| - 1] == 'U' then 1 else 0)
  }

  lemma {:induction false} WordBit(bits: nat, steps: nat, k: nat)
    requires k < steps
    ensures Word(bits, steps)[k] == if Bit(bits, steps - 1 - k) then 'U' else 'R'
  {
    if k < steps - 1 {
      WordBit(bits / 2, steps - 1, k);
    }
  }

  lemma {:induction false} WordBits(bits: nat, steps: nat)
    ensures forall k :: 0 <= k < steps ==> (Word(bits, steps)[k] == 'U' <==> Bit(bits, steps - 1 - k))
  {
    forall k | 0 <= k < steps ensures Word(bits, steps)[k] == 'U' <==> Bit(bits, steps - 1 - k) {
      WordBit(bits, steps, k);
    }
  }

  lemma {:induction false} CodeOfWord(bits: nat, steps: nat)
    requires bits < Pow2(steps)
    ensures IsWord(Word(bits, steps)) && Code(Word(bits, steps)) == bits
  {
    if steps > 0 {
      CodeOfWord(bits / 2, steps - 1);
      assert Word(bits, steps)[..steps - 1] == Word(bits / 2, steps - 1);
    }
  }

  lemma {:induction false} WordOfCode(w: string)
    requires IsWord(w)
    ensures Code(w) < Pow2(|w|) && Word(Code(w), |w|) == w
  {
    if w != [] {
      WordOfCode(w[..|w| - 1]);
      assert Code(w) / 2 == Code(w[..|w| - 1]);
      assert w == w[..|w| - 1] + [w[|w| - 1]];
    }
  }

  /** Lexicographic order with R < U, for words of one length. */
  ghost predicate Precedes(v: string, w: string) {
    exists k :: 0 <= k < |v| && k < |w| && v[..k] == w[..k] && v[k] == 'R' && w[k] == 'U'
  }

  /** Numeric order of the bits is lexicographic order of the words. */
  lemma {:induction false} CodeOrder(v: string, w: string)
    requires IsWord(v) && IsWord(w) && |v| == |w| && Code(v) < Code(w)
    ensures Precedes(v, w)
  {
    var n := |v| - 1;
    var v', w' := v[..n], w[..n];
    if Code(v') == Code(w') {
      WordOfCode(v');
      WordOfCode(w');
      assert v[..n] == w[..n] && v[n] == 'R' && w[n] == 'U';
    } else {
      CodeOrder(v', w');
      var k :| 0 <= k < |v'| && k < |w'| && v'[..k] == w'[..k] && v'[k] == 'R' && w'[k] == 'U';
      assert v[..k] == v'[..k] && w[..k] == w'[..k] && v[k] == 'R' && w[k] == 'U';
    }
  }

  // ----- What a valid path is

  function Count(w: string, c: char): nat {
    if w == [] then 0 else Count(w[..|w| - 1], c) + (if w[|w| - 1] == c then 1 else 0)
  }

  /** Adjacent different letters. */
  function Turns(w: string): nat {
    if |w| < 2 then 0 else Turns(w[..|w| - 1]) + (if w[|w| - 1] != w[|w| - 2] then 1 else 0)
  }

  /** The grid point reached after the first `k` moves. */
  function Point(w: string, k: nat): (nat, nat)
    requires k <= |w|
  {
    (Count(w[..k], 'R'), Count(w[..k], 'U'))
  }

  ghost predicate ValidPath(w: string, width: nat, height: nat, blocked: (nat, nat), turns: nat) {
    && IsWord(w)
    && Point(w, |w|) == (width, height)
    && (forall k :: 1 <= k <= |w| ==> Point(w, k) != blocked)
    && Turns(w) == turns
  }

  lemma {:induction false} CountPrefix(w: string, k: nat, c: char)
    requires k <= |w|
    ensures Count(w[..k], c) <= Count(w, c)
    decreases |w|
  {
    if k < |w| {
      var n := |w| - 1;
      CountPrefix(w[..n], k, c);
      assert w[..n][..k] == w[..k];
    } else {
      assert w[..k] == w;
    }
  }

  lemma {:induction false} TurnsPrefix(w: string, k: nat)
    requires k <= |w|
    ensures Turns(w[..k]) <= Turns(w)
    decreases |w|
  {
    if k < |w| {
      var n := |w| - 1;
      TurnsPrefix(w[..n], k);
      assert w[..n][..k] == w[..k];
    } else {
      assert w[..k] == w;
    }
  }

  lemma {:induction false} WordLength(w: string)
    requires IsWord(w)
    ensures Count(w, 'R') + Count(w, 'U') == |w|
  {
    if w != [] {
      WordLength(w[..|w| - 1]);
    }
  }

  datatype Scan = Scan(x: nat, y: nat, changes: nat, previous: Option<bool>, path: string)

  /** The loop variables after `k` moves. */
  ghost function ScanOf(w: string, k: nat): Scan
    requires k <= |w|
  {
    Scan(Count(w[..k], 'R'), Count(w[..k], 'U'), Turns(w[..k]), if k == 0 then None else Some(w[k - 1] == 'U'), w[..k])
  }

  function Move(s: Scan, up: bool): Scan {
    Scan(s.x + (if up then 0 else 1), s.y + (if up then 1 else 0),
         s.changes + (if s.previous.Some? && s.previous.value != up then 1 else 0),
         Some(up), s.path + [if up then 'U' else 'R'])
  }

  lemma {:induction false} ScanNext(w: string, k: nat)
    requires k < |w| && IsWord(w)
    ensures ScanOf(w, k + 1) == Move(ScanOf(w, k), w[k] == 'U')
  {
    assert w[..k + 1][..k] == w[..k];
  }

  predicate Violates(s: Scan, width: nat, height: nat, blocked: (nat, nat), turns: nat) {
    s.x > width || s.y > height || (s.x, s.y) == blocked || s.changes > turns
  }

  /** The first `k` moves of the word show no violation. */
  ghost predicate Survives(w: string, k: nat, width: nat, height: nat, blocked: (nat, nat), turns: nat)
    requires k <= |w|
  {
    || k == 0
    || (Survives(w, k - 1, width, height, blocked, turns) && !Violates(ScanOf(w, k), width, height, blocked, turns))
  }

  /** Giving up early rejects invalid words only. */
  lemma {:induction false} ValidSurvives(w: string, k: nat, width: nat, height: nat, blocked: (nat, nat), turns: nat)
    requires k <= |w| && ValidPath(w, width, height, blocked, turns)
    ensures Survives(w, k, width, height, blocked, turns)
  {
    if k > 0 {
      ValidSurvives(w, k - 1, width, height, blocked, turns);
      CountPrefix(w, k, 'R');
      CountPrefix(w, k, 'U');
      TurnsPrefix(w, k);
      assert w[..|w|] == w;
      assert Point(w, k) != blocked;
    }
  }

  lemma {:induction false} SurvivesAvoids(w: string, k: nat, j: nat, width: nat, height: nat, blocked: (nat, nat),
                                          turns: nat)
    requires 1 <= j <= k <= |w| && Survives(w, k, width, height, blocked, turns)
    ensures Point(w, j) != blocked
  {
    if j < k {
      SurvivesAvoids(w, k - 1, j, width, height, blocked, turns);
    }
  }

  /** A word is a valid path exactly when it survives and ends at the goal with the right number of turns. */
  lemma {:induction false} ValidIffSurvives(w: string, width: nat, height: nat, blocked: (nat, nat), turns: nat)
    requires IsWord(w)
    ensures ValidPath(w, width, height, blocked, turns) <==>
      var s := ScanOf(w, |w|);
      Survives(w, |w|, width, height, blocked, turns) && s.x == width && s.y == height && s.changes == turns
  {
    assert w[..|w|] == w;
    if ValidPath(w, width, height, blocked, turns) {
      ValidSurvives(w, |w|, width, height, blocked, turns);
    }
    if Survives(w, |w|, width, height, blocked, turns) {
      forall j | 1 <= j <= |w| ensures Point(w, j) != blocked {
        SurvivesAvoids(w, |w|, j, width, height, blocked, turns);
      }
    }
  }

  lemma {:induction false} NeverSurvives(w: string, k: nat, width: nat, height: nat, blocked: (nat, nat), turns: nat)
    requires k <= |w| && !Survives(w, k, width, height, blocked, turns)
    ensures !Survives(w, |w|, width, height, blocked, turns)
    decreases |w| - k
  {
    if k < |w| {
      NeverSurvives(w, k + 1, width, height, blocked, turns);
    }
  }

  // ----- The solver

  lemma {:induction false} SurvivesNext(w: string, k: nat, width: nat, height: nat, blocked: (nat, nat), turns: nat)
    requires k < |w| && Survives(w, k, width, height, blocked, turns)
    ensures Survives(w, k + 1, width, height, blocked, turns)
      <==> !Violates(ScanOf(w, k + 1), width, height, blocked, turns)
  {
  }

  /** The inner loop: walks one word and stops at the first violation. */
  method Walk(bits: nat, width: nat, height: nat, blocked: (nat, nat), turns: nat, ghost w: string)
    returns (ok: bool, path: string)
    requires IsWord(w) && |w| == width + height
    requires forall k :: 0 <= k < |w| ==> (w[k] == 'U' <==> Bit(bits, |w| - 1 - k))
    ensures ok <==> var s := ScanOf(w, |w|);
      Survives(w, |w|, width, height, blocked, turns) && s.x == width && s.y == height && s.changes == turns
    ensures ok ==> path == ScanOf(w, |w|).path
  {
    var steps := width + height;
    var x, y, changes := 0, 0, 0;
    var previous: Option<bool> := None;
    path := "";
    var index := steps;
    while index > 0
      invariant 0 <= index <= steps
      invariant Scan(x, y, changes, previous, path) == ScanOf(w, steps - index)
      invariant Survives(w, steps - index, width, height, blocked, turns)
    {
      ghost var k, before := steps - index, Scan(x, y, changes, previous, path);
      index := index - 1;
      var up := Bit(bits, index);
      assert up <==> w[k] == 'U';
      if previous.Some? && previous.value != up {
        changes := changes + 1;
      }
      previous := Some(up);
      if up {
        y := y + 1;
        path := path + ['U'];
      } else {
        x := x + 1;
        path := path + ['R'];
      }
      assert Scan(x, y, changes, previous, path) == Move(before, up);
      ScanNext(w, k);
      SurvivesNext(w, k, width, height, blocked, turns);
      if x > width || y > height || (x, y) == blocked || changes > turns {
        NeverSurvives(w, k + 1, width, height, blocked, turns);
        return false, path;
      }
    }
    ok := x == width && y == height && changes == turns;
  }

  method WalkWord(bits: nat, width: nat, height: nat, blocked: (nat, nat), turns: nat) returns (ok: bool, path: string)
    requires bits < Pow2(width + height)
    ensures ok <==> ValidPath(Word(bits, width + height), width, height, blocked, turns)
    ensures ok ==> path == Word(bits, width + height)
  {
    ghost var w := Word(bits, width + height);
    CodeOfWord(bits, width + height);
    WordBits(bits, width + height);
    ok, path := Walk(bits, width, height, blocked, turns, w);
    ValidIffSurvives(w, width, height, blocked, turns);
    assert w[..|w|] == w;
  }

  /** The valid paths among the words numbered below `n`. */
  ghost predicate PathsBelow(all: set<string>, n: nat, width: nat, height: nat, blocked: (nat, nat), turns: nat) {
    forall w :: w in all <==> ValidPath(w, width, height, blocked, turns) && Code(w) < n
  }

  ghost predicate IsFirst(first: string, all: set<string>) {
    if all == {} then first == "" else first in all && forall w :: w in all && w != first ==> Precedes(first, w)
  }

  /** The number of valid paths, and the first of them in R < U order, empty if there is none. */
  ghost predicate IsSolution(count: nat, first: string, width: nat, height: nat, blocked: (nat, nat), turns: nat) {
    exists all: set<string> ::
      AreThePaths(all, width, height, blocked, turns) && count == |all| && IsFirst(first, all)
  }

  ghost predicate AreThePaths(all: set<string>, width: nat, height: nat, blocked: (nat, nat), turns: nat) {
    forall w :: w in all <==> ValidPath(w, width, height, blocked, turns)
  }

  lemma {:induction false} NotBoth(v: string, w: string)
    requires Precedes(v, w)
    ensures !Precedes(w, v)
  {
    var k :| 0 <= k < |v| && k < |w| && v[..k] == w[..k] && v[k] == 'R' && w[k] == 'U';
    SamePrefix(v, w, k);
    forall l | 0 <= l < |v| && l < |w| && v[..l] == w[..l] ensures l <= k {
      SamePrefix(v, w, l);
    }
  }

  lemma {:induction false} SamePrefix(v: string, w: string, n: nat)
    requires n <= |v| && n <= |w| && v[..n] == w[..n]
    ensures forall k :: 0 <= k < n ==> v[k] == w[k]
  {
    assert forall k :: 0 <= k < n ==> v[..n][k] == v[k] && w[..n][k] == w[k];
  }

  /** A problem has one solution. */
  lemma {:induction false} SolutionIsUnique(m: nat, v: string, n: nat, w: string, width: nat, height: nat,
                                            blocked: (nat, nat), turns: nat)
    requires IsSolution(m, v, width, height, blocked, turns) && IsSolution(n, w, width, height, blocked, turns)
    ensures m == n && v == w
  {
    var all: set<string> :|
      AreThePaths(all, width, height, blocked, turns) && m == |all| && IsFirst(v, all);
    var same: set<string> :|
      AreThePaths(same, width, height, blocked, turns) && n == |same| && IsFirst(w, same);
    assert forall x :: x in all <==> x in same;
    assert all == same;
    if v != w {
      NotBoth(v, w);
    }
  }

  /** Only one valid path has a given number. */
  lemma {:induction false} NumberedPath(v: string, bits: nat, width: nat, height: nat, blocked: (nat, nat), turns: nat)
    requires bits < Pow2(width + height) && ValidPath(v, width, height, blocked, turns)
    ensures Code(v) < Pow2(width + height) && (Code(v) == bits <==> v == Word(bits, width + height))
  {
    CodeOfWord(bits, width + height);
    WordLength(v);
    WordOfCode(v);
    assert v[..|v|] == v;
  }

  lemma {:induction false} OnePathMore(all: set<string>, bits: nat, width: nat, height: nat, blocked: (nat, nat),
                                       turns: nat)
    requires bits < Pow2(width + height) && PathsBelow(all, bits, width, height, blocked, turns)
    ensures var w := Word(bits, width + height);
            var more := if ValidPath(w, width, height, blocked, turns) then all + {w} else all;
            PathsBelow(more, bits + 1, width, height, blocked, turns)
    ensures Word(bits, width + height) !in all
  {
    var w := Word(bits, width + height);
    CodeOfWord(bits, width + height);
    forall v | ValidPath(v, width, height, blocked, turns) ensures Code(v) == bits <==> v == w {
      NumberedPath(v, bits, width, height, blocked, turns);
    }
  }

  /** A path with a greater number does not become the first. */
  lemma {:induction false} FirstStays(all: set<string>, first: string, bits: nat, width: nat, height: nat,
                                      blocked: (nat, nat), turns: nat)
    requires bits < Pow2(width + height) && PathsBelow(all, bits, width, height, blocked, turns)
    requires IsFirst(first, all) && ValidPath(Word(bits, width + height), width, height, blocked, turns)
    ensures var w := Word(bits, width + height); IsFirst(if first == "" then w else first, all + {w})
  {
    var w := Word(bits, width + height);
    CodeOfWord(bits, width + height);
    PathsAreWords(all, bits, width, height, blocked, turns);
    FirstOfGreater(all, first, w);
  }

  lemma {:induction false} PathsAreWords(all: set<string>, n: nat, width: nat, height: nat, blocked: (nat, nat),
                                         turns: nat)
    requires PathsBelow(all, n, width, height, blocked, turns)
    ensures forall v :: v in all ==> IsWord(v) && |v| == width + height && Code(v) < n
  {
    forall v | v in all ensures |v| == width + height {
      WordLength(v);
      assert v[..|v|] == v;
    }
  }

  lemma {:induction false} FirstOfGreater(all: set<string>, first: string, w: string)
    requires IsFirst(first, all) && IsWord(w)
    requires forall v :: v in all ==> IsWord(v) && |v| == |w| && Code(v) < Code(w)
    ensures IsFirst(if first == "" then w else first, all + {w})
  {
    if first != "" {
      CodeOrder(first, w);
    }
  }

  /** All paths counted, and the first one in R < U order. */
  method SolvePaths(width: nat, height: nat, blocked: (nat, nat), turns: nat) returns (count: nat, first: string)
    requires width + height <= 31
    ensures IsSolution(count, first, width, height, blocked, turns)
    ensures count <= Pow2(width + height)
    ensures first == "" || ValidPath(first, width, height, blocked, turns)
  {
    var steps := width + height;
    count, first := 0, "";
    ghost var all: set<string> := {};
    var bits := 0;
    while bits < Pow2(steps)
      invariant bits <= Pow2(steps) && count == |all| <= bits
      invariant PathsBelow(all, bits, width, height, blocked, turns) && IsFirst(first, all)
    {
      var valid, path := WalkWord(bits, width, height, blocked, turns);
      OnePathMore(all, bits, width, height, blocked, turns);
      if valid {
        FirstStays(all, first, bits, width, height, blocked, turns);
        count := count + 1;
        if first == "" {
          first := path;
        }
        all := all + {path};
      }
      bits := bits + 1;
    }
    NoPathAbove(all, width, height, blocked, turns);
  }

  lemma {:induction false} NoPathAbove(all: set<string>, width: nat, height: nat, blocked: (nat, nat), turns: nat)
    requires PathsBelow(all, Pow2(width + height), width, height, blocked, turns)
    ensures forall w :: w in all <==> ValidPath(w, width, height, blocked, turns)
  {
    forall w | ValidPath(w, width, height, blocked, turns) ensures w in all {
      NumberedPath(w, 0, width, height, blocked, turns);
    }
  }
}
