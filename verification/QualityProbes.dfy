/** The weighted-XOR reference solver and the judging of answers
    (crates/relay-core/src/quality.rs). */
module QualityProbes {
  import opened Basics
  import opened PathSolver

  /** "bit a XOR bit b equals value", false at a cost of `weight`. */
  datatype Row = Row(a: nat, b: nat, value: nat, weight: nat)

  const U32_MAX: nat := 0xFFFF_FFFF

  predicate ValidRows(rows: seq<Row>) {
    forall i :: 0 <= i < |rows| ==> rows[i].a < 6 && rows[i].b < 6
  }

  function TotalWeight(rows: seq<Row>): nat {
    if rows == [] then 0 else TotalWeight(rows[..|rows| - 1]) + rows[|rows| - 1].weight
  }

  /** Assignment `bits` contradicts the row; A is the highest of the six bits. */
  predicate Broken(bits: nat, row: Row)
    requires row.a < 6 && row.b < 6
  {
    (if Bit(bits, 5 - row.a) != Bit(bits, 5 - row.b) then 1 else 0) != row.value
  }

  function Penalty(bits: nat, rows: seq<Row>): nat
    requires ValidRows(rows)
  {
    if rows == [] then 0 else
    var last := rows[|rows| - 1];
    Penalty(bits, rows[..|rows| - 1]) + (if Broken(bits, last) then last.weight else 0)
  }

  lemma {:induction false} PenaltyBound(bits: nat, rows: seq<Row>)
    requires ValidRows(rows)
    ensures Penalty(bits, rows) <= TotalWeight(rows)
  {
    if rows != [] {
      PenaltyBound(bits, rows[..|rows| - 1]);
    }
  }

  /** `format!("{bits:06b}")` */
  function Binary(bits: nat, width: nat): (s: string)
    ensures |s| == width && forall i :: 0 <= i < width ==> s[i] == '0' || s[i] == '1'
  {
    if width == 0 then "" else Binary(bits / 2, width - 1) + [if bits % 2 == 1 then '1' else '0']
  }

  /** The text lists the bits in ABCDEF order. */
  lemma {:induction false} BinaryBits(bits: nat, width: nat, k: nat)
    requires k < width
    ensures Binary(bits, width)[k] == if Bit(bits, width - 1 - k) then '1' else '0'
  {
    if k < width - 1 {
      BinaryBits(bits / 2, width - 1, k);
    }
  }

  /** The row is false of the printed assignment: its two characters differ although they should agree, or agree
      although they should differ. */
  lemma {:induction false} BrokenMeans(bits: nat, row: Row)
    requires row.a < 6 && row.b < 6
    ensures row.value == 0 ==> (Broken(bits, row) <==> Binary(bits, 6)[row.a] != Binary(bits, 6)[row.b])
    ensures row.value == 1 ==> (Broken(bits, row) <==> Binary(bits, 6)[row.a] == Binary(bits, 6)[row.b])
  {
    BinaryBits(bits, 6, row.a);
    BinaryBits(bits, 6, row.b);
  }

  /** The rows as they count: those that hold cost nothing. */
  function Charged(bits: nat, rows: seq<Row>): (r: seq<Row>)
    requires ValidRows(rows)
    ensures |r| == |rows|
  {
    seq(|rows|, i requires 0 <= i < |rows| => if Broken(bits, rows[i]) then rows[i] else rows[i].(weight := 0))
  }

  /** The penalty is the total weight of the rows that do not hold. */
  lemma {:induction false} PenaltyMeans(bits: nat, rows: seq<Row>)
    requires ValidRows(rows)
    ensures Penalty(bits, rows) == TotalWeight(Charged(bits, rows))
  {
    if rows != [] {
      var front := rows[..|rows| - 1];
      PenaltyMeans(bits, front);
      assert Charged(bits, rows)[..|front|] == Charged(bits, front);
    }
  }

  /** Assignments below `n` with this penalty, in ascending order. */
  function Having(rows: seq<Row>, penalty: nat, n: nat): seq<nat>
    requires ValidRows(rows)
  {
    if n == 0 then [] else Having(rows, penalty, n - 1) + (if Penalty(n - 1, rows) == penalty then [n - 1] else [])
  }

  function Format(answers: seq<nat>): seq<string> {
    if answers == [] then [] else Format(answers[..|answers| - 1]) + [Binary(answers[|answers| - 1], 6)]
  }

  method RowPenalty(bits: nat, rows: seq<Row>) returns (penalty: nat)
    requires ValidRows(rows)
    ensures penalty == Penalty(bits, rows)
  {
    penalty := 0;
    for k := 0 to |rows|
      invariant penalty == Penalty(bits, rows[..k])
    {
      assert rows[..k + 1][..k] == rows[..k];
      if Broken(bits, rows[k]) {
        penalty := penalty + rows[k].weight;
      }
    }
    assert rows[..|rows|] == rows;
  }

  /** The least penalty of the assignments below `n`, and every one that attains it, ascending. */
  method MinimizeBelow(rows: seq<Row>, n: nat) returns (minimum: nat, answers: seq<string>, ghost best: seq<nat>)
    requires ValidRows(rows) && TotalWeight(rows) <= U32_MAX && n > 0
    ensures forall bits :: 0 <= bits < n ==> minimum <= Penalty(bits, rows)
    ensures best == Having(rows, minimum, n) && best != [] && answers == Format(best)
  {
    minimum, answers, best := U32_MAX, [], [];
    for bits := 0 to n
      invariant forall b :: 0 <= b < bits ==> minimum <= Penalty(b, rows)
      invariant minimum <= U32_MAX && best == Having(rows, minimum, bits) && answers == Format(best)
      invariant if bits == 0 then minimum == U32_MAX else best != []
    {
      var penalty := RowPenalty(bits, rows);
      PenaltyBound(bits, rows);
      if penalty < minimum {
        NoneBelow(rows, penalty, bits);
        minimum := penalty;
        answers, best := [], [];
      }
      if penalty == minimum {
        answers := answers + [Binary(bits, 6)];
        best := best + [bits];
      }
    }
  }

  /** The least penalty of all 64 assignments, and every assignment that attains it, ascending. */
  method SolveXor(rows: seq<Row>) returns (minimum: nat, answers: seq<string>, ghost best: seq<nat>)
    requires ValidRows(rows) && TotalWeight(rows) <= U32_MAX
    ensures forall bits :: 0 <= bits < 64 ==> minimum <= Penalty(bits, rows)
    ensures best == Having(rows, minimum, 64) && best != [] && answers == Format(best)
  {
    minimum, answers, best := MinimizeBelow(rows, 64);
  }

  lemma {:induction false} NoneBelow(rows: seq<Row>, penalty: nat, n: nat)
    requires ValidRows(rows) && forall b :: 0 <= b < n ==> penalty < Penalty(b, rows)
    ensures Having(rows, penalty, n) == []
  {
    if n > 0 {
      NoneBelow(rows, penalty, n - 1);
    }
  }

  /** The list holds exactly the assignments with the penalty, each once, in ascending order. */
  lemma {:induction false} HavingIsExact(rows: seq<Row>, penalty: nat, n: nat)
    requires ValidRows(rows)
    ensures forall b: nat :: b in Having(rows, penalty, n) <==> b < n && Penalty(b, rows) == penalty
    ensures forall i, j :: 0 <= i < j < |Having(rows, penalty, n)| ==>
      Having(rows, penalty, n)[i] < Having(rows, penalty, n)[j]
    ensures |Having(rows, penalty, n)| <= n
  {
    if n > 0 {
      HavingIsExact(rows, penalty, n - 1);
      var before := Having(rows, penalty, n - 1);
      forall i | 0 <= i < |before| ensures before[i] < n - 1 {
        assert before[i] in before;
      }
    }
  }

  // ----- Flipping all bits

  lemma {:induction false} FlippedBit(bits: nat, n: nat, i: nat)
    requires bits < Pow2(n) && i < n
    ensures Bit(Pow2(n) - 1 - bits, i) != Bit(bits, i)
  {
    var flipped := Pow2(n) - 1 - bits;
    assert flipped % 2 != bits % 2 && flipped / 2 == Pow2(n - 1) - 1 - bits / 2;
    if i > 0 {
      FlippedBit(bits / 2, n - 1, i - 1);
    }
  }

  lemma {:induction false} FlippedPenalty(bits: nat, rows: seq<Row>)
    requires ValidRows(rows) && bits < 64
    ensures Penalty(63 - bits, rows) == Penalty(bits, rows)
  {
    if rows != [] {
      FlippedPenalty(bits, rows[..|rows| - 1]);
      assert Pow2(6) == 64;
      FlippedBit(bits, 6, 5 - rows[|rows| - 1].a);
      FlippedBit(bits, 6, 5 - rows[|rows| - 1].b);
    }
  }

  /** Only relations between bits are observed, so optimal assignments come in complementary pairs. */
  lemma {:induction false} OptimaComeInPairs(rows: seq<Row>, minimum: nat, bits: nat)
    requires ValidRows(rows) && bits in Having(rows, minimum, 64)
    ensures bits < 64 && 63 - bits in Having(rows, minimum, 64)
  {
    HavingIsExact(rows, minimum, 64);
    FlippedPenalty(bits, rows);
  }

  // ----- Challenges and verdicts

  datatype Answer =
    | PathsAnswer(count: nat, first: string)
    | XorAnswer(penalty: nat, assignments: seq<string>)

  datatype Family = Paths | WeightedXor

  function Of(paths: bool): Family {
    if paths then Paths else WeightedXor
  }

  datatype Challenge = Challenge(family: Family, expected: Answer)

  datatype Verdict = Correct | Incorrect | Inconclusive

  const MAX_ANSWER_BYTES: nat := 64 * 1024

  /** The bounds an answer must meet to be judged at all. */
  predicate WellFormed(family: Family, answer: Answer) {
    match family
    case Paths =>
      answer.PathsAnswer? && |answer.first| <= 14 && IsWord(answer.first) && answer.count <= 16384
    case WeightedXor =>
      && answer.XorAnswer? && answer.penalty <= 90 && |answer.assignments| <= 64
      && forall i :: 0 <= i < |answer.assignments| ==>
        && |answer.assignments[i]| == 6
        && forall j :: 0 <= j < 6 ==> answer.assignments[i][j] == '0' || answer.assignments[i][j] == '1'
  }

  /** Judging a text of `length` bytes that parses to `answer`, or to nothing of either shape. */
  function Evaluate(c: Challenge, length: nat, answer: Option<Answer>): Verdict {
    if length > MAX_ANSWER_BYTES || answer.None? || !WellFormed(c.family, answer.value) then Inconclusive
    else if answer.value == c.expected then Correct
    else Incorrect
  }

  predicate ValidSeed(seed: seq<nat>) {
    |seed| == 32 && forall i :: 0 <= i < 32 ==> seed[i] < 256
  }

  function SeedRow(seed: seq<nat>, index: nat): Row
    requires ValidSeed(seed) && index < 10
  {
    var a := seed[index] % 6;
    Row(a, (a + 1 + seed[index + 10] % 5) % 6, seed[(index + 20) % 32] % 2, 1 + seed[(index + 17) % 32] % 9)
  }

  lemma {:induction false} WeightBound(rows: seq<Row>)
    requires forall i :: 0 <= i < |rows| ==> rows[i].weight <= 9
    ensures TotalWeight(rows) <= 9 * |rows|
  {
    if rows != [] {
      WeightBound(rows[..|rows| - 1]);
    }
  }

  lemma {:induction false} FormatShape(answers: seq<nat>)
    ensures |Format(answers)| == |answers|
    ensures forall i :: 0 <= i < |answers| ==> Format(answers)[i] == Binary(answers[i], 6)
  {
    if answers != [] {
      FormatShape(answers[..|answers| - 1]);
    }
  }

  lemma {:induction false} Pow2Monotone(m: nat, n: nat)
    requires m <= n
    ensures Pow2(m) <= Pow2(n)
  {
    if m < n {
      Pow2Monotone(m, n - 1);
    }
  }

  lemma {:induction false} Pow2Of14()
    ensures Pow2(14) == 16384
  {
    assert Pow2(7) == 128;
    assert Pow2(10) == 8 * Pow2(7);
    assert Pow2(13) == 8 * Pow2(10);
  }

  /** The least penalty, and all assignments that attain it as six-bit texts in ascending order. */
  ghost predicate IsXorReference(answer: Answer, rows: seq<Row>) {
    && ValidRows(rows) && answer.XorAnswer?
    && (forall bits :: 0 <= bits < 64 ==> answer.penalty <= Penalty(bits, rows))
    && Having(rows, answer.penalty, 64) != []
    && answer.assignments == Format(Having(rows, answer.penalty, 64))
  }

  function SeedRows(seed: seq<nat>, n: nat): (rows: seq<Row>)
    requires ValidSeed(seed) && n <= 10
    ensures |rows| == n && ValidRows(rows) && forall i :: 0 <= i < n ==> rows[i].weight <= 9
  {
    if n == 0 then [] else SeedRows(seed, n - 1) + [SeedRow(seed, n - 1)]
  }

  datatype PathProblem = PathProblem(width: nat, height: nat, blocked: (nat, nat), turns: nat)

  function SeedProblem(seed: seq<nat>): (p: PathProblem)
    requires ValidSeed(seed)
    ensures p.width + p.height <= 14
  {
    var width, height := 4 + seed[0] % 4, 4 + seed[1] % 4;
    PathProblem(width, height, (1 + seed[2] % (width - 1), 1 + seed[3] % (height - 1)), 2 + seed[4] % 6)
  }

  ghost predicate IsPathsReference(answer: Answer, p: PathProblem) {
    answer.PathsAnswer? && IsSolution(answer.count, answer.first, p.width, p.height, p.blocked, p.turns)
  }

  /** The answer that a challenge from this seed expects. */
  ghost predicate IsReference(answer: Answer, seed: seq<nat>, paths: bool)
    requires ValidSeed(seed)
  {
    if paths then IsPathsReference(answer, SeedProblem(seed))
    else IsXorReference(answer, SeedRows(seed, 10))
  }

  /** A seed has one reference answer. */
  lemma {:induction false} ReferenceIsUnique(a: Answer, b: Answer, seed: seq<nat>, paths: bool)
    requires ValidSeed(seed) && IsReference(a, seed, paths) && IsReference(b, seed, paths)
    ensures a == b
  {
    if paths {
      var p := SeedProblem(seed);
      SolutionIsUnique(a.count, a.first, b.count, b.first, p.width, p.height, p.blocked, p.turns);
    } else {
      XorReferenceIsUnique(a, b, SeedRows(seed, 10));
    }
  }

  lemma {:induction false} XorReferenceIsUnique(a: Answer, b: Answer, rows: seq<Row>)
    requires IsXorReference(a, rows) && IsXorReference(b, rows)
    ensures a == b
  {
    HavingIsExact(rows, a.penalty, 64);
    HavingIsExact(rows, b.penalty, 64);
    assert Having(rows, a.penalty, 64)[0] in Having(rows, a.penalty, 64);
    assert Having(rows, b.penalty, 64)[0] in Having(rows, b.penalty, 64);
  }

  /** How a text of `length` bytes is to be judged: only what can be read and is within bounds counts, and then only
      the reference answer is right. */
  ghost predicate JudgedFairly(verdict: Verdict, length: nat, answer: Option<Answer>, seed: seq<nat>, paths: bool)
    requires ValidSeed(seed)
  {
    && (verdict == Inconclusive <==> length > 65536 || answer == None || !WellFormed(Of(paths), answer.value))
    && (verdict == Correct <==> length <= 65536 && answer != None && IsReference(answer.value, seed, paths))
  }

  lemma {:induction false} EvaluateIsFair(c: Challenge, seed: seq<nat>, paths: bool, length: nat,
                                          answer: Option<Answer>)
    requires ValidSeed(seed) && c.family == Of(paths)
    requires IsReference(c.expected, seed, paths) && WellFormed(c.family, c.expected)
    ensures JudgedFairly(Evaluate(c, length, answer), length, answer, seed, paths)
  {
    if answer.Some? {
      if IsReference(answer.value, seed, paths) {
        ReferenceIsUnique(answer.value, c.expected, seed, paths);
      }
    }
  }

  method ExpectedPaths(p: PathProblem) returns (answer: Answer)
    requires p.width + p.height <= 14
    ensures WellFormed(Paths, answer) && IsPathsReference(answer, p)
  {
    var count, first := SolvePaths(p.width, p.height, p.blocked, p.turns);
    Pow2Monotone(p.width + p.height, 14);
    Pow2Of14();
    if first != "" {
      WordLength(first);
      assert first[..|first|] == first;
    }
    answer := PathsAnswer(count, first);
  }

  method PathsChallenge(seed: seq<nat>) returns (c: Challenge)
    requires ValidSeed(seed)
    ensures c.family == Paths && WellFormed(Paths, c.expected) && IsReference(c.expected, seed, true)
  {
    var answer := ExpectedPaths(SeedProblem(seed));
    c := Challenge(Paths, answer);
  }

  method XorChallenge(seed: seq<nat>) returns (c: Challenge)
    requires ValidSeed(seed)
    ensures c.family == WeightedXor && WellFormed(WeightedXor, c.expected) && IsReference(c.expected, seed, false)
  {
    var rows: seq<Row> := [];
    for index := 0 to 10
      invariant rows == SeedRows(seed, index)
    {
      rows := rows + [SeedRow(seed, index)];
    }
    WeightBound(rows);
    var penalty, assignments, best := SolveXor(rows);
    PenaltyBound(0, rows);
    HavingIsExact(rows, penalty, 64);
    FormatShape(best);
    c := Challenge(WeightedXor, XorAnswer(penalty, assignments));
  }

  /** From any seed the challenge expects the true reference answer and judges it correct. */
  method ChallengeFromSeed(seed: seq<nat>, paths: bool) returns (c: Challenge)
    requires ValidSeed(seed)
    ensures c.family == Of(paths)
    ensures IsReference(c.expected, seed, paths)
    ensures forall length: nat, answer :: JudgedFairly(Evaluate(c, length, answer), length, answer, seed, paths)
  {
    if paths {
      c := PathsChallenge(seed);
    } else {
      c := XorChallenge(seed);
    }
    forall length: nat, answer
      ensures JudgedFairly(Evaluate(c, length, answer), length, answer, seed, paths)
    {
      EvaluateIsFair(c, seed, paths, length, answer);
    }
  }
}
