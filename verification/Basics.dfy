/** What the components share: optional values and small functions on numbers and sequences. */
module Basics {

  datatype Option<T> = None | Some(value: T)

  function Min(a: int, b: int): int {
    if a <= b then a else b
  }

  function Max(a: int, b: int): int {
    if a <= b then b else a
  }

  function Flatten<T>(parts: seq<seq<T>>): seq<T> {
    if parts == [] then [] else Flatten(parts[..|parts| - 1]) + parts[|parts| - 1]
  }

  lemma {:induction false} FlattenAppend<T>(a: seq<seq<T>>, b: seq<seq<T>>)
    ensures Flatten(a + b) == Flatten(a) + Flatten(b)
  {
    if b == [] {
      assert a + b == a;
    } else {
      var front, last := b[..|b| - 1], b[|b| - 1];
      assert (a + b)[..|a + b| - 1] == a + front && (a + b)[|a + b| - 1] == last;
      FlattenAppend(a, front);
      assert Flatten(a) + (Flatten(front) + last) == (Flatten(a) + Flatten(front)) + last;
    }
  }

  lemma {:induction false} FlattenFirst<T>(parts: seq<seq<T>>)
    requires parts != []
    ensures Flatten(parts) == parts[0] + Flatten(parts[1..])
  {
    assert parts == [parts[0]] + parts[1..] && [parts[0]][..0] == [];
    FlattenAppend([parts[0]], parts[1..]);
    assert Flatten([parts[0]]) == parts[0];
  }
}
